/**
 * Numeric building blocks shared by the model: optional values, the
 * outcome of a C `double` division (which can be infinite or NaN where
 * exact arithmetic is undefined), integer powers, vector sums and the
 * wrap-around of a 32-bit C `int` and `unsigned int`.
 */
module Numeric {

  datatype Option<+T> = None | Some(value: T)

  /** The value of a C `double` quotient when both operands are exact:
      finite when the divisor is non-zero, otherwise an infinity or NaN
      as IEEE 754 prescribes for x/0. */
  datatype Float = Finite(v: real) | PosInf | NegInf | NaN

  function Divide(x: real, y: real): (r: Float)
    ensures r.Finite? <==> y != 0.0
    ensures r.Finite? ==> r.v * y == x
    ensures r == PosInf <==> y == 0.0 && x > 0.0
    ensures r == NegInf <==> y == 0.0 && x < 0.0
    ensures r == NaN <==> y == 0.0 && x == 0.0
  {
    if y != 0.0 then Finite(x / y)
    else if x > 0.0 then PosInf
    else if x < 0.0 then NegInf
    else NaN
  }

  /** `x` raised to a natural power (the POW_LOOKUP table of the source
      holds these values for a fixed base). */
  function Pow(x: real, k: nat): real
  {
    if k == 0 then 1.0 else x * Pow(x, k - 1)
  }

  lemma {:induction false} PowPositive(x: real, k: nat)
    requires 0.0 < x
    ensures 0.0 < Pow(x, k)
  {
    if k > 0 {
      PowPositive(x, k - 1);
    }
  }

  lemma {:induction false} PowAtMostOne(x: real, k: nat)
    requires 0.0 <= x <= 1.0
    ensures 0.0 <= Pow(x, k) <= 1.0
  {
    if k > 0 {
      var p := Pow(x, k - 1);
      PowAtMostOne(x, k - 1);
      MulNonNeg(x, p);
      MulLe(p, x, 1.0);
      assert Pow(x, k) == Mul(x, p) == Mul(p, x);
    }
  }

  /** Absolute value and maximum on reals (C's fabs and MAX). */
  function Abs(x: real): real { if x < 0.0 then -x else x }

  function Max(x: real, y: real): real { if x < y then y else x }

  /** Sign convention used by the source's `(x < 0 ? -1 : 1)`: zero is
      treated as positive. */
  function SignOrPlus(x: real): real { if x < 0.0 then -1.0 else 1.0 }

  lemma PosMul(a: real, b: real)
    requires 0.0 < a && 0.0 < b
    ensures 0.0 < a * b
  {
  }

  /** A real product as a function, so that a fact proved about
      Mul(a, b) applies wherever the same product occurs. */
  function Mul(a: real, b: real): real { a * b }

  function Sq(x: real): (r: real)
    ensures 0.0 <= r
    ensures x != 0.0 ==> 0.0 < r
  {
    SquareSigns(x);
    Mul(x, x)
  }

  lemma SquareSigns(x: real)
    ensures 0.0 <= Mul(x, x)
    ensures x != 0.0 ==> 0.0 < Mul(x, x)
  {
    assert Mul(x, x) == Mul(Abs(x), Abs(x));
    if x != 0.0 {
      MulPos(Abs(x), Abs(x));
    }
    MulNonNeg(Abs(x), Abs(x));
  }

  lemma MulPos(a: real, b: real)
    requires 0.0 < a && 0.0 < b
    ensures 0.0 < Mul(a, b)
  {
  }

  lemma MulNonNeg(a: real, b: real)
    requires 0.0 <= a && 0.0 <= b
    ensures 0.0 <= Mul(a, b)
  {
    if 0.0 < a && 0.0 < b {
      MulPos(a, b);
    }
  }

  lemma MulLe(a: real, b: real, c: real)
    requires 0.0 <= a && b <= c
    ensures Mul(a, b) <= Mul(a, c)
  {
    if 0.0 < a && b < c {
      MulPos(a, c - b);
      assert Mul(a, c - b) == Mul(a, c) - Mul(a, b);
    }
  }

  /** Squaring is monotone in the magnitude. */
  lemma SqMonotone(a: real, b: real)
    requires Abs(a) <= Abs(b)
    ensures Sq(a) <= Sq(b)
  {
    var x, y := Abs(a), Abs(b);
    assert Sq(a) == Mul(x, x) && Sq(b) == Mul(y, y);
    MulLe(x, x, y);
    MulLe(y, x, y);
    assert Mul(x, y) == Mul(y, x);
  }

  /** Sum of a vector of reals. */
  function Sum(s: seq<real>): real
  {
    if |s| == 0 then 0.0 else Sum(s[..|s| - 1]) + s[|s| - 1]
  }

  /** Replacing one entry of a vector changes its sum by the difference. */
  lemma {:induction false} SumUpdate(s: seq<real>, i: nat, v: real)
    requires i < |s|
    ensures Sum(s[i := v]) == Sum(s) - s[i] + v
  {
    var t := s[i := v];
    if i == |s| - 1 {
      assert t[..|t| - 1] == s[..|s| - 1];
    } else {
      assert t[..|t| - 1] == s[..|s| - 1][i := v];
      SumUpdate(s[..|s| - 1], i, v);
    }
  }

  /** Sum of a vector of naturals (degree vectors). */
  function SumNat(s: seq<nat>): nat
  {
    if |s| == 0 then 0 else SumNat(s[..|s| - 1]) + s[|s| - 1]
  }

  /** Replacing one entry of a vector changes its sum by the difference. */
  lemma {:induction false} SumNatUpdate(s: seq<nat>, i: nat, v: nat)
    requires i < |s|
    ensures SumNat(s[i := v]) == SumNat(s) - s[i] + v
  {
    var t := s[i := v];
    if i == |s| - 1 {
      assert t[..|t| - 1] == s[..|s| - 1];
    } else {
      assert t[..|t| - 1] == s[..|s| - 1][i := v];
      SumNatUpdate(s[..|s| - 1], i, v);
    }
  }

  function Zeros(n: nat): (r: seq<real>)
    ensures |r| == n
    ensures forall l :: 0 <= l < n ==> r[l] == 0.0
  {
    seq(n, _ => 0.0)
  }

  /** Component-wise sum of two vectors of equal length. */
  function AddVec(a: seq<real>, b: seq<real>): (r: seq<real>)
    requires |a| == |b|
    ensures |r| == |a|
    ensures forall l :: 0 <= l < |a| ==> r[l] - a[l] == b[l]
  {
    seq(|a|, l requires 0 <= l < |a| => a[l] + b[l])
  }

  const TwoTo31: int := 0x8000_0000
  const TwoTo32: int := 0x1_0000_0000

  /** The value a C `int` (32-bit two's complement) holds after an
      arithmetic result `x` is stored into it with wrap-around. */
  function Wrap32(x: int): (r: int)
    ensures -TwoTo31 <= r < TwoTo31
    ensures (x - r) % TwoTo32 == 0
    ensures -TwoTo31 <= x < TwoTo31 ==> r == x
  {
    (x + TwoTo31) % TwoTo32 - TwoTo31
  }

  /** The value a 32-bit C `unsigned int` holds after an arithmetic
      result `x` is stored into it: reduced modulo 2^32. */
  function WrapU32(x: int): (r: nat)
    ensures r < TwoTo32
    ensures (x - r) % TwoTo32 == 0
    ensures 0 <= x < TwoTo32 ==> r == x
  {
    x % TwoTo32
  }
}
