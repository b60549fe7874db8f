/**
 * The Equilibrium Expectation estimator: Algorithm S (a first, crude
 * pass that starts every parameter at zero and also estimates the
 * scale D0 of each parameter's derivative) followed by Algorithm EE
 * (the main stochastic-approximation loop), the degeneracy gate
 * between them and the option checks made before estimation starts.
 *
 * The sampler is not re-run here: every call of it is represented by
 * its outcome, the vectors of change statistics it accumulated over
 * accepted adds and accepted deletes. `AlgorithmSOverIfd` shows how Algorithm
 * S obtains those outcomes from the IFD sampler. `sqrt` and the
 * mean/standard-deviation routine are parameters.
 */
module EquilibriumExpectation {
  import opened Numeric
  import opened Digraph
  import opened Text
  import Ifd = IfdSampler

  /* ---------------------------------------------------------------
   * Per-parameter update rules
   * --------------------------------------------------------------- */

  /** c d^2, the magnitude of the default steps of both algorithms. */
  function ScaledSquare(c: real, d: real): (r: real)
    ensures d == 0.0 ==> r == 0.0
    ensures 0.0 <= c ==> 0.0 <= r
    ensures 0.0 < c && d != 0.0 ==> 0.0 < r
  {
    ProductSigns(c, Sq(d));
    Mul(c, Sq(d))
  }

  lemma ProductSigns(a: real, b: real)
    ensures 0.0 <= a && 0.0 <= b ==> 0.0 <= Mul(a, b)
    ensures 0.0 < a && 0.0 < b ==> 0.0 < Mul(a, b)
  {
    if 0.0 <= a && 0.0 <= b {
      MulNonNeg(a, b);
    }
    if 0.0 < a && 0.0 < b {
      MulPos(a, b);
    }
  }

  /** aca dz^2 / s^2 is at most aca when |dz| <= |s|, and positive
      when aca and dz are. */
  lemma ScaledSquareRatio(aca: real, dz: real, s: real)
    ensures 0.0 <= aca && s != 0.0 && Abs(dz) <= Abs(s) ==> ScaledSquare(aca / Sq(s), dz) <= aca
    ensures 0.0 < aca && s != 0.0 ==> 0.0 < aca / Sq(s)
  {
    if 0.0 < aca && s != 0.0 {
      var q := Sq(s);
      var x := aca / q;
      assert x * q == aca;
      if x <= 0.0 {
        MulNonNeg(-x, q);
      }
    }
    if 0.0 <= aca && s != 0.0 && Abs(dz) <= Abs(s) {
      var q := Sq(s);
      var x := aca / q;
      assert x * q == aca;
      if x < 0.0 {
        MulPos(-x, q);
      }
      SqMonotone(dz, s);
      MulLe(x, Sq(dz), q);
    }
  }

  /** Algorithm S: the move of one parameter after a sampler call that
      accumulated `add` over accepted adds and `del` over accepted
      deletes. The move has the sign of del - add (zero counting as
      positive) and magnitude aca (del - add)^2 / (add + del)^2; there
      is no move when add + del is zero. */
  function SStep(aca: real, add: real, del: real): (step: real)
    ensures add + del == 0.0 || add == del ==> step == 0.0
    ensures aca > 0.0 && add + del != 0.0 && add != del ==> (step > 0.0 <==> del > add)
    ensures 0.0 <= aca && 0.0 <= add && 0.0 <= del ==> Abs(step) <= aca
  {
    var dz := del - add;
    var sum := add + del;
    var da := if sum < 0.0 || sum > 0.0 then aca / Sq(sum) else 0.0;
    ScaledSquareRatio(aca, dz, sum);
    SignOrPlus(dz) * ScaledSquare(da, dz)
  }

  /** Algorithm EE, default rule: the move of one parameter given its
      derivative scale d0 and the accumulated statistic difference dz
      (adds minus deletes). It moves against the sign of dz (zero
      counting as positive) by d0 aca dz^2. */
  function EEStep(d0: real, aca: real, dz: real): (step: real)
    ensures dz == 0.0 ==> step == 0.0
    ensures 0.0 < d0 && 0.0 < aca && dz != 0.0 ==> (step > 0.0 <==> dz < 0.0)
  {
    ProductSigns(d0, aca);
    var da := Mul(d0, aca);
    (if dz < 0.0 then 1.0 else -1.0) * ScaledSquare(da, dz)
  }

  /** Algorithm EE, rule of Borisenko et al. (2019): a step of fixed
      relative size rate * max(|theta|, minTheta), against the sign of
      dz (zero counting as positive). */
  function BorisenkoStep(rate: real, minTheta: real, theta: real, dz: real): (step: real)
    ensures 0.0 <= rate ==> Abs(step) == Mul(rate, Max(Abs(theta), minTheta))
    ensures 0.0 < rate && 0.0 < minTheta ==> step != 0.0 && (step > 0.0 <==> dz < 0.0)
  {
    var m := Max(Abs(theta), minTheta);
    ProductSigns(rate, m);
    (if dz < 0.0 then 1.0 else -1.0) * Mul(rate, m)
  }

  /** With one sampler outcome, both algorithms move a parameter the
      same way: up when deletes outweigh adds. Algorithm S sees
      del - add, Algorithm EE (accumulating from zero) add - del. */
  lemma SAndEEAgree(aca: real, d0: real, add: real, del: real)
    requires 0.0 < aca && 0.0 < d0 && add + del != 0.0 && add != del
    ensures SStep(aca, add, del) > 0.0 <==> EEStep(d0, aca, 0.0 + (add - del)) > 0.0
  {
  }

  /* ---------------------------------------------------------------
   * Rescaling D0 after an outer iteration of Algorithm EE
   * --------------------------------------------------------------- */

  const MinMeanMagnitude: real := 0.1
  const SdThreshold: real := 0.0000000001

  /** The argument of the square root in the D0 rescaling: compC
      divided by the coefficient of variation sd / |mean| of a
      parameter over the inner iterations, where a mean of magnitude
      below 0.1 is first replaced by 0.1. */
  function RescaleArgument(compC: real, mean: real, sd: real): (x: real)
    requires 0.0 < sd
    ensures Mul(x, sd) == Mul(compC, Max(Abs(mean), MinMeanMagnitude))
    ensures 0.0 < compC ==> 0.0 < x
  {
    var m := if Abs(mean) < MinMeanMagnitude then MinMeanMagnitude else mean;
    var cv := sd / Abs(m);
    QuotientFacts(compC, cv, sd, Abs(m));
    compC / cv
  }

  lemma QuotientFacts(c: real, cv: real, sd: real, a: real)
    requires 0.0 < sd && 0.0 < a && cv == sd / a
    ensures Mul(c / cv, sd) == Mul(c, a)
    ensures 0.0 < c ==> 0.0 < c / cv
  {
    assert cv * a == sd;
    if cv <= 0.0 {
      MulNonNeg(-cv, a);
    }
    var x := c / cv;
    assert x * cv == c;
    assert x * sd == x * (cv * a) == (x * cv) * a;
    if 0.0 < c && x <= 0.0 {
      MulNonNeg(-x, cv);
    }
  }

  /** A product equation with a positive factor determines the other. */
  lemma MulCancel(a: real, b: real, t: real)
    requires 0.0 < t && Mul(a, t) == Mul(b, t)
    ensures a == b
  {
    if a < b {
      MulPos(b - a, t);
    } else if b < a {
      MulPos(a - b, t);
    }
  }

  /** D0 after the rescaling step of one parameter: multiplied by
      sqrt(compC |mean| / sd) when sd exceeds 1e-10, unchanged
      otherwise. The standard deviation is non-negative, as the source
      asserts. */
  function RescaleD0(d0: real, mean: real, sd: real, compC: real, sqrt: real -> real): (r: real)
    requires 0.0 <= sd
    ensures sd <= SdThreshold ==> r == d0
    ensures SdThreshold < sd && 0.0 < d0 && 0.0 < compC && PositiveRoot(sqrt) ==> 0.0 < r
    ensures SdThreshold < sd && 0.0 <= d0 && 0.0 < compC && PositiveRoot(sqrt) ==> 0.0 <= r
  {
    if sd > SdThreshold then
      var x := RescaleArgument(compC, mean, sd);
      ProductSigns(d0, sqrt(x));
      Mul(d0, sqrt(x))
    else
      d0
  }

  /** The square root maps positive numbers to positive numbers. */
  ghost predicate PositiveRoot(sqrt: real -> real)
  {
    forall x :: 0.0 < x ==> 0.0 < sqrt(x)
  }

  /** The rescaling depends on the mean only through its magnitude,
      floored at 0.1. */
  lemma RescaleUsesFlooredMagnitude(d0: real, mean: real, sd: real, compC: real, sqrt: real -> real)
    requires 0.0 <= sd
    ensures RescaleD0(d0, mean, sd, compC, sqrt) == RescaleD0(d0, -mean, sd, compC, sqrt)
    ensures Abs(mean) < MinMeanMagnitude ==>
              RescaleD0(d0, mean, sd, compC, sqrt) == RescaleD0(d0, MinMeanMagnitude, sd, compC, sqrt)
  {
    if sd > SdThreshold {
      var x := RescaleArgument(compC, mean, sd);
      var y := RescaleArgument(compC, -mean, sd);
      assert Max(Abs(mean), MinMeanMagnitude) == Max(Abs(-mean), MinMeanMagnitude);
      MulCancel(x, y, sd);
      if Abs(mean) < MinMeanMagnitude {
        var z := RescaleArgument(compC, MinMeanMagnitude, sd);
        MulCancel(x, z, sd);
      }
    }
  }

  /* ---------------------------------------------------------------
   * Sampler outcomes
   * --------------------------------------------------------------- */

  /** What one sampler call hands back: the change statistics summed
      over accepted adds and over accepted deletes. */
  datatype Outcome = Outcome(add: seq<real>, del: seq<real>)

  predicate Wide(os: seq<Outcome>, n: nat)
  {
    forall t :: 0 <= t < |os| ==> |os[t].add| == n && |os[t].del| == n
  }

  /** Statistic l saw as much change from deletes as from adds in
      every call. */
  predicate Balanced(os: seq<Outcome>, n: nat, l: nat)
    requires Wide(os, n) && l < n
  {
    forall t :: 0 <= t < |os| ==> os[t].del[l] == os[t].add[l]
  }

  /** The total of add - del for statistic l over all calls. */
  function Balance(os: seq<Outcome>, n: nat, l: nat): real
    requires Wide(os, n) && l < n
    decreases |os|
  {
    if |os| == 0 then 0.0
    else Balance(os[..|os| - 1], n, l) + (os[|os| - 1].add[l] - os[|os| - 1].del[l])
  }

  lemma {:induction false} BalanceAppend(a: seq<Outcome>, b: seq<Outcome>, n: nat, l: nat)
    requires Wide(a, n) && Wide(b, n) && l < n
    ensures Wide(a + b, n)
    ensures Balance(a + b, n, l) == Balance(a, n, l) + Balance(b, n, l)
    decreases |b|
  {
    if |b| > 0 {
      var b' := b[..|b| - 1];
      assert (a + b)[..|a + b| - 1] == a + b';
      BalanceAppend(a, b', n, l);
    } else {
      assert a + b == a;
    }
  }

  /* ---------------------------------------------------------------
   * Algorithm S
   * --------------------------------------------------------------- */

  datatype SState = SState(theta: seq<real>, d0: seq<real>)

  /** One iteration: every parameter takes its S step, and D0 grows by
      the square of del - add. */
  function SIteration(aca: real, n: nat, s: SState, o: Outcome): (r: SState)
    requires |s.theta| == n && |s.d0| == n && |o.add| == n && |o.del| == n
    ensures |r.theta| == n && |r.d0| == n
    ensures forall l :: 0 <= l < n ==> s.d0[l] <= r.d0[l]
    ensures forall l :: 0 <= l < n ==> (r.d0[l] == s.d0[l] <==> o.del[l] == o.add[l])
    ensures forall l :: 0 <= l < n && o.add[l] + o.del[l] == 0.0 ==> r.theta[l] == s.theta[l]
  {
    SState(
      seq(n, l requires 0 <= l < n => s.theta[l] + SStep(aca, o.add[l], o.del[l])),
      seq(n, l requires 0 <= l < n => s.d0[l] + Sq(o.del[l] - o.add[l])))
  }

  /** The iterations of Algorithm S over the outcomes of its sampler
      calls, from theta = 0 and D0 = 0. */
  function SLoop(aca: real, n: nat, os: seq<Outcome>): (r: SState)
    requires Wide(os, n)
    ensures |r.theta| == n && |r.d0| == n
    ensures forall l :: 0 <= l < n ==> 0.0 <= r.d0[l]
    ensures forall l :: 0 <= l < n ==> (r.d0[l] == 0.0 <==> Balanced(os, n, l))
    decreases |os|
  {
    if |os| == 0 then
      SState(Zeros(n), Zeros(n))
    else
      var prev := SLoop(aca, n, os[..|os| - 1]);
      var r := SIteration(aca, n, prev, os[|os| - 1]);
      BalancedSplit(os, n);
      r
  }

  lemma BalancedSplit(os: seq<Outcome>, n: nat)
    requires Wide(os, n) && |os| > 0
    ensures Wide(os[..|os| - 1], n)
    ensures forall l :: 0 <= l < n ==>
              (Balanced(os, n, l) <==>
                 Balanced(os[..|os| - 1], n, l) && os[|os| - 1].del[l] == os[|os| - 1].add[l])
  {
    var p := os[..|os| - 1];
    forall l | 0 <= l < n
      ensures Balanced(os, n, l) <==> Balanced(p, n, l) && os[|os| - 1].del[l] == os[|os| - 1].add[l]
    {
      if Balanced(p, n, l) && os[|os| - 1].del[l] == os[|os| - 1].add[l] {
        forall t | 0 <= t < |os|
          ensures os[t].del[l] == os[t].add[l]
        {
          if t < |p| {
            assert os[t] == p[t];
          }
        }
      }
    }
  }

  /** D0 never decreases: the value after any prefix of the calls is at
      most the value after all of them. */
  lemma {:induction false} SD0Grows(aca: real, n: nat, os: seq<Outcome>, k: nat)
    requires Wide(os, n) && k <= |os|
    ensures Wide(os[..k], n)
    ensures forall l :: 0 <= l < n ==> SLoop(aca, n, os[..k]).d0[l] <= SLoop(aca, n, os).d0[l]
    decreases |os|
  {
    if k < |os| {
      var p := os[..|os| - 1];
      assert p[..k] == os[..k];
      SD0Grows(aca, n, p, k);
    } else {
      assert os[..k] == os;
    }
  }

  datatype SResult = SResult(theta: seq<real>, dmean: seq<Float>)

  /** Algorithm S: theta after the iterations, and Dmean = m / D0 for
      each parameter (m the number of proposals per sampler call). */
  function AlgorithmS(aca: real, n: nat, m: nat, os: seq<Outcome>): (r: SResult)
    requires Wide(os, n)
    ensures |r.theta| == n && |r.dmean| == n
    ensures |os| == 0 ==> forall l :: 0 <= l < n ==> r.theta[l] == 0.0
    ensures forall l :: 0 <= l < n ==> r.dmean[l] != NegInf
    ensures forall l :: 0 <= l < n ==> (r.dmean[l] == PosInf <==> m > 0 && Balanced(os, n, l))
    ensures forall l :: 0 <= l < n ==> (r.dmean[l] == NaN <==> m == 0 && Balanced(os, n, l))
    ensures forall l :: 0 <= l < n && r.dmean[l].Finite? ==> 0.0 <= r.dmean[l].v
    ensures forall l :: 0 <= l < n && r.dmean[l].Finite? && m > 0 ==> 0.0 < r.dmean[l].v
  {
    var s := SLoop(aca, n, os);
    var dmean := seq(n, l requires 0 <= l < n => Divide(m as real, s.d0[l]));
    forall l | 0 <= l < n && dmean[l].Finite?
      ensures 0.0 <= dmean[l].v
      ensures m > 0 ==> 0.0 < dmean[l].v
    {
      QuotientNonNeg(m as real, s.d0[l]);
    }
    SResult(s.theta, dmean)
  }

  lemma QuotientNonNeg(x: real, y: real)
    requires 0.0 <= x && 0.0 < y
    ensures 0.0 <= Divide(x, y).v
    ensures 0.0 < x ==> 0.0 < Divide(x, y).v
  {
    var q := Divide(x, y).v;
    assert q * y == x;
    if q < 0.0 {
      PosMul(-q, y);
    }
  }

  /* ---------------------------------------------------------------
   * The degeneracy gate
   * --------------------------------------------------------------- */

  predicate IsInf(x: Float) { x == PosInf || x == NegInf }

  /** 1 when some Dmean entry is infinite, else 0; scanned entry by
      entry as the source's loop does. */
  function Gate(dmean: seq<Float>): (code: int)
    ensures code == 0 || code == 1
    ensures code == 1 <==> exists l :: 0 <= l < |dmean| && IsInf(dmean[l])
    decreases |dmean|
  {
    if |dmean| == 0 then 0
    else if IsInf(dmean[|dmean| - 1]) then 1
    else
      var c := Gate(dmean[..|dmean| - 1]);
      assert forall l :: 0 <= l < |dmean| - 1 ==> dmean[..|dmean| - 1][l] == dmean[l];
      c
  }

  /** The gate fires exactly when the sampler made proposals and some
      statistic's adds and deletes balanced in every call of Algorithm
      S. With no proposals (m = 0) every such Dmean is NaN rather than
      infinite, and the gate lets it through. */
  lemma GateMeaning(aca: real, n: nat, m: nat, os: seq<Outcome>)
    requires Wide(os, n)
    ensures Gate(AlgorithmS(aca, n, m, os).dmean) == 1 <==>
              m > 0 && exists l :: 0 <= l < n && Balanced(os, n, l)
    ensures m == 0 ==> Gate(AlgorithmS(aca, n, m, os).dmean) == 0
  {
    var r := AlgorithmS(aca, n, m, os);
    if m > 0 && exists l :: 0 <= l < n && Balanced(os, n, l) {
      var l :| 0 <= l < n && Balanced(os, n, l);
      assert IsInf(r.dmean[l]);
    }
  }

  /* ---------------------------------------------------------------
   * Algorithm EE
   * --------------------------------------------------------------- */

  /** The theta update in force: the default rule with its ACA and
      compC, or the Borisenko rule with its learning rate and minimum
      step base. */
  datatype Rule = Default(aca: real, compC: real) | Borisenko(rate: real, minTheta: real)

  /** theta, D0, and dzA, the running total of add - del that is zeroed
      once and never reset between iterations. */
  datatype EEState = EEState(theta: seq<real>, d0: seq<real>, dz: seq<real>)

  predicate EEShaped(s: EEState, n: nat)
  {
    |s.theta| == n && |s.d0| == n && |s.dz| == n
  }

  function ThetaStep(rule: Rule, d0: real, theta: real, dz: real): real
  {
    match rule
    case Default(aca, _) => EEStep(d0, aca, dz)
    case Borisenko(rate, minTheta) => BorisenkoStep(rate, minTheta, theta, dz)
  }

  /** One inner iteration: dzA takes in the sampler's add - del, then
      every parameter steps against the sign of its new dzA. */
  function EEIteration(rule: Rule, n: nat, s: EEState, o: Outcome): (r: EEState)
    requires EEShaped(s, n) && |o.add| == n && |o.del| == n
    ensures EEShaped(r, n) && r.d0 == s.d0
    ensures forall l :: 0 <= l < n ==> r.dz[l] == s.dz[l] + (o.add[l] - o.del[l])
    ensures rule.Default? ==> forall l :: 0 <= l < n && r.dz[l] == 0.0 ==> r.theta[l] == s.theta[l]
    ensures rule.Default? && 0.0 < rule.aca ==>
              forall l :: 0 <= l < n && 0.0 < s.d0[l] && r.dz[l] != 0.0 ==>
                (r.theta[l] > s.theta[l] <==> r.dz[l] < 0.0)
    ensures rule.Borisenko? && 0.0 < rule.rate && 0.0 < rule.minTheta ==>
              forall l :: 0 <= l < n ==> (r.theta[l] > s.theta[l] <==> r.dz[l] < 0.0)
  {
    var dz := seq(n, l requires 0 <= l < n => s.dz[l] + (o.add[l] - o.del[l]));
    EEState(
      seq(n, l requires 0 <= l < n => s.theta[l] + ThetaStep(rule, s.d0[l], s.theta[l], dz[l])),
      s.d0,
      dz)
  }

  /** The state after the inner loop and the theta vector after each
      inner iteration (the source's thetamatrix, read by columns). */
  datatype InnerRun = InnerRun(last: EEState, trace: seq<seq<real>>)

  function EEInner(rule: Rule, n: nat, s: EEState, os: seq<Outcome>): (r: InnerRun)
    requires EEShaped(s, n) && Wide(os, n)
    ensures EEShaped(r.last, n) && r.last.d0 == s.d0
    ensures |r.trace| == |os| && forall t :: 0 <= t < |os| ==> |r.trace[t]| == n
    ensures |os| > 0 ==> r.trace[|os| - 1] == r.last.theta
    ensures |os| == 0 ==> r.last == s
    ensures forall l :: 0 <= l < n ==> r.last.dz[l] == s.dz[l] + Balance(os, n, l)
    decreases |os|
  {
    if |os| == 0 then
      InnerRun(s, [])
    else
      var prev := EEInner(rule, n, s, os[..|os| - 1]);
      var next := EEIteration(rule, n, prev.last, os[|os| - 1]);
      InnerRun(next, prev.trace + [next.theta])
  }

  /** The values parameter l took over the inner iterations. */
  function Column(trace: seq<seq<real>>, l: nat): (c: seq<real>)
    requires forall t :: 0 <= t < |trace| ==> l < |trace[t]|
    ensures |c| == |trace|
    ensures forall t :: 0 <= t < |trace| ==> c[t] == trace[t][l]
  {
    seq(|trace|, t requires 0 <= t < |trace| => trace[t][l])
  }

  /** mean_and_sd: the mean and the standard deviation of a sample. */
  type MeanSd = seq<real> -> (real, real)

  ghost predicate SdNonNegative(meanSd: MeanSd)
  {
    forall xs :: 0.0 <= meanSd(xs).1
  }

  /** One outer iteration: the inner loop, then under the default rule
      each D0 entry rescaled from the mean and sd of its parameter's
      column. */
  function EEOuter(rule: Rule, n: nat, s: EEState, os: seq<Outcome>,
                   sqrt: real -> real, meanSd: MeanSd): (r: EEState)
    requires EEShaped(s, n) && Wide(os, n) && SdNonNegative(meanSd)
    ensures EEShaped(r, n)
    ensures forall l :: 0 <= l < n ==> r.dz[l] == s.dz[l] + Balance(os, n, l)
    ensures rule.Borisenko? ==> r.d0 == s.d0
    ensures rule.Default? && 0.0 < rule.compC && PositiveRoot(sqrt) ==>
              forall l :: 0 <= l < n ==>
                (0.0 < s.d0[l] ==> 0.0 < r.d0[l]) && (0.0 <= s.d0[l] ==> 0.0 <= r.d0[l])
    ensures var inner := EEInner(rule, n, s, os);
            forall l :: 0 <= l < n && meanSd(Column(inner.trace, l)).1 <= SdThreshold ==>
              r.d0[l] == s.d0[l]
  {
    var inner := EEInner(rule, n, s, os);
    var last := inner.last;
    match rule
    case Borisenko(_, _) => last
    case Default(_, compC) =>
      var d0 := seq(n, l requires 0 <= l < n =>
        var ms := meanSd(Column(inner.trace, l));
        RescaleD0(last.d0[l], ms.0, ms.1, compC, sqrt));
      last.(d0 := d0)
  }

  lemma BalanceSplit(os: seq<Outcome>, n: nat, k: nat)
    requires Wide(os, n) && k <= |os|
    ensures Wide(os[..k], n) && Wide(os[k..], n)
    ensures forall l :: 0 <= l < n ==> Balance(os, n, l) == Balance(os[..k], n, l) + Balance(os[k..], n, l)
  {
    assert os[..k] + os[k..] == os;
    forall l | 0 <= l < n
      ensures Balance(os, n, l) == Balance(os[..k], n, l) + Balance(os[k..], n, l)
    {
      BalanceAppend(os[..k], os[k..], n, l);
    }
  }

  /** The outer loop: `outer` outer iterations of `inner` sampler calls
      each, fed by consecutive slices of the outcomes. */
  function EELoop(rule: Rule, n: nat, outer: nat, inner: nat, s: EEState, os: seq<Outcome>,
                  sqrt: real -> real, meanSd: MeanSd): (r: EEState)
    requires EEShaped(s, n) && Wide(os, n) && SdNonNegative(meanSd)
    requires |os| == outer * inner
    ensures EEShaped(r, n)
    ensures forall l :: 0 <= l < n ==> r.dz[l] == s.dz[l] + Balance(os, n, l)
    ensures rule.Borisenko? ==> r.d0 == s.d0
    ensures rule.Default? && 0.0 < rule.compC && PositiveRoot(sqrt) ==>
              forall l :: 0 <= l < n ==>
                (0.0 < s.d0[l] ==> 0.0 < r.d0[l]) && (0.0 <= s.d0[l] ==> 0.0 <= r.d0[l])
    decreases outer
  {
    if outer == 0 then
      s
    else
      var k := (outer - 1) * inner;
      assert k + inner == |os|;
      BalanceSplit(os, n, k);
      var prev := EELoop(rule, n, outer - 1, inner, s, os[..k], sqrt, meanSd);
      EEOuter(rule, n, prev, os[k..], sqrt, meanSd)
  }

  /** Algorithm EE from a starting theta and D0, with dzA zeroed. */
  function AlgorithmEE(rule: Rule, n: nat, outer: nat, inner: nat, theta: seq<real>, d0: seq<real>,
                       os: seq<Outcome>, sqrt: real -> real, meanSd: MeanSd): (r: EEState)
    requires |theta| == n && |d0| == n && Wide(os, n) && SdNonNegative(meanSd)
    requires |os| == outer * inner
    ensures EEShaped(r, n)
    ensures forall l :: 0 <= l < n ==> r.dz[l] == Balance(os, n, l)
    ensures rule.Borisenko? ==> r.d0 == d0
    ensures rule.Default? && 0.0 < rule.compC && PositiveRoot(sqrt) ==>
              forall l :: 0 <= l < n && 0.0 < d0[l] ==> 0.0 < r.d0[l]
  {
    EELoop(rule, n, outer, inner, EEState(theta, d0, Zeros(n)), os, sqrt, meanSd)
  }

  /** Under the Borisenko rule D0 plays no part: the inner loop yields
      the same theta and dzA whatever D0 it starts from. */
  lemma {:induction false} BorisenkoInnerIgnoresD0(rule: Rule, n: nat, s: EEState, s': EEState, os: seq<Outcome>)
    requires rule.Borisenko? && EEShaped(s, n) && EEShaped(s', n) && Wide(os, n)
    requires s.theta == s'.theta && s.dz == s'.dz
    ensures EEInner(rule, n, s, os).trace == EEInner(rule, n, s', os).trace
    ensures EEInner(rule, n, s, os).last.theta == EEInner(rule, n, s', os).last.theta
    ensures EEInner(rule, n, s, os).last.dz == EEInner(rule, n, s', os).last.dz
    decreases |os|
  {
    if |os| > 0 {
      var p := os[..|os| - 1];
      BorisenkoInnerIgnoresD0(rule, n, s, s', p);
      var a := EEIteration(rule, n, EEInner(rule, n, s, p).last, os[|os| - 1]);
      var b := EEIteration(rule, n, EEInner(rule, n, s', p).last, os[|os| - 1]);
      assert a.dz == b.dz;
      assert forall l :: 0 <= l < n ==> a.theta[l] == b.theta[l];
      assert a.theta == b.theta;
    }
  }

  lemma {:induction false} BorisenkoLoopIgnoresD0(rule: Rule, n: nat, outer: nat, inner: nat,
                                                   s: EEState, s': EEState, os: seq<Outcome>,
                                                   sqrt: real -> real, meanSd: MeanSd)
    requires rule.Borisenko? && EEShaped(s, n) && EEShaped(s', n) && Wide(os, n) && SdNonNegative(meanSd)
    requires |os| == outer * inner
    requires s.theta == s'.theta && s.dz == s'.dz
    ensures EELoop(rule, n, outer, inner, s, os, sqrt, meanSd).theta ==
            EELoop(rule, n, outer, inner, s', os, sqrt, meanSd).theta
    ensures EELoop(rule, n, outer, inner, s, os, sqrt, meanSd).dz ==
            EELoop(rule, n, outer, inner, s', os, sqrt, meanSd).dz
    decreases outer
  {
    if outer > 0 {
      var k := (outer - 1) * inner;
      assert k + inner == |os|;
      BalanceSplit(os, n, k);
      BorisenkoLoopIgnoresD0(rule, n, outer - 1, inner, s, s', os[..k], sqrt, meanSd);
      var p := EELoop(rule, n, outer - 1, inner, s, os[..k], sqrt, meanSd);
      var p' := EELoop(rule, n, outer - 1, inner, s', os[..k], sqrt, meanSd);
      BorisenkoInnerIgnoresD0(rule, n, p, p', os[k..]);
    }
  }

  /** The Borisenko rule's estimates do not depend on the D0 handed
      over from Algorithm S. */
  lemma BorisenkoIgnoresD0(rule: Rule, n: nat, outer: nat, inner: nat, theta: seq<real>,
                           d0: seq<real>, d0': seq<real>, os: seq<Outcome>,
                           sqrt: real -> real, meanSd: MeanSd)
    requires rule.Borisenko? && |theta| == n && |d0| == n && |d0'| == n
    requires Wide(os, n) && SdNonNegative(meanSd) && |os| == outer * inner
    ensures AlgorithmEE(rule, n, outer, inner, theta, d0, os, sqrt, meanSd).theta ==
            AlgorithmEE(rule, n, outer, inner, theta, d0', os, sqrt, meanSd).theta
  {
    BorisenkoLoopIgnoresD0(rule, n, outer, inner, EEState(theta, d0, Zeros(n)),
                           EEState(theta, d0', Zeros(n)), os, sqrt, meanSd);
  }

  /* ---------------------------------------------------------------
   * ee_estimate: Algorithm S, the degeneracy gate, Algorithm EE
   * --------------------------------------------------------------- */

  /** What an estimation run leaves behind: Algorithm S's theta and
      Dmean when the gate stops the run; Algorithm S's results when the
      default rule would start from a NaN D0 (m / 0 with m = 0), whose
      floating-point course is not modelled; otherwise the final state
      of Algorithm EE. */
  datatype Estimate =
    | Degenerate(theta: seq<real>, dmean: seq<Float>)
    | NaNStart(theta: seq<real>, dmean: seq<Float>)
    | Estimated(final: EEState)

  /** ee_estimate's return value. */
  function ReturnCode(e: Estimate): int
  {
    if e.Degenerate? then 1 else 0
  }

  predicate HasNaN(dmean: seq<Float>)
  {
    exists l :: 0 <= l < |dmean| && dmean[l] == NaN
  }

  /** Dmean handed to Algorithm EE as D0. A NaN entry reaches this point
      only under the Borisenko rule, which never reads D0
      (BorisenkoIgnoresD0), so any stand-in value serves. */
  function StartingD0(dmean: seq<Float>): (d0: seq<real>)
    ensures |d0| == |dmean|
    ensures forall l :: 0 <= l < |dmean| && dmean[l].Finite? ==> d0[l] == dmean[l].v
  {
    seq(|dmean|, l requires 0 <= l < |dmean| => if dmean[l].Finite? then dmean[l].v else 0.0)
  }

  /** Algorithm S on its sampler outcomes, the gate on Dmean, and
      Algorithm EE from S's theta with D0 = Dmean on its outcomes. */
  function EeEstimate(acaS: real, rule: Rule, n: nat, m: nat, sOs: seq<Outcome>,
                      outer: nat, inner: nat, eeOs: seq<Outcome>,
                      sqrt: real -> real, meanSd: MeanSd): (e: Estimate)
    requires Wide(sOs, n) && Wide(eeOs, n) && |eeOs| == outer * inner && SdNonNegative(meanSd)
    ensures ReturnCode(e) == 0 || ReturnCode(e) == 1
    ensures ReturnCode(e) == 1 <==> m > 0 && exists l :: 0 <= l < n && Balanced(sOs, n, l)
    ensures e.NaNStart? <==> rule.Default? && m == 0 && exists l :: 0 <= l < n && Balanced(sOs, n, l)
    ensures e.Estimated? ==> EEShaped(e.final, n) && forall l :: 0 <= l < n ==> e.final.dz[l] == Balance(eeOs, n, l)
    ensures e.Estimated? && rule.Default? && m > 0 && 0.0 < rule.compC && PositiveRoot(sqrt) ==>
              forall l :: 0 <= l < n ==> 0.0 < e.final.d0[l]
  {
    var sr := AlgorithmS(acaS, n, m, sOs);
    GateMeaning(acaS, n, m, sOs);
    if Gate(sr.dmean) == 1 then
      Degenerate(sr.theta, sr.dmean)
    else if rule.Default? && HasNaN(sr.dmean) then
      NaNStart(sr.theta, sr.dmean)
    else
      Estimated(AlgorithmEE(rule, n, outer, inner, sr.theta, StartingD0(sr.dmean), eeOs, sqrt, meanSd))
  }

  /* ---------------------------------------------------------------
   * Algorithm S driving the IFD sampler
   * --------------------------------------------------------------- */

  datatype CallsResult = CallsResult(g: Digraph, isDelete: bool, aux: real, outcomes: seq<Outcome>)

  /** Every call's proposals are ones the sampler could draw, with the
      graph, flag and auxiliary parameter carried from call to call. */
  predicate LegalCalls(cfg: Ifd.Config, cs: Ifd.ChangeStats, n: nat, g: Digraph, isDelete: bool,
                       K: real, aux: real, calls: seq<seq<Ifd.Proposal>>)
    requires Valid(g) && Ifd.StatsWidth(cs, n)
    decreases |calls|
  {
    |calls| == 0 ||
    (Ifd.LegalRun(cfg, cs, n, Ifd.Start(g, isDelete, n), calls[0]) &&
     var r := Ifd.IfdSampler(cfg, cs, n, g, isDelete, K, aux, calls[0]);
     LegalCalls(cfg, cs, n, r.g, r.isDelete, K, r.aux, calls[1..]))
  }

  /** Successive sampler calls and the accumulated statistics each
      hands back. */
  function SamplerCalls(cfg: Ifd.Config, cs: Ifd.ChangeStats, n: nat, g: Digraph, isDelete: bool,
                        K: real, aux: real, calls: seq<seq<Ifd.Proposal>>): (r: CallsResult)
    requires Valid(g) && Ifd.StatsWidth(cs, n) && LegalCalls(cfg, cs, n, g, isDelete, K, aux, calls)
    ensures Valid(r.g) && r.g.numNodes == g.numNodes
    ensures Wide(r.outcomes, n) && |r.outcomes| == |calls|
    ensures !cfg.performMove ==> Arcs(r.g) == Arcs(g)
    decreases |calls|
  {
    if |calls| == 0 then
      CallsResult(g, isDelete, aux, [])
    else
      var r := Ifd.IfdSampler(cfg, cs, n, g, isDelete, K, aux, calls[0]);
      var rest := SamplerCalls(cfg, cs, n, r.g, r.isDelete, K, r.aux, calls[1..]);
      var o := Outcome(r.addStats, r.delStats);
      WideCons(o, rest.outcomes, n);
      CallsResult(rest.g, rest.isDelete, rest.aux, [o] + rest.outcomes)
  }

  lemma WideCons(o: Outcome, os: seq<Outcome>, n: nat)
    requires |o.add| == n && |o.del| == n && Wide(os, n)
    ensures Wide([o] + os, n)
  {
  }

  datatype SOverIfdResult = SOverIfdResult(g: Digraph, outcomes: seq<Outcome>, s: SResult)

  /** Algorithm S with the IFD sampler: every call is made with moves
      switched off and the auxiliary parameter starting at 0, so the
      graph's arc set is the one it started with; theta starts at 0 and
      the gate fires exactly when some statistic never moved in any
      call. */
  function AlgorithmSOverIfd(cfg: Ifd.Config, cs: Ifd.ChangeStats, n: nat, g: Digraph, isDelete: bool,
                             K: real, aca: real, m: nat, calls: seq<seq<Ifd.Proposal>>): (r: SOverIfdResult)
    requires Valid(g) && Ifd.StatsWidth(cs, n)
    requires forall t :: 0 <= t < |calls| ==> |calls[t]| == m
    requires LegalCalls(cfg.(performMove := false), cs, n, g, isDelete, K, 0.0, calls)
    ensures Valid(r.g) && Arcs(r.g) == Arcs(g)
    ensures Wide(r.outcomes, n) && |r.outcomes| == |calls|
    ensures |r.s.theta| == n && |r.s.dmean| == n
    ensures |calls| == 0 ==> forall l :: 0 <= l < n ==> r.s.theta[l] == 0.0
    ensures Gate(r.s.dmean) == 1 <==> m > 0 && exists l :: 0 <= l < n && Balanced(r.outcomes, n, l)
  {
    var c := SamplerCalls(cfg.(performMove := false), cs, n, g, isDelete, K, 0.0, calls);
    var os := c.outcomes;
    GateMeaning(aca, n, m, os);
    SOverIfdResult(c.g, os, AlgorithmS(aca, n, m, os))
  }

  /* ---------------------------------------------------------------
   * do_estimation: the checks before estimation
   * --------------------------------------------------------------- */

  /** The name of the Arc parameter, which the IFD sampler supplies
      itself. */
  const ArcParamName: string := "Arc"

  /** What do_estimation finds as it prepares: whether each file opens
      or loads, the parameter names, and the options. */
  datatype Setup = Setup(
    arclistOpens: bool,
    zoneFileGiven: bool,
    zonesLoad: bool,
    attrIndicesBuilt: bool,
    dyadicIndicesBuilt: bool,
    interactionIndicesBuilt: bool,
    thetaFileOpens: bool,
    useIfdSampler: bool,
    structParamNames: seq<string>,
    useConditionalEstimation: bool,
    maxZone: nat,
    dzaFileOpens: bool)

  /** Why do_estimation gives up. */
  datatype Refusal =
    | ArclistUnreadable
    | ZonesUnreadable
    | BadAttributeParameters
    | BadDyadicParameters
    | BadInteractionParameters
    | ThetaFileUnwritable
    | ArcParamWithIfd
    | NoZonesForConditional
    | SingleZoneForConditional
    | DzaFileUnwritable

  /** The index of the first structural parameter named Arc in any case,
      scanned as the source's loop does. */
  function ArcParamIndex(names: seq<string>): (r: Option<nat>)
    ensures r.Some? ==> r.value < |names| && EqualIgnoringCase(names[r.value], ArcParamName)
    ensures r.Some? ==> forall k :: 0 <= k < r.value ==> !EqualIgnoringCase(names[k], ArcParamName)
    ensures r.None? <==> forall k :: 0 <= k < |names| ==> !EqualIgnoringCase(names[k], ArcParamName)
    decreases |names|
  {
    if |names| == 0 then None
    else if EqualIgnoringCase(names[0], ArcParamName) then Some(0)
    else match ArcParamIndex(names[1..])
      case None => None
      case Some(k) => Some(k + 1)
  }

  /** The first check that fails, in the order the source makes them. */
  function FirstRefusal(s: Setup): Option<Refusal>
  {
    if !s.arclistOpens then Some(ArclistUnreadable)
    else if s.zoneFileGiven && !s.zonesLoad then Some(ZonesUnreadable)
    else if !s.attrIndicesBuilt then Some(BadAttributeParameters)
    else if !s.dyadicIndicesBuilt then Some(BadDyadicParameters)
    else if !s.interactionIndicesBuilt then Some(BadInteractionParameters)
    else if !s.thetaFileOpens then Some(ThetaFileUnwritable)
    else if s.useIfdSampler && ArcParamIndex(s.structParamNames).Some? then Some(ArcParamWithIfd)
    else if s.useConditionalEstimation && !s.zoneFileGiven then Some(NoZonesForConditional)
    else if s.useConditionalEstimation && s.maxZone < 1 then Some(SingleZoneForConditional)
    else if !s.dzaFileOpens then Some(DzaFileUnwritable)
    else None
  }

  /** Everything do_estimation requires, stated as one conjunction. */
  predicate Admissible(s: Setup)
  {
    s.arclistOpens && (s.zoneFileGiven ==> s.zonesLoad) &&
    s.attrIndicesBuilt && s.dyadicIndicesBuilt && s.interactionIndicesBuilt &&
    s.thetaFileOpens && s.dzaFileOpens &&
    (s.useIfdSampler ==> forall k :: 0 <= k < |s.structParamNames| ==>
                           !EqualIgnoringCase(s.structParamNames[k], ArcParamName)) &&
    (s.useConditionalEstimation ==> s.zoneFileGiven && s.maxZone >= 1)
  }

  predicate NamesArcParam(names: seq<string>)
  {
    exists k :: 0 <= k < |names| && EqualIgnoringCase(names[k], ArcParamName)
  }

  datatype Completion = Completion(code: int, estimate: Option<Estimate>)

  /** do_estimation: -1 without estimating when a check fails; otherwise
      it runs ee_estimate (whose outcome is supplied) and returns 0,
      whatever ee_estimate returned. */
  function DoEstimation(s: Setup, e: Estimate): (r: Completion)
    ensures r.code == 0 || r.code == -1
    ensures r.code == 0 <==> Admissible(s)
    ensures r.estimate.Some? <==> r.code == 0
    ensures r.code == 0 ==> r.estimate == Some(e)
    ensures s.useIfdSampler && NamesArcParam(s.structParamNames) ==> r.code == -1
    ensures s.useConditionalEstimation && !s.zoneFileGiven ==> r.code == -1
    ensures s.useConditionalEstimation && s.maxZone < 1 ==> r.code == -1
  {
    if FirstRefusal(s).Some? then Completion(-1, None) else Completion(0, Some(e))
  }

  /** A failed check earlier in the order masks the later ones: the
      refusal reported is the first in the source's order. */
  lemma RefusalOrder(s: Setup)
    ensures !s.arclistOpens ==> FirstRefusal(s) == Some(ArclistUnreadable)
    ensures FirstRefusal(s) == Some(ArcParamWithIfd) ==>
              s.arclistOpens && s.thetaFileOpens && s.useIfdSampler
    ensures FirstRefusal(s) == Some(DzaFileUnwritable) ==>
              !s.dzaFileOpens && (s.useConditionalEstimation ==> s.zoneFileGiven && s.maxZone >= 1)
    ensures FirstRefusal(s).None? <==> Admissible(s)
  {
  }
}
