/**
 * Character-level text handling shared by the option checks and the
 * Pajek conversion: ASCII case folding (C's strcasecmp and, for the
 * keywords compared here, Python 2's str.lower on byte strings), the
 * whitespace of C's isspace, str.rstrip and str.strip, str.split on a single
 * character, str.join, and the decimal conversions int() and str() on
 * integers.
 */
module Text {
  import opened Numeric

  /* ---------------------------------------------------------------
   * Case folding
   * --------------------------------------------------------------- */

  function LowerChar(c: char): char
  {
    if 'A' <= c <= 'Z' then (c as int + 32) as char else c
  }

  /** Folding leaves no upper-case ASCII letter, moves each one to its
      lower-case letter, and keeps every other character. */
  function Lower(s: string): (r: string)
    ensures |r| == |s|
    ensures forall k :: 0 <= k < |r| ==> !('A' <= r[k] <= 'Z')
    ensures forall k :: 0 <= k < |s| ==>
              if 'A' <= s[k] <= 'Z' then r[k] as int - s[k] as int == 'a' as int - 'A' as int
              else r[k] == s[k]
    ensures forall k :: 0 <= k < |s| ==> r[k] == LowerChar(s[k])
  {
    seq(|s|, k requires 0 <= k < |s| => LowerChar(s[k]))
  }

  /** strcasecmp(a, b) == 0 for ASCII strings. */
  predicate EqualIgnoringCase(a: string, b: string)
  {
    Lower(a) == Lower(b)
  }

  /** Folding twice is folding once; so a string matches its own
      lower-case form and comparison ignores case on both sides. */
  lemma LowerIdempotent(s: string)
    ensures Lower(Lower(s)) == Lower(s)
    ensures EqualIgnoringCase(s, Lower(s))
  {
    forall k | 0 <= k < |s|
      ensures Lower(Lower(s))[k] == Lower(s)[k]
    {
      assert LowerChar(LowerChar(s[k])) == LowerChar(s[k]);
    }
  }

  /* ---------------------------------------------------------------
   * Whitespace and stripping
   * --------------------------------------------------------------- */

  /** Whitespace for Python 2 byte strings, whose rstrip, strip and
      int() use C's isspace: space, tab, line feed, vertical tab, form
      feed and carriage return. */
  predicate IsSpace(c: char)
  {
    c == ' ' || '\t' <= c <= '\r'
  }

  /** str.rstrip(): the longest prefix not ending in whitespace. */
  function RStrip(s: string): (r: string)
    ensures |r| <= |s| && r == s[..|r|]
    ensures |r| == 0 || !IsSpace(r[|r| - 1])
    ensures forall k :: |r| <= k < |s| ==> IsSpace(s[k])
    decreases |s|
  {
    if |s| > 0 && IsSpace(s[|s| - 1]) then RStrip(s[..|s| - 1]) else s
  }

  /** str.lstrip(): the longest suffix not starting with whitespace. */
  function LStrip(s: string): (r: string)
    ensures |r| <= |s| && r == s[|s| - |r|..]
    ensures |r| == 0 || !IsSpace(r[0])
    ensures forall k :: 0 <= k < |s| - |r| ==> IsSpace(s[k])
    decreases |s|
  {
    if |s| > 0 && IsSpace(s[0]) then LStrip(s[1..]) else s
  }

  function Strip(s: string): string
  {
    LStrip(RStrip(s))
  }

  /** Stripping a string without surrounding whitespace changes nothing. */
  lemma StripUnspaced(s: string)
    requires |s| > 0 && !IsSpace(s[0]) && !IsSpace(s[|s| - 1])
    ensures Strip(s) == s
  {
  }

  /* ---------------------------------------------------------------
   * Splitting and joining
   * --------------------------------------------------------------- */

  /** The index of the first `c` in `s`, or |s| when there is none. */
  function Find(s: string, c: char): (i: nat)
    ensures i <= |s|
    ensures i < |s| ==> s[i] == c
    ensures forall k :: 0 <= k < i ==> s[k] != c
  {
    if |s| == 0 then 0 else if s[0] == c then 0 else 1 + Find(s[1..], c)
  }

  /** str.join: the parts with `sep` between consecutive ones. */
  function Join(sep: string, parts: seq<string>): string
  {
    if |parts| == 0 then ""
    else if |parts| == 1 then parts[0]
    else parts[0] + sep + Join(sep, parts[1..])
  }

  /** str.split(c) for a one-character separator: the pieces between
      consecutive occurrences of c, empty pieces included. */
  function Split(s: string, c: char): (parts: seq<string>)
    ensures |parts| >= 1
    ensures forall k :: 0 <= k < |parts| ==> c !in parts[k]
    decreases |s|
  {
    var i := Find(s, c);
    if i == |s| then [s] else [s[..i]] + Split(s[i + 1..], c)
  }

  /** Joining the parts of a split with the separator restores the
      string. */
  lemma {:induction false} JoinSplit(s: string, c: char)
    ensures Join([c], Split(s, c)) == s
    decreases |s|
  {
    var i := Find(s, c);
    var parts := Split(s, c);
    if i < |s| {
      var rest := s[i + 1..];
      assert parts == [s[..i]] + Split(rest, c);
      assert parts[0] == s[..i] && parts[1..] == Split(rest, c);
      JoinCons(parts, c);
      JoinSplit(rest, c);
      assert s == s[..i] + [c] + rest;
    } else {
      assert parts == [s];
    }
  }

  lemma JoinCons(parts: seq<string>, c: char)
    requires |parts| >= 2
    ensures Join([c], parts) == parts[0] + [c] + Join([c], parts[1..])
  {
  }


  /** Splitting a join recovers the parts when none contains the
      separator: the two are inverse. */
  lemma {:induction false} SplitJoin(parts: seq<string>, c: char)
    requires |parts| >= 1
    requires forall k :: 0 <= k < |parts| ==> c !in parts[k]
    ensures Split(Join([c], parts), c) == parts
    decreases |parts|
  {
    var s := Join([c], parts);
    if |parts| == 1 {
      FindAbsent(s, c);
    } else {
      var rest := Join([c], parts[1..]);
      assert s == parts[0] + [c] + rest;
      FindAfter(parts[0], rest, c);
      assert s[|parts[0]| + 1..] == rest;
      assert s[..|parts[0]|] == parts[0];
      SplitJoin(parts[1..], c);
    }
  }

  lemma FindAbsent(s: string, c: char)
    requires c !in s
    ensures Find(s, c) == |s|
  {
  }

  lemma FindAfter(p: string, rest: string, c: char)
    requires c !in p
    ensures Find(p + [c] + rest, c) == |p|
  {
    var s := p + [c] + rest;
    assert s[|p|] == c;
  }

  /* ---------------------------------------------------------------
   * Decimal integers
   * --------------------------------------------------------------- */

  predicate IsDigit(c: char) { '0' <= c <= '9' }

  function DigitValue(c: char): nat
    requires IsDigit(c)
  {
    c as int - '0' as int
  }

  function DigitChar(d: nat): (c: char)
    requires d < 10
    ensures IsDigit(c) && DigitValue(c) == d
  {
    ('0' as int + d) as char
  }

  /** The value of a non-empty string of ASCII digits, most significant
      first. */
  function ParseDigits(s: string): (r: Option<nat>)
    ensures r.Some? <==> |s| > 0 && forall k :: 0 <= k < |s| ==> IsDigit(s[k])
    decreases |s|
  {
    if |s| == 0 || !IsDigit(s[|s| - 1]) then None
    else if |s| == 1 then Some(DigitValue(s[0]))
    else match ParseDigits(s[..|s| - 1])
      case None => None
      case Some(v) => Some(10 * v + DigitValue(s[|s| - 1]))
  }

  /** str() of a natural number: no leading zeros. */
  function ShowNat(x: nat): (s: string)
    ensures |s| > 0 && forall k :: 0 <= k < |s| ==> IsDigit(s[k])
    ensures s[0] != '0' || x == 0
  {
    if x < 10 then [DigitChar(x)] else ShowNat(x / 10) + [DigitChar(x % 10)]
  }

  /** str() of an integer. */
  function ShowInt(x: int): (s: string)
    ensures |s| > 0
  {
    if x < 0 then "-" + ShowNat(-x) else ShowNat(x)
  }

  /** int() of a string: surrounding whitespace ignored, an optional
      sign, then decimal digits; None where Python raises ValueError. */
  function ParseInt(s: string): Option<int>
  {
    var t := Strip(s);
    if |t| > 0 && (t[0] == '-' || t[0] == '+') then
      var sign: int := if t[0] == '-' then -1 else 1;
      match ParseDigits(t[1..])
      case None => None
      case Some(v) => Some(sign * v)
    else
      match ParseDigits(t)
      case None => None
      case Some(v) => Some(v)
  }

  lemma {:induction false} ParseShowNat(x: nat)
    ensures ParseDigits(ShowNat(x)) == Some(x)
  {
    if x >= 10 {
      var s := ShowNat(x);
      ParseShowNat(x / 10);
      assert s[..|s| - 1] == ShowNat(x / 10);
    }
  }

  lemma ShowIntUnspaced(x: int)
    ensures !IsSpace(ShowInt(x)[0]) && !IsSpace(ShowInt(x)[|ShowInt(x)| - 1])
    ensures IsDigit(ShowInt(x)[|ShowInt(x)| - 1])
  {
    var s := ShowInt(x);
    if x < 0 {
      assert s[|s| - 1] == ShowNat(-x)[|ShowNat(-x)| - 1];
    }
  }

  /** int(str(x)) == x. */
  lemma ParseShowInt(x: int)
    ensures ParseInt(ShowInt(x)) == Some(x)
  {
    var s := ShowInt(x);
    ShowIntUnspaced(x);
    StripUnspaced(s);
    if x < 0 {
      assert s[0] == '-' && s[1..] == ShowNat(-x);
      ParseShowNat(-x);
    } else {
      ParseShowNat(x);
      assert IsDigit(s[0]);
    }
  }
}
