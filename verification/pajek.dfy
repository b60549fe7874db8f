/**
 * The conversion of an arc-list Pajek file (a "*Vertices N" line, an
 * "*Arcs" line, then one "i j" line per arc) to the verbose form that
 * also lists the vertices 1..N one per line, and the list flattening
 * it uses.
 *
 * The input is the file's lines as read, each keeping its line end.
 * The result is the text written, or the refusal (-1, nothing
 * written), or the exception the conversion raises before writing.
 */
module PajekConvert {
  import opened Numeric
  import opened Text

  /* ---------------------------------------------------------------
   * flatten
   * --------------------------------------------------------------- */

  /** The elements of the sublists, in order. */
  function Flatten<T>(t: seq<seq<T>>): (r: seq<T>)
    ensures |r| == TotalLength(t)
    decreases |t|
  {
    if |t| == 0 then [] else t[0] + Flatten(t[1..])
  }

  function TotalLength<T>(t: seq<seq<T>>): nat
    decreases |t|
  {
    if |t| == 0 then 0 else |t[0]| + TotalLength(t[1..])
  }

  /** Where sublist i starts in the flattened list. */
  function Offset<T>(t: seq<seq<T>>, i: nat): nat
    requires i <= |t|
  {
    TotalLength(t[..i])
  }

  lemma {:induction false} OffsetStep<T>(t: seq<seq<T>>, i: nat)
    requires i < |t|
    ensures Offset(t, i + 1) == Offset(t, i) + |t[i]|
    ensures Offset(t, i) + |t[i]| <= TotalLength(t)
    decreases i
  {
    if i == 0 {
      assert t[..1][1..] == [];
      assert t[1..] == t[1..];
      TotalLengthSplit(t);
    } else {
      assert t[..i + 1][1..] == t[1..][..i];
      assert t[..i][1..] == t[1..][..i - 1];
      OffsetStep(t[1..], i - 1);
    }
  }

  lemma TotalLengthSplit<T>(t: seq<seq<T>>)
    requires |t| > 0
    ensures |t[0]| <= TotalLength(t)
  {
  }

  /** flatten keeps every element and the order: element k of sublist i
      sits at the offset of sublist i plus k, and sublist i + 1 starts
      where sublist i ends. */
  lemma {:induction false} FlattenIndex<T>(t: seq<seq<T>>, i: nat, k: nat)
    requires i < |t| && k < |t[i]|
    ensures Offset(t, i) + k < |Flatten(t)|
    ensures Flatten(t)[Offset(t, i) + k] == t[i][k]
    decreases i
  {
    OffsetStep(t, i);
    if i > 0 {
      assert t[..i][1..] == t[1..][..i - 1];
      FlattenIndex(t[1..], i - 1, k);
    }
  }

  /** Flattening a concatenation concatenates the flattenings. */
  lemma {:induction false} FlattenAppend<T>(a: seq<seq<T>>, b: seq<seq<T>>)
    ensures Flatten(a + b) == Flatten(a) + Flatten(b)
    decreases |a|
  {
    if |a| == 0 {
      assert a + b == b;
    } else {
      assert (a + b)[1..] == a[1..] + b;
      FlattenAppend(a[1..], b);
    }
  }

  /* ---------------------------------------------------------------
   * Lines and tokens
   * --------------------------------------------------------------- */

  /** Splitting text at a separator it contains after a prefix without
      one peels that prefix off as the first part. */
  lemma SplitThrough(s: string, a: string, b: string, c: char)
    requires c !in a && s == a + [c] + b
    ensures Split(s, c) == [a] + Split(b, c)
  {
    FindAfter(a, b, c);
    assert s[..|a|] == a && s[|a| + 1..] == b;
  }

  /** Splitting a join followed by the separator and more text gives
      the parts back, then the parts of the rest. */
  lemma SplitJoinThen(parts: seq<string>, b: string, c: char)
    requires |parts| >= 1
    requires forall k :: 0 <= k < |parts| ==> c !in parts[k]
    ensures Split(Join([c], parts) + [c] + b, c) == parts + Split(b, c)
  {
    var bs := Split(b, c);
    JoinSplit(b, c);
    JoinAppend(parts, bs, c);
    var all := parts + bs;
    assert forall k :: 0 <= k < |all| ==> c !in all[k] by {
      forall k | 0 <= k < |all| ensures c !in all[k] {
        if k >= |parts| {
          assert all[k] == bs[k - |parts|];
        }
      }
    }
    SplitJoin(all, c);
  }

  /** Joining two non-empty lists of parts is joining each and putting
      the separator between. */
  lemma {:induction false} JoinAppend(a: seq<string>, b: seq<string>, c: char)
    requires |a| >= 1 && |b| >= 1
    ensures Join([c], a + b) == Join([c], a) + [c] + Join([c], b)
    decreases |a|
  {
    var ab := a + b;
    JoinCons(ab, c);
    assert ab[0] == a[0];
    if |a| == 1 {
      assert ab[1..] == b;
    } else {
      assert ab[1..] == a[1..] + b;
      JoinAppend(a[1..], b, c);
      JoinCons(a, c);
      var ja, jb := Join([c], a[1..]), Join([c], b);
      AppendAssoc(a[0] + [c], ja + [c], jb);
      AppendAssoc(a[0] + [c], ja, [c]);
    }
  }

  lemma AppendAssoc<T>(x: seq<T>, y: seq<T>, z: seq<T>)
    ensures (x + y) + z == x + (y + z)
  {
  }

  lemma ShowIntPlain(x: int)
    ensures '\n' !in ShowInt(x) && ' ' !in ShowInt(x)
  {
    var s := ShowNat(if x < 0 then -x else x);
    assert forall k :: 0 <= k < |s| ==> IsDigit(s[k]);
  }

  /** Applies a parser to every token: the values in order, or None as
      soon as one token fails. */
  function ParseEach(parse: string -> Option<int>, tokens: seq<string>): (r: Option<seq<int>>)
    ensures r.Some? ==> |r.value| == |tokens|
    decreases |tokens|
  {
    if |tokens| == 0 then Some([])
    else
      var head := parse(tokens[0]);
      var tail := ParseEach(parse, tokens[1..]);
      if head.None? || tail.None? then None
      else Some([head.value] + tail.value)
  }

  /** The list comes back exactly when every token parses, and then it
      holds their values in order. */
  lemma {:induction false} ParseEachMeaning(parse: string -> Option<int>, tokens: seq<string>)
    ensures ParseEach(parse, tokens).Some? <==> forall k :: 0 <= k < |tokens| ==> parse(tokens[k]).Some?
    ensures ParseEach(parse, tokens).Some? ==>
              forall k :: 0 <= k < |tokens| ==> parse(tokens[k]) == Some(ParseEach(parse, tokens).value[k])
    decreases |tokens|
  {
    if |tokens| > 0 {
      var tail := tokens[1..];
      ParseEachMeaning(parse, tail);
      assert forall k :: 1 <= k < |tokens| ==> tokens[k] == tail[k - 1];
      if ParseEach(parse, tail).None? {
        var k :| 0 <= k < |tail| && parse(tail[k]).None?;
        assert parse(tokens[k + 1]).None?;
      }
    }
  }

  /** int() of every token, or None where one would raise. */
  function ParseAll(tokens: seq<string>): Option<seq<int>>
  {
    ParseEach(ParseInt, tokens)
  }

  /** min() and max() of a non-empty list. */
  function Min(xs: seq<int>): (m: int)
    requires |xs| > 0
    ensures m in xs && forall k :: 0 <= k < |xs| ==> m <= xs[k]
    decreases |xs|
  {
    if |xs| == 1 then xs[0]
    else
      var m := Min(xs[1..]);
      assert forall k :: 1 <= k < |xs| ==> xs[k] == xs[1..][k - 1];
      if xs[0] <= m then xs[0] else m
  }

  function Max(xs: seq<int>): (m: int)
    requires |xs| > 0
    ensures m in xs && forall k :: 0 <= k < |xs| ==> xs[k] <= m
    decreases |xs|
  {
    if |xs| == 1 then xs[0]
    else
      var m := Max(xs[1..]);
      assert forall k :: 1 <= k < |xs| ==> xs[k] == xs[1..][k - 1];
      if m <= xs[0] then xs[0] else m
  }

  /** The source's range test on the minimum and maximum node number
      flags exactly the lists holding a number outside 1..N. */
  lemma RangeTest(xs: seq<int>, n: int)
    requires |xs| > 0
    ensures (Min(xs) < 1 || Max(xs) > n) <==> exists k :: 0 <= k < |xs| && (xs[k] < 1 || xs[k] > n)
  {
  }

  /* ---------------------------------------------------------------
   * The conversion
   * --------------------------------------------------------------- */

  datatype Conversion =
    | Converted(out: string, badNodeNumber: bool)
    | Rejected
    | Raised

  /** The function's return value; an exception returns none. */
  function ReturnCode(c: Conversion): Option<int>
  {
    match c
    case Converted(_, _) => Some(0)
    case Rejected => Some(-1)
    case Raised => None
  }

  /** The first line fails the "*vertices" test. */
  predicate BadVerticesLine(line: string)
  {
    Lower(Split(line, ' ')[0]) != "*vertices"
  }

  /** The second line fails the "*arcs" test. */
  predicate BadArcsLine(line: string)
  {
    Lower(RStrip(line)) != "*arcs"
  }

  /** The vertex count: int() of the first line's second token, None
      where that raises. */
  function VertexCount(line: string): Option<int>
  {
    var tokens := Split(line, ' ');
    if |tokens| < 2 then None else ParseInt(tokens[1])
  }

  /** The tokens of the arc lines: each right-stripped and split at
      single spaces. */
  function ArcTokens(lines: seq<string>): seq<string>
  {
    Flatten(seq(|lines|, k requires 0 <= k < |lines| => Split(RStrip(lines[k]), ' ')))
  }

  /** The names 1..N, none when N < 1. */
  function VertexNames(n: int): (r: seq<string>)
    ensures |r| == (if n > 0 then n else 0)
    ensures forall k :: 0 <= k < |r| ==> r[k] == ShowInt(k + 1)
  {
    seq(if n > 0 then n else 0, k requires 0 <= k => ShowInt(k + 1))
  }

  function HeaderLine(n: int): string
  {
    "*Vertices " + ShowInt(n)
  }

  /** What the conversion writes: the header, the vertex names one per
      line, a line end, then every input line from the second on. */
  function Output(n: int, dat: seq<string>): string
    requires |dat| >= 1
  {
    HeaderLine(n) + "\n" + Join("\n", VertexNames(n)) + "\n" + Flatten(dat[1..])
  }

  function Convert(dat: seq<string>): (r: Conversion)
    ensures |dat| == 0 ==> r == Raised
    ensures r == Rejected <==>
              |dat| > 0 && (BadVerticesLine(dat[0]) ||
                            (VertexCount(dat[0]).Some? && |dat| >= 2 && BadArcsLine(dat[1])))
    ensures r.Converted? ==>
              |dat| >= 2 && VertexCount(dat[0]).Some? && !BadVerticesLine(dat[0]) && !BadArcsLine(dat[1]) &&
              ParseAll(ArcTokens(dat[2..])).Some? && |ParseAll(ArcTokens(dat[2..])).value| > 0
    ensures (|dat| >= 2 && !BadVerticesLine(dat[0]) && VertexCount(dat[0]).Some? && !BadArcsLine(dat[1]) &&
             ParseAll(ArcTokens(dat[2..])).Some? && |ParseAll(ArcTokens(dat[2..])).value| > 0) ==>
              r.Converted?
    ensures r.Converted? ==>
              var nums := ParseAll(ArcTokens(dat[2..])).value;
              var n := VertexCount(dat[0]).value;
              (r.badNodeNumber <==> exists k :: 0 <= k < |nums| && (nums[k] < 1 || nums[k] > n))
  {
    if |dat| == 0 then Raised
    else if BadVerticesLine(dat[0]) then Rejected
    else match VertexCount(dat[0])
      case None => Raised
      case Some(n) =>
        if |dat| < 2 then Raised
        else if BadArcsLine(dat[1]) then Rejected
        else match ParseAll(ArcTokens(dat[2..]))
          case None => Raised
          case Some(nums) =>
            if |nums| == 0 then Raised
            else
              RangeTest(nums, n);
              Converted(Output(n, dat), Min(nums) < 1 || Max(nums) > n)
  }

  /** The written text read back as lines: the header, the names 1..N,
      then the lines of the verbatim copy of the input from its second
      line on. */
  lemma OutputLines(n: int, dat: seq<string>)
    requires |dat| >= 1 && n >= 1
    ensures Split(Output(n, dat), '\n') == [HeaderLine(n)] + VertexNames(n) + Split(Flatten(dat[1..]), '\n')
  {
    var h := HeaderLine(n);
    var names := VertexNames(n);
    var tail := Join("\n", names) + ['\n'] + Flatten(dat[1..]);
    ShowIntPlain(n);
    NamesPlain(n);
    assert Output(n, dat) == h + ['\n'] + tail;
    SplitThrough(Output(n, dat), h, tail, '\n');
    SplitJoinThen(names, Flatten(dat[1..]), '\n');
  }

  /** No vertex name contains a line break. */
  lemma NamesPlain(n: int)
    requires n >= 1
    ensures forall k :: 0 <= k < |VertexNames(n)| ==> '\n' !in VertexNames(n)[k]
  {
    var names := VertexNames(n);
    forall k | 0 <= k < |names|
      ensures '\n' !in names[k]
    {
      ShowIntPlain(k + 1);
    }
  }

  /** The header written passes the conversion's own header test and
      gives back the vertex count it was made from. */
  lemma HeaderRoundTrip(n: int)
    ensures !BadVerticesLine(HeaderLine(n))
    ensures VertexCount(HeaderLine(n)) == Some(n)
  {
    var s := ShowInt(n);
    ShowIntPlain(n);
    assert HeaderLine(n) == "*Vertices" + [' '] + s;
    SplitThrough(HeaderLine(n), "*Vertices", s, ' ');
    FindAbsent(s, ' ');
    assert Split(HeaderLine(n), ' ') == ["*Vertices", s];
    assert Lower("*Vertices") == "*vertices";
    ParseShowInt(n);
  }

  /** The written text starts with a header line that re-reads as
      the vertex count, and its lines 1..N read back as the numbers
      1..N. */
  lemma OutputListsVertices(n: int, dat: seq<string>, k: nat)
    requires |dat| >= 1
    ensures var lines := Split(Output(n, dat), '\n');
            !BadVerticesLine(lines[0]) && VertexCount(lines[0]) == Some(n) &&
            (1 <= k <= n ==> k < |lines| && ParseInt(lines[k]) == Some(k))
  {
    OutputFirstLine(n, dat);
    HeaderRoundTrip(n);
    if 1 <= k <= n {
      OutputVertexLine(n, dat, k);
      ParseShowInt(k);
    }
  }

  /** The first line written is the header. */
  lemma OutputFirstLine(n: int, dat: seq<string>)
    requires |dat| >= 1
    ensures Split(Output(n, dat), '\n')[0] == HeaderLine(n)
  {
    var h := HeaderLine(n);
    if n >= 1 {
      OutputLines(n, dat);
      var lines := Split(Output(n, dat), '\n');
      assert lines == [h] + VertexNames(n) + Split(Flatten(dat[1..]), '\n');
      assert lines[0] == h;
    } else {
      var rest := "\n" + Flatten(dat[1..]);
      ShowIntPlain(n);
      assert VertexNames(n) == [];
      assert Output(n, dat) == h + ['\n'] + rest;
      SplitThrough(Output(n, dat), h, rest, '\n');
    }
  }

  /** Line k of the output, for 1 <= k <= N, is the name of vertex k. */
  lemma OutputVertexLine(n: int, dat: seq<string>, k: nat)
    requires |dat| >= 1 && 1 <= k <= n
    ensures var lines := Split(Output(n, dat), '\n');
            k < |lines| && lines[k] == ShowInt(k)
  {
    OutputLines(n, dat);
    var lines := Split(Output(n, dat), '\n');
    var names := VertexNames(n);
    assert lines == [HeaderLine(n)] + names + Split(Flatten(dat[1..]), '\n');
    assert lines[k] == names[k - 1];
  }

  lemma ConvertedOutput(dat: seq<string>)
    ensures Convert(dat).Converted? ==> Convert(dat).out == Output(VertexCount(dat[0]).value, dat)
  {
  }

  /** A converted file lists its vertices: the output's first line
      passes the header test with the input's vertex count, and line k
      of the output, for 1 <= k <= N, reads back as the number k. */
  lemma ConvertedListsVertices(dat: seq<string>, k: nat)
    ensures Convert(dat).Converted? ==>
            var lines := Split(Convert(dat).out, '\n');
            !BadVerticesLine(lines[0]) && VertexCount(lines[0]) == VertexCount(dat[0]) &&
            (1 <= k <= VertexCount(dat[0]).value ==> k < |lines| && ParseInt(lines[k]) == Some(k))
  {
    if Convert(dat).Converted? {
      ConvertedOutput(dat);
      OutputListsVertices(VertexCount(dat[0]).value, dat, k);
    }
  }

  /** A blank line among the arcs makes int('') raise. */
  lemma BlankArcLineRaises(dat: seq<string>, k: nat)
    requires |dat| >= 2 && 2 <= k < |dat| && RStrip(dat[k]) == ""
    requires !BadVerticesLine(dat[0]) && VertexCount(dat[0]).Some? && !BadArcsLine(dat[1])
    ensures Convert(dat) == Raised
  {
    var toks := ArcTokens(dat[2..]);
    var e := BlankLineToken(dat[2..], k - 2);
    assert ParseInt(toks[e]) == None;
    ParseEachMeaning(ParseInt, toks);
    assert ParseAll(toks) == None;
  }

  /** A blank arc line contributes an empty token. */
  lemma BlankLineToken(lines: seq<string>, k: nat) returns (e: nat)
    requires k < |lines| && RStrip(lines[k]) == ""
    ensures e < |ArcTokens(lines)| && ArcTokens(lines)[e] == ""
  {
    var t := seq(|lines|, i requires 0 <= i < |lines| => Split(RStrip(lines[i]), ' '));
    assert t[k] == Split("", ' ') == [""];
    FlattenIndex(t, k, 0);
    e := Offset(t, k);
  }
}
