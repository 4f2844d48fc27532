/** The compact edit-request format: one line `seg<sep>seg<sep>...<sep>value`
    per record, whose ancestor segments imply the indentation the record's
    line gets back. `EcTextConvert` reads that format into records and
    `CliConvert` writes the records of a configuration in it. */
module Convert {
  import opened Text
  import opened Records
  import opened PathIndex

  /** The last `sep`-segment of a compact line. */
  function LastSegment(line: string, sep: string): string
    requires sep != ""
  {
    var segs := Split(line, sep);
    segs[|segs| - 1]
  }

  /** The record one compact line stands for: the segments but the last,
      re-joined, as path; the last segment, stripped and indented by
      `stepSpace` spaces per level, as value. The level is one more than the
      separators in the path, and zero when the last segment starts with a
      comment prefix. */
  function ConvertLine(line: string, stepSpace: int, comments: seq<string>, sep: string): Record
    requires sep != ""
  {
    SegmentsRecord(Split(line, sep), stepSpace, comments, sep)
  }

  /** The record of the `sep`-segments of a compact line. */
  function SegmentsRecord(segs: seq<string>, stepSpace: int, comments: seq<string>, sep: string): Record
    requires sep != "" && |segs| >= 1
  {
    var path := Join(segs[..|segs| - 1], sep);
    var last := segs[|segs| - 1];
    Record(path, Spaces(stepSpace * Level(segs, comments, sep)) + Strip(last))
  }

  /** The indentation level of a compact line's segments: one more than the
      separators in the path, and zero when the last segment starts with a
      comment prefix. */
  function Level(segs: seq<string>, comments: seq<string>, sep: string): nat
    requires sep != "" && |segs| >= 1
  {
    var last := segs[|segs| - 1];
    if StartsWithAny(last, comments) then 0 else Count(Join(segs[..|segs| - 1], sep), sep) + 1
  }

  /** `_ec_text_convert`: one record per line of the stripped text. Splitting
      on the empty separator is an error as soon as there is a line to split. */
  function EcTextConvert(text: string, stepSpace: int, comments: seq<string>, sep: string): (r: Result<seq<Record>>)
    ensures r.Failure? <==> sep == "" && SplitLines(Strip(text)) != []
    ensures r.Failure? ==> r.error == EmptySeparator
    ensures r.Success? ==> |r.value| == |SplitLines(Strip(text))|
    ensures r.Success? ==> forall k :: 0 <= k < |r.value| ==>
              r.value[k] == ConvertLine(SplitLines(Strip(text))[k], stepSpace, comments, sep)
  {
    var lines := SplitLines(Strip(text));
    if sep == "" && lines != [] then Failure(EmptySeparator)
    else if sep == "" then Success([])
    else Success(seq(|lines|, k requires 0 <= k < |lines| => ConvertLine(lines[k], stepSpace, comments, sep)))
  }

  /** The compact line of one record. */
  function CompactLine(r: Record, sep: string): string {
    r.path + sep + Strip(r.value)
  }

  /** The record's path is not blank (`path.strip() != ''`). */
  predicate HasPath(r: Record) {
    Strip(r.path) != ""
  }

  /** The records whose path is not blank, in order. */
  function WithPath(recs: seq<Record>): seq<Record>
    decreases |recs|
  {
    if recs == [] then []
    else (if HasPath(recs[0]) then [recs[0]] else []) + WithPath(recs[1..])
  }

  /** The compact lines of the records whose path is not blank, in order. */
  function CompactLines(recs: seq<Record>, sep: string): (r: seq<string>)
    ensures |r| == |WithPath(recs)|
    ensures forall k :: 0 <= k < |r| ==> r[k] == CompactLine(WithPath(recs)[k], sep)
  {
    var w := WithPath(recs);
    seq(|w|, k requires 0 <= k < |w| => CompactLine(w[k], sep))
  }

  /** `cli_convert`: the compact form of a configuration text. */
  function CliConvert(text: string, comments: seq<string>, sep: string): (r: Result<string>)
    ensures r.Failure? <==> '\t' in text
    ensures r.Failure? ==> r.error == TabCharacter
  {
    match Build(text, comments, sep)
    case Failure(e) => Failure(e)
    case Success(recs) => Success(JoinLines(CompactLines(recs, sep)))
  }

  // ---------------------------------------------------------------------
  // Properties

  /** A compact line is its record's path, then the separator when there is
      a path segment, then the last segment: the conversion loses nothing
      of the line but the separator that ends the path. */
  lemma {:induction false} ConvertLineRebuilds(line: string, stepSpace: int, comments: seq<string>, sep: string)
    requires sep != ""
    ensures var r := ConvertLine(line, stepSpace, comments, sep);
      var segs := Split(line, sep);
      line == r.path + (if |segs| > 1 then sep else "") + LastSegment(line, sep)
  {
    var segs := Split(line, sep);
    var n := |segs|;
    JoinSplit(line, sep);
    if n > 1 {
      JoinSnoc(segs[..n - 1], segs[n - 1], sep);
      assert segs[..n - 1] + [segs[n - 1]] == segs;
    } else {
      assert segs[..0] == [];
    }
  }

  /** With a one-character separator, a line that is not a comment is
      indented by `stepSpace` once per path segment, and at least once. */
  lemma {:induction false} ConvertLineDepth(line: string, stepSpace: int, comments: seq<string>, sep: string)
    requires |sep| == 1
    requires !StartsWithAny(LastSegment(line, sep), comments)
    ensures var segs := Split(line, sep);
      ConvertLine(line, stepSpace, comments, sep).value ==
        Spaces(stepSpace * (if |segs| == 1 then 1 else |segs| - 1)) + Strip(LastSegment(line, sep))
  {
    var segs := Split(line, sep);
    var n := |segs|;
    var d := if n == 1 then 1 else n - 1;
    if n > 1 {
      SplitPiecesFree(line, sep);
      CountJoin(segs[..n - 1], sep);
    } else {
      assert segs[..0] == [];
    }
    ConvertValue(line, stepSpace, comments, sep, d);
  }

  /** The value of a compact line's record is its stripped last segment,
      indented `stepSpace` times the level `d` the segments give. */
  lemma {:induction false} ConvertValue(line: string, stepSpace: int, comments: seq<string>, sep: string, d: nat)
    requires sep != ""
    requires d == Level(Split(line, sep), comments, sep)
    ensures ConvertLine(line, stepSpace, comments, sep).value == Spaces(stepSpace * d) + Strip(LastSegment(line, sep))
  {
    SegmentsRecordAt(Split(line, sep), stepSpace, comments, sep, d);
  }

  /** A comment line gets no indentation. */
  lemma {:induction false} ConvertLineComment(line: string, stepSpace: int, comments: seq<string>, sep: string)
    requires sep != ""
    requires StartsWithAny(LastSegment(line, sep), comments)
    ensures ConvertLine(line, stepSpace, comments, sep).value == Strip(LastSegment(line, sep))
  {
    ConvertValue(line, stepSpace, comments, sep, 0);
    assert Spaces(stepSpace * 0) == "";
  }

  /** Reading back the compact line written for a path of `tokens` and a
      value `w` restores the path and indents the value by `stepSpace`
      once per token (not at all for a comment), provided neither the tokens
      nor the value contain the one-character separator. */
  lemma {:induction false} CompactLineRoundTrip(tokens: seq<string>, w: string, stepSpace: int, comments: seq<string>, sep: string)
    requires |sep| == 1 && |tokens| >= 1
    requires forall k :: 0 <= k < |tokens| ==> sep[0] !in tokens[k]
    requires sep[0] !in w
    ensures ConvertLine(Join(tokens, sep) + sep + w, stepSpace, comments, sep) ==
      Record(Join(tokens, sep), Spaces(stepSpace * (if StartsWithAny(w, comments) then 0 else |tokens|)) + Strip(w))
  {
    var parts := tokens + [w];
    forall k | 0 <= k < |parts|
      ensures sep[0] !in parts[k]
    {
      if k < |tokens| {
        assert parts[k] == tokens[k];
      }
    }
    JoinSnoc(tokens, w, sep);
    assert parts[..|parts| - 1] == tokens;
    ConvertParts(parts, stepSpace, comments, sep);
  }

  /** The record of a compact line whose separator-free segments are `parts`. */
  lemma {:induction false} ConvertParts(parts: seq<string>, stepSpace: int, comments: seq<string>, sep: string)
    requires |sep| == 1 && |parts| >= 2
    requires forall k :: 0 <= k < |parts| ==> sep[0] !in parts[k]
    ensures var last := parts[|parts| - 1];
      ConvertLine(Join(parts, sep), stepSpace, comments, sep) ==
        Record(Join(parts[..|parts| - 1], sep), Spaces(stepSpace * (if StartsWithAny(last, comments) then 0 else |parts| - 1)) + Strip(last))
  {
    var n := |parts|;
    var init := parts[..n - 1];
    var d := if StartsWithAny(parts[n - 1], comments) then 0 else n - 1;
    SplitJoin(parts, sep);
    ConvertSplit(Join(parts, sep), parts, stepSpace, comments, sep);
    PrefixFree(parts, init, sep);
    CountJoin(init, sep);
    assert d == Level(parts, comments, sep);
    SegmentsRecordAt(parts, stepSpace, comments, sep, d);
  }

  /** The record of segments at a known level. */
  lemma {:induction false} SegmentsRecordAt(segs: seq<string>, stepSpace: int, comments: seq<string>, sep: string, d: nat)
    requires sep != "" && |segs| >= 1 && d == Level(segs, comments, sep)
    ensures SegmentsRecord(segs, stepSpace, comments, sep) ==
      Record(Join(segs[..|segs| - 1], sep), Spaces(stepSpace * d) + Strip(segs[|segs| - 1]))
  {
  }

  /** The record of a line read through its known split. */
  lemma {:induction false} ConvertSplit(line: string, segs: seq<string>, stepSpace: int, comments: seq<string>, sep: string)
    requires sep != "" && Split(line, sep) == segs
    ensures ConvertLine(line, stepSpace, comments, sep) == SegmentsRecord(segs, stepSpace, comments, sep)
  {
  }

  /** The segments but the last of separator-free parts are separator-free. */
  lemma {:induction false} PrefixFree(parts: seq<string>, init: seq<string>, sep: string)
    requires |sep| == 1 && |parts| >= 2 && init == parts[..|parts| - 1]
    requires forall k :: 0 <= k < |parts| ==> sep[0] !in parts[k]
    ensures forall k :: 0 <= k < |init| ==> sep[0] !in init[k]
  {
    forall k | 0 <= k < |init|
      ensures sep[0] !in init[k]
    {
      assert init[k] == parts[k];
    }
  }

  /** The compact line `cli_convert` writes for a record of a built
      configuration reads back, through `_ec_text_convert`'s line rule, as
      the record's path with the stripped line indented once per path
      token, when the separator occurs in no token and not in the line. */
  lemma {:induction false} CliRecordRoundTrip(vals: seq<string>, comments: seq<string>, sep: string, stepSpace: int, j: nat)
    requires |sep| == 1 && j < |vals|
    requires PathAt(vals, comments, j) != []
    requires forall k :: 0 <= k < |PathAt(vals, comments, j)| ==> sep[0] !in PathAt(vals, comments, j)[k]
    requires sep[0] !in Strip(vals[j])
    ensures var r := Linearize(vals, comments, sep)[j];
      ConvertLine(CompactLine(r, sep), stepSpace, comments, sep) ==
        Record(r.path, Spaces(stepSpace * (if StartsWithAny(Strip(vals[j]), comments) then 0 else |PathAt(vals, comments, j)|)) + Strip(vals[j]))
  {
    var tokens := PathAt(vals, comments, j);
    CompactLineRoundTrip(tokens, Strip(vals[j]), stepSpace, comments, sep);
    StripIdempotent(vals[j]);
  }

  /** `cli_convert` keeps exactly the records whose path is not blank:
      each of them appears, and nothing else does. */
  lemma {:induction false} WithPathSelects(recs: seq<Record>)
    ensures |WithPath(recs)| <= |recs|
    ensures forall r :: r in WithPath(recs) <==> r in recs && HasPath(r)
    ensures forall r :: multiset(WithPath(recs))[r] == if HasPath(r) then multiset(recs)[r] else 0
    ensures Sub(WithPath(recs), recs)
  {
    WithPathShorter(recs);
    WithPathOrder(recs);
    forall r
      ensures multiset(WithPath(recs))[r] == if HasPath(r) then multiset(recs)[r] else 0
    {
      WithPathCount(recs, r);
    }
    forall r
      ensures r in WithPath(recs) <==> r in recs && HasPath(r)
    {
      if r in WithPath(recs) {
        WithPathSound(recs, r);
      }
      if r in recs && HasPath(r) {
        WithPathComplete(recs, r);
      }
    }
  }

  lemma {:induction false} WithPathShorter(recs: seq<Record>)
    ensures |WithPath(recs)| <= |recs|
    decreases |recs|
  {
    if recs != [] {
      WithPathShorter(recs[1..]);
    }
  }

  /** The kept records keep their order. */
  lemma {:induction false} WithPathOrder(recs: seq<Record>)
    ensures Sub(WithPath(recs), recs)
    decreases |recs|
  {
    if recs != [] {
      WithPathOrder(recs[1..]);
      var w := WithPath(recs);
      var rest := WithPath(recs[1..]);
      if HasPath(recs[0]) {
        assert w == [recs[0]] + rest;
        assert w[0] == recs[0] && w[1..] == rest;
      } else {
        assert w == rest;
      }
    }
  }

  /** A record with a path is kept as often as it occurs; one without is dropped. */
  lemma {:induction false} WithPathCount(recs: seq<Record>, r: Record)
    ensures multiset(WithPath(recs))[r] == if HasPath(r) then multiset(recs)[r] else 0
    decreases |recs|
  {
    if recs != [] {
      var rest := recs[1..];
      var w := WithPath(rest);
      WithPathCount(rest, r);
      MultisetCons(recs);
      var c := if r == recs[0] then 1 else 0;
      assert multiset(recs)[r] == c + multiset(rest)[r];
      if HasPath(recs[0]) {
        assert WithPath(recs) == [recs[0]] + w;
        assert multiset(WithPath(recs))[r] == c + multiset(w)[r];
      } else {
        assert WithPath(recs) == w;
      }
    }
  }

  /** A kept record comes from the list and has a path. */
  lemma {:induction false} WithPathSound(recs: seq<Record>, r: Record)
    requires r in WithPath(recs)
    ensures r in recs && HasPath(r)
    decreases |recs|
  {
    var h: seq<Record> := if HasPath(recs[0]) then [recs[0]] else [];
    assert WithPath(recs) == h + WithPath(recs[1..]);
    if r !in h {
      WithPathSound(recs[1..], r);
      assert r in recs[1..];
    }
  }

  /** A record of the list that has a path is kept. */
  lemma {:induction false} WithPathComplete(recs: seq<Record>, r: Record)
    requires r in recs && HasPath(r)
    ensures r in WithPath(recs)
    decreases |recs|
  {
    var h: seq<Record> := if HasPath(recs[0]) then [recs[0]] else [];
    assert WithPath(recs) == h + WithPath(recs[1..]);
    if r == recs[0] {
      assert h == [r];
      assert r in h;
    } else {
      var i :| 0 <= i < |recs| && recs[i] == r;
      assert recs[1..][i - 1] == r;
      WithPathComplete(recs[1..], r);
    }
  }
}
