/** The configuration editor: an `EditConfig` object owns the record
    sequence `cwp` built from a configuration text and edits it in place.
    Each edit request is compact text that `_ec_text_convert` turns into
    records with indentation restored, and each method is proved to leave
    exactly the sequence that the functions of `EditSpec` describe. */
module Editor {
  import opened Text
  import opened Records
  import opened PathIndex
  import opened Convert
  import opened EditSpec

  /** The first record of a converted request, `_ec_text_convert(...)[0]`. */
  function FirstLine(text: string, stepSpace: int, comments: seq<string>, sep: string): (r: Result<Record>)
    ensures r.Failure? <==> sep == "" || SplitLines(Strip(text)) == []
    ensures SplitLines(Strip(text)) == [] ==> r == Failure(NoPatternLine)
    ensures sep == "" && SplitLines(Strip(text)) != [] ==> r == Failure(EmptySeparator)
    ensures r.Success? ==> r.value == ConvertLine(SplitLines(Strip(text))[0], stepSpace, comments, sep)
  {
    match EcTextConvert(text, stepSpace, comments, sep)
    case Failure(e) => Failure(e)
    case Success(recs) => if recs == [] then Failure(NoPatternLine) else Success(recs[0])
  }

  /** The scan of `delete_serial_lines` for the first window that passes
      the serial test. */
  method FindSerial(m: Matcher, cwp: seq<Record>, pat: seq<Record>, regex: bool) returns (hit: Option<nat>)
    requires pat != []
    ensures hit == FirstHit(m, cwp, pat, regex, 0)
  {
    var i := 0;
    while i < |cwp|
      invariant 0 <= i <= |cwp|
      invariant FirstHit(m, cwp, pat, regex, i) == FirstHit(m, cwp, pat, regex, 0)
    {
      if SerialHit(m, cwp, pat, regex, i) {
        return Some(i);
      }
      i := i + 1;
    }
    return None;
  }

  /** The scan of the regular-expression mode of `delete_between_lines`:
      the first start match is kept, and the scan ends at the first end
      match from there, which may be the start line itself. */
  method FindRange(m: Matcher, cwp: seq<Record>, s: Record, e: Record) returns (range: Option<(nat, nat)>)
    ensures range == RegexRange(m, cwp, s, e)
  {
    var start: Option<nat> := None;
    var i := 0;
    while i < |cwp|
      invariant 0 <= i <= |cwp|
      invariant start.None? ==> FirstMatch(m, s, cwp, i) == FirstMatch(m, s, cwp, 0)
      invariant start.Some? ==> start.value < i && FirstMatch(m, s, cwp, 0) == Some(start.value)
      invariant start.Some? ==> FirstMatch(m, e, cwp, i) == FirstMatch(m, e, cwp, start.value)
    {
      if start.None? && PairMatch(m, s, cwp[i]) {
        start := Some(i);
      }
      if start.Some? && PairMatch(m, e, cwp[i]) {
        return Some((start.value, i));
      }
      i := i + 1;
    }
    return None;
  }

  /** The first loop of `add_after_lines` and `add_before_lines`: the
      insertion points, collected in the index space before the edit. */
  method CollectPoints(m: Matcher, cwp: seq<Record>, pat: seq<Record>, regex: bool, multiple: bool, after: bool)
    returns (pts: seq<nat>)
    requires pat != []
    ensures pts == Points(m, cwp, pat, regex, multiple, after, 0)
  {
    pts := [];
    var i := 0;
    while i < |cwp|
      invariant 0 <= i <= |cwp|
      invariant pts + Points(m, cwp, pat, regex, multiple, after, i) == Points(m, cwp, pat, regex, multiple, after, 0)
    {
      if SerialHit(m, cwp, pat, regex, i) {
        var rest := Points(m, cwp, pat, regex, multiple, after, i + 1);
        assert (pts + [Anchor(i, |pat|, after)]) + rest == pts + ([Anchor(i, |pat|, after)] + rest);
        pts := pts + [Anchor(i, |pat|, after)];
        if !multiple {
          assert Points(m, cwp, pat, regex, multiple, after, i) == [Anchor(i, |pat|, after)];
          return;
        }
      }
      i := i + 1;
    }
  }

  /** The first loop of `replace_line`: the indices to overwrite. */
  method CollectReplace(m: Matcher, cwp: seq<Record>, oldRec: Record, regex: bool, multiple: bool)
    returns (idx: seq<nat>)
    ensures idx == ReplaceIndices(m, cwp, oldRec, regex, multiple, 0)
  {
    idx := [];
    var i: nat := 0;
    while i < |cwp|
      invariant 0 <= i <= |cwp|
      invariant idx + ReplaceIndices(m, cwp, oldRec, regex, multiple, i) == ReplaceIndices(m, cwp, oldRec, regex, multiple, 0)
    {
      ghost var before := idx;
      ghost var rest := ReplaceIndices(m, cwp, oldRec, regex, multiple, i + 1);
      var rx := regex && PairMatch(m, oldRec, cwp[i]);
      var lit := cwp[i] == oldRec;
      ghost var a: seq<nat> := if rx then [i] else [];
      ghost var b: seq<nat> := if lit then [i] else [];
      ReplaceIndicesAt(m, cwp, oldRec, regex, multiple, i);
      if rx {
        idx := idx + [i];
        if !multiple {
          return;
        }
      }
      if lit {
        idx := idx + [i];
        if !multiple {
          return;
        }
      }
      assert idx == before + a + b;
      AppendSteps(before, a, b, rest);
      i := i + 1;
    }
  }

  lemma {:induction false} AppendSteps(before: seq<nat>, a: seq<nat>, b: seq<nat>, rest: seq<nat>)
    ensures before + a + b + rest == before + (a + b + rest)
  {
  }

  lemma {:induction false} OverwriteStep(s: seq<Record>, idx: seq<nat>, k: nat, r: Record)
    requires k < |idx| && idx[k] < |s|
    ensures Overwrite(s, idx[..k], r)[idx[k] := r] == Overwrite(s, idx[..k + 1], r)
  {
    assert forall j :: j in idx[..k + 1] <==> j in idx[..k] || j == idx[k] by {
      assert idx[..k + 1] == idx[..k] + [idx[k]];
    }
  }

  /** `cwp_update` after an edit that keeps every line well formed (not
      blank, right-stripped, free of newlines and tabs) succeeds and keeps
      every line, in order: only the paths are derived afresh. */
  lemma {:induction false} UpdateKeepsLines(cwp: seq<Record>, comments: seq<string>, sep: string)
    requires forall k :: 0 <= k < |cwp| ==>
      && !IsBlank(cwp[k].value) && RStrip(cwp[k].value) == cwp[k].value
      && '\n' !in cwp[k].value && '\t' !in cwp[k].value
    ensures Build(JoinLines(Values(cwp)), comments, sep).Success?
    ensures Values(Build(JoinLines(Values(cwp)), comments, sep).value) == Values(cwp)
  {
    var vals := Values(cwp);
    JoinAvoids(vals, "\n", '\t');
    if vals != [] {
      assert vals[|vals| - 1] != "" by {
        assert !IsBlank(vals[|vals| - 1]);
      }
    }
    SplitLinesJoin(vals);
    PrepareFixed(vals);
    BuildRoundTrip(JoinLines(vals), comments, sep);
  }

  /** The values of records without a newline, the last one not empty,
      are the lines of their newline join. */
  lemma {:induction false} ValuesLines(recs: seq<Record>)
    ensures (forall k :: 0 <= k < |recs| ==> '\n' !in recs[k].value) && (recs == [] || recs[|recs| - 1].value != "")
      ==> SplitLines(JoinLines(Values(recs))) == Values(recs)
  {
    if (forall k :: 0 <= k < |recs| ==> '\n' !in recs[k].value) && (recs == [] || recs[|recs| - 1].value != "") {
      SplitLinesJoin(Values(recs));
    }
  }

  class EditConfig {
    const configText: string
    const stepSpace: int
    const comments: seq<string>
    const sep: string
    /** The records: every configuration line with its ancestor path. */
    var cwp: seq<Record>

    constructor (configText: string, stepSpace: int, comments: seq<string>, sep: string, cwp: seq<Record>)
      ensures this.configText == configText && this.stepSpace == stepSpace
      ensures this.comments == comments && this.sep == sep && this.cwp == cwp
    {
      this.configText := configText;
      this.stepSpace := stepSpace;
      this.comments := comments;
      this.sep := sep;
      this.cwp := cwp;
    }

    /** `EditConfig(config_text, step_space, comment_tuple, sep)` with its
        `__post_init__`: the records are built from the text, which fails
        on a tab. Right after construction the text view is the text's
        non-blank lines, right-stripped, in order. */
    static method Create(configText: string, stepSpace: int, comments: seq<string>, sep: string)
      returns (r: Result<EditConfig>)
      ensures r.Failure? <==> '\t' in configText
      ensures r.Failure? ==> r.error == TabCharacter
      ensures r.Success? ==> fresh(r.value)
      ensures r.Success? ==>
        && r.value.configText == configText && r.value.stepSpace == stepSpace
        && r.value.comments == comments && r.value.sep == sep
        && r.value.cwp == Build(configText, comments, sep).value
        && SplitLines(r.value.CwpToText()) == Prepare(SplitLines(configText))
    {
      var built := ConfigWithParent(configText, comments, sep);
      match built
      case Failure(e) =>
        r := Failure(e);
      case Success(recs) =>
        BuildRoundTrip(configText, comments, sep);
        var ec := new EditConfig(configText, stepSpace, comments, sep, recs);
        r := Success(ec);
    }

    /** `cwp_to_text`: the lines, with their leading spaces, joined by
        newlines; splitting the text at newlines gives the lines back when
        none holds a newline and the last is not empty. */
    function CwpToText(): (text: string)
      reads this
      ensures (forall k :: 0 <= k < |cwp| ==> '\n' !in cwp[k].value) && (cwp == [] || cwp[|cwp| - 1].value != "")
        ==> SplitLines(text) == Values(cwp)
    {
      ValuesLines(cwp);
      JoinLines(Values(cwp))
    }

    /** `cwp_update`: the records are rebuilt from the text view, which
        fails, changing nothing, when a line holds a tab. */
    method CwpUpdate() returns (out: Outcome)
      modifies this
      ensures var text := old(CwpToText());
        && ('\t' in text ==> out == Fail(TabCharacter) && cwp == old(cwp))
        && ('\t' !in text ==> out == Pass && cwp == Build(text, comments, sep).value)
    {
      var built := ConfigWithParent(CwpToText(), comments, sep);
      match built
      case Failure(e) =>
        out := Fail(e);
      case Success(recs) =>
        cwp := recs;
        out := Pass;
    }

    /** `cwp_search`: the records, values left-stripped, whose path and
        value match the two patterns, in order. */
    function CwpSearch(m: Matcher, path: string, value: string): (found: seq<Record>)
      reads this
      ensures forall r :: r in found <==> r in NoSpace(cwp) && m(path, r.path) && m(value, r.value)
      ensures forall r :: multiset(found)[r] == if m(path, r.path) && m(value, r.value) then multiset(NoSpace(cwp))[r] else 0
      ensures Sub(found, NoSpace(cwp))
    {
      SelectExact(m, NoSpace(cwp), path, value);
      Search(m, cwp, path, value)
    }

    /** `cwp_serial_check`: whether some window of the compact texts
        matches the stripped pattern lines one by one. */
    function CwpSerialCheck(m: Matcher, text: string): (r: Result<bool>)
      reads this
      ensures var pats := PatternLines(SplitLines(text));
        && (pats == [] ==> r == if cwp == [] then Success(false) else Failure(NoPatternLine))
        && (pats != [] ==>
              r == Success(exists i :: 0 <= i < |cwp| && TextWindow(m, CompactTexts(cwp, sep), pats, i)))
    {
      SerialCheckExact(m, cwp, text, sep);
      SerialCheck(m, cwp, text, sep)
    }

    /** `delete_serial_lines`: the first window that passes the serial test
        is cut out; with `multiple` the scan restarts from the beginning
        until none is left. */
    method DeleteSerialLines(m: Matcher, text: string, regex: bool, multiple: bool) returns (out: Outcome)
      modifies this
      ensures var conv := EcTextConvert(text, stepSpace, comments, sep);
        && (conv.Failure? ==> out == Fail(conv.error) && cwp == old(cwp))
        && (conv.Success? && conv.value == [] ==>
              cwp == old(cwp) && out == if old(cwp) == [] then Pass else Fail(NoPatternLine))
        && (conv.Success? && conv.value != [] ==>
              out == Pass && cwp == DeleteSerial(m, old(cwp), conv.value, regex, multiple))
    {
      var conv := EcTextConvert(text, stepSpace, comments, sep);
      if conv.Failure? {
        return Fail(conv.error);
      }
      var pat := conv.value;
      if pat == [] {
        if cwp != [] {
          return Fail(NoPatternLine);
        }
        return Pass;
      }
      DeleteSerialRanges(m, pat, regex, multiple);
      return Pass;
    }

    /** The rounds of `delete_serial_lines` once the pattern is known: cut
        the block at the first hit, once or until none is left. */
    method DeleteSerialRanges(m: Matcher, pat: seq<Record>, regex: bool, multiple: bool)
      requires pat != []
      modifies this
      ensures cwp == DeleteSerial(m, old(cwp), pat, regex, multiple)
    {
      ghost var target := DeleteSerial(m, cwp, pat, regex, multiple);
      var cont := true;
      while cont
        invariant cont ==> DeleteSerial(m, cwp, pat, regex, multiple) == target
        invariant cont ==> multiple || cwp == old(cwp)
        invariant !cont ==> cwp == target
        decreases |cwp| + (if cont then 1 else 0)
      {
        cont := false;
        var hit := FindSerial(m, cwp, pat, regex);
        if hit.Some? {
          DeleteSerialStep(m, cwp, pat, regex, multiple, hit.value);
          cwp := DeleteRange(cwp, hit.value, |pat|);
          cont := multiple;
        }
      }
    }

    /** `delete_between_lines`: the inclusive range from a start record to
        an end record is cut out, by the regular-expression scan or by
        literal lookup. */
    method DeleteBetweenLines(m: Matcher, startText: string, endText: string, regex: bool, multiple: bool)
      returns (out: Outcome)
      modifies this
      ensures var s := FirstLine(startText, stepSpace, comments, sep);
        var e := FirstLine(endText, stepSpace, comments, sep);
        && (s.Failure? ==> out == Fail(s.error) && cwp == old(cwp))
        && (s.Success? && e.Failure? ==> out == Fail(e.error) && cwp == old(cwp))
        && (s.Success? && e.Success? && regex ==>
              out == Pass && cwp == DeleteBetweenRegex(m, old(cwp), s.value, e.value, multiple))
        && (s.Success? && e.Success? && !regex ==>
              Edited(cwp, out) == DeleteBetweenLiteral(old(cwp), s.value, e.value, multiple))
    {
      var sl := FirstLine(startText, stepSpace, comments, sep);
      if sl.Failure? {
        return Fail(sl.error);
      }
      var el := FirstLine(endText, stepSpace, comments, sep);
      if el.Failure? {
        return Fail(el.error);
      }
      if regex {
        DeleteRegexRanges(m, sl.value, el.value, multiple);
        return Pass;
      }
      out := DeleteLiteralRanges(sl.value, el.value, multiple);
    }

    /** The regular-expression loop of `delete_between_lines`: the range
        found by the scan is cut out, and with `multiple` the scan restarts
        until none is found. */
    method DeleteRegexRanges(m: Matcher, s: Record, e: Record, multiple: bool)
      modifies this
      ensures cwp == DeleteBetweenRegex(m, old(cwp), s, e, multiple)
    {
      ghost var target := DeleteBetweenRegex(m, cwp, s, e, multiple);
      var cont := true;
      while cont
        invariant cont ==> DeleteBetweenRegex(m, cwp, s, e, multiple) == target
        invariant cont ==> multiple || cwp == old(cwp)
        invariant !cont ==> cwp == target
        decreases |cwp| + (if cont then 1 else 0)
      {
        cont := false;
        var range := FindRange(m, cwp, s, e);
        if range.Some? {
          var (a, b) := range.value;
          DeleteBetweenRegexStep(m, cwp, s, e, multiple, a, b);
          cwp := cwp[..a] + cwp[b + 1..];
          if multiple {
            cont := true;
          }
        }
      }
    }

    /** The literal loop of `delete_between_lines`: while the start record
        is present, the range from its first occurrence to the first end
        record after it is cut out; a missing end record is an error. */
    method DeleteLiteralRanges(s: Record, e: Record, multiple: bool) returns (out: Outcome)
      modifies this
      ensures Edited(cwp, out) == DeleteBetweenLiteral(old(cwp), s, e, multiple)
    {
      ghost var target := DeleteBetweenLiteral(cwp, s, e, multiple);
      while s in cwp
        invariant DeleteBetweenLiteral(cwp, s, e, multiple) == target
        decreases |cwp|
      {
        var a := IndexFrom(cwp, s, 0).value;
        var b := IndexFrom(cwp, e, a);
        if b.None? {
          return Fail(EndLineNotFound);
        }
        cwp := cwp[..a] + cwp[b.value + 1..];
        if !multiple {
          return Pass;
        }
      }
      LiteralBetweenAbsent(cwp, s, e, multiple);
      return Pass;
    }

    /** `add_after_lines` (`after`) and `add_before_lines`: the converted
        block is inserted after, or before, every matched window (the
        first only without `multiple`); the points are collected first and
        the insertions then shifted by the blocks already inserted. */
    method AddLines(m: Matcher, addText: string, anchorText: string, regex: bool, multiple: bool, after: bool)
      returns (out: Outcome)
      modifies this
      ensures var add := EcTextConvert(addText, stepSpace, comments, sep);
        var anchor := EcTextConvert(anchorText, stepSpace, comments, sep);
        && (add.Failure? ==> out == Fail(add.error) && cwp == old(cwp))
        && (add.Success? && anchor.Failure? ==> out == Fail(anchor.error) && cwp == old(cwp))
        && (add.Success? && anchor.Success? && anchor.value == [] ==>
              cwp == old(cwp) && out == if old(cwp) == [] then Pass else Fail(NoPatternLine))
        && (add.Success? && anchor.Success? && anchor.value != [] ==>
              out == Pass &&
              cwp == Spliced(old(cwp), Points(m, old(cwp), anchor.value, regex, multiple, after, 0), add.value))
    {
      var addConv := EcTextConvert(addText, stepSpace, comments, sep);
      if addConv.Failure? {
        return Fail(addConv.error);
      }
      var anchorConv := EcTextConvert(anchorText, stepSpace, comments, sep);
      if anchorConv.Failure? {
        return Fail(anchorConv.error);
      }
      var add, pat := addConv.value, anchorConv.value;
      if pat == [] {
        if cwp != [] {
          return Fail(NoPatternLine);
        }
        return Pass;
      }
      var pts := CollectPoints(m, cwp, pat, regex, multiple, after);
      PointsIncrease(m, cwp, pat, regex, multiple, after, 0);
      InsertAt(pts, add);
      return Pass;
    }

    /** The second loop of the add methods: a copy of `add` goes in at each
        collected point, shifted by the copies already inserted before it. */
    method InsertAt(pts: seq<nat>, add: seq<Record>)
      requires Increasing(pts)
      modifies this
      ensures cwp == Spliced(old(cwp), pts, add)
    {
      ghost var c0 := cwp;
      var offset := 0;
      for k := 0 to |pts|
        invariant cwp == Spliced(c0, pts[..k], add) && offset == k * |add|
      {
        InsertNext(c0, pts, k, add);
        var exact := pts[k] + offset;
        cwp := Insert(cwp, exact, add);
        offset := offset + |add|;
      }
      assert pts[..|pts|] == pts;
    }

    /** `add_after_lines`. */
    method AddAfterLines(m: Matcher, addText: string, afterText: string, regex: bool, multiple: bool)
      returns (out: Outcome)
      modifies this
      ensures var add := EcTextConvert(addText, stepSpace, comments, sep);
        var anchor := EcTextConvert(afterText, stepSpace, comments, sep);
        && (add.Failure? ==> out == Fail(add.error) && cwp == old(cwp))
        && (add.Success? && anchor.Failure? ==> out == Fail(anchor.error) && cwp == old(cwp))
        && (add.Success? && anchor.Success? && anchor.value == [] ==>
              cwp == old(cwp) && out == if old(cwp) == [] then Pass else Fail(NoPatternLine))
        && (add.Success? && anchor.Success? && anchor.value != [] ==>
              out == Pass &&
              cwp == Spliced(old(cwp), Points(m, old(cwp), anchor.value, regex, multiple, true, 0), add.value))
    {
      out := AddLines(m, addText, afterText, regex, multiple, true);
    }

    /** `add_before_lines`. */
    method AddBeforeLines(m: Matcher, addText: string, beforeText: string, regex: bool, multiple: bool)
      returns (out: Outcome)
      modifies this
      ensures var add := EcTextConvert(addText, stepSpace, comments, sep);
        var anchor := EcTextConvert(beforeText, stepSpace, comments, sep);
        && (add.Failure? ==> out == Fail(add.error) && cwp == old(cwp))
        && (add.Success? && anchor.Failure? ==> out == Fail(anchor.error) && cwp == old(cwp))
        && (add.Success? && anchor.Success? && anchor.value == [] ==>
              cwp == old(cwp) && out == if old(cwp) == [] then Pass else Fail(NoPatternLine))
        && (add.Success? && anchor.Success? && anchor.value != [] ==>
              out == Pass &&
              cwp == Spliced(old(cwp), Points(m, old(cwp), anchor.value, regex, multiple, false, 0), add.value))
    {
      out := AddLines(m, addText, beforeText, regex, multiple, false);
    }

    /** `replace_line`: every collected record is overwritten, path and
        value, by the new record. */
    method ReplaceLine(m: Matcher, oldText: string, newText: string, regex: bool, multiple: bool)
      returns (out: Outcome)
      modifies this
      ensures var o := FirstLine(oldText, stepSpace, comments, sep);
        var n := FirstLine(newText, stepSpace, comments, sep);
        && (o.Failure? ==> out == Fail(o.error) && cwp == old(cwp))
        && (o.Success? && n.Failure? ==> out == Fail(n.error) && cwp == old(cwp))
        && (o.Success? && n.Success? ==>
              out == Pass && cwp == Replace(m, old(cwp), o.value, n.value, regex, multiple))
    {
      var ol := FirstLine(oldText, stepSpace, comments, sep);
      if ol.Failure? {
        return Fail(ol.error);
      }
      var nl := FirstLine(newText, stepSpace, comments, sep);
      if nl.Failure? {
        return Fail(nl.error);
      }
      var oldRec, newRec := ol.value, nl.value;
      var idx := CollectReplace(m, cwp, oldRec, regex, multiple);
      ReplaceIndicesSound(m, cwp, oldRec, regex, multiple, 0);
      OverwriteAt(idx, newRec);
      return Pass;
    }

    /** The second loop of `replace_line`: every collected index gets the
        new record. */
    method OverwriteAt(idx: seq<nat>, newRec: Record)
      requires forall k :: 0 <= k < |idx| ==> idx[k] < |cwp|
      modifies this
      ensures cwp == Overwrite(old(cwp), idx, newRec)
    {
      ghost var c0 := cwp;
      for k := 0 to |idx|
        invariant cwp == Overwrite(c0, idx[..k], newRec)
      {
        OverwriteStep(c0, idx, k, newRec);
        cwp := cwp[idx[k] := newRec];
      }
      assert idx[..|idx|] == idx;
    }
  }
}
