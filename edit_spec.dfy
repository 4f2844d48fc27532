/** What the editing operations of `EditConfig` do to the record sequence,
    stated as functions of the sequence before the edit, with the
    properties each operation promises.

    Regular-expression matching is a parameter: `m(pattern, subject)` holds
    when `re.match(pattern, subject)` finds a match at the start of
    `subject`. */
module EditSpec {
  import opened Text
  import opened Records

  type Matcher = (string, string) -> bool

  /** Both the path and the value of a record match the pattern record. */
  predicate PairMatch(m: Matcher, pat: Record, r: Record) {
    m(pat.path, r.path) && m(pat.value, r.value)
  }

  /** The regular-expression window test at index `i`: every pattern record
      matches the record it is paired with, where pairing stops at the end
      of the sequence as `zip` does. */
  predicate RegexWindow(m: Matcher, cwp: seq<Record>, pat: seq<Record>, i: nat) {
    forall k :: 0 <= k < |pat| && i + k < |cwp| ==> PairMatch(m, pat[k], cwp[i + k])
  }

  /** The block occurs literally at index `i`. */
  predicate Occurs(cwp: seq<Record>, pat: seq<Record>, i: nat) {
    i + |pat| <= |cwp| && cwp[i..i + |pat|] == pat
  }

  /** The test the serial delete and the add scans apply at index `i`. In
      regular-expression mode a first record that matches decides for the
      regular-expression window; only otherwise is the literal block tried. */
  predicate SerialHit(m: Matcher, cwp: seq<Record>, pat: seq<Record>, regex: bool, i: nat)
    requires pat != [] && i < |cwp|
  {
    if regex && PairMatch(m, pat[0], cwp[i]) then RegexWindow(m, cwp, pat, i)
    else Occurs(cwp, pat, i)
  }

  /** The first index at or after `from` where the serial test holds. */
  function FirstHit(m: Matcher, cwp: seq<Record>, pat: seq<Record>, regex: bool, from: nat): (r: Option<nat>)
    requires pat != []
    ensures r.Some? ==> from <= r.value < |cwp| && SerialHit(m, cwp, pat, regex, r.value)
    ensures r.Some? ==> forall j :: from <= j < r.value ==> !SerialHit(m, cwp, pat, regex, j)
    ensures r.None? ==> forall j :: from <= j < |cwp| ==> !SerialHit(m, cwp, pat, regex, j)
    decreases |cwp| - from
  {
    if from >= |cwp| then None
    else if SerialHit(m, cwp, pat, regex, from) then Some(from)
    else FirstHit(m, cwp, pat, regex, from + 1)
  }

  /** `del cwp[i:i+n]`: the slice end is cut off at the length. */
  function DeleteRange(cwp: seq<Record>, i: nat, n: nat): (r: seq<Record>)
    requires i <= |cwp|
    ensures |r| == |cwp| - (if i + n <= |cwp| then n else |cwp| - i)
  {
    cwp[..i] + cwp[if i + n <= |cwp| then i + n else |cwp|..]
  }

  /** The records left by `delete_serial_lines` for a converted block: the
      first window that passes the serial test is removed, and with
      `multiple` the scan restarts from the beginning until none is left. */
  function DeleteSerial(m: Matcher, cwp: seq<Record>, pat: seq<Record>, regex: bool, multiple: bool): seq<Record>
    requires pat != []
    decreases |cwp|
  {
    match FirstHit(m, cwp, pat, regex, 0)
    case None => cwp
    case Some(i) =>
      var rest := DeleteRange(cwp, i, |pat|);
      if multiple then DeleteSerial(m, rest, pat, regex, multiple) else rest
  }

  /** One round of `delete_serial_lines`: the block at the first hit is cut,
      and with `multiple` the rounds go on from what is left. */
  lemma {:induction false} DeleteSerialStep(m: Matcher, cwp: seq<Record>, pat: seq<Record>, regex: bool, multiple: bool, i: nat)
    requires pat != [] && FirstHit(m, cwp, pat, regex, 0) == Some(i)
    ensures i < |cwp|
    ensures var rest := DeleteRange(cwp, i, |pat|);
      |rest| < |cwp| &&
      DeleteSerial(m, cwp, pat, regex, multiple) == if multiple then DeleteSerial(m, rest, pat, regex, multiple) else rest
  {
  }

  // ---------------------------------------------------------------------
  // Subsequences

  lemma {:induction false} SubRefl(a: seq<Record>)
    ensures Sub(a, a)
    decreases |a|
  {
    if a != [] {
      SubRefl(a[1..]);
    }
  }

  /** Leaving out a run in front keeps a subsequence. */
  lemma {:induction false} SubSkip(a: seq<Record>, b: seq<Record>, d: seq<Record>)
    requires Sub(a, b)
    ensures Sub(a, d + b)
    decreases |d|
  {
    if d != [] {
      SubSkip(a, b, d[1..]);
      assert (d + b)[1..] == d[1..] + b;
      assert Sub(a, (d + b)[1..]);
    } else {
      assert d + b == b;
    }
  }

  /** A common prefix keeps a subsequence. */
  lemma {:induction false} SubPrefix(p: seq<Record>, a: seq<Record>, b: seq<Record>)
    requires Sub(a, b)
    ensures Sub(p + a, p + b)
    decreases |p|
  {
    if p != [] {
      SubPrefix(p[1..], a, b);
      assert (p + a)[1..] == p[1..] + a;
      assert (p + b)[1..] == p[1..] + b;
      assert (p + a)[0] == (p + b)[0];
      assert Sub((p + a)[1..], (p + b)[1..]);
    } else {
      assert p + a == a && p + b == b;
    }
  }

  lemma {:induction false} SubTrans(a: seq<Record>, b: seq<Record>, c: seq<Record>)
    requires Sub(a, b) && Sub(b, c)
    ensures Sub(a, c)
    decreases |c|
  {
    if a != [] {
      if Sub(b, c[1..]) {
        SubTrans(a, b, c[1..]);
      } else if a[0] == b[0] && Sub(a[1..], b[1..]) {
        SubTrans(a[1..], b[1..], c[1..]);
      } else {
        SubTrans(a, b[1..], c[1..]);
      }
    }
  }

  /** A common suffix keeps a subsequence. */
  lemma {:induction false} SubSuffix(a: seq<Record>, b: seq<Record>, t: seq<Record>)
    requires Sub(a, b)
    ensures Sub(a + t, b + t)
    decreases |b|
  {
    if a == [] {
      SubRefl(t);
      SubSkip(t, t, b);
      assert a + t == t;
    } else {
      assert b != [];
      var at, bt := a + t, b + t;
      assert at[0] == a[0] && bt[0] == b[0];
      assert bt[1..] == b[1..] + t;
      if a[0] == b[0] && Sub(a[1..], b[1..]) {
        SubSuffix(a[1..], b[1..], t);
        assert at[1..] == a[1..] + t;
      } else {
        SubSuffix(a, b[1..], t);
      }
    }
  }

  /** Cutting a range out of a sequence leaves a subsequence of it. */
  lemma {:induction false} DeleteRangeSub(cwp: seq<Record>, i: nat, n: nat)
    requires i <= |cwp|
    ensures Sub(DeleteRange(cwp, i, n), cwp)
  {
    var j := if i + n <= |cwp| then i + n else |cwp|;
    var pre, mid, tail := cwp[..i], cwp[i..j], cwp[j..];
    assert DeleteRange(cwp, i, n) == pre + tail;
    assert mid + tail == cwp[i..];
    assert cwp == pre + cwp[i..];
    SubRefl(tail);
    SubSkip(tail, tail, mid);
    SubPrefix(pre, tail, mid + tail);
  }

  // ---------------------------------------------------------------------
  // Properties of the serial delete

  /** Every serial delete only leaves records out: the others keep their order. */
  lemma {:induction false} DeleteSerialKeepsOrder(m: Matcher, cwp: seq<Record>, pat: seq<Record>, regex: bool, multiple: bool)
    requires pat != []
    ensures Sub(DeleteSerial(m, cwp, pat, regex, multiple), cwp)
    decreases |cwp|
  {
    match FirstHit(m, cwp, pat, regex, 0)
    case None => SubRefl(cwp);
    case Some(i) =>
      var rest := DeleteRange(cwp, i, |pat|);
      DeleteRangeSub(cwp, i, |pat|);
      if multiple {
        DeleteSerialKeepsOrder(m, rest, pat, regex, multiple);
        SubTrans(DeleteSerial(m, rest, pat, regex, multiple), rest, cwp);
      }
  }

  /** Without `multiple` at most one window goes, the first that passes the
      test, and it is at most as long as the block (shorter only where a
      regular-expression window runs off the end). */
  lemma {:induction false} DeleteSerialOnce(m: Matcher, cwp: seq<Record>, pat: seq<Record>, regex: bool)
    requires pat != []
    ensures var r := DeleteSerial(m, cwp, pat, regex, false);
      || (r == cwp && forall j :: 0 <= j < |cwp| ==> !SerialHit(m, cwp, pat, regex, j))
      || exists i :: 0 <= i < |cwp| && SerialHit(m, cwp, pat, regex, i) &&
           (forall j :: 0 <= j < i ==> !SerialHit(m, cwp, pat, regex, j)) &&
           r == cwp[..i] + cwp[if i + |pat| <= |cwp| then i + |pat| else |cwp|..]
  {
  }

  /** Without `multiple` and in literal mode, the result is the sequence
      with the block's first occurrence cut out, or the sequence itself when
      the block does not occur. */
  lemma {:induction false} LiteralDeleteSerialOnce(m: Matcher, cwp: seq<Record>, pat: seq<Record>)
    requires pat != []
    ensures var r := DeleteSerial(m, cwp, pat, false, false);
      || (r == cwp && forall j :: 0 <= j < |cwp| ==> !Occurs(cwp, pat, j))
      || exists i :: 0 <= i <= |r| && cwp == r[..i] + pat + r[i..] &&
           forall j :: 0 <= j < i ==> !Occurs(cwp, pat, j)
  {
    var r := DeleteSerial(m, cwp, pat, false, false);
    match FirstHit(m, cwp, pat, false, 0)
    case None =>
      assert forall j :: 0 <= j < |cwp| ==> !Occurs(cwp, pat, j) by {
        forall j | 0 <= j < |cwp| ensures !Occurs(cwp, pat, j) {
          assert !SerialHit(m, cwp, pat, false, j);
        }
      }
    case Some(i) =>
      assert Occurs(cwp, pat, i);
      assert r == cwp[..i] + cwp[i + |pat|..];
      assert r[..i] == cwp[..i] && r[i..] == cwp[i + |pat|..];
      assert cwp == r[..i] + pat + r[i..];
      assert forall j :: 0 <= j < i ==> !Occurs(cwp, pat, j) by {
        forall j | 0 <= j < i ensures !Occurs(cwp, pat, j) {
          assert !SerialHit(m, cwp, pat, false, j);
        }
      }
  }

  /** With `multiple` the result holds no window that passes the test
      (the scan from the start finds none, so none exists). */
  lemma {:induction false} DeleteSerialExhaustive(m: Matcher, cwp: seq<Record>, pat: seq<Record>, regex: bool)
    requires pat != []
    ensures FirstHit(m, DeleteSerial(m, cwp, pat, regex, true), pat, regex, 0).None?
    decreases |cwp|
  {
    match FirstHit(m, cwp, pat, regex, 0)
    case None =>
    case Some(i) =>
      var rest := DeleteRange(cwp, i, |pat|);
      assert DeleteSerial(m, cwp, pat, regex, true) == DeleteSerial(m, rest, pat, regex, true);
      DeleteSerialExhaustive(m, rest, pat, regex);
  }

  /** Hence deleting all windows a second time changes nothing. */
  lemma {:induction false} DeleteSerialIdempotent(m: Matcher, cwp: seq<Record>, pat: seq<Record>, regex: bool)
    requires pat != []
    ensures var r := DeleteSerial(m, cwp, pat, regex, true);
      DeleteSerial(m, r, pat, regex, true) == r
  {
    DeleteSerialExhaustive(m, cwp, pat, regex);
  }

  // ---------------------------------------------------------------------
  // Range delete

  /** The records an edit leaves behind, with its outcome. A failed edit
      keeps what it had already changed. */
  datatype Edited = Edited(cwp: seq<Record>, out: Outcome)

  /** The first index at or after `from` whose record matches `p`. */
  function FirstMatch(m: Matcher, p: Record, cwp: seq<Record>, from: nat): (r: Option<nat>)
    ensures r.Some? ==> from <= r.value < |cwp| && PairMatch(m, p, cwp[r.value])
    ensures r.Some? ==> forall j :: from <= j < r.value ==> !PairMatch(m, p, cwp[j])
    ensures r.None? ==> forall j :: from <= j < |cwp| ==> !PairMatch(m, p, cwp[j])
    decreases |cwp| - from
  {
    if from >= |cwp| then None
    else if PairMatch(m, p, cwp[from]) then Some(from)
    else FirstMatch(m, p, cwp, from + 1)
  }

  /** The first index at or after `from` that holds `x` (`list.index`). */
  function IndexFrom(cwp: seq<Record>, x: Record, from: nat): (r: Option<nat>)
    ensures r.Some? ==> from <= r.value < |cwp| && cwp[r.value] == x
    ensures r.Some? ==> forall j :: from <= j < r.value ==> cwp[j] != x
    ensures r.None? ==> forall j :: from <= j < |cwp| ==> cwp[j] != x
    decreases |cwp| - from
  {
    if from >= |cwp| then None
    else if cwp[from] == x then Some(from)
    else IndexFrom(cwp, x, from + 1)
  }

  /** The inclusive range one regular-expression scan of
      `delete_between_lines` removes: from the first record that matches the
      start to the first record at or after it that matches the end. */
  function RegexRange(m: Matcher, cwp: seq<Record>, s: Record, e: Record): (r: Option<(nat, nat)>)
    ensures r.Some? ==> r.value.0 <= r.value.1 < |cwp|
  {
    match FirstMatch(m, s, cwp, 0)
    case None => None
    case Some(a) =>
      match FirstMatch(m, e, cwp, a)
      case None => None
      case Some(b) => Some((a, b))
  }

  /** The records left by the regular-expression mode of `delete_between_lines`. */
  function DeleteBetweenRegex(m: Matcher, cwp: seq<Record>, s: Record, e: Record, multiple: bool): seq<Record>
    decreases |cwp|
  {
    match RegexRange(m, cwp, s, e)
    case None => cwp
    case Some((a, b)) =>
      var rest := cwp[..a] + cwp[b + 1..];
      if multiple then DeleteBetweenRegex(m, rest, s, e, multiple) else rest
  }

  /** One round of the regular-expression mode: the range found is cut, and
      with `multiple` the rounds go on from what is left. */
  lemma {:induction false} DeleteBetweenRegexStep(m: Matcher, cwp: seq<Record>, s: Record, e: Record, multiple: bool, a: nat, b: nat)
    requires RegexRange(m, cwp, s, e) == Some((a, b))
    ensures a <= b < |cwp|
    ensures var rest := cwp[..a] + cwp[b + 1..];
      |rest| < |cwp| &&
      DeleteBetweenRegex(m, cwp, s, e, multiple) == if multiple then DeleteBetweenRegex(m, rest, s, e, multiple) else rest
  {
  }

  /** The records and outcome of the literal mode of `delete_between_lines`:
      from the first occurrence of the start record to the first occurrence
      of the end record at or after it, repeated while the start record is
      left when `multiple` is set. A start without an end is an error. */
  function DeleteBetweenLiteral(cwp: seq<Record>, s: Record, e: Record, multiple: bool): Edited
    decreases |cwp|
  {
    match IndexFrom(cwp, s, 0)
    case None => Edited(cwp, Pass)
    case Some(a) =>
      match IndexFrom(cwp, e, a)
      case None => Edited(cwp, Fail(EndLineNotFound))
      case Some(b) =>
        var rest := cwp[..a] + cwp[b + 1..];
        if multiple then DeleteBetweenLiteral(rest, s, e, multiple) else Edited(rest, Pass)
  }

  // ---------------------------------------------------------------------
  // Properties of the range delete

  /** A regular-expression scan finds a range exactly when some record that
      matches the start is followed, at or after it, by one that matches
      the end; the range found starts at the first start match and ends at
      the first end match from there. */
  lemma {:induction false} RegexRangeExact(m: Matcher, cwp: seq<Record>, s: Record, e: Record)
    ensures RegexRange(m, cwp, s, e).None? <==>
      forall a, b :: 0 <= a <= b < |cwp| && PairMatch(m, s, cwp[a]) ==> !PairMatch(m, e, cwp[b])
    ensures RegexRange(m, cwp, s, e).Some? ==>
      var (a, b) := RegexRange(m, cwp, s, e).value;
      && PairMatch(m, s, cwp[a]) && PairMatch(m, e, cwp[b])
      && (forall j :: 0 <= j < a ==> !PairMatch(m, s, cwp[j]))
      && (forall j :: a <= j < b ==> !PairMatch(m, e, cwp[j]))
  {
    match FirstMatch(m, s, cwp, 0)
    case None =>
    case Some(a0) =>
      match FirstMatch(m, e, cwp, a0)
      case None =>
        forall a, b | 0 <= a <= b < |cwp| && PairMatch(m, s, cwp[a])
          ensures !PairMatch(m, e, cwp[b])
        {
          assert a0 <= a;
        }
      case Some(b0) =>
        assert !(forall a, b :: 0 <= a <= b < |cwp| && PairMatch(m, s, cwp[a]) ==> !PairMatch(m, e, cwp[b])) by {
          assert 0 <= a0 <= b0 < |cwp| && PairMatch(m, s, cwp[a0]) && PairMatch(m, e, cwp[b0]);
        }
  }

  /** Range deletes only leave records out. */
  lemma {:induction false} DeleteBetweenRegexKeepsOrder(m: Matcher, cwp: seq<Record>, s: Record, e: Record, multiple: bool)
    ensures Sub(DeleteBetweenRegex(m, cwp, s, e, multiple), cwp)
    decreases |cwp|
  {
    match RegexRange(m, cwp, s, e)
    case None => SubRefl(cwp);
    case Some((a, b)) =>
      var rest := cwp[..a] + cwp[b + 1..];
      CutSub(cwp, a, b);
      if multiple {
        DeleteBetweenRegexKeepsOrder(m, rest, s, e, multiple);
        SubTrans(DeleteBetweenRegex(m, rest, s, e, multiple), rest, cwp);
      }
  }

  /** Cutting out the inclusive range `a` to `b` leaves a subsequence. */
  lemma {:induction false} CutSub(cwp: seq<Record>, a: nat, b: nat)
    requires a <= b < |cwp|
    ensures Sub(cwp[..a] + cwp[b + 1..], cwp)
  {
    assert cwp[..a] + cwp[b + 1..] == DeleteRange(cwp, a, b + 1 - a);
    DeleteRangeSub(cwp, a, b + 1 - a);
  }

  /** With `multiple` no start match is left with an end match at or after it. */
  lemma {:induction false} DeleteBetweenRegexExhaustive(m: Matcher, cwp: seq<Record>, s: Record, e: Record)
    ensures RegexRange(m, DeleteBetweenRegex(m, cwp, s, e, true), s, e).None?
    decreases |cwp|
  {
    match RegexRange(m, cwp, s, e)
    case None =>
    case Some((a, b)) =>
      DeleteBetweenRegexExhaustive(m, cwp[..a] + cwp[b + 1..], s, e);
  }

  /** Without the start record the literal mode changes nothing. */
  lemma {:induction false} LiteralBetweenAbsent(cwp: seq<Record>, s: Record, e: Record, multiple: bool)
    requires s !in cwp
    ensures DeleteBetweenLiteral(cwp, s, e, multiple) == Edited(cwp, Pass)
  {
    assert forall k :: 0 <= k < |cwp| ==> cwp[k] != s;
  }

  /** Without `multiple`, when the first start record is at `a` and the
      first end record from there is at `b`, exactly the records `a` to `b`
      go. */
  lemma {:induction false} LiteralBetweenFound(cwp: seq<Record>, s: Record, e: Record, a: nat, b: nat)
    requires a <= b < |cwp| && cwp[a] == s && cwp[b] == e
    requires s !in cwp[..a] && e !in cwp[a..b]
    ensures DeleteBetweenLiteral(cwp, s, e, false) == Edited(cwp[..a] + cwp[b + 1..], Pass)
  {
    FirstIndexIs(cwp, s, 0, a);
    FirstIndexIs(cwp, e, a, b);
  }

  /** A start record with no end record at or after its first occurrence
      is an error, and nothing is removed on that scan. */
  lemma {:induction false} LiteralBetweenMissingEnd(cwp: seq<Record>, s: Record, e: Record, a: nat, multiple: bool)
    requires a < |cwp| && cwp[a] == s
    requires s !in cwp[..a] && e !in cwp[a..]
    ensures DeleteBetweenLiteral(cwp, s, e, multiple) == Edited(cwp, Fail(EndLineNotFound))
  {
    FirstIndexIs(cwp, s, 0, a);
    forall k | a <= k < |cwp| ensures cwp[k] != e {
      assert cwp[a..][k - a] == cwp[k];
    }
  }

  /** The first occurrence at or after `from` is at `i`. */
  lemma {:induction false} FirstIndexIs(cwp: seq<Record>, x: Record, from: nat, i: nat)
    requires from <= i < |cwp| && cwp[i] == x && x !in cwp[from..i]
    ensures IndexFrom(cwp, x, from) == Some(i)
  {
    forall k | from <= k < i ensures cwp[k] != x {
      assert cwp[from..i][k - from] == cwp[k];
    }
  }

  /** What a literal range delete with `multiple` may leave of `cwp`: on
      success no start record; on failure a first start record with no end
      record at or after it; in either case a subsequence of `cwp`. */
  predicate LiteralSettled(cwp: seq<Record>, s: Record, e: Record, r: Edited) {
    && (r.out == Pass ==> s !in r.cwp)
    && (r.out != Pass ==> (r.out == Fail(EndLineNotFound) &&
         exists a :: 0 <= a < |r.cwp| && r.cwp[a] == s && s !in r.cwp[..a] && e !in r.cwp[a..]))
    && Sub(r.cwp, cwp)
  }

  /** With `multiple` a successful literal range delete leaves no start
      record; a failed one stops at a start record with no end record after
      it, keeping the ranges already removed. */
  lemma {:induction false} LiteralBetweenExhaustive(cwp: seq<Record>, s: Record, e: Record)
    ensures LiteralSettled(cwp, s, e, DeleteBetweenLiteral(cwp, s, e, true))
    decreases |cwp|
  {
    match IndexFrom(cwp, s, 0)
    case None =>
      LiteralSettledAbsent(cwp, s, e);
    case Some(a) =>
      match IndexFrom(cwp, e, a)
      case None =>
        LiteralSettledStop(cwp, s, e, a);
      case Some(b) =>
        var rest := cwp[..a] + cwp[b + 1..];
        assert DeleteBetweenLiteral(cwp, s, e, true) == DeleteBetweenLiteral(rest, s, e, true);
        LiteralBetweenExhaustive(rest, s, e);
        LiteralSettledStep(cwp, s, e, a, b, DeleteBetweenLiteral(rest, s, e, true));
  }

  lemma {:induction false} LiteralSettledAbsent(cwp: seq<Record>, s: Record, e: Record)
    requires IndexFrom(cwp, s, 0).None?
    ensures LiteralSettled(cwp, s, e, DeleteBetweenLiteral(cwp, s, e, true))
  {
    IndexFromAbsent(cwp, s, 0);
    assert cwp[0..] == cwp;
    SubRefl(cwp);
  }

  lemma {:induction false} LiteralSettledStop(cwp: seq<Record>, s: Record, e: Record, a: nat)
    requires IndexFrom(cwp, s, 0) == Some(a) && IndexFrom(cwp, e, a).None?
    ensures LiteralSettled(cwp, s, e, DeleteBetweenLiteral(cwp, s, e, true))
  {
    IndexFromFirst(cwp, s, 0, a);
    assert cwp[0..a] == cwp[..a];
    IndexFromAbsent(cwp, e, a);
    SubRefl(cwp);
    assert DeleteBetweenLiteral(cwp, s, e, true) == Edited(cwp, Fail(EndLineNotFound));
  }

  /** Cutting out one range keeps what the rest of the loop settles a
      subsequence of the original. */
  lemma {:induction false} LiteralSettledStep(cwp: seq<Record>, s: Record, e: Record, a: nat, b: nat, r: Edited)
    requires a <= b < |cwp|
    requires LiteralSettled(cwp[..a] + cwp[b + 1..], s, e, r)
    ensures LiteralSettled(cwp, s, e, r)
  {
    var rest := cwp[..a] + cwp[b + 1..];
    CutSub(cwp, a, b);
    SubTrans(r.cwp, rest, cwp);
  }

  /** No occurrence at or after `from`. */
  lemma {:induction false} IndexFromAbsent(cwp: seq<Record>, x: Record, from: nat)
    requires from <= |cwp| && IndexFrom(cwp, x, from).None?
    ensures x !in cwp[from..]
  {
    forall k | 0 <= k < |cwp| - from
      ensures cwp[from..][k] != x
    {
      assert cwp[from..][k] == cwp[from + k];
    }
  }

  /** The occurrence found is the first at or after `from`. */
  lemma {:induction false} IndexFromFirst(cwp: seq<Record>, x: Record, from: nat, i: nat)
    requires IndexFrom(cwp, x, from) == Some(i)
    ensures from <= i < |cwp| && cwp[i] == x && x !in cwp[from..i]
  {
    forall k | 0 <= k < i - from
      ensures cwp[from..i][k] != x
    {
      assert cwp[from..i][k] == cwp[from + k];
    }
  }

  // ---------------------------------------------------------------------
  // Insertion

  /** Where a window matched at `i` puts the insertion: right after the
      window's `n` lines, or at its first line. */
  function Anchor(i: nat, n: nat, after: bool): nat {
    if after then i + n else i
  }

  /** The insertion points `add_after_lines` and `add_before_lines` collect
      scanning from `from`, in the index space of the records before the
      edit; without `multiple` the scan stops at the first window. */
  function Points(m: Matcher, cwp: seq<Record>, pat: seq<Record>, regex: bool, multiple: bool, after: bool, from: nat): seq<nat>
    requires pat != []
    decreases |cwp| - from
  {
    if from >= |cwp| then []
    else if SerialHit(m, cwp, pat, regex, from) then
      [Anchor(from, |pat|, after)] + (if multiple then Points(m, cwp, pat, regex, multiple, after, from + 1) else [])
    else Points(m, cwp, pat, regex, multiple, after, from + 1)
  }

  predicate Increasing(pts: seq<nat>) {
    forall k, l :: 0 <= k < l < |pts| ==> pts[k] < pts[l]
  }

  /** `s[x:x] = add`: the position is cut off at the length. */
  function Insert(s: seq<Record>, x: nat, add: seq<Record>): (r: seq<Record>)
    ensures |r| == |s| + |add|
  {
    var y := if x <= |s| then x else |s|;
    s[..y] + add + s[y..]
  }

  /** `s` with a copy of `add` put in front of each position of `pts`,
      every position counted in `s` itself and cut off at its length. */
  function Spliced(s: seq<Record>, pts: seq<nat>, add: seq<Record>): seq<Record>
    decreases |pts|
  {
    if pts == [] then s
    else
      var q := pts[|pts| - 1];
      var y := if q <= |s| then q else |s|;
      Spliced(s[..y], pts[..|pts| - 1], add) + add + s[y..]
  }

  // ---------------------------------------------------------------------
  // Properties of the insertion

  /** The points come in strictly increasing order, none before the anchor
      of the scan's first index. */
  lemma {:induction false} PointsIncrease(m: Matcher, cwp: seq<Record>, pat: seq<Record>, regex: bool, multiple: bool, after: bool, from: nat)
    requires pat != []
    ensures var pts := Points(m, cwp, pat, regex, multiple, after, from);
      Increasing(pts) && forall k :: 0 <= k < |pts| ==> Anchor(from, |pat|, after) <= pts[k]
    decreases |cwp| - from
  {
    if from < |cwp| {
      PointsIncrease(m, cwp, pat, regex, multiple, after, from + 1);
    }
  }

  /** Without `multiple` there is at most one point: the anchor of the
      first window that passes the test. */
  lemma {:induction false} PointsSingle(m: Matcher, cwp: seq<Record>, pat: seq<Record>, regex: bool, after: bool, from: nat)
    requires pat != []
    ensures Points(m, cwp, pat, regex, false, after, from) ==
      match FirstHit(m, cwp, pat, regex, from)
      case None => []
      case Some(i) => [Anchor(i, |pat|, after)]
    decreases |cwp| - from
  {
    if from < |cwp| && !SerialHit(m, cwp, pat, regex, from) {
      PointsSingle(m, cwp, pat, regex, after, from + 1);
    }
  }

  /** `x` is the anchor of a window at or after `from` that passes the test. */
  predicate HitAnchor(m: Matcher, cwp: seq<Record>, pat: seq<Record>, regex: bool, after: bool, from: nat, x: nat)
    requires pat != []
  {
    exists i :: from <= i < |cwp| && SerialHit(m, cwp, pat, regex, i) && x == Anchor(i, |pat|, after)
  }

  /** With `multiple` the points are the anchors of exactly the windows
      that pass the test. */
  lemma {:induction false} PointsAll(m: Matcher, cwp: seq<Record>, pat: seq<Record>, regex: bool, after: bool, from: nat)
    requires pat != []
    ensures forall i :: from <= i < |cwp| && SerialHit(m, cwp, pat, regex, i) ==>
      Anchor(i, |pat|, after) in Points(m, cwp, pat, regex, true, after, from)
    ensures forall k :: 0 <= k < |Points(m, cwp, pat, regex, true, after, from)| ==>
      HitAnchor(m, cwp, pat, regex, after, from, Points(m, cwp, pat, regex, true, after, from)[k])
  {
    forall i | from <= i < |cwp| && SerialHit(m, cwp, pat, regex, i)
      ensures Anchor(i, |pat|, after) in Points(m, cwp, pat, regex, true, after, from)
    {
      PointsComplete(m, cwp, pat, regex, after, from, i);
    }
    forall k | 0 <= k < |Points(m, cwp, pat, regex, true, after, from)|
      ensures HitAnchor(m, cwp, pat, regex, after, from, Points(m, cwp, pat, regex, true, after, from)[k])
    {
      PointsSound(m, cwp, pat, regex, after, from, k);
    }
  }

  /** With `multiple`, the anchor of a window that passes is collected. */
  lemma {:induction false} PointsComplete(m: Matcher, cwp: seq<Record>, pat: seq<Record>, regex: bool, after: bool, from: nat, i: nat)
    requires pat != [] && from <= i < |cwp| && SerialHit(m, cwp, pat, regex, i)
    ensures Anchor(i, |pat|, after) in Points(m, cwp, pat, regex, true, after, from)
    decreases i - from
  {
    PointsStep(m, cwp, pat, regex, after, from);
    var rest := Points(m, cwp, pat, regex, true, after, from + 1);
    var x := Anchor(i, |pat|, after);
    if i == from {
      InConcat(x, [x], rest);
    } else {
      PointsComplete(m, cwp, pat, regex, after, from + 1, i);
      InConcat(x, rest, if SerialHit(m, cwp, pat, regex, from) then [Anchor(from, |pat|, after)] else []);
    }
  }

  /** One step of the scan with `multiple`: the anchor of the window at
      `from` when it passes, then the points of the rest. */
  lemma {:induction false} PointsStep(m: Matcher, cwp: seq<Record>, pat: seq<Record>, regex: bool, after: bool, from: nat)
    requires pat != [] && from < |cwp|
    ensures Points(m, cwp, pat, regex, true, after, from) ==
      (if SerialHit(m, cwp, pat, regex, from) then [Anchor(from, |pat|, after)] else []) + Points(m, cwp, pat, regex, true, after, from + 1)
  {
  }

  lemma {:induction false} InConcat(x: nat, a: seq<nat>, b: seq<nat>)
    requires x in a
    ensures x in a + b && x in b + a
  {
    var t :| 0 <= t < |a| && a[t] == x;
    assert (a + b)[t] == x;
    assert (b + a)[|b| + t] == x;
  }

  /** With `multiple`, every point collected is the anchor of a window that passes. */
  lemma {:induction false} PointsSound(m: Matcher, cwp: seq<Record>, pat: seq<Record>, regex: bool, after: bool, from: nat, k: nat)
    requires pat != [] && k < |Points(m, cwp, pat, regex, true, after, from)|
    ensures HitAnchor(m, cwp, pat, regex, after, from, Points(m, cwp, pat, regex, true, after, from)[k])
    decreases |cwp| - from
  {
    var pts := Points(m, cwp, pat, regex, true, after, from);
    assert from < |cwp|;
    PointsStep(m, cwp, pat, regex, after, from);
    var hit := SerialHit(m, cwp, pat, regex, from);
    if hit && k == 0 {
      assert pts[k] == Anchor(from, |pat|, after);
    } else {
      var rest := Points(m, cwp, pat, regex, true, after, from + 1);
      var k' := if hit then k - 1 else k;
      assert pts[k] == rest[k'];
      PointsSound(m, cwp, pat, regex, after, from + 1, k');
      var i :| from + 1 <= i < |cwp| && SerialHit(m, cwp, pat, regex, i) && rest[k'] == Anchor(i, |pat|, after);
      assert from <= i;
    }
  }

  /** The spliced sequence grows by one copy of `add` per point. */
  lemma {:induction false} SplicedLength(s: seq<Record>, pts: seq<nat>, add: seq<Record>)
    ensures |Spliced(s, pts, add)| == |s| + |pts| * |add|
    decreases |pts|
  {
    if pts != [] {
      var q := pts[|pts| - 1];
      var y := if q <= |s| then q else |s|;
      var init := pts[..|pts| - 1];
      SplicedLength(s[..y], init, add);
      assert |Spliced(s, pts, add)| == |Spliced(s[..y], init, add)| + |add| + (|s| - y);
      assert |pts| == |init| + 1;
      MulSucc(|init|, |add|);
    }
  }

  lemma {:induction false} MulSucc(a: nat, b: nat)
    ensures (a + 1) * b == a * b + b
  {
  }

  /** Records past every point are left where they are, after all copies. */
  lemma {:induction false} SplicedTail(s: seq<Record>, pts: seq<nat>, add: seq<Record>, x: nat)
    requires x <= |s|
    requires pts != [] ==> (if pts[|pts| - 1] <= |s| then pts[|pts| - 1] else |s|) <= x
    ensures Spliced(s, pts, add) == Spliced(s[..x], pts, add) + s[x..]
  {
    if pts == [] {
      assert s == s[..x] + s[x..];
    } else {
      var q := pts[|pts| - 1];
      var y := if q <= |s| then q else |s|;
      assert s[..x][..y] == s[..y];
      assert s[y..] == s[..x][y..] + s[x..];
    }
  }

  /** Splicing only adds records: the original ones keep their order. */
  lemma {:induction false} SplicedKeepsOrder(s: seq<Record>, pts: seq<nat>, add: seq<Record>)
    ensures Sub(s, Spliced(s, pts, add))
    decreases |pts|
  {
    if pts == [] {
      SubRefl(s);
    } else {
      var q := pts[|pts| - 1];
      var y := if q <= |s| then q else |s|;
      var x := Spliced(s[..y], pts[..|pts| - 1], add);
      var tail := s[y..];
      SplicedKeepsOrder(s[..y], pts[..|pts| - 1], add);
      SubSuffix(s[..y], x, tail);
      assert s[..y] + tail == s;
      SubRefl(tail);
      SubSkip(tail, tail, add);
      SubPrefix(x, tail, add + tail);
      assert x + (add + tail) == x + add + tail;
      SubTrans(s, x + tail, x + add + tail);
    }
  }

  /** Without `multiple` an add changes nothing when no window passes the
      test, and otherwise puts one copy of `add` at the first window's
      anchor, cut off at the length. */
  lemma {:induction false} AddOnce(m: Matcher, cwp: seq<Record>, pat: seq<Record>, add: seq<Record>, regex: bool, after: bool)
    requires pat != []
    ensures var r := Spliced(cwp, Points(m, cwp, pat, regex, false, after, 0), add);
      match FirstHit(m, cwp, pat, regex, 0)
      case None => r == cwp
      case Some(i) =>
        var y := if Anchor(i, |pat|, after) <= |cwp| then Anchor(i, |pat|, after) else |cwp|;
        r == cwp[..y] + add + cwp[y..]
  {
    PointsSingle(m, cwp, pat, regex, after, 0);
  }

  /** Inserting at a point shifted by the copies already inserted, as the
      running offset of the add methods does, is splicing with one more
      point, when no earlier point lies beyond it. */
  lemma {:induction false} InsertStep(s: seq<Record>, pts: seq<nat>, p: nat, add: seq<Record>)
    requires forall k :: 0 <= k < |pts| ==> pts[k] <= p
    ensures Insert(Spliced(s, pts, add), p + |pts| * |add|, add) == Spliced(s, pts + [p], add)
  {
    var y := if p <= |s| then p else |s|;
    var pre := Spliced(s[..y], pts, add);
    var whole := Spliced(s, pts, add);
    var grow := |pts| * |add|;
    assert (pts + [p])[..|pts|] == pts;
    assert Spliced(s, pts + [p], add) == pre + add + s[y..];
    SplicedTail(s, pts, add, y);
    assert whole == pre + s[y..];
    SplicedLength(s[..y], pts, add);
    assert |pre| == y + grow;
    InsertBetween(pre, s[y..], p + grow, add);
  }

  /** Inserting at the end of a prefix, or past the end of the whole. */
  lemma {:induction false} InsertBetween(pre: seq<Record>, tail: seq<Record>, x: nat, add: seq<Record>)
    requires x == |pre| || (tail == [] && x >= |pre|)
    ensures Insert(pre + tail, x, add) == pre + add + tail
  {
    var whole := pre + tail;
    var y := if x <= |whole| then x else |whole|;
    assert y == |pre|;
    assert whole[..y] == pre && whole[y..] == tail;
  }

  /** The step of the offset loop: the `k`-th point of an increasing list,
      shifted by the `k` copies already inserted, extends the splice by one. */
  lemma {:induction false} InsertNext(s: seq<Record>, pts: seq<nat>, k: nat, add: seq<Record>)
    requires Increasing(pts) && k < |pts|
    ensures Insert(Spliced(s, pts[..k], add), pts[k] + k * |add|, add) == Spliced(s, pts[..k + 1], add)
  {
    var pre := pts[..k];
    forall i | 0 <= i < |pre|
      ensures pre[i] <= pts[k]
    {
      assert pre[i] == pts[i];
    }
    InsertStep(s, pre, pts[k], add);
    assert pts[..k + 1] == pre + [pts[k]];
  }

  // ---------------------------------------------------------------------
  // Single-line replacement

  /** The test `replace_line` applies to a record. */
  predicate ReplaceHit(m: Matcher, oldRec: Record, regex: bool, r: Record) {
    (regex && PairMatch(m, oldRec, r)) || r == oldRec
  }

  /** The indices `replace_line` collects scanning from `from`: a record is
      taken once for the regular-expression test and once more for literal
      equality, and without `multiple` the scan stops at the first taken. */
  function ReplaceIndices(m: Matcher, cwp: seq<Record>, oldRec: Record, regex: bool, multiple: bool, from: nat): seq<nat>
    decreases |cwp| - from
  {
    if from >= |cwp| then []
    else
      var rx := regex && PairMatch(m, oldRec, cwp[from]);
      var lit := cwp[from] == oldRec;
      if !multiple && (rx || lit) then [from]
      else
        (if rx then [from] else []) + (if lit then [from] else [])
        + ReplaceIndices(m, cwp, oldRec, regex, multiple, from + 1)
  }

  /** `s` with the record at every index of `idx` overwritten by `r`. */
  function Overwrite(s: seq<Record>, idx: seq<nat>, r: Record): (t: seq<Record>)
    ensures |t| == |s|
  {
    seq(|s|, k requires 0 <= k < |s| => if k in idx then r else s[k])
  }

  /** The records `replace_line` leaves. */
  function Replace(m: Matcher, cwp: seq<Record>, oldRec: Record, newRec: Record, regex: bool, multiple: bool): seq<Record> {
    Overwrite(cwp, ReplaceIndices(m, cwp, oldRec, regex, multiple, 0), newRec)
  }

  /** Index `x`, at or after `from`, holds a record that passes the test. */
  predicate HitAt(m: Matcher, cwp: seq<Record>, oldRec: Record, regex: bool, from: nat, x: nat) {
    from <= x < |cwp| && ReplaceHit(m, oldRec, regex, cwp[x])
  }

  /** One step of the replace scan. */
  lemma {:induction false} ReplaceIndicesAt(m: Matcher, cwp: seq<Record>, oldRec: Record, regex: bool, multiple: bool, i: nat)
    requires i < |cwp|
    ensures var rx := regex && PairMatch(m, oldRec, cwp[i]);
      var lit := cwp[i] == oldRec;
      ReplaceIndices(m, cwp, oldRec, regex, multiple, i) ==
        if !multiple && (rx || lit) then [i]
        else (if rx then [i] else []) + (if lit then [i] else []) + ReplaceIndices(m, cwp, oldRec, regex, multiple, i + 1)
  {
  }

  /** The collected indices are in range and pass the test. */
  lemma {:induction false} ReplaceIndicesSound(m: Matcher, cwp: seq<Record>, oldRec: Record, regex: bool, multiple: bool, from: nat)
    ensures forall k :: 0 <= k < |ReplaceIndices(m, cwp, oldRec, regex, multiple, from)| ==>
      HitAt(m, cwp, oldRec, regex, from, ReplaceIndices(m, cwp, oldRec, regex, multiple, from)[k])
    decreases |cwp| - from
  {
    if from < |cwp| {
      ReplaceIndicesSound(m, cwp, oldRec, regex, multiple, from + 1);
      var idx := ReplaceIndices(m, cwp, oldRec, regex, multiple, from);
      var rest := ReplaceIndices(m, cwp, oldRec, regex, multiple, from + 1);
      var rx := regex && PairMatch(m, oldRec, cwp[from]);
      var lit := cwp[from] == oldRec;
      if multiple || !(rx || lit) {
        var head := (if rx then [from] else []) + (if lit then [from] else []);
        assert idx == head + rest;
        forall k | 0 <= k < |idx|
          ensures HitAt(m, cwp, oldRec, regex, from, idx[k])
        {
          if k < |head| {
            assert idx[k] == from;
          } else {
            assert idx[k] == rest[k - |head|];
            assert HitAt(m, cwp, oldRec, regex, from + 1, rest[k - |head|]);
          }
        }
      }
    }
  }

  /** With `multiple` every index that passes the test is collected. */
  lemma {:induction false} ReplaceIndicesAll(m: Matcher, cwp: seq<Record>, oldRec: Record, regex: bool, from: nat)
    ensures var idx := ReplaceIndices(m, cwp, oldRec, regex, true, from);
      forall i :: from <= i < |cwp| && ReplaceHit(m, oldRec, regex, cwp[i]) ==> i in idx
    decreases |cwp| - from
  {
    if from < |cwp| {
      ReplaceIndicesAll(m, cwp, oldRec, regex, from + 1);
    }
  }

  /** Without `multiple` at most the first index that passes the test is
      collected. */
  lemma {:induction false} ReplaceIndicesFirst(m: Matcher, cwp: seq<Record>, oldRec: Record, regex: bool, from: nat)
    ensures var idx := ReplaceIndices(m, cwp, oldRec, regex, false, from);
      && |idx| <= 1
      && (idx == [] ==> forall i :: from <= i < |cwp| ==> !ReplaceHit(m, oldRec, regex, cwp[i]))
      && (idx != [] ==> (from <= idx[0] < |cwp| && ReplaceHit(m, oldRec, regex, cwp[idx[0]]) &&
            forall i :: from <= i < idx[0] ==> !ReplaceHit(m, oldRec, regex, cwp[i])))
    decreases |cwp| - from
  {
    if from < |cwp| {
      ReplaceIndicesFirst(m, cwp, oldRec, regex, from + 1);
    }
  }

  /** Replacement keeps the length, overwrites with `newRec` every record that
      passes the test (with `multiple`) or only the first one (without it),
      and leaves every other record as it was. */
  lemma {:induction false} ReplaceEffect(m: Matcher, cwp: seq<Record>, oldRec: Record, newRec: Record, regex: bool, multiple: bool)
    ensures var r := Replace(m, cwp, oldRec, newRec, regex, multiple);
      && |r| == |cwp|
      && (multiple ==> forall k :: 0 <= k < |cwp| ==>
            r[k] == if ReplaceHit(m, oldRec, regex, cwp[k]) then newRec else cwp[k])
      && (!multiple ==>
            || (r == cwp && forall k :: 0 <= k < |cwp| ==> !ReplaceHit(m, oldRec, regex, cwp[k]))
            || exists i :: 0 <= i < |cwp| && ReplaceHit(m, oldRec, regex, cwp[i]) &&
                 (forall k :: 0 <= k < i ==> !ReplaceHit(m, oldRec, regex, cwp[k])) && r == cwp[i := newRec])
  {
    var idx := ReplaceIndices(m, cwp, oldRec, regex, multiple, 0);
    var r := Replace(m, cwp, oldRec, newRec, regex, multiple);
    ReplaceIndicesSound(m, cwp, oldRec, regex, multiple, 0);
    if multiple {
      ReplaceIndicesAll(m, cwp, oldRec, regex, 0);
      forall k | 0 <= k < |cwp|
        ensures r[k] == if ReplaceHit(m, oldRec, regex, cwp[k]) then newRec else cwp[k]
      {
        if k in idx {
          var j :| 0 <= j < |idx| && idx[j] == k;
        }
      }
    } else if idx == [] {
      ReplaceIndicesFirst(m, cwp, oldRec, regex, 0);
      assert r == cwp;
    } else {
      ReplaceIndicesFirst(m, cwp, oldRec, regex, 0);
      assert r == cwp[idx[0] := newRec];
    }
  }

  // ---------------------------------------------------------------------
  // Lookups

  /** The records with the leading spaces of their values removed. */
  function NoSpace(cwp: seq<Record>): (r: seq<Record>)
    ensures |r| == |cwp|
  {
    seq(|cwp|, k requires 0 <= k < |cwp| => Record(cwp[k].path, LStrip(cwp[k].value)))
  }

  /** The records whose path and value match the two patterns, in order. */
  function Select(m: Matcher, recs: seq<Record>, path: string, value: string): seq<Record>
    decreases |recs|
  {
    if recs == [] then []
    else
      (if m(path, recs[0].path) && m(value, recs[0].value) then [recs[0]] else [])
      + Select(m, recs[1..], path, value)
  }

  /** `cwp_search`: the records, values left-stripped, that match both patterns. */
  function Search(m: Matcher, cwp: seq<Record>, path: string, value: string): seq<Record> {
    Select(m, NoSpace(cwp), path, value)
  }

  /** A search returns exactly the left-stripped records that match both
      patterns, in their order. */
  lemma {:induction false} SelectExact(m: Matcher, recs: seq<Record>, path: string, value: string)
    ensures forall r :: r in Select(m, recs, path, value) <==> r in recs && m(path, r.path) && m(value, r.value)
    ensures forall r :: multiset(Select(m, recs, path, value))[r] ==
                        if m(path, r.path) && m(value, r.value) then multiset(recs)[r] else 0
    ensures Sub(Select(m, recs, path, value), recs)
  {
    var sel := Select(m, recs, path, value);
    forall r: Record
      ensures multiset(sel)[r] == if m(path, r.path) && m(value, r.value) then multiset(recs)[r] else 0
      ensures r in sel <==> r in recs && m(path, r.path) && m(value, r.value)
    {
      SelectCount(m, recs, path, value, r);
    }
    SelectOrder(m, recs, path, value);
  }

  /** The records a search keeps stay in their order. */
  lemma {:induction false} SelectOrder(m: Matcher, recs: seq<Record>, path: string, value: string)
    ensures Sub(Select(m, recs, path, value), recs)
    decreases |recs|
  {
    if recs != [] {
      SelectOrder(m, recs[1..], path, value);
      var rest := Select(m, recs[1..], path, value);
      var sel := Select(m, recs, path, value);
      if m(path, recs[0].path) && m(value, recs[0].value) {
        assert sel == [recs[0]] + rest;
        assert sel[1..] == rest && sel[0] == recs[0];
      } else {
        assert sel == rest;
      }
    }
  }

  /** A record occurs in a search result as often as in the records when it
      matches both patterns, and not at all otherwise. */
  lemma {:induction false} SelectCount(m: Matcher, recs: seq<Record>, path: string, value: string, r: Record)
    ensures multiset(Select(m, recs, path, value))[r] ==
      if m(path, r.path) && m(value, r.value) then multiset(recs)[r] else 0
    decreases |recs|
  {
    if recs != [] {
      SelectCount(m, recs[1..], path, value, r);
      var h: seq<Record> := if m(path, recs[0].path) && m(value, recs[0].value) then [recs[0]] else [];
      assert Select(m, recs, path, value) == h + Select(m, recs[1..], path, value);
      MultisetCons(recs);
    }
  }

  /** The pattern lines of a serial check: the lines of the text, stripped,
      without the blank ones. */
  function PatternLines(lines: seq<string>): (r: seq<string>)
    ensures |r| <= |lines|
    decreases |lines|
  {
    if lines == [] then []
    else
      (if Strip(lines[0]) != "" then [Strip(lines[0])] else []) + PatternLines(lines[1..])
  }

  /** One line yields its stripped text, or nothing when it is blank. */
  lemma {:induction false} PatternLinesSingle(l: string)
    ensures PatternLines([l]) == if Strip(l) != "" then [Strip(l)] else []
  {
    assert [l][1..] == [];
  }

  /** The filter distributes over concatenation, so it keeps the order and
      the number of the non-blank lines. */
  lemma {:induction false} PatternLinesAppend(a: seq<string>, b: seq<string>)
    ensures PatternLines(a + b) == PatternLines(a) + PatternLines(b)
    decreases |a|
  {
    if a == [] {
      assert a + b == b;
    } else {
      ConsSplit(a, b);
      PatternLinesUnfold(a);
      PatternLinesUnfold(a + b);
      PatternLinesAppend(a[1..], b);
      ConcatAssoc(PatternLines([a[0]]), PatternLines(a[1..]), PatternLines(b));
    }
  }

  /** One step of the filter: the first line, then the rest. */
  lemma {:induction false} PatternLinesUnfold(lines: seq<string>)
    requires lines != []
    ensures PatternLines(lines) == PatternLines([lines[0]]) + PatternLines(lines[1..])
  {
    assert [lines[0]][1..] == [];
  }

  /** The head and tail of a concatenation with a non-empty front. */
  lemma {:induction false} ConsSplit<T>(x: seq<T>, y: seq<T>)
    requires x != []
    ensures (x + y)[0] == x[0] && (x + y)[1..] == x[1..] + y
  {
  }

  /** Concatenation is associative. */
  lemma {:induction false} ConcatAssoc<T>(x: seq<T>, y: seq<T>, z: seq<T>)
    ensures x + (y + z) == (x + y) + z
  {
  }

  /** A pattern line is exactly the stripped text of some non-blank line. */
  lemma {:induction false} PatternLinesMembers(lines: seq<string>, s: string)
    ensures s in PatternLines(lines) <==>
              exists i :: 0 <= i < |lines| && Strip(lines[i]) != "" && s == Strip(lines[i])
  {
    if s in PatternLines(lines) {
      PatternLinesSound(lines, s);
    }
    if exists i :: 0 <= i < |lines| && Strip(lines[i]) != "" && s == Strip(lines[i]) {
      var i :| 0 <= i < |lines| && Strip(lines[i]) != "" && s == Strip(lines[i]);
      PatternLinesComplete(lines, i);
    }
  }

  lemma {:induction false} PatternLinesSound(lines: seq<string>, s: string)
    requires s in PatternLines(lines)
    ensures exists i :: 0 <= i < |lines| && Strip(lines[i]) != "" && s == Strip(lines[i])
    decreases |lines|
  {
    var t := Strip(lines[0]);
    var rest := PatternLines(lines[1..]);
    PatternLinesUnfold(lines);
    PatternLinesSingle(lines[0]);
    if !(t != "" && s == t) {
      assert s in rest;
      PatternLinesSound(lines[1..], s);
      var j :| 0 <= j < |lines[1..]| && Strip(lines[1..][j]) != "" && s == Strip(lines[1..][j]);
      assert lines[j + 1] == lines[1..][j];
    }
  }

  lemma {:induction false} PatternLinesComplete(lines: seq<string>, i: int)
    requires 0 <= i < |lines| && Strip(lines[i]) != ""
    ensures Strip(lines[i]) in PatternLines(lines)
    decreases |lines|
  {
    var rest := PatternLines(lines[1..]);
    if i > 0 {
      assert lines[1..][i - 1] == lines[i];
      PatternLinesComplete(lines[1..], i - 1);
      assert Strip(lines[i]) in rest;
    }
  }

  /** The compact text of every record, its value left-stripped. */
  function CompactTexts(cwp: seq<Record>, sep: string): (r: seq<string>)
    ensures |r| == |cwp|
  {
    seq(|cwp|, k requires 0 <= k < |cwp| => cwp[k].path + sep + LStrip(cwp[k].value))
  }

  /** Every pattern line matches the text it is paired with from index `i`,
      where pairing stops at the end as `zip` does. */
  predicate TextWindow(m: Matcher, texts: seq<string>, pats: seq<string>, i: nat) {
    forall k :: 0 <= k < |pats| && i + k < |texts| ==> m(pats[k], texts[i + k])
  }

  /** The scan of `cwp_serial_check` from index `from`: true at the first
      index whose first text matches the first pattern line and whose
      window matches. */
  function ScanTexts(m: Matcher, texts: seq<string>, pats: seq<string>, from: nat): bool
    requires pats != []
    decreases |texts| - from
  {
    if from >= |texts| then false
    else if m(pats[0], texts[from]) && TextWindow(m, texts, pats, from) then true
    else ScanTexts(m, texts, pats, from + 1)
  }

  /** `cwp_serial_check`. With no pattern line the first look at the
      pattern list fails, which happens as soon as there is a record. */
  function SerialCheck(m: Matcher, cwp: seq<Record>, text: string, sep: string): Result<bool> {
    var pats := PatternLines(SplitLines(text));
    var texts := CompactTexts(cwp, sep);
    if pats == [] then (if texts == [] then Success(false) else Failure(NoPatternLine))
    else Success(ScanTexts(m, texts, pats, 0))
  }

  /** The scan succeeds exactly when some window from `from` on matches. */
  lemma {:induction false} ScanTextsExists(m: Matcher, texts: seq<string>, pats: seq<string>, from: nat)
    requires pats != []
    ensures ScanTexts(m, texts, pats, from) <==> exists i :: from <= i < |texts| && TextWindow(m, texts, pats, i)
    decreases |texts| - from
  {
    if from < |texts| {
      ScanTextsExists(m, texts, pats, from + 1);
      if TextWindow(m, texts, pats, from) {
        assert m(pats[0], texts[from + 0]);
      }
    }
  }

  /** A serial check finds the pattern lines exactly when some window of
      the compact texts matches them line by line; without pattern lines it
      fails on a non-empty configuration and is false on an empty one. */
  lemma {:induction false} SerialCheckExact(m: Matcher, cwp: seq<Record>, text: string, sep: string)
    ensures var pats := PatternLines(SplitLines(text));
      var texts := CompactTexts(cwp, sep);
      && (pats == [] ==> SerialCheck(m, cwp, text, sep) == if cwp == [] then Success(false) else Failure(NoPatternLine))
      && (pats != [] ==>
            SerialCheck(m, cwp, text, sep) == Success(exists i :: 0 <= i < |cwp| && TextWindow(m, texts, pats, i)))
  {
    var pats := PatternLines(SplitLines(text));
    if pats != [] {
      ScanTextsExists(m, CompactTexts(cwp, sep), pats, 0);
    }
  }
}
