/** String helpers that the configuration engine relies on: whitespace
    stripping, line splitting and joining, and separator splitting, joining
    and counting with the left-to-right, non-overlapping semantics of
    Python's `str.split`, `str.join` and `str.count`.

    Whitespace is modelled as the space character and the newline only. */
module Text {

  predicate IsSpace(c: char) {
    c == ' ' || c == '\n'
  }

  /** All characters are whitespace (`s.strip() == ''`). */
  predicate IsBlank(s: string) {
    forall k :: 0 <= k < |s| ==> IsSpace(s[k])
  }

  /** `str.lstrip()`: the longest suffix that does not start with whitespace. */
  function LStrip(s: string): (r: string)
    ensures |r| <= |s| && r == s[|s| - |r|..]
    ensures r == [] || !IsSpace(r[0])
    ensures forall k :: 0 <= k < |s| - |r| ==> IsSpace(s[k])
  {
    if s != [] && IsSpace(s[0]) then LStrip(s[1..]) else s
  }

  /** `str.rstrip()`: the longest prefix that does not end with whitespace. */
  function RStrip(s: string): (r: string)
    ensures |r| <= |s| && r == s[..|r|]
    ensures r == [] || !IsSpace(r[|r| - 1])
    ensures forall k :: |r| <= k < |s| ==> IsSpace(s[k])
  {
    if s != [] && IsSpace(s[|s| - 1]) then RStrip(s[..|s| - 1]) else s
  }

  /** `str.strip()`. */
  function Strip(s: string): string {
    LStrip(RStrip(s))
  }

  /** The number of leading whitespace characters, `len(s) - len(s.lstrip())`. */
  function Lead(s: string): nat {
    |s| - |LStrip(s)|
  }

  /** `' ' * n`, which is empty for every `n <= 0`. */
  function Spaces(n: int): (r: string)
    ensures |r| == if n <= 0 then 0 else n
    ensures forall k :: 0 <= k < |r| ==> r[k] == ' '
  {
    seq(if n <= 0 then 0 else n, _ => ' ')
  }

  /** `s.startswith(prefixes)` for a tuple of prefixes. */
  predicate StartsWithAny(s: string, prefixes: seq<string>) {
    exists k :: 0 <= k < |prefixes| && prefixes[k] <= s
  }

  /** `s.split(sep)`: cut at every occurrence of `sep`, scanning left to right. */
  function Split(s: string, sep: string): (r: seq<string>)
    requires sep != ""
    ensures |r| >= 1
    decreases |s|
  {
    if |s| < |sep| then [s]
    else if s[..|sep|] == sep then [""] + Split(s[|sep|..], sep)
    else
      var rest := Split(s[1..], sep);
      [[s[0]] + rest[0]] + rest[1..]
  }

  /** `sep.join(parts)`. */
  function Join(parts: seq<string>, sep: string): string
    decreases |parts|
  {
    if |parts| == 0 then ""
    else if |parts| == 1 then parts[0]
    else parts[0] + sep + Join(parts[1..], sep)
  }

  /** `s.count(sep)`: non-overlapping occurrences, scanning left to right. */
  function Count(s: string, sep: string): nat
    requires sep != ""
    decreases |s|
  {
    if |s| < |sep| then 0
    else if s[..|sep|] == sep then 1 + Count(s[|sep|..], sep)
    else Count(s[1..], sep)
  }

  /** `s.splitlines()`, with the newline as the only line boundary. */
  function SplitLines(s: string): seq<string> {
    if s == "" then []
    else
      var parts := Split(s, "\n");
      if parts[|parts| - 1] == "" then parts[..|parts| - 1] else parts
  }

  /** `'\n'.join(lines)`. */
  function JoinLines(lines: seq<string>): string {
    Join(lines, "\n")
  }

  // ---------------------------------------------------------------------
  // Properties

  /** Joining a piece in front of at least one more. */
  lemma {:induction false} JoinCons(a: string, rest: seq<string>, sep: string)
    requires |rest| >= 1
    ensures Join([a] + rest, sep) == a + sep + Join(rest, sep)
  {
    assert ([a] + rest)[1..] == rest;
    assert ([a] + rest)[0] == a;
  }

  /** Extending the first piece extends the join in front. */
  lemma {:induction false} JoinExtendHead(c: char, rest: seq<string>, sep: string)
    requires |rest| >= 1
    ensures Join([[c] + rest[0]] + rest[1..], sep) == [c] + Join(rest, sep)
  {
    var parts := [[c] + rest[0]] + rest[1..];
    if |rest| > 1 {
      assert parts[1..] == rest[1..];
    }
  }

  /** A string that starts with the separator is the separator and the rest. */
  lemma {:induction false} SepFront(s: string, sep: string)
    requires |sep| <= |s| && s[..|sep|] == sep
    ensures s == sep + s[|sep|..]
  {
  }

  /** Joining the pieces of a split restores the string. */
  lemma {:induction false} JoinSplit(s: string, sep: string)
    requires sep != ""
    ensures Join(Split(s, sep), sep) == s
    decreases |s|
  {
    if |s| < |sep| {
    } else if s[..|sep|] == sep {
      var t := s[|sep|..];
      assert Split(s, sep) == [""] + Split(t, sep);
      JoinSplit(t, sep);
      JoinCons("", Split(t, sep), sep);
      SepFront(s, sep);
    } else {
      JoinSplit(s[1..], sep);
      JoinExtendHead(s[0], Split(s[1..], sep), sep);
      assert s == [s[0]] + s[1..];
    }
  }

  /** The pieces of a split number one more than the separators counted. */
  lemma {:induction false} SplitCount(s: string, sep: string)
    requires sep != ""
    ensures |Split(s, sep)| == Count(s, sep) + 1
    decreases |s|
  {
    if |s| < |sep| {
    } else if s[..|sep|] == sep {
      SplitCount(s[|sep|..], sep);
    } else {
      SplitCount(s[1..], sep);
    }
  }

  /** With a one-character separator, no piece of a split contains it. */
  lemma {:induction false} SplitPiecesFree(s: string, sep: string)
    requires |sep| == 1
    ensures forall k :: 0 <= k < |Split(s, sep)| ==> sep[0] !in Split(s, sep)[k]
    decreases |s|
  {
    if |s| < |sep| {
      assert s == [];
    } else if s[..|sep|] == sep {
      SplitPiecesFree(s[|sep|..], sep);
    } else {
      SplitPiecesFree(s[1..], sep);
      var rest := Split(s[1..], sep);
      assert s[0] != sep[0] by { assert s[..1] == [s[0]]; }
      assert forall k :: 0 <= k < |rest| ==> sep[0] !in rest[k];
    }
  }

  /** A character found in no piece and not in the separator is not in the join. */
  lemma {:induction false} JoinAvoids(parts: seq<string>, sep: string, c: char)
    requires forall k :: 0 <= k < |parts| ==> c !in parts[k]
    requires c !in sep
    ensures c !in Join(parts, sep)
    decreases |parts|
  {
    if |parts| > 1 {
      JoinAvoids(parts[1..], sep, c);
    }
  }

  /** A character absent from a string is absent from every piece of its split. */
  lemma {:induction false} SplitAvoids(s: string, sep: string, c: char)
    requires sep != ""
    requires c !in s
    ensures forall k :: 0 <= k < |Split(s, sep)| ==> c !in Split(s, sep)[k]
    decreases |s|
  {
    if |s| < |sep| {
    } else if s[..|sep|] == sep {
      SplitAvoids(s[|sep|..], sep, c);
    } else {
      SplitAvoids(s[1..], sep, c);
    }
  }

  /** With a one-character separator that no part contains, the split of a
      join gives the parts back. */
  lemma {:induction false} SplitJoin(parts: seq<string>, sep: string)
    requires |sep| == 1 && |parts| >= 1
    requires forall k :: 0 <= k < |parts| ==> sep[0] !in parts[k]
    ensures Split(Join(parts, sep), sep) == parts
    decreases |parts|, |parts[0]|
  {
    var p := parts[0];
    if |parts| == 1 {
      SplitFree(p, sep);
    } else if p == "" {
      var s := Join(parts, sep);
      assert s == sep + Join(parts[1..], sep);
      assert s[..|sep|] == sep;
      assert s[|sep|..] == Join(parts[1..], sep);
      SplitJoin(parts[1..], sep);
      assert parts == [""] + parts[1..];
    } else {
      var s := Join(parts, sep);
      var tail := [p[1..]] + parts[1..];
      assert p[0] != sep[0] by { assert p[0] in p; }
      assert s == [p[0]] + Join(tail, sep) by {
        assert p == [p[0]] + p[1..];
        if |tail| == 1 {
        } else {
          assert tail[1..] == parts[1..];
        }
      }
      assert s[..|sep|] != sep by { assert s[0] == p[0]; }
      assert s[1..] == Join(tail, sep);
      assert forall k :: 0 <= k < |tail| ==> sep[0] !in tail[k] by {
        forall k | 0 <= k < |tail| ensures sep[0] !in tail[k] {
          if k == 0 {
            assert forall x :: x in p[1..] ==> x in p;
          } else {
            assert tail[k] == parts[k];
          }
        }
      }
      SplitJoin(tail, sep);
      assert parts == [[p[0]] + tail[0]] + tail[1..] by {
        assert [p[0]] + p[1..] == p;
      }
    }
  }

  /** A string that does not contain a one-character separator splits into itself. */
  lemma {:induction false} SplitFree(s: string, sep: string)
    requires |sep| == 1 && sep[0] !in s
    ensures Split(s, sep) == [s]
    decreases |s|
  {
    if |s| >= 1 {
      assert s[..1] != sep by { assert s[0] in s; }
      assert forall x :: x in s[1..] ==> x in s;
      SplitFree(s[1..], sep);
      assert [s[0]] + s[1..] == s;
    }
  }

  /** With a one-character separator that no part contains, the separators
      counted in a join are the gaps between the parts. */
  lemma {:induction false} CountJoin(parts: seq<string>, sep: string)
    requires |sep| == 1 && |parts| >= 1
    requires forall k :: 0 <= k < |parts| ==> sep[0] !in parts[k]
    ensures Count(Join(parts, sep), sep) == |parts| - 1
  {
    SplitJoin(parts, sep);
    SplitCount(Join(parts, sep), sep);
  }

  /** Splitting lines of their newline join restores lines that contain no
      newline, provided the last one is not empty. */
  lemma {:induction false} SplitLinesJoin(lines: seq<string>)
    requires forall k :: 0 <= k < |lines| ==> '\n' !in lines[k]
    requires lines == [] || lines[|lines| - 1] != ""
    ensures SplitLines(JoinLines(lines)) == lines
  {
    if lines != [] {
      SplitJoin(lines, "\n");
      JoinNonEmpty(lines, "\n");
    }
  }

  /** A join whose last part is non-empty is non-empty. */
  lemma {:induction false} JoinNonEmpty(parts: seq<string>, sep: string)
    requires parts != [] && parts[|parts| - 1] != ""
    ensures Join(parts, sep) != ""
    decreases |parts|
  {
    if |parts| > 1 {
      JoinNonEmpty(parts[1..], sep);
    }
  }

  /** Joining a list extended by one part adds the separator and that part. */
  lemma {:induction false} JoinSnoc(parts: seq<string>, x: string, sep: string)
    requires |parts| >= 1
    ensures Join(parts + [x], sep) == Join(parts, sep) + sep + x
    decreases |parts|
  {
    if |parts| > 1 {
      assert (parts + [x])[1..] == parts[1..] + [x];
      JoinSnoc(parts[1..], x, sep);
    }
  }

  /** Stripping is idempotent. */
  lemma {:induction false} StripIdempotent(s: string)
    ensures Strip(Strip(s)) == Strip(s)
  {
    var t := Strip(s);
    StripEnds(s);
    RStripFixed(t);
    LStripFixed(t);
  }

  /** A stripped string neither starts nor ends with whitespace. */
  lemma {:induction false} StripEnds(s: string)
    ensures var t := Strip(s); t == [] || (!IsSpace(t[0]) && !IsSpace(t[|t| - 1]))
  {
    var r := RStrip(s);
    if r != [] {
      LStripKeepsLast(r);
    }
  }

  /** Left-stripping a string that ends in a non-space keeps that last character. */
  lemma {:induction false} LStripKeepsLast(s: string)
    requires s != [] && !IsSpace(s[|s| - 1])
    ensures LStrip(s) != [] && LStrip(s)[|LStrip(s)| - 1] == s[|s| - 1]
    decreases |s|
  {
    if IsSpace(s[0]) {
      LStripKeepsLast(s[1..]);
    }
  }

  /** A string that does not end with whitespace is right-stripped already. */
  lemma {:induction false} RStripFixed(s: string)
    requires s == [] || !IsSpace(s[|s| - 1])
    ensures RStrip(s) == s
  {
  }

  /** A string that does not start with whitespace is left-stripped already. */
  lemma {:induction false} LStripFixed(s: string)
    requires s == [] || !IsSpace(s[0])
    ensures LStrip(s) == s
  {
  }
}
