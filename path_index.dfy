/** The indexer: turns indentation-structured configuration text into an
    ordered sequence of (ancestor path, line) records, each line paired
    with the separator-joined texts of the lines it is nested under. */
module PathIndex {
  import opened Text
  import opened Records

  /** A line is a comment when it starts, at column 0, with one of the
      comment prefixes. */
  predicate IsComment(line: string, comments: seq<string>) {
    StartsWithAny(line, comments)
  }

  /** The non-blank lines, each right-stripped, in order. */
  function Prepare(lines: seq<string>): seq<string>
    decreases |lines|
  {
    if lines == [] then []
    else (if IsBlank(lines[0]) then [] else [RStrip(lines[0])]) + Prepare(lines[1..])
  }

  // ---------------------------------------------------------------------
  // The ancestor relation

  /** What the ancestor relation looks at in a line: how deeply it is
      indented and whether it is a comment. */
  datatype Shape = Shape(lead: nat, comment: bool)

  function Shapes(vals: seq<string>, comments: seq<string>): (r: seq<Shape>)
    ensures |r| == |vals|
    ensures forall k :: 0 <= k < |vals| ==> r[k] == Shape(Lead(vals[k]), IsComment(vals[k], comments))
  {
    seq(|vals|, k requires 0 <= k < |vals| => Shape(Lead(vals[k]), IsComment(vals[k], comments)))
  }

  /** The forward scan started at non-comment line `i` reaches line `j`: no
      non-comment line in (i, j] is indented as little as `i` or less. For a
      non-comment `j` this is exactly "`i` is an ancestor of `j`". */
  predicate Reaches(sh: seq<Shape>, i: nat, j: nat)
    requires j < |sh|
  {
    i < j && !sh[i].comment &&
    forall k :: i < k <= j && !sh[k].comment ==> sh[i].lead < sh[k].lead
  }

  /** The lines below `n` that reach line `j`, in document order. */
  function Ancestors(sh: seq<Shape>, j: nat, n: nat): (r: seq<nat>)
    requires n <= j < |sh|
    ensures forall k :: 0 <= k < |r| ==> r[k] < n
    decreases n
  {
    if n == 0 then []
    else Ancestors(sh, j, n - 1) + (if Reaches(sh, n - 1, j) then [n - 1] else [])
  }

  /** The last line below `n` that reaches line `j`. */
  function LastReacher(sh: seq<Shape>, j: nat, n: nat): (r: Option<nat>)
    requires n <= j < |sh|
    ensures r.Some? ==> r.value < n
    decreases n
  {
    if n == 0 then None
    else if Reaches(sh, n - 1, j) then Some(n - 1)
    else LastReacher(sh, j, n - 1)
  }

  /** The path, as line indices, that a comment line inherits from the
      non-comment line `q`: `q`'s own path, or `q` itself when that path is
      empty. */
  function InheritedPath(sh: seq<Shape>, q: nat): (r: seq<nat>)
    requires q < |sh|
    ensures forall k :: 0 <= k < |r| ==> r[k] <= q
  {
    var a := Ancestors(sh, q, q);
    if a != [] then a else [q]
  }

  /** The path of line `j`, as line indices, once the lines below `b` have
      run their forward scans. */
  function PathIndicesUpTo(sh: seq<Shape>, b: nat, j: nat): (r: seq<nat>)
    requires b <= j < |sh|
    ensures forall k :: 0 <= k < |r| ==> r[k] < j
  {
    if sh[j].comment then
      match LastReacher(sh, j, b)
      case None => []
      case Some(q) => InheritedPath(sh, q)
    else Ancestors(sh, j, b)
  }

  /** The final path of line `j`, as line indices. */
  function PathIndices(sh: seq<Shape>, j: nat): (r: seq<nat>)
    requires j < |sh|
    ensures forall k :: 0 <= k < |r| ==> r[k] < j
  {
    PathIndicesUpTo(sh, j, j)
  }

  /** The stripped texts of the lines at `idx`. */
  function Tokens(vals: seq<string>, idx: seq<nat>): (r: seq<string>)
    requires forall k :: 0 <= k < |idx| ==> idx[k] < |vals|
    ensures |r| == |idx|
  {
    seq(|idx|, k requires 0 <= k < |idx| => Strip(vals[idx[k]]))
  }

  /** The final path of line `j`, as the list of ancestor tokens. */
  function PathAt(vals: seq<string>, comments: seq<string>, j: nat): seq<string>
    requires j < |vals|
  {
    Tokens(vals, PathIndices(Shapes(vals, comments), j))
  }

  /** One record per prepared line: its joined path and the line itself. */
  function Linearize(vals: seq<string>, comments: seq<string>, sep: string): (r: seq<Record>)
    ensures |r| == |vals|
  {
    seq(|vals|, j requires 0 <= j < |vals| => Record(Join(PathAt(vals, comments, j), sep), vals[j]))
  }

  /** What `_config_with_parent` returns for `text`. */
  function Build(text: string, comments: seq<string>, sep: string): Result<seq<Record>> {
    if '\t' in text then Failure(TabCharacter)
    else Success(Linearize(Prepare(SplitLines(text)), comments, sep))
  }

  // ---------------------------------------------------------------------
  // `_config_with_parent`

  /** The paths of all lines once the lines below `i` have run their
      forward scans and line `i` has run its scan up to (not including)
      line `s`; with `s <= i + 1` that scan has not started. */
  ghost function PathsDuring(vals: seq<string>, sh: seq<Shape>, i: nat, s: nat): (r: seq<seq<string>>)
    requires |sh| == |vals|
    ensures |r| == |vals|
  {
    seq(|vals|, j requires 0 <= j < |vals| =>
      Tokens(vals, PathIndicesUpTo(sh, if i < j < s then i + 1 else if i < j then i else j, j)))
  }

  /** The linearisation: rejects tabs, keeps the non-blank right-stripped
      lines, and lets every non-comment line extend the paths of the lines
      that follow it until one is indented no deeper than itself. */
  method ConfigWithParent(text: string, comments: seq<string>, sep: string) returns (r: Result<seq<Record>>)
    ensures r == Build(text, comments, sep)
  {
    if '\t' in text {
      return Failure(TabCharacter);
    }
    var vals := Prepare(SplitLines(text));
    var n := |vals|;
    var sh := Shapes(vals, comments);
    var paths := new seq<string>[n](_ => []);
    InitialPaths(vals, sh);
    assert paths[..] == PathsDuring(vals, sh, 0, 0);
    for i := 0 to n
      invariant paths[..] == PathsDuring(vals, sh, i, 0)
    {
      if sh[i].comment {
        CommentStep(vals, sh, i);
        continue;
      }
      ScanFrom(vals, sh, paths, i);
    }
    assert forall j :: 0 <= j < n ==> paths[j] == PathAt(vals, comments, j) by {
      assert paths[..] == PathsDuring(vals, sh, n, 0);
    }
    r := Success(seq(n, j requires 0 <= j < n reads paths => Record(Join(paths[j], sep), vals[j])));
    assert r.value == Linearize(vals, comments, sep);
  }

  /** The inner scan of non-comment line `i`: every following line up to
      the first non-comment line indented no deeper than `i` takes `i` into
      its path (a comment line takes `i`'s whole path). */
  method ScanFrom(vals: seq<string>, sh: seq<Shape>, paths: array<seq<string>>, i: nat)
    requires |sh| == |vals| == paths.Length
    requires i < |vals| && !sh[i].comment
    requires paths[..] == PathsDuring(vals, sh, i, 0)
    modifies paths
    ensures paths[..] == PathsDuring(vals, sh, i + 1, 0)
  {
    var s := i + 1;
    StartScan(vals, sh, i);
    while s < |vals|
      invariant i + 1 <= s <= |vals|
      invariant forall k :: i < k < s && !sh[k].comment ==> sh[i].lead < sh[k].lead
      invariant paths[..] == PathsDuring(vals, sh, i, s)
    {
      var stop := ScanLine(vals, sh, paths, i, s);
      if stop {
        return;
      }
      s := s + 1;
    }
    FinishedScan(vals, sh, i);
  }

  /** One step of the inner scan of line `i`, at line `s`: a comment line
      inherits the path of `i`, a deeper line appends `i`'s token, and any
      other line stops the scan. */
  method ScanLine(vals: seq<string>, sh: seq<Shape>, paths: array<seq<string>>, i: nat, s: nat) returns (stop: bool)
    requires |sh| == |vals| == paths.Length
    requires i < s < |vals| && !sh[i].comment
    requires forall k :: i < k < s && !sh[k].comment ==> sh[i].lead < sh[k].lead
    requires paths[..] == PathsDuring(vals, sh, i, s)
    modifies paths
    ensures stop ==> paths[..] == PathsDuring(vals, sh, i + 1, 0)
    ensures !stop ==> paths[..] == PathsDuring(vals, sh, i, s + 1)
    ensures !stop ==> forall k :: i < k < s + 1 && !sh[k].comment ==> sh[i].lead < sh[k].lead
  {
    var token := Strip(vals[i]);
    ghost var before := paths[..];
    if sh[s].comment {
      paths[s] := if paths[i] != [] then paths[i] else [token];
      ReachedStep(vals, sh, i, s, before, paths[..]);
      stop := false;
    } else if sh[i].lead < sh[s].lead {
      paths[s] := paths[s] + [token];
      ReachedStep(vals, sh, i, s, before, paths[..]);
      stop := false;
    } else {
      NotReachedRest(vals, sh, i, s);
      stop := true;
    }
  }

  /** The scan of `i` has not changed any path before it visits line `i + 1`. */
  lemma {:induction false} StartScan(vals: seq<string>, sh: seq<Shape>, i: nat)
    requires |sh| == |vals| && i < |sh|
    ensures PathsDuring(vals, sh, i, i + 1) == PathsDuring(vals, sh, i, 0)
  {
  }

  /** Before any scan, every path is empty. */
  lemma {:induction false} InitialPaths(vals: seq<string>, sh: seq<Shape>)
    requires |sh| == |vals|
    ensures PathsDuring(vals, sh, 0, 0) == seq(|vals|, _ => [])
  {
    var p := PathsDuring(vals, sh, 0, 0);
    forall j | 0 <= j < |vals|
      ensures p[j] == []
    {
      assert PathIndicesUpTo(sh, 0, j) == [];
      assert Tokens(vals, []) == [];
      assert p[j] == Tokens(vals, PathIndicesUpTo(sh, 0, j));
    }
  }

  /** A comment line runs no scan. */
  lemma {:induction false} CommentStep(vals: seq<string>, sh: seq<Shape>, i: nat)
    requires |sh| == |vals| && i < |sh| && sh[i].comment
    ensures PathsDuring(vals, sh, i + 1, 0) == PathsDuring(vals, sh, i, 0)
  {
    forall j | i < j < |sh|
      ensures PathIndicesUpTo(sh, i + 1, j) == PathIndicesUpTo(sh, i, j)
    {
      NotReachedStep(sh, i, j);
    }
  }

  /** A scan that has passed every line is complete. */
  lemma {:induction false} FinishedScan(vals: seq<string>, sh: seq<Shape>, i: nat)
    requires |sh| == |vals| && i < |sh|
    ensures PathsDuring(vals, sh, i, |sh|) == PathsDuring(vals, sh, i + 1, 0)
  {
  }

  /** A scan that stops at line `s` changes no path from `s` on. */
  lemma {:induction false} NotReachedRest(vals: seq<string>, sh: seq<Shape>, i: nat, s: nat)
    requires |sh| == |vals| && i < s < |sh|
    requires !sh[s].comment && sh[s].lead <= sh[i].lead
    ensures PathsDuring(vals, sh, i, s) == PathsDuring(vals, sh, i + 1, 0)
  {
    forall j | s <= j < |sh|
      ensures PathIndicesUpTo(sh, i + 1, j) == PathIndicesUpTo(sh, i, j)
    {
      NotReachedStep(sh, i, j);
    }
  }

  /** Moving the scan of `i` past line `s` can change only the path of `s`. */
  lemma {:induction false} PathsDuringStep(vals: seq<string>, sh: seq<Shape>, i: nat, s: nat)
    requires |sh| == |vals| && i < s < |sh|
    ensures forall j :: 0 <= j < |vals| && j != s ==> PathsDuring(vals, sh, i, s + 1)[j] == PathsDuring(vals, sh, i, s)[j]
    ensures PathsDuring(vals, sh, i, s + 1)[s] == Tokens(vals, PathIndicesUpTo(sh, i + 1, s))
    ensures PathsDuring(vals, sh, i, s)[s] == Tokens(vals, PathIndicesUpTo(sh, i, s))
    ensures PathsDuring(vals, sh, i, s)[i] == Tokens(vals, PathIndicesUpTo(sh, i, i))
  {
  }

  /** A line `s` that the scan of `i` reaches gets `i` appended to its
      path, or inherits `i`'s path when it is a comment. */
  lemma {:induction false} ReachedIndices(sh: seq<Shape>, i: nat, s: nat)
    requires s < |sh| && Reaches(sh, i, s)
    ensures PathIndicesUpTo(sh, i + 1, s) ==
      if sh[s].comment then InheritedPath(sh, i) else PathIndicesUpTo(sh, i, s) + [i]
    ensures PathIndicesUpTo(sh, i, i) == Ancestors(sh, i, i)
  {
  }

  lemma {:induction false} TokensSingle(vals: seq<string>, i: nat)
    requires i < |vals|
    ensures Tokens(vals, [i]) == [Strip(vals[i])]
  {
    var t := Tokens(vals, [i]);
    assert |t| == 1 && t[0] == Strip(vals[i]);
  }

  lemma {:induction false} TokensSnoc(vals: seq<string>, idx: seq<nat>, i: nat)
    requires i < |vals| && forall k :: 0 <= k < |idx| ==> idx[k] < |vals|
    ensures Tokens(vals, idx + [i]) == Tokens(vals, idx) + [Strip(vals[i])]
  {
  }

  /** The scan of non-comment `i` that reaches `s` updates exactly the path of `s`. */
  lemma {:induction false} ReachedStep(vals: seq<string>, sh: seq<Shape>, i: nat, s: nat, before: seq<seq<string>>, after: seq<seq<string>>)
    requires |sh| == |vals| && i < s < |sh|
    requires !sh[i].comment
    requires forall k :: i < k < s && !sh[k].comment ==> sh[i].lead < sh[k].lead
    requires sh[s].comment || sh[i].lead < sh[s].lead
    requires before == PathsDuring(vals, sh, i, s)
    requires after == before[s := if sh[s].comment then (if before[i] != [] then before[i] else [Strip(vals[i])])
                                  else before[s] + [Strip(vals[i])]]
    ensures after == PathsDuring(vals, sh, i, s + 1)
    ensures forall k :: i < k < s + 1 && !sh[k].comment ==> sh[i].lead < sh[k].lead
  {
    assert Reaches(sh, i, s);
    var next := PathsDuring(vals, sh, i, s + 1);
    PathsDuringStep(vals, sh, i, s);
    ReachedIndices(sh, i, s);
    if !sh[s].comment {
      TokensSnoc(vals, PathIndicesUpTo(sh, i, s), i);
    } else {
      TokensSingle(vals, i);
    }
    assert next[s] == after[s];
    assert |next| == |after|;
    forall j | 0 <= j < |vals|
      ensures next[j] == after[j]
    {
      if j != s {
        assert next[j] == before[j];
      }
    }
  }

  /** When `i` does not reach `j`, the scan of `i` leaves the path of `j` as it was. */
  lemma {:induction false} NotReachedStep(sh: seq<Shape>, i: nat, j: nat)
    requires i < j < |sh|
    requires !Reaches(sh, i, j)
    ensures PathIndicesUpTo(sh, i + 1, j) == PathIndicesUpTo(sh, i, j)
  {
  }

  // ---------------------------------------------------------------------
  // Properties of the linearisation

  /** `Ancestors` lists exactly the lines below `n` that reach `j`, in
      strictly increasing order. */
  lemma {:induction false} AncestorsExact(sh: seq<Shape>, j: nat, n: nat)
    requires n <= j < |sh|
    ensures forall i :: 0 <= i < n ==> (i in Ancestors(sh, j, n) <==> Reaches(sh, i, j))
    ensures forall a, b :: 0 <= a < b < |Ancestors(sh, j, n)| ==> Ancestors(sh, j, n)[a] < Ancestors(sh, j, n)[b]
    decreases n
  {
    if n > 0 {
      AncestorsExact(sh, j, n - 1);
    }
  }

  /** The ancestor rule. The path of a non-comment line `j` consists of the
      stripped texts of exactly those earlier non-comment lines `i` that are
      indented less than every non-comment line in (i, j], in document
      order; hence the indentation strictly increases along the path and
      stays below that of `j`. */
  lemma {:induction false} AncestorRule(vals: seq<string>, comments: seq<string>, j: nat)
    requires j < |vals| && !IsComment(vals[j], comments)
    ensures var idx := PathIndices(Shapes(vals, comments), j);
      && PathAt(vals, comments, j) == Tokens(vals, idx)
      && (forall i :: 0 <= i < j ==>
            (i in idx <==>
              !IsComment(vals[i], comments) &&
              forall k :: i < k <= j && !IsComment(vals[k], comments) ==> Lead(vals[i]) < Lead(vals[k])))
      && (forall a, b :: 0 <= a < b < |idx| ==> idx[a] < idx[b] && Lead(vals[idx[a]]) < Lead(vals[idx[b]]))
      && (forall a :: 0 <= a < |idx| ==> Lead(vals[idx[a]]) < Lead(vals[j]))
  {
    AncestorMembers(vals, comments, j);
    AncestorLeads(vals, comments, j);
  }

  /** The members of a non-comment line's path, in the terms of the text. */
  lemma {:induction false} AncestorMembers(vals: seq<string>, comments: seq<string>, j: nat)
    requires j < |vals| && !IsComment(vals[j], comments)
    ensures var idx := PathIndices(Shapes(vals, comments), j);
      forall i :: 0 <= i < j ==>
        (i in idx <==>
          !IsComment(vals[i], comments) &&
          forall k :: i < k <= j && !IsComment(vals[k], comments) ==> Lead(vals[i]) < Lead(vals[k]))
  {
    var sh := Shapes(vals, comments);
    var idx := PathIndices(sh, j);
    assert idx == Ancestors(sh, j, j);
    AncestorShape(sh, j);
    forall i | 0 <= i < j
      ensures i in idx <==>
        !IsComment(vals[i], comments) &&
        forall k :: i < k <= j && !IsComment(vals[k], comments) ==> Lead(vals[i]) < Lead(vals[k])
    {
      assert i in idx <==> Reaches(sh, i, j);
      assert sh[i] == Shape(Lead(vals[i]), IsComment(vals[i], comments));
    }
  }

  /** The indentation along a non-comment line's path, in the terms of the text. */
  lemma {:induction false} AncestorLeads(vals: seq<string>, comments: seq<string>, j: nat)
    requires j < |vals| && !IsComment(vals[j], comments)
    ensures var idx := PathIndices(Shapes(vals, comments), j);
      && (forall a, b :: 0 <= a < b < |idx| ==> idx[a] < idx[b] && Lead(vals[idx[a]]) < Lead(vals[idx[b]]))
      && (forall a :: 0 <= a < |idx| ==> Lead(vals[idx[a]]) < Lead(vals[j]))
  {
    var sh := Shapes(vals, comments);
    var idx := PathIndices(sh, j);
    assert idx == Ancestors(sh, j, j);
    AncestorShape(sh, j);
    forall a, b | 0 <= a < b < |idx|
      ensures Lead(vals[idx[a]]) < Lead(vals[idx[b]])
    {
      assert sh[idx[a]].lead == Lead(vals[idx[a]]) && sh[idx[b]].lead == Lead(vals[idx[b]]);
    }
    forall a | 0 <= a < |idx|
      ensures Lead(vals[idx[a]]) < Lead(vals[j])
    {
      assert sh[idx[a]].lead == Lead(vals[idx[a]]);
    }
    assert sh[j].lead == Lead(vals[j]);
  }

  /** The ancestor rule on shapes: the ancestors of a non-comment line are
      the lines that reach it, in increasing order and increasingly
      indented, all indented less than the line. */
  lemma {:induction false} AncestorShape(sh: seq<Shape>, j: nat)
    requires j < |sh| && !sh[j].comment
    ensures var idx := Ancestors(sh, j, j);
      && (forall i :: 0 <= i < j ==> (i in idx <==> Reaches(sh, i, j)))
      && (forall a, b :: 0 <= a < b < |idx| ==> idx[a] < idx[b] && sh[idx[a]].lead < sh[idx[b]].lead)
      && (forall a :: 0 <= a < |idx| ==> sh[idx[a]].lead < sh[j].lead)
  {
    AncestorsExact(sh, j, j);
    var idx := Ancestors(sh, j, j);
    forall a, b | 0 <= a < b < |idx|
      ensures sh[idx[a]].lead < sh[idx[b]].lead
    {
      assert idx[a] in idx && idx[b] in idx;
      assert Reaches(sh, idx[a], j);
    }
    forall a | 0 <= a < |idx|
      ensures sh[idx[a]].lead < sh[j].lead
    {
      assert idx[a] in idx;
      assert Reaches(sh, idx[a], j);
    }
  }

  /** The nearest non-comment line reaches every line between it and the
      next non-comment line, and no earlier line reaches beyond it. */
  lemma {:induction false} LastReacherIsNearest(sh: seq<Shape>, j: nat, n: nat, p: nat)
    requires p < n <= j < |sh|
    requires !sh[p].comment
    requires forall k :: p < k <= j ==> sh[k].comment
    ensures LastReacher(sh, j, n) == Some(p)
    decreases n
  {
    if n - 1 != p {
      assert !Reaches(sh, n - 1, j);
      LastReacherIsNearest(sh, j, n - 1, p);
    }
  }

  /** When only comments precede lines below `n`, nothing reaches `j`. */
  lemma {:induction false} LastReacherNone(sh: seq<Shape>, j: nat, n: nat)
    requires n <= j < |sh|
    requires forall k :: 0 <= k < n ==> sh[k].comment
    ensures LastReacher(sh, j, n) == None
    decreases n
  {
    if n > 0 {
      LastReacherNone(sh, j, n - 1);
    }
  }

  /** A comment line takes the path of the nearest preceding non-comment
      line `p` when that path is not empty, and `[p stripped]` otherwise. */
  lemma {:induction false} CommentFollowsNearestLine(vals: seq<string>, comments: seq<string>, j: nat, p: nat)
    requires p < j < |vals|
    requires IsComment(vals[j], comments) && !IsComment(vals[p], comments)
    requires forall k :: p < k < j ==> IsComment(vals[k], comments)
    ensures PathAt(vals, comments, j) ==
      if PathAt(vals, comments, p) != [] then PathAt(vals, comments, p) else [Strip(vals[p])]
  {
    var sh := Shapes(vals, comments);
    CommentShapes(vals, comments, j, p);
    CommentInherits(sh, j, p);
    TokensInherited(vals, sh, p);
  }

  /** The comment lines from `p + 1` to `j`, as shapes. */
  lemma {:induction false} CommentShapes(vals: seq<string>, comments: seq<string>, j: nat, p: nat)
    requires p < j < |vals|
    requires IsComment(vals[j], comments) && !IsComment(vals[p], comments)
    requires forall k :: p < k < j ==> IsComment(vals[k], comments)
    ensures var sh := Shapes(vals, comments);
      !sh[p].comment && forall k :: p < k <= j ==> sh[k].comment
  {
  }

  /** The tokens of the path a comment line inherits from `p`. */
  lemma {:induction false} TokensInherited(vals: seq<string>, sh: seq<Shape>, p: nat)
    requires |sh| == |vals| && p < |sh| && !sh[p].comment
    ensures Tokens(vals, InheritedPath(sh, p)) ==
      if Tokens(vals, PathIndices(sh, p)) != [] then Tokens(vals, PathIndices(sh, p)) else [Strip(vals[p])]
  {
    var own := PathIndices(sh, p);
    assert own == Ancestors(sh, p, p);
    if own == [] {
      TokensSingle(vals, p);
    } else {
      assert Tokens(vals, own) != [];
    }
  }

  /** On shapes: a comment line inherits the path of the nearest preceding
      non-comment line. */
  lemma {:induction false} CommentInherits(sh: seq<Shape>, j: nat, p: nat)
    requires p < j < |sh| && !sh[p].comment
    requires forall k :: p < k <= j ==> sh[k].comment
    ensures PathIndices(sh, j) == InheritedPath(sh, p)
  {
    LastReacherIsNearest(sh, j, j, p);
  }

  /** A comment line preceded only by comment lines has the empty path. */
  lemma {:induction false} LeadingCommentPath(vals: seq<string>, comments: seq<string>, j: nat)
    requires j < |vals| && IsComment(vals[j], comments)
    requires forall k :: 0 <= k < j ==> IsComment(vals[k], comments)
    ensures PathAt(vals, comments, j) == []
  {
    LastReacherNone(Shapes(vals, comments), j, j);
  }

  /** Comment lines never contribute to any path: every index on a path is
      an earlier non-comment line. */
  lemma {:induction false} PathsAvoidComments(vals: seq<string>, comments: seq<string>, j: nat)
    requires j < |vals|
    ensures forall a :: 0 <= a < |PathIndices(Shapes(vals, comments), j)| ==>
      var i := PathIndices(Shapes(vals, comments), j)[a];
      i < j && !IsComment(vals[i], comments)
  {
    var sh := Shapes(vals, comments);
    var idx := PathIndices(sh, j);
    PathShapesAvoidComments(sh, j);
    forall a | 0 <= a < |idx|
      ensures !IsComment(vals[idx[a]], comments)
    {
      assert !sh[idx[a]].comment;
    }
  }

  /** On shapes: every index on a path is a non-comment line. */
  lemma {:induction false} PathShapesAvoidComments(sh: seq<Shape>, j: nat)
    requires j < |sh|
    ensures forall a :: 0 <= a < |PathIndices(sh, j)| ==> !sh[PathIndices(sh, j)[a]].comment
  {
    var idx := PathIndices(sh, j);
    forall a | 0 <= a < |idx|
      ensures !sh[idx[a]].comment
    {
      if sh[j].comment {
        match LastReacher(sh, j, j)
        case None =>
        case Some(q) =>
          LastReacherReaches(sh, j, j);
          AncestorsExact(sh, q, q);
          assert idx[a] in Ancestors(sh, q, q) || idx[a] == q;
      } else {
        AncestorsExact(sh, j, j);
        assert idx[a] in Ancestors(sh, j, j);
      }
    }
  }

  /** The last reacher does reach. */
  lemma {:induction false} LastReacherReaches(sh: seq<Shape>, j: nat, n: nat)
    requires n <= j < |sh|
    ensures LastReacher(sh, j, n).Some? ==> Reaches(sh, LastReacher(sh, j, n).value, j)
    decreases n
  {
    if n > 0 && !Reaches(sh, n - 1, j) {
      LastReacherReaches(sh, j, n - 1);
    }
  }

  // ---------------------------------------------------------------------
  // Blank-line filtering and the text round trip

  /** Every prepared line is non-blank and right-stripped, and a character
      absent from every input line is absent from every prepared line. */
  lemma {:induction false} PrepareKeeps(lines: seq<string>, c: char)
    ensures |Prepare(lines)| <= |lines|
    ensures forall k :: 0 <= k < |Prepare(lines)| ==>
      !IsBlank(Prepare(lines)[k]) && RStrip(Prepare(lines)[k]) == Prepare(lines)[k]
    ensures (forall k :: 0 <= k < |lines| ==> c !in lines[k]) ==>
      forall k :: 0 <= k < |Prepare(lines)| ==> c !in Prepare(lines)[k]
    decreases |lines|
  {
    if lines != [] {
      PrepareKeeps(lines[1..], c);
      var l := lines[0];
      if !IsBlank(l) {
        var r := RStrip(l);
        assert !IsBlank(r) by {
          var k :| 0 <= k < |l| && !IsSpace(l[k]);
          assert k < |r| && r[k] == l[k];
        }
        assert forall x :: x in r ==> x in l;
      }
      if forall k :: 0 <= k < |lines| ==> c !in lines[k] {
        assert forall k :: 0 <= k < |lines[1..]| ==> c !in lines[1..][k] by {
          forall k | 0 <= k < |lines[1..]| ensures c !in lines[1..][k] {
            assert lines[1..][k] == lines[k + 1];
          }
        }
      }
    }
  }

  /** Lines that are already non-blank and right-stripped pass the filter unchanged. */
  lemma {:induction false} PrepareFixed(lines: seq<string>)
    requires forall k :: 0 <= k < |lines| ==> !IsBlank(lines[k]) && RStrip(lines[k]) == lines[k]
    ensures Prepare(lines) == lines
    decreases |lines|
  {
    if lines != [] {
      PrepareFixed(lines[1..]);
    }
  }

  /** No line of a split contains a newline, and a character absent from
      the text is absent from every line. */
  lemma {:induction false} SplitLinesAvoid(text: string, c: char)
    ensures forall k :: 0 <= k < |SplitLines(text)| ==> '\n' !in SplitLines(text)[k]
    ensures c !in text ==> forall k :: 0 <= k < |SplitLines(text)| ==> c !in SplitLines(text)[k]
  {
    if text != "" {
      SplitPiecesFree(text, "\n");
      if c !in text {
        SplitAvoids(text, "\n", c);
      }
    }
  }

  /** The lines of prepared text, joined by newlines and split again, come
      back unchanged and still free of tabs. */
  lemma {:induction false} PreparedTextRoundTrip(text: string)
    ensures var vals := Prepare(SplitLines(text));
      SplitLines(JoinLines(vals)) == vals &&
      ('\t' !in text ==> '\t' !in JoinLines(vals))
  {
    var lines := SplitLines(text);
    var vals := Prepare(lines);
    SplitLinesAvoid(text, '\t');
    PrepareKeeps(lines, '\n');
    PrepareKeeps(lines, '\t');
    if vals != [] {
      assert vals[|vals| - 1] != "" by {
        assert !IsBlank(vals[|vals| - 1]);
      }
    }
    SplitLinesJoin(vals);
    if '\t' !in text {
      JoinAvoids(vals, "\n", '\t');
    }
  }

  /** Serialising the records right after the build reproduces the
      non-blank, right-stripped lines of the text, in order: one record per
      such line, and splitting the serialised text gives them back. */
  lemma {:induction false} BuildRoundTrip(text: string, comments: seq<string>, sep: string)
    requires '\t' !in text
    ensures Build(text, comments, sep).Success?
    ensures var recs := Build(text, comments, sep).value;
      && Values(recs) == Prepare(SplitLines(text))
      && SplitLines(JoinLines(Values(recs))) == Prepare(SplitLines(text))
      && forall k :: 0 <= k < |recs| ==> !IsBlank(recs[k].value) && RStrip(recs[k].value) == recs[k].value
  {
    var vals := Prepare(SplitLines(text));
    var recs := Build(text, comments, sep).value;
    assert Values(recs) == vals;
    PreparedTextRoundTrip(text);
    PrepareKeeps(SplitLines(text), 'a');
  }

  /** Rebuilding from the serialised records, as `cwp_update` does, gives
      the same records again: the build is idempotent under reparse. */
  lemma {:induction false} ReparseIdempotent(text: string, comments: seq<string>, sep: string)
    requires Build(text, comments, sep).Success?
    ensures Build(JoinLines(Values(Build(text, comments, sep).value)), comments, sep) == Build(text, comments, sep)
  {
    var vals := Prepare(SplitLines(text));
    var recs := Build(text, comments, sep).value;
    assert Values(recs) == vals;
    PreparedTextRoundTrip(text);
    PrepareKeeps(SplitLines(text), 'a');
    PrepareFixed(vals);
  }
}
