/** The data model shared by the indexer and the editor: a record is one
    configuration line together with its separator-joined ancestor path,
    and the errors the engine can raise. */
module Records {

  /** One `[path, value]` pair: the ancestor path joined by the separator,
      and the line itself with its leading spaces. */
  datatype Record = Record(path: string, value: string)

  datatype Option<T> = None | Some(value: T)

  /** The exceptions the engine raises.
      - TabCharacter: the text handed to the indexer contains a tab.
      - EmptySeparator: `str.split` was asked to split on the empty separator.
      - NoPatternLine: an empty converted request, or an empty list of
        stripped pattern lines, was indexed at `[0]`.
      - EndLineNotFound: a literal range delete found its start line but no
        end line at or after it. */
  datatype Error = TabCharacter | EmptySeparator | NoPatternLine | EndLineNotFound

  datatype Result<T> = Success(value: T) | Failure(error: Error)

  /** The outcome of an operation that edits in place. */
  datatype Outcome = Pass | Fail(error: Error)

  /** The line of every record, in order. */
  function Values(recs: seq<Record>): (r: seq<string>)
    ensures |r| == |recs| && forall k :: 0 <= k < |recs| ==> r[k] == recs[k].value
  {
    seq(|recs|, k requires 0 <= k < |recs| => recs[k].value)
  }

  /** `a` is `b` with some records left out, the others in their order. */
  predicate Sub(a: seq<Record>, b: seq<Record>)
    decreases |b|
  {
    a == [] || (b != [] && ((a[0] == b[0] && Sub(a[1..], b[1..])) || Sub(a, b[1..])))
  }

  /** The multiset of a non-empty sequence is its head and the multiset of its tail. */
  lemma {:induction false} MultisetCons<T>(s: seq<T>)
    requires s != []
    ensures multiset(s) == multiset{s[0]} + multiset(s[1..])
  {
    assert s == [s[0]] + s[1..];
  }
}
