/**
 * The shape of a schema's `safeParse` outcome, shared by shared/schema.ts and
 * client/src/lib/schema.ts: either the parsed value or the list of issues,
 * each with the path to the offending part of the input and its message.
 */
module Validation {

  /** One step of an issue path: an object key or an array index. */
  datatype PathKey = Key(name: string) | Index(index: nat)

  datatype Issue = Issue(path: seq<PathKey>, message: string)

  datatype Parsed<T> = Valid(value: T) | Invalid(issues: seq<Issue>)

  /** The issues of an array element, reported under the element's index. */
  function AtIndex(k: nat, issues: seq<Issue>): (r: seq<Issue>)
    ensures |r| == |issues|
    ensures forall j :: 0 <= j < |r| ==> r[j] == Issue([Index(k)] + issues[j].path, issues[j].message)
  {
    if issues == [] then [] else [Issue([Index(k)] + issues[0].path, issues[0].message)] + AtIndex(k, issues[1..])
  }

  /** The issues of an outcome: none when it is valid. */
  function IssuesOf<T>(p: Parsed<T>): seq<Issue> {
    match p
    case Valid(_) => []
    case Invalid(issues) => issues
  }

  /**
   * The issues of the array elements from index `i` on, in index order, each
   * under its element's index, as an array schema reports them.
   */
  function ElementIssues<T, V>(xs: seq<T>, i: nat, schema: T -> Parsed<V>): (r: seq<Issue>)
    requires i <= |xs|
    ensures r == [] <==> forall k :: i <= k < |xs| ==> IssuesOf(schema(xs[k])) == []
    decreases |xs| - i
  {
    if i == |xs| then [] else AtIndex(i, IssuesOf(schema(xs[i]))) + ElementIssues(xs, i + 1, schema)
  }
}
