/**
 * shared/schema.ts: `nameSchema` and `bulkNamesSchema`.
 *
 * nameSchema trims its input, then checks that the trimmed string has at
 * least one character and matches the name pattern. Both checks always run
 * and each failing one reports an issue, so a blank input reports two.
 * bulkNamesSchema reports "too few" first when the array is empty, then every
 * element's issues under the element's index.
 */
module SharedSchema {
  import opened Text
  import opened Validation
  import NamePattern

  const EmptyNameMessage := "Name cannot be empty"
  const PatternMessage := "Name should contain only letters and spaces"
  const NoNamesMessage := "At least one name is required"

  function NameIssues(t: string): seq<Issue> {
    (if |t| < 1 then [Issue([], EmptyNameMessage)] else [])
    + (if NamePattern.Matches(t) then [] else [Issue([], PatternMessage)])
  }

  /**
   * nameSchema: accepted exactly when the trimmed input is letter runs
   * separated by single spaces, and the accepted value is the trimmed input.
   * A rejection always carries the pattern issue, and carries the empty-name
   * issue exactly when the input is blank.
   */
  function NameSchema(input: string): (r: Parsed<string>)
    ensures r.Valid? <==> NamePattern.WellFormed(Trim(input))
    ensures r.Valid? ==> r.value == Trim(input)
    ensures r.Invalid? ==> Issue([], PatternMessage) in r.issues
    ensures r.Invalid? ==> (Issue([], EmptyNameMessage) in r.issues <==> AllWhite(input))
  {
    var t := Trim(input);
    NamePattern.MatchesIffWellFormed(t);
    var issues := NameIssues(t);
    if issues == [] then Valid(t) else Invalid(issues)
  }

  /** The parsed values of an array whose every element passes nameSchema: the trimmed elements. */
  function ParsedNames(xs: seq<string>): (r: seq<string>)
    requires forall k :: 0 <= k < |xs| ==> NameSchema(xs[k]).Valid?
    ensures |r| == |xs| && forall k :: 0 <= k < |xs| ==> r[k] == Trim(xs[k])
  {
    seq(|xs|, k requires 0 <= k < |xs| => NameSchema(xs[k]).value)
  }

  /**
   * bulkNamesSchema: accepted exactly when the array is non-empty and every
   * element passes nameSchema; the accepted value is the element-wise trimmed
   * array. The empty array is rejected with the single "too few" issue.
   */
  function BulkNamesSchema(xs: seq<string>): (r: Parsed<seq<string>>)
    ensures r.Valid? <==> |xs| >= 1 && forall k :: 0 <= k < |xs| ==> NameSchema(xs[k]).Valid?
    ensures r.Valid? ==> |r.value| == |xs| && forall k :: 0 <= k < |xs| ==> r.value[k] == Trim(xs[k])
    ensures xs == [] ==> r == Invalid([Issue([], NoNamesMessage)])
  {
    var issues := (if |xs| < 1 then [Issue([], NoNamesMessage)] else []) + ElementIssues(xs, 0, NameSchema);
    if issues == [] then Valid(ParsedNames(xs)) else Invalid(issues)
  }
}
