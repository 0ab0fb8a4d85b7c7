/**
 * client/src/lib/schema.ts: `personSchema` and `bulkPersonsSchema`.
 *
 * A person's name is checked as given, without trimming: at least one
 * character, then validateName. As in nameSchema both checks run, so an
 * empty name reports two issues. The url is optional and unconstrained.
 */
module ClientSchema {
  import opened Wrappers
  import opened Text
  import opened Validation
  import NamePattern
  import Utils
  import SharedSchema

  /** A person to pair: a name and an optional link. */
  datatype Person = Person(name: string, url: Option<string>)

  const NameRequiredMessage := "Name is required"
  const InvalidCharactersMessage := "Name contains invalid characters"
  const NoPersonsMessage := "At least one person is required"

  function PersonIssues(p: Person): seq<Issue> {
    (if |p.name| < 1 then [Issue([Key("name")], NameRequiredMessage)] else [])
    + (if Utils.ValidateName(p.name) then [] else [Issue([Key("name")], InvalidCharactersMessage)])
  }

  /**
   * personSchema: accepted exactly when the name itself (untrimmed) is letter
   * runs separated by single spaces, whatever the url; the value is the
   * person unchanged. An empty name reports both issues.
   */
  function PersonSchema(p: Person): (r: Parsed<Person>)
    ensures r.Valid? <==> NamePattern.WellFormed(p.name)
    ensures r.Valid? ==> r.value == p
    ensures r.Invalid? ==> r.issues != []
    ensures p.name == [] ==>
      r == Invalid([Issue([Key("name")], NameRequiredMessage), Issue([Key("name")], InvalidCharactersMessage)])
  {
    var issues := PersonIssues(p);
    if issues == [] then Valid(p) else Invalid(issues)
  }

  /** A name with white space at either end passes nameSchema (after trimming) but never personSchema. */
  lemma UntrimmedNameRejected(p: Person)
    requires p.name != [] && (IsWhite(p.name[0]) || IsWhite(p.name[|p.name| - 1]))
    ensures PersonSchema(p).Invalid?
  {
  }

  /** A person accepted on the client has a name the shared nameSchema accepts unchanged. */
  lemma PersonNamePassesNameSchema(p: Person)
    requires PersonSchema(p).Valid?
    ensures SharedSchema.NameSchema(p.name) == Valid(p.name)
  {
    TrimUnchanged(p.name);
  }

  /**
   * bulkPersonsSchema: accepted exactly when there is at least one person and
   * every person is valid; the value is the array unchanged.
   */
  function BulkPersonsSchema(ps: seq<Person>): (r: Parsed<seq<Person>>)
    ensures r.Valid? <==> |ps| >= 1 && forall k :: 0 <= k < |ps| ==> NamePattern.WellFormed(ps[k].name)
    ensures r.Valid? ==> r.value == ps
    ensures ps == [] ==> r == Invalid([Issue([], NoPersonsMessage)])
  {
    var issues := (if |ps| < 1 then [Issue([], NoPersonsMessage)] else []) + ElementIssues(ps, 0, PersonSchema);
    if issues == [] then Valid(ps) else Invalid(issues)
  }
}
