/**
 * The name pattern `^[a-zA-Z]+(?: [a-zA-Z]+)*$`, written out at
 * client/src/lib/utils.ts (validateName) and at shared/schema.ts (nameSchema).
 */
module NamePattern {

  /** The character class `[a-zA-Z]`: ASCII letters only. */
  predicate IsLetter(c: char) {
    'a' <= c <= 'z' || 'A' <= c <= 'Z'
  }

  /** The length of the greedy leading `[a-zA-Z]+` run (0 when there is none). */
  function LetterRun(s: string): (n: nat)
    ensures n <= |s|
    ensures forall k :: 0 <= k < n ==> IsLetter(s[k])
    ensures n < |s| ==> !IsLetter(s[n])
  {
    if |s| > 0 && IsLetter(s[0]) then 1 + LetterRun(s[1..]) else 0
  }

  /**
   * The anchored regular expression, matched as the engine does: a run of
   * letters, then either the end of the string or one space followed by a
   * match of the same pattern. Letters and the space are disjoint, so
   * backtracking into the run can never help and the greedy run decides.
   */
  predicate Matches(s: string)
    decreases |s|
  {
    var n := LetterRun(s);
    n > 0 && (n == |s| || (s[n] == ' ' && Matches(s[n + 1..])))
  }

  /**
   * A name as the pattern describes it, character by character: non-empty,
   * only letters and spaces, a letter at both ends, and no two spaces in a row.
   */
  predicate WellFormed(s: string) {
    && |s| > 0
    && (forall k :: 0 <= k < |s| ==> IsLetter(s[k]) || s[k] == ' ')
    && IsLetter(s[0]) && IsLetter(s[|s| - 1])
    && (forall k :: 0 <= k < |s| - 1 ==> !(s[k] == ' ' && s[k + 1] == ' '))
  }

  /** A string the pattern accepts is well formed. */
  lemma {:induction false} MatchesWellFormed(s: string)
    requires Matches(s)
    ensures WellFormed(s)
    decreases |s|
  {
    var n := LetterRun(s);
    if n < |s| {
      var rest := s[n + 1..];
      MatchesWellFormed(rest);
      assert forall k :: n + 1 <= k < |s| ==> s[k] == rest[k - n - 1];
      assert s[|s| - 1] == rest[|rest| - 1];
      forall k | 0 <= k < |s| - 1 ensures !(s[k] == ' ' && s[k + 1] == ' ') {
        if k < n { assert IsLetter(s[k]); }
        else if k == n { assert s[k + 1] == rest[0]; }
        else { assert s[k] == rest[k - n - 1] && s[k + 1] == rest[k - n]; }
      }
    }
  }

  /** A well-formed string is accepted by the pattern. */
  lemma {:induction false} WellFormedMatches(s: string)
    requires WellFormed(s)
    ensures Matches(s)
    decreases |s|
  {
    var n := LetterRun(s);
    if n < |s| {
      assert s[n] == ' ';
      var rest := s[n + 1..];
      assert n + 1 < |s| && s[n + 1] != ' ';
      assert rest[0] == s[n + 1];
      assert rest[|rest| - 1] == s[|s| - 1];
      assert forall k :: 0 <= k < |rest| ==> rest[k] == s[k + n + 1];
      forall k | 0 <= k < |rest| - 1 ensures !(rest[k] == ' ' && rest[k + 1] == ' ') {
        assert rest[k] == s[k + n + 1] && rest[k + 1] == s[k + n + 2];
      }
      WellFormedMatches(rest);
    }
  }

  /** The pattern accepts a string exactly when it is well formed. */
  lemma MatchesIffWellFormed(s: string)
    ensures Matches(s) <==> WellFormed(s)
  {
    if Matches(s) {
      MatchesWellFormed(s);
    }
    if WellFormed(s) {
      WellFormedMatches(s);
    }
  }
}
