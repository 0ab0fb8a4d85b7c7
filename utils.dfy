/**
 * client/src/lib/utils.ts: the Fisher–Yates shuffle, consecutive pairing of
 * the shuffled names, name validation and the comma/newline bulk parser.
 *
 * `Math.random()` is replaced by a sequence of draws: `rolls[i]` is the value
 * of `Math.floor(Math.random() * (i + 1))` taken when the shuffle loop is at
 * index `i`, so `0 <= rolls[i] <= i`. The loop never draws at index 0, so
 * `rolls[0]` (necessarily 0) is unused.
 */
module Utils {
  import opened Text
  import NamePattern

  // ---------------------------------------------------------------------
  // shuffleArray

  /** `rolls` is a possible sequence of draws for an array of length `n`. */
  predicate RollsFit(rolls: seq<nat>, n: nat) {
    |rolls| == n && forall i :: 0 <= i < n ==> rolls[i] <= i
  }

  /** `[a[i], a[j]] = [a[j], a[i]]` on a value. */
  function Swap<T>(s: seq<T>, i: nat, j: nat): (r: seq<T>)
    requires i < |s| && j < |s|
    ensures |r| == |s|
  {
    s[i := s[j]][j := s[i]]
  }

  lemma SwapPermutes<T>(s: seq<T>, i: nat, j: nat)
    requires i < |s| && j < |s|
    ensures multiset(Swap(s, i, j)) == multiset(s)
  {
    var t := s[i := s[j]];
    assert multiset(t) == multiset(s) - multiset{s[i]} + multiset{s[j]};
    assert t[j] == (if i == j then s[j] else s[j]);
  }

  /** The shuffle loop run from index `i` down to 1 on the array contents `s`. */
  function FisherYates<T>(s: seq<T>, rolls: seq<nat>, i: int): (r: seq<T>)
    requires i < |s| && RollsFit(rolls, |s|)
    ensures |r| == |s|
    decreases i
  {
    if i <= 0 then s else FisherYates(Swap(s, i, rolls[i]), rolls, i - 1)
  }

  lemma {:induction false} FisherYatesPermutes<T>(s: seq<T>, rolls: seq<nat>, i: int)
    requires i < |s| && RollsFit(rolls, |s|)
    ensures multiset(FisherYates(s, rolls, i)) == multiset(s)
    decreases i
  {
    if i > 0 {
      SwapPermutes(s, i, rolls[i]);
      FisherYatesPermutes(Swap(s, i, rolls[i]), rolls, i - 1);
    }
  }

  /** What `shuffleArray` returns for the contents `s` and the draws `rolls`. */
  function Shuffled<T>(s: seq<T>, rolls: seq<nat>): seq<T>
    requires RollsFit(rolls, |s|)
  {
    FisherYates(s, rolls, |s| - 1)
  }

  /**
   * shuffleArray: copies the argument and shuffles the copy in place. The
   * method has no modifies clause, so the argument itself is left as it was.
   */
  method ShuffleArray<T>(items: array<T>, rolls: seq<nat>) returns (shuffled: array<T>)
    requires RollsFit(rolls, items.Length)
    ensures fresh(shuffled)
    ensures shuffled[..] == Shuffled(items[..], rolls)
  {
    shuffled := new T[items.Length](k reads items requires 0 <= k < items.Length => items[k]);
    assert shuffled[..] == items[..];
    var i := shuffled.Length - 1;
    while i > 0
      invariant -1 <= i < shuffled.Length
      invariant shuffled.Length == items.Length
      invariant FisherYates(shuffled[..], rolls, i) == Shuffled(items[..], rolls)
    {
      var j := rolls[i];
      ghost var before := shuffled[..];
      shuffled[i], shuffled[j] := shuffled[j], shuffled[i];
      assert shuffled[..] == Swap(before, i, j);
      i := i - 1;
    }
  }

  /** The shuffle returns a rearrangement of its input. */
  lemma ShuffledIsPermutation<T>(s: seq<T>, rolls: seq<nat>)
    requires RollsFit(rolls, |s|)
    ensures |Shuffled(s, rolls)| == |s|
    ensures multiset(Shuffled(s, rolls)) == multiset(s)
  {
    FisherYatesPermutes(s, rolls, |s| - 1);
  }

  ghost predicate Distinct<T>(s: seq<T>) {
    forall a, b :: 0 <= a < b < |s| ==> s[a] != s[b]
  }

  lemma SwapDistinct<T>(s: seq<T>, i: nat, j: nat)
    requires i < |s| && j < |s| && Distinct(s)
    ensures Distinct(Swap(s, i, j))
  {
    var t := Swap(s, i, j);
    forall a, b | 0 <= a < b < |t| ensures t[a] != t[b] {
      var a' := if a == i then j else if a == j then i else a;
      var b' := if b == i then j else if b == j then i else b;
      assert t[a] == s[a'] && t[b] == s[b'];
      if a' < b' { assert s[a'] != s[b']; } else { assert s[b'] != s[a']; }
    }
  }

  /** Once the loop has passed index `k`, position `k` is never touched again. */
  lemma {:induction false} FisherYatesKeepsTail<T>(s: seq<T>, rolls: seq<nat>, i: int, k: nat)
    requires i < k < |s| && RollsFit(rolls, |s|)
    ensures FisherYates(s, rolls, i)[k] == s[k]
    decreases i
  {
    if i > 0 {
      var t := Swap(s, i, rolls[i]);
      assert t[k] == s[k];
      FisherYatesKeepsTail(t, rolls, i - 1, k);
    }
  }

  /** The first draw of two equal shuffles of distinct items is the same, and so is the rest of the shuffle. */
  lemma FisherYatesStepInjective<T>(s: seq<T>, r1: seq<nat>, r2: seq<nat>, i: int)
    requires Distinct(s) && 0 < i < |s| && RollsFit(r1, |s|) && RollsFit(r2, |s|)
    requires FisherYates(s, r1, i) == FisherYates(s, r2, i)
    ensures r1[i] == r2[i]
    ensures FisherYates(Swap(s, i, r1[i]), r1, i - 1) == FisherYates(Swap(s, i, r1[i]), r2, i - 1)
  {
    var t1, t2 := Swap(s, i, r1[i]), Swap(s, i, r2[i]);
    FisherYatesKeepsTail(t1, r1, i - 1, i);
    FisherYatesKeepsTail(t2, r2, i - 1, i);
    assert t1[i] == s[r1[i]] && t2[i] == s[r2[i]];
  }

  /**
   * Different draws give different orders when the items are distinct:
   * the shuffle is one-to-one from the draw sequences to the orderings.
   */
  lemma {:induction false} FisherYatesInjective<T>(s: seq<T>, r1: seq<nat>, r2: seq<nat>, i: int)
    requires Distinct(s) && i < |s| && RollsFit(r1, |s|) && RollsFit(r2, |s|)
    requires FisherYates(s, r1, i) == FisherYates(s, r2, i)
    ensures forall k :: 1 <= k <= i ==> r1[k] == r2[k]
    decreases i
  {
    if i > 0 {
      FisherYatesStepInjective(s, r1, r2, i);
      SwapDistinct(s, i, r1[i]);
      FisherYatesInjective(Swap(s, i, r1[i]), r1, r2, i - 1);
    }
  }

  /** Over distinct items, equal shuffles come only from equal draws. */
  lemma ShuffleInjective<T>(s: seq<T>, r1: seq<nat>, r2: seq<nat>)
    requires Distinct(s) && RollsFit(r1, |s|) && RollsFit(r2, |s|)
    requires Shuffled(s, r1) == Shuffled(s, r2)
    ensures r1 == r2
  {
    FisherYatesInjective(s, r1, r2, |s| - 1);
    assert forall k :: 0 <= k < |s| ==> r1[k] == r2[k] by {
      if |s| > 0 { assert r1[0] == 0 == r2[0]; }
    }
  }

  // ---------------------------------------------------------------------
  // generatePairs

  /** The groups the stride-2 loop pushes from index `i` on. */
  function PairsFrom<T>(s: seq<T>, i: nat): seq<seq<T>>
    decreases |s| - i
  {
    if i >= |s| then []
    else if i + 1 < |s| then [[s[i], s[i + 1]]] + PairsFrom(s, i + 2)
    else [[s[i]]]
  }

  /** Consecutive pairing of `s`: the groups `generatePairs` builds from its shuffled copy. */
  function Pairs<T>(s: seq<T>): seq<seq<T>> {
    PairsFrom(s, 0)
  }

  /** generatePairs: shuffle a copy, then group consecutive items two at a time. */
  method GeneratePairs<T>(items: array<T>, rolls: seq<nat>) returns (pairs: seq<seq<T>>)
    requires RollsFit(rolls, items.Length)
    ensures pairs == Pairs(Shuffled(items[..], rolls))
  {
    var shuffled := ShuffleArray(items, rolls);
    pairs := [];
    var i := 0;
    while i < shuffled.Length
      invariant 0 <= i <= shuffled.Length + 1
      invariant pairs + PairsFrom(shuffled[..], i) == Pairs(shuffled[..])
      decreases shuffled.Length - i
    {
      if i + 1 < shuffled.Length {
        pairs := pairs + [[shuffled[i], shuffled[i + 1]]];
      } else {
        pairs := pairs + [[shuffled[i]]];
      }
      i := i + 2;
    }
  }

  /** All groups' items in order. */
  function Flatten<T>(groups: seq<seq<T>>): seq<T> {
    if groups == [] then [] else groups[0] + Flatten(groups[1..])
  }

  lemma {:induction false} FlattenPairsFrom<T>(s: seq<T>, i: nat)
    requires i <= |s|
    ensures Flatten(PairsFrom(s, i)) == s[i..]
    decreases |s| - i
  {
    if i + 1 < |s| {
      FlattenPairsFrom(s, i + 2);
      assert ([[s[i], s[i + 1]]] + PairsFrom(s, i + 2))[1..] == PairsFrom(s, i + 2);
      assert s[i..] == [s[i], s[i + 1]] + s[i + 2..];
    } else if i + 1 == |s| {
      assert [[s[i]]][1..] == [];
    }
  }

  /** Reading the groups in order gives back exactly the sequence that was paired. */
  lemma PairsCover<T>(s: seq<T>)
    ensures Flatten(Pairs(s)) == s
  {
    FlattenPairsFrom(s, 0);
  }

  function Min(a: int, b: int): int {
    if a <= b then a else b
  }

  lemma {:induction false} PairsFromAt<T>(s: seq<T>, i: nat)
    requires i <= |s|
    ensures |PairsFrom(s, i)| == (|s| - i + 1) / 2
    ensures forall k :: 0 <= k < |PairsFrom(s, i)| ==>
      PairsFrom(s, i)[k] == s[i + 2 * k..Min(i + 2 * k + 2, |s|)]
    decreases |s| - i
  {
    if i + 1 < |s| {
      PairsFromAt(s, i + 2);
      var rest := PairsFrom(s, i + 2);
      assert PairsFrom(s, i) == [[s[i], s[i + 1]]] + rest;
      assert |PairsFrom(s, i)| == 1 + (|s| - i - 1) / 2;
      assert PairsFrom(s, i)[0] == s[i..i + 2];
      forall k | 0 < k < |PairsFrom(s, i)|
        ensures PairsFrom(s, i)[k] == s[i + 2 * k..Min(i + 2 * k + 2, |s|)]
      {
        assert PairsFrom(s, i)[k] == rest[k - 1];
        assert i + 2 + 2 * (k - 1) == i + 2 * k;
      }
    }
  }

  /**
   * Group `k` of `Pairs(s)` holds items `2k` and `2k + 1`; the number of
   * groups is `ceil(n / 2)`; every group has one or two items, and a group
   * has one item exactly when `n` is odd and it is the last group.
   */
  lemma PairsShape<T>(s: seq<T>)
    ensures |Pairs(s)| == (|s| + 1) / 2
    ensures forall k :: 0 <= k < |Pairs(s)| ==> Pairs(s)[k] == s[2 * k..Min(2 * k + 2, |s|)]
    ensures forall k :: 0 <= k < |Pairs(s)| ==> |Pairs(s)[k]| == 1 || |Pairs(s)[k]| == 2
    ensures forall k :: 0 <= k < |Pairs(s)| ==>
      (|Pairs(s)[k]| == 1 <==> |s| % 2 == 1 && k == |Pairs(s)| - 1)
  {
    PairsFromAt(s, 0);
  }

  /** The edge cases: no items give no groups, one item gives one group of one. */
  lemma PairsOfFew<T>(a: T, rolls0: seq<nat>, rolls1: seq<nat>)
    requires RollsFit(rolls0, 0) && RollsFit(rolls1, 1)
    ensures Pairs(Shuffled<T>([], rolls0)) == []
    ensures Pairs(Shuffled([a], rolls1)) == [[a]]
  {
  }

  /** Every item is paired exactly once: the groups hold the input items, as a multiset. */
  lemma GeneratedPairsCover<T>(s: seq<T>, rolls: seq<nat>)
    requires RollsFit(rolls, |s|)
    ensures multiset(Flatten(Pairs(Shuffled(s, rolls)))) == multiset(s)
    ensures |Pairs(Shuffled(s, rolls))| == (|s| + 1) / 2
  {
    ShuffledIsPermutation(s, rolls);
    PairsCover(Shuffled(s, rolls));
    PairsShape(Shuffled(s, rolls));
  }

  // ---------------------------------------------------------------------
  // validateName

  /** validateName: non-empty and matching `^[a-zA-Z]+(?: [a-zA-Z]+)*$`. */
  function ValidateName(name: string): (ok: bool)
    ensures ok <==> NamePattern.WellFormed(name)
  {
    NamePattern.MatchesIffWellFormed(name);
    |name| > 0 && NamePattern.Matches(name)
  }

  /** A valid name has no surrounding white space and uses only letters and spaces. */
  lemma ValidNameShape(name: string)
    requires ValidateName(name)
    ensures Trim(name) == name
    ensures NoneIn(name, BulkSeparators)
  {
    TrimUnchanged(name);
  }

  // ---------------------------------------------------------------------
  // parseBulkInput

  /** The characters of the split pattern `[\n,]+`. */
  const BulkSeparators: set<char> := {'\n', ','}

  function TrimAll(xs: seq<string>): (r: seq<string>)
    ensures |r| == |xs| && forall k :: 0 <= k < |xs| ==> r[k] == Trim(xs[k])
  {
    if xs == [] then [] else [Trim(xs[0])] + TrimAll(xs[1..])
  }

  lemma TrimAllPair(x: string, y: string)
    ensures TrimAll([x, y]) == [Trim(x)] + [Trim(y)]
  {
    assert [x, y][1..] == [y];
    assert [y][1..] == [];
  }

  /** `.filter((name) => name && validateName(name))`. */
  function KeepValid(xs: seq<string>): (r: seq<string>)
    ensures forall k :: 0 <= k < |r| ==> ValidateName(r[k]) && r[k] in xs
  {
    if xs == [] then []
    else
      assert xs == [xs[0]] + xs[1..];
      (if xs[0] != [] && ValidateName(xs[0]) then [xs[0]] else []) + KeepValid(xs[1..])
  }

  /** The filter keeps a single name exactly when it is valid. */
  lemma KeepValidOne(x: string)
    ensures KeepValid([x]) == if ValidateName(x) then [x] else []
  {
    assert [x][1..] == [];
  }

  /** The filter works piece by piece, so the names kept stay in their order. */
  lemma {:induction false} KeepValidAppend(a: seq<string>, b: seq<string>)
    ensures KeepValid(a + b) == KeepValid(a) + KeepValid(b)
  {
    if a == [] {
      AppendEmpty(b);
    } else {
      TailAppend(a, b);
      KeepValidAppend(a[1..], b);
      var head := if a[0] != [] && ValidateName(a[0]) then [a[0]] else [];
      AppendAssoc(head, KeepValid(a[1..]), KeepValid(b));
    }
  }

  /** Nothing is kept when no name is valid. */
  lemma {:induction false} KeepValidNone(xs: seq<string>)
    requires forall k :: 0 <= k < |xs| ==> !ValidateName(xs[k])
    ensures KeepValid(xs) == []
  {
    if xs != [] {
      KeepValidNone(xs[1..]);
    }
  }

  lemma TrimAllAppend(a: seq<string>, b: seq<string>)
    ensures TrimAll(a + b) == TrimAll(a) + TrimAll(b)
  {
  }

  /** parseBulkInput: [] for blank text, else the trimmed valid pieces between runs of newlines and commas. */
  function ParseBulkInput(text: string): (names: seq<string>)
    ensures AllWhite(text) ==> names == []
    ensures forall k :: 0 <= k < |names| ==> ValidateName(names[k]) && Trim(names[k]) == names[k]
    ensures forall k :: 0 <= k < |names| ==> NoneIn(names[k], BulkSeparators)
    ensures forall k :: 0 <= k < |names| ==> names[k] in TrimAll(SplitRuns(text, BulkSeparators))
  {
    var names := if Trim(text) == [] then [] else KeepValid(TrimAll(SplitRuns(text, BulkSeparators)));
    forall k | 0 <= k < |names| ensures Trim(names[k]) == names[k] && NoneIn(names[k], BulkSeparators) {
      ValidNameShape(names[k]);
    }
    names
  }

  lemma ParseBulkInputSteps(text: string)
    requires !AllWhite(text)
    ensures ParseBulkInput(text) == KeepValid(TrimAll(SplitRuns(text, BulkSeparators)))
  {
  }

  /**
   * parseBulkInput on any text written as pieces with runs of newlines and
   * commas between them (no piece holding a separator, no empty piece
   * between two runs): the trimmed pieces that are valid names, in piece
   * order, and nothing else. Every text can be written so (Text.SplitRunsCovers).
   */
  lemma ParseBulkInputOfRuns(xs: seq<string>, runs: seq<string>)
    requires |xs| == |runs| + 1
    requires forall k :: 0 <= k < |runs| ==> IsRun(runs[k], BulkSeparators)
    requires forall k :: 0 <= k < |xs| ==> NoneIn(xs[k], BulkSeparators)
    requires forall k :: 0 < k < |xs| - 1 ==> xs[k] != []
    ensures ParseBulkInput(JoinRuns(xs, runs)) == KeepValid(TrimAll(xs))
  {
    var text := JoinRuns(xs, runs);
    if AllWhite(text) {
      JoinRunsWhite(xs, runs);
      var trimmed := TrimAll(xs);
      forall k | 0 <= k < |trimmed| ensures !ValidateName(trimmed[k]) {
        assert trimmed[k] == Trim(xs[k]) == [];
      }
      KeepValidNone(trimmed);
    } else {
      SplitRunsOfJoinRuns(xs, runs, BulkSeparators);
      ParseBulkInputSteps(text);
    }
  }

  lemma ParseBulkInputOfTwo(x: string, r: string, y: string)
    requires NoneIn(x, BulkSeparators) && NoneIn(y, BulkSeparators) && IsRun(r, BulkSeparators)
    ensures ParseBulkInput(x + r + y) == KeepValid(TrimAll([x, y]))
  {
    JoinRunsTwo(x, r, y);
    ParseBulkInputOfRuns([x, y], [r]);
  }

  lemma ParseBulkInputOfThree(x: string, r1: string, y: string, r2: string, z: string)
    requires NoneIn(x, BulkSeparators) && NoneIn(y, BulkSeparators) && NoneIn(z, BulkSeparators)
    requires IsRun(r1, BulkSeparators) && IsRun(r2, BulkSeparators) && y != []
    ensures ParseBulkInput(x + r1 + y + r2 + z) == KeepValid(TrimAll([x, y, z]))
  {
    JoinRunsThree(x, r1, y, r2, z);
    ParseBulkInputOfRuns([x, y, z], [r1, r2]);
  }

  lemma SeparatorFacts()
    ensures IsRun(",", BulkSeparators) && IsRun("\n\n", BulkSeparators) && NoneIn(" ", BulkSeparators)
    ensures ", " == "," + " "
  {
  }

  /** `a + ", " + b` as pieces and runs, and what the filter keeps of those pieces. */
  lemma SpacedPieces(a: string, b: string)
    requires ValidateName(a) && ValidateName(b)
    ensures a + ", " + b == a + "," + (" " + b)
    ensures NoneIn(a, BulkSeparators) && NoneIn(" " + b, BulkSeparators) && IsRun(",", BulkSeparators)
    ensures KeepValid(TrimAll([a, " " + b])) == [a, b]
  {
    ValidNameShape(a);
    ValidNameShape(b);
    SeparatorFacts();
    NoneInAppend(" ", b, BulkSeparators);
    AppendAssoc(a, ",", " ");
    AppendAssoc(a + ",", " ", b);
    TrimLeadingSpace(b);
    TrimUnchanged(a);
    TrimAllPair(a, " " + b);
    KeepValidAppend([a], [b]);
    KeepValidOne(a);
    KeepValidOne(b);
    assert [a] + [b] == [a, b];
  }

  /** Names separated by a comma and a space are read back, trimmed, in order. */
  lemma ParseBulkInputSpaced(a: string, b: string)
    requires ValidateName(a) && ValidateName(b)
    ensures ParseBulkInput(a + ", " + b) == [a, b]
  {
    SpacedPieces(a, b);
    ParseBulkInputOfTwo(a, ",", " " + b);
  }

  lemma BlankLinePieces(a: string, b: string)
    requires ValidateName(a) && ValidateName(b)
    ensures NoneIn(a, BulkSeparators) && NoneIn(b, BulkSeparators) && IsRun("\n\n", BulkSeparators)
    ensures KeepValid(TrimAll([a, b])) == [a, b]
  {
    ValidNameShape(a);
    ValidNameShape(b);
    SeparatorFacts();
    TrimAllUnchanged([a, b]);
    KeepValidAll([a, b]);
  }

  /** A blank line between two names is part of one separator run. */
  lemma ParseBulkInputBlankLine(a: string, b: string)
    requires ValidateName(a) && ValidateName(b)
    ensures ParseBulkInput(a + "\n\n" + b) == [a, b]
  {
    BlankLinePieces(a, b);
    ParseBulkInputOfTwo(a, "\n\n", b);
  }

  lemma InvalidPieces(a: string, x: string, b: string)
    requires ValidateName(a) && ValidateName(b)
    requires !ValidateName(Trim(x))
    ensures NoneIn(a, BulkSeparators) && NoneIn(b, BulkSeparators) && IsRun(",", BulkSeparators)
    ensures KeepValid(TrimAll([a, x, b])) == [a, b]
  {
    ValidNameShape(a);
    ValidNameShape(b);
    SeparatorFacts();
    TrimUnchanged(a);
    TrimUnchanged(b);
    assert TrimAll([a, x, b]) == [a] + ([Trim(x)] + [b]);
    KeepValidAppend([a], [Trim(x)] + [b]);
    KeepValidAppend([Trim(x)], [b]);
    KeepValidOne(a);
    KeepValidOne(Trim(x));
    KeepValidOne(b);
  }

  /** A piece that is not a valid name after trimming is dropped; its neighbours are kept in order. */
  lemma ParseBulkInputSkipsInvalid(a: string, x: string, b: string)
    requires ValidateName(a) && ValidateName(b)
    requires x != [] && NoneIn(x, BulkSeparators) && !ValidateName(Trim(x))
    ensures ParseBulkInput(a + "," + x + "," + b) == [a, b]
  {
    InvalidPieces(a, x, b);
    ParseBulkInputOfThree(a, ",", x, ",", b);
  }

  lemma TrimAllUnchanged(xs: seq<string>)
    requires forall k :: 0 <= k < |xs| ==> Trim(xs[k]) == xs[k]
    ensures TrimAll(xs) == xs
  {
  }

  lemma {:induction false} KeepValidAll(xs: seq<string>)
    requires forall k :: 0 <= k < |xs| ==> ValidateName(xs[k])
    ensures KeepValid(xs) == xs
  {
    if xs != [] {
      KeepValidAll(xs[1..]);
    }
  }

  /**
   * Valid names written one per line, or separated by commas, are read back
   * exactly, in order.
   */
  lemma ParseBulkInputJoin(xs: seq<string>, sep: char)
    requires sep in BulkSeparators
    requires |xs| >= 1
    requires forall k :: 0 <= k < |xs| ==> ValidateName(xs[k])
    ensures ParseBulkInput(Join(xs, [sep])) == xs
  {
    var text := Join(xs, [sep]);
    forall k | 0 <= k < |xs| ensures xs[k] != [] && NoneIn(xs[k], BulkSeparators) && Trim(xs[k]) == xs[k] {
      ValidNameShape(xs[k]);
    }
    SplitRunsJoin(xs, sep, BulkSeparators);
    JoinStartsWith(xs, [sep]);
    assert NamePattern.IsLetter(text[0]);
    assert !AllWhite(text);
    TrimAllUnchanged(xs);
    KeepValidAll(xs);
    ParseBulkInputSteps(text);
  }
}
