/**
 * The JavaScript string built-ins the application relies on: the white-space
 * class shared by `String.prototype.trim` and the regular-expression escape
 * `\s`, `trim`, `split` (with a one-character separator and with a run of
 * separator characters), `Array.prototype.join`, and the decimal rendering of
 * a non-negative integer in a template literal.
 */
module Text {

  /** A prefix one element longer is the shorter prefix and that element. */
  lemma TakeSnoc<T>(s: seq<T>, i: nat)
    requires i < |s|
    ensures s[..i + 1] == s[..i] + [s[i]]
  {
  }

  lemma AppendAssoc<T>(x: seq<T>, y: seq<T>, z: seq<T>)
    ensures (x + y) + z == x + (y + z)
  {
  }

  /** A non-empty sequence is its first element and its tail. */
  lemma HeadTail<T>(s: seq<T>)
    requires s != []
    ensures s == [s[0]] + s[1..]
  {
  }

  lemma TailAppend<T>(x: seq<T>, y: seq<T>)
    requires x != []
    ensures (x + y)[0] == x[0] && (x + y)[1..] == x[1..] + y
  {
  }

  lemma AppendEmpty<T>(x: seq<T>)
    ensures x + [] == x && [] + x == x
  {
  }

  /** The elements of `[x] + s` after the first are those of `s`, one place further on. */
  lemma ConsShift<T>(x: T, s: seq<T>)
    ensures |[x] + s| == |s| + 1 && ([x] + s)[0] == x
    ensures forall k :: 1 <= k <= |s| ==> ([x] + s)[k] == s[k - 1]
  {
  }

  /** Replacing the first element of `s` by `x` keeps every other element. */
  lemma ReplaceHead<T>(x: T, s: seq<T>)
    requires s != []
    ensures |[x] + s[1..]| == |s| && ([x] + s[1..])[0] == x
    ensures forall k :: 1 <= k < |s| ==> ([x] + s[1..])[k] == s[k]
  {
  }

  /** A non-empty sequence is its front and its last element. */
  lemma FrontLast<T>(s: seq<T>)
    requires s != []
    ensures s == s[..|s| - 1] + [s[|s| - 1]]
  {
  }

  /** WhiteSpace and LineTerminator code points (ECMAScript 2023, sections 12.2 and 12.3). */
  predicate IsWhite(c: char) {
    if c <= ' ' then c == ' ' || ('\t' <= c <= '\r')
    else '\U{00A0}' <= c && IsWideWhite(c)
  }

  /** The white-space code points from U+00A0 on. */
  predicate IsWideWhite(c: char) {
    c == '\U{00A0}' || c == '\U{1680}' || ('\U{2000}' <= c <= '\U{200A}')
    || c == '\U{2028}' || c == '\U{2029}' || c == '\U{202F}' || c == '\U{205F}'
    || c == '\U{3000}' || c == '\U{FEFF}'
  }

  predicate AllWhite(s: string) {
    forall k :: 0 <= k < |s| ==> IsWhite(s[k])
  }

  /** The index of the first non-white character at or after `i`, or `|s|` when there is none. */
  function SkipWhite(s: string, i: nat): (j: nat)
    requires i <= |s|
    ensures i <= j <= |s|
    ensures forall k :: i <= k < j ==> IsWhite(s[k])
    ensures j < |s| ==> !IsWhite(s[j])
    decreases |s| - i
  {
    if i < |s| && IsWhite(s[i]) then SkipWhite(s, i + 1) else i
  }

  /** The index just past the last non-white character of `s[lo..j]`, or `lo` when there is none. */
  function BackWhite(s: string, lo: nat, j: nat): (i: nat)
    requires lo <= j <= |s|
    ensures lo <= i <= j
    ensures forall k :: i <= k < j ==> IsWhite(s[k])
    ensures i > lo ==> !IsWhite(s[i - 1])
  {
    if j > lo && IsWhite(s[j - 1]) then BackWhite(s, lo, j - 1) else j
  }

  /** `String.prototype.trim`: `s` without its leading and trailing white space. */
  function Trim(s: string): (r: string)
    ensures |r| <= |s|
    ensures r == [] || (!IsWhite(r[0]) && !IsWhite(r[|r| - 1]))
    ensures r == [] <==> AllWhite(s)
  {
    var a := SkipWhite(s, 0);
    var b := BackWhite(s, a, |s|);
    s[a..b]
  }

  lemma AllWhiteConcat(a: string, b: string)
    requires AllWhite(a) && AllWhite(b)
    ensures AllWhite(a + b)
  {
    assert forall k :: |a| <= k < |a| + |b| ==> (a + b)[k] == b[k - |a|];
  }

  /** The trimmed string is the piece of `s` between a white prefix and a white suffix. */
  lemma TrimInfix(s: string) returns (i: nat)
    ensures i + |Trim(s)| <= |s| && Trim(s) == s[i..i + |Trim(s)|]
    ensures AllWhite(s[..i]) && AllWhite(s[i + |Trim(s)|..])
  {
    i := SkipWhite(s, 0);
  }

  lemma {:induction false} SkipWhiteTo(s: string, i: nat, j: nat)
    requires i <= j <= |s|
    requires forall k :: i <= k < j ==> IsWhite(s[k])
    requires j == |s| || !IsWhite(s[j])
    ensures SkipWhite(s, i) == j
    decreases j - i
  {
    if i < j {
      SkipWhiteTo(s, i + 1, j);
    }
  }

  lemma {:induction false} BackWhiteTo(s: string, lo: nat, i: nat, j: nat)
    requires lo <= i <= j <= |s|
    requires forall k :: i <= k < j ==> IsWhite(s[k])
    requires i == lo || !IsWhite(s[i - 1])
    ensures BackWhite(s, lo, j) == i
    decreases j - i
  {
    if i < j {
      BackWhiteTo(s, lo, i, j - 1);
    }
  }

  /** Trimming white space from around a string that has none at its ends gives that string. */
  lemma TrimPadded(w1: string, s: string, w2: string)
    requires AllWhite(w1) && AllWhite(w2)
    requires s == [] || (!IsWhite(s[0]) && !IsWhite(s[|s| - 1]))
    ensures Trim(w1 + s + w2) == s
  {
    var t := w1 + s + w2;
    if s == [] {
      AppendEmpty(w1);
      AllWhiteConcat(w1, w2);
    } else {
      assert forall k :: 0 <= k < |w1| ==> t[k] == w1[k];
      assert forall k :: 0 <= k < |s| ==> t[|w1| + k] == s[k];
      assert forall k :: |w1| + |s| <= k < |t| ==> t[k] == w2[k - |w1| - |s|];
      SkipWhiteTo(t, 0, |w1|);
      BackWhiteTo(t, |w1|, |w1| + |s|, |t|);
      assert t[|w1|..|w1| + |s|] == s;
    }
  }

  /** Trimming a string that neither starts nor ends with white space changes nothing. */
  lemma TrimUnchanged(s: string)
    requires s == [] || (!IsWhite(s[0]) && !IsWhite(s[|s| - 1]))
    ensures Trim(s) == s
  {
    assert s[0..|s|] == s;
  }

  /** Trimming twice is trimming once. */
  lemma TrimIdempotent(s: string)
    ensures Trim(Trim(s)) == Trim(s)
  {
    TrimUnchanged(Trim(s));
  }

  /** `Array.prototype.join`: the elements with `sep` between consecutive ones. */
  function Join(xs: seq<string>, sep: string): string
  {
    if |xs| == 0 then [] else if |xs| == 1 then xs[0] else xs[0] + sep + Join(xs[1..], sep)
  }

  lemma JoinConsHead(c: string, x: string, ys: seq<string>, sep: string)
    ensures Join([c + x] + ys, sep) == c + Join([x] + ys, sep)
  {
    if |ys| > 0 {
      assert ([c + x] + ys)[1..] == ys;
      assert ([x] + ys)[1..] == ys;
    }
  }

  /** A character that occurs neither in the separator nor in any element does not occur in the join. */
  lemma {:induction false} JoinAvoids(xs: seq<string>, sep: string, c: char)
    requires c !in sep
    requires forall k :: 0 <= k < |xs| ==> c !in xs[k]
    ensures c !in Join(xs, sep)
  {
    if |xs| > 1 {
      JoinAvoids(xs[1..], sep, c);
    }
  }

  /** `String.prototype.split` with a one-character separator: the maximal separator-free pieces. */
  function Split(s: string, sep: char): (r: seq<string>)
    ensures |r| >= 1
    ensures forall k :: 0 <= k < |r| ==> sep !in r[k]
    ensures Join(r, [sep]) == s
  {
    if s == [] then [[]]
    else
      var rest := Split(s[1..], sep);
      if s[0] == sep then
        assert ([[]] + rest)[1..] == rest;
        [[]] + rest
      else
        JoinConsHead([s[0]], rest[0], rest[1..], [sep]);
        assert [rest[0]] + rest[1..] == rest;
        [[s[0]] + rest[0]] + rest[1..]
  }

  lemma {:induction false} SplitPrefix(a: string, t: string, sep: char)
    requires sep !in a
    ensures Split(a + t, sep) == [a + Split(t, sep)[0]] + Split(t, sep)[1..]
  {
    if a != [] {
      var r := Split(t, sep);
      TailAppend(a, t);
      SplitPrefix(a[1..], t, sep);
      assert a[0] in a;
      HeadTail(a);
      AppendAssoc([a[0]], a[1..], r[0]);
    } else {
      var r := Split(t, sep);
      AppendEmpty(t);
      AppendEmpty(r[0]);
      HeadTail(r);
    }
  }

  /** Splitting a join of separator-free pieces gives the pieces back. */
  lemma {:induction false} SplitJoin(xs: seq<string>, sep: char)
    requires |xs| >= 1
    requires forall k :: 0 <= k < |xs| ==> sep !in xs[k]
    ensures Split(Join(xs, [sep]), sep) == xs
  {
    if |xs| == 1 {
      SplitPrefix(xs[0], [], sep);
      AppendEmpty(xs[0]);
    } else {
      var t := Join(xs[1..], [sep]);
      SplitJoin(xs[1..], sep);
      AppendAssoc(xs[0], [sep], t);
      assert Join(xs, [sep]) == xs[0] + [sep] + t;
      SplitPrefix(xs[0], [sep] + t, sep);
      assert ([sep] + t)[1..] == t;
      assert Split([sep] + t, sep) == [[]] + Split(t, sep);
      AppendEmpty(xs[0]);
      HeadTail(xs);
    }
  }

  predicate NoneIn(s: string, seps: set<char>) {
    forall k :: 0 <= k < |s| ==> s[k] !in seps
  }

  /** `s` without its leading run of separator characters. */
  function DropRun(s: string, seps: set<char>): (r: string)
    ensures |r| <= |s| && r == s[|s| - |r|..]
    ensures r == [] || r[0] !in seps
    ensures forall k :: 0 <= k < |s| - |r| ==> s[k] in seps
  {
    if |s| > 0 && s[0] in seps then DropRun(s[1..], seps) else s
  }

  /**
   * `String.prototype.split` with the regular expression `[…]+` over the characters
   * `seps`: every maximal run of separators divides two pieces. The pieces are
   * separator-free and only the first and the last can be empty.
   */
  function SplitRuns(s: string, seps: set<char>): (r: seq<string>)
    ensures |r| >= 1
    ensures forall k :: 0 <= k < |r| ==> NoneIn(r[k], seps)
    ensures forall k :: 0 < k < |r| - 1 ==> r[k] != []
    ensures s != [] && s[0] !in seps ==> r[0] != []
    decreases |s|
  {
    if s == [] then [[]]
    else if s[0] in seps then
      var t := DropRun(s[1..], seps);
      var rest := SplitRuns(t, seps);
      assert t == [] ==> rest == [[]];
      ConsShift([], rest);
      [[]] + rest
    else
      var rest := SplitRuns(s[1..], seps);
      var head := [s[0]] + rest[0];
      ConsShift(s[0], rest[0]);
      ReplaceHead(head, rest);
      [head] + rest[1..]
  }

  lemma {:induction false} SplitRunsPrefix(a: string, t: string, seps: set<char>)
    requires NoneIn(a, seps)
    ensures SplitRuns(a + t, seps) == [a + SplitRuns(t, seps)[0]] + SplitRuns(t, seps)[1..]
  {
    if a != [] {
      var r := SplitRuns(t, seps);
      TailAppend(a, t);
      SplitRunsPrefix(a[1..], t, seps);
      assert a[0] !in seps;
      HeadTail(a);
      AppendAssoc([a[0]], a[1..], r[0]);
    } else {
      var r := SplitRuns(t, seps);
      AppendEmpty(t);
      AppendEmpty(r[0]);
      HeadTail(r);
    }
  }

  /** Splitting a join, by one separator character, of non-empty separator-free pieces gives them back. */
  lemma {:induction false} SplitRunsJoin(xs: seq<string>, c: char, seps: set<char>)
    requires c in seps
    requires |xs| >= 1
    requires forall k :: 0 <= k < |xs| ==> xs[k] != [] && NoneIn(xs[k], seps)
    ensures SplitRuns(Join(xs, [c]), seps) == xs
  {
    if |xs| == 1 {
      SplitRunsPrefix(xs[0], [], seps);
      AppendEmpty(xs[0]);
    } else {
      var t := Join(xs[1..], [c]);
      SplitRunsJoin(xs[1..], c, seps);
      JoinStartsWith(xs[1..], [c]);
      assert t[0] == xs[1][0];
      AppendAssoc(xs[0], [c], t);
      assert Join(xs, [c]) == xs[0] + [c] + t;
      SplitRunsPrefix(xs[0], [c] + t, seps);
      assert ([c] + t)[1..] == t;
      assert DropRun(t, seps) == t;
      assert SplitRuns([c] + t, seps) == [[]] + SplitRuns(t, seps);
      AppendEmpty(xs[0]);
      HeadTail(xs);
    }
  }

  lemma JoinStartsWith(xs: seq<string>, sep: string)
    requires |xs| >= 1 && xs[0] != []
    ensures Join(xs, sep) != [] && Join(xs, sep)[0] == xs[0][0]
  {
  }

  /** A run of separators: non-empty, and made only of characters of `seps`. */
  predicate IsRun(r: string, seps: set<char>) {
    r != [] && forall k :: 0 <= k < |r| ==> r[k] in seps
  }

  /** The pieces with the given runs between them: `pieces[0] + runs[0] + pieces[1] + …`. */
  function JoinRuns(pieces: seq<string>, runs: seq<string>): string
    requires |pieces| == |runs| + 1
    decreases |runs|
  {
    if runs == [] then pieces[0] else pieces[0] + runs[0] + JoinRuns(pieces[1..], runs[1..])
  }

  /** The runs of separator characters in `s`, in order: what the split by `[…]+` cuts out. */
  function SepRuns(s: string, seps: set<char>): (r: seq<string>)
    ensures forall k :: 0 <= k < |r| ==> IsRun(r[k], seps)
    decreases |s|
  {
    if s == [] then []
    else if s[0] in seps then
      var t := DropRun(s[1..], seps);
      var run := s[..|s| - |t|];
      assert forall k :: 1 <= k < |run| ==> run[k] == s[1..][k - 1];
      var rest := SepRuns(t, seps);
      ConsShift(run, rest);
      [run] + rest
    else SepRuns(s[1..], seps)
  }

  lemma TrimLeadingSpace(s: string)
    requires s == [] || (!IsWhite(s[0]) && !IsWhite(s[|s| - 1]))
    ensures Trim(" " + s) == s
  {
    TrimPadded(" ", s, []);
    AppendEmpty(" " + s);
  }

  lemma JoinRunsTwo(p: string, r: string, q: string)
    ensures JoinRuns([p, q], [r]) == p + r + q
  {
    assert [p, q][1..] == [q];
  }

  lemma JoinRunsThree(p: string, r1: string, q: string, r2: string, w: string)
    ensures JoinRuns([p, q, w], [r1, r2]) == p + r1 + q + r2 + w
  {
    assert [p, q, w][1..] == [q, w];
    assert [r1, r2][1..] == [r2];
    JoinRunsTwo(q, r2, w);
    AppendAssoc(p + r1, q + r2, w);
    AppendAssoc(p + r1, q, r2);
  }

  lemma NoneInAppend(x: string, y: string, seps: set<char>)
    ensures NoneIn(x + y, seps) <==> NoneIn(x, seps) && NoneIn(y, seps)
  {
    assert forall k :: 0 <= k < |x| ==> (x + y)[k] == x[k];
    assert forall k :: 0 <= k < |y| ==> (x + y)[|x| + k] == y[k];
  }

  lemma JoinRunsStartsWith(pieces: seq<string>, runs: seq<string>)
    requires |pieces| == |runs| + 1 && pieces[0] != []
    ensures JoinRuns(pieces, runs) != [] && JoinRuns(pieces, runs)[0] == pieces[0][0]
  {
  }

  lemma JoinRunsConsHead(c: string, pieces: seq<string>, runs: seq<string>)
    requires |pieces| == |runs| + 1
    ensures JoinRuns([c + pieces[0]] + pieces[1..], runs) == c + JoinRuns(pieces, runs)
  {
    ReplaceHead(c + pieces[0], pieces);
    if runs != [] {
      assert ([c + pieces[0]] + pieces[1..])[1..] == pieces[1..];
      var rest := JoinRuns(pieces[1..], runs[1..]);
      AppendAssoc(c, pieces[0], runs[0]);
      AppendAssoc(c, pieces[0] + runs[0], rest);
    }
  }

  /**
   * Every string is the pieces of its split with its separator runs between
   * them; with the shape `SplitRuns` ensures, this pins the split down.
   */
  lemma {:induction false} SplitRunsCovers(s: string, seps: set<char>)
    ensures |SplitRuns(s, seps)| == |SepRuns(s, seps)| + 1
    ensures JoinRuns(SplitRuns(s, seps), SepRuns(s, seps)) == s
    decreases |s|
  {
    if s != [] && s[0] in seps {
      var t := DropRun(s[1..], seps);
      SplitRunsCovers(t, seps);
      var run := s[..|s| - |t|];
      var pieces, runs := SplitRuns(t, seps), SepRuns(t, seps);
      assert ([[]] + pieces)[1..] == pieces;
      assert ([run] + runs)[1..] == runs;
      AppendEmpty(run);
      assert t == s[|s| - |t|..];
      assert run + t == s;
    } else if s != [] {
      SplitRunsCovers(s[1..], seps);
      var pieces, runs := SplitRuns(s[1..], seps), SepRuns(s[1..], seps);
      JoinRunsConsHead([s[0]], pieces, runs);
      HeadTail(s);
    }
  }

  /** Dropping the leading separators of a run followed by text that does not start with one leaves that text. */
  lemma {:induction false} DropRunPrefix(r: string, t: string, seps: set<char>)
    requires forall k :: 0 <= k < |r| ==> r[k] in seps
    requires t == [] || t[0] !in seps
    ensures DropRun(r + t, seps) == t
    decreases |r|
  {
    if r == [] {
      AppendEmpty(t);
    } else {
      TailAppend(r, t);
      DropRunPrefix(r[1..], t, seps);
    }
  }

  /** A separator run in front of text that does not start with a separator adds one empty piece. */
  lemma SplitRunsAfterRun(r: string, t: string, seps: set<char>)
    requires IsRun(r, seps)
    requires t == [] || t[0] !in seps
    ensures SplitRuns(r + t, seps) == [[]] + SplitRuns(t, seps)
  {
    DropRunPrefix(r[1..], t, seps);
    TailAppend(r, t);
  }

  /**
   * Splitting separator-free pieces joined by non-empty separator runs gives
   * the pieces back, provided no interior piece is empty (two runs side by
   * side are one run).
   */
  lemma {:induction false} SplitRunsOfJoinRuns(xs: seq<string>, runs: seq<string>, seps: set<char>)
    requires |xs| == |runs| + 1
    requires forall k :: 0 <= k < |runs| ==> IsRun(runs[k], seps)
    requires forall k :: 0 <= k < |xs| ==> NoneIn(xs[k], seps)
    requires forall k :: 0 < k < |xs| - 1 ==> xs[k] != []
    ensures SplitRuns(JoinRuns(xs, runs), seps) == xs
    decreases |runs|
  {
    if runs == [] {
      SplitRunsPrefix(xs[0], [], seps);
      AppendEmpty(xs[0]);
    } else {
      var rest := JoinRuns(xs[1..], runs[1..]);
      SplitRunsOfJoinRuns(xs[1..], runs[1..], seps);
      if xs[1] != [] {
        JoinRunsStartsWith(xs[1..], runs[1..]);
        assert xs[1][0] !in seps;
      } else {
        assert rest == [];
      }
      SplitRunsAfterRun(runs[0], rest, seps);
      AppendAssoc(xs[0], runs[0], rest);
      SplitRunsPrefix(xs[0], runs[0] + rest, seps);
      AppendEmpty(xs[0]);
      HeadTail(xs);
    }
  }

  lemma AllWhiteParts(a: string, b: string)
    requires AllWhite(a + b)
    ensures AllWhite(a) && AllWhite(b)
  {
    assert forall k :: 0 <= k < |a| ==> (a + b)[k] == a[k];
    assert forall k :: 0 <= k < |b| ==> (a + b)[k + |a|] == b[k];
  }

  /** When the joined text is all white space, so is every piece. */
  lemma {:induction false} JoinRunsWhite(xs: seq<string>, runs: seq<string>)
    requires |xs| == |runs| + 1
    requires AllWhite(JoinRuns(xs, runs))
    ensures forall k :: 0 <= k < |xs| ==> AllWhite(xs[k])
    decreases |runs|
  {
    if runs != [] {
      var rest := JoinRuns(xs[1..], runs[1..]);
      AllWhiteParts(xs[0] + runs[0], rest);
      AllWhiteParts(xs[0], runs[0]);
      JoinRunsWhite(xs[1..], runs[1..]);
      assert forall k :: 1 <= k < |xs| ==> xs[k] == xs[1..][k - 1];
    }
  }

  function DigitChar(d: nat): (c: char)
    requires d < 10
  {
    ('0' as int + d) as char
  }

  predicate IsDigit(c: char) {
    '0' <= c <= '9'
  }

  /** The decimal rendering of a non-negative integer: digits only, no leading zero. */
  function NatToString(n: nat): (r: string)
    ensures |r| >= 1
    ensures forall k :: 0 <= k < |r| ==> IsDigit(r[k])
    ensures r[0] == '0' ==> n == 0
  {
    if n < 10 then [DigitChar(n)] else NatToString(n / 10) + [DigitChar(n % 10)]
  }

  lemma DigitCharValue(d: nat)
    requires d < 10
    ensures DigitChar(d) as int - '0' as int == d
  {
  }

  /** The value of a string of decimal digits. */
  function DigitsValue(s: string): nat
    requires forall k :: 0 <= k < |s| ==> IsDigit(s[k])
  {
    if s == [] then 0
    else
      assert IsDigit(s[|s| - 1]);
      DigitsValue(s[..|s| - 1]) * 10 + (s[|s| - 1] as int - '0' as int)
  }

  /** Reading the decimal rendering back gives the number. */
  lemma {:induction false} NatToStringValue(n: nat)
    ensures DigitsValue(NatToString(n)) == n
  {
    if n >= 10 {
      NatToStringValue(n / 10);
      var s, init := NatToString(n), NatToString(n / 10);
      assert s[..|s| - 1] == init;
      DigitCharValue(n % 10);
    }
  }
}
