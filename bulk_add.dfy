/**
 * client/src/components/BulkAddModal.tsx: the dialog that collects several
 * persons at once, either as a list of editable entries ("manual" tab) or as
 * free text with one person per line, written `Name [https://link]`.
 */
module BulkAdd {
  import opened Wrappers
  import opened Text
  import opened ClientSchema

  datatype Tab = Manual | TextFormat

  /** The two editable fields of an entry (`keyof Person`). */
  datatype Field = NameField | UrlField

  /** `{ name: "", url: "" }`. */
  const BlankEntry := Person("", Some(""))

  // ---------------------------------------------------------------------
  // The URL pattern /\[(https?:\/\/[^\s\]]+)\]/

  /** The class `[^\s\]]`. */
  predicate UrlChar(c: char) {
    !IsWhite(c) && c != ']'
  }

  /** Text the capture group `https?:\/\/[^\s\]]+` matches in full. */
  predicate IsUrl(u: string) {
    && ((|u| > 7 && u[..7] == "http://") || (|u| > 8 && u[..8] == "https://"))
    && forall k :: 0 <= k < |u| ==> UrlChar(u[k])
  }

  /** `line[p..e]` is a match of the whole pattern: `[`, a URL, `]`. */
  predicate MatchShape(line: string, p: nat, e: nat) {
    p + 2 <= e <= |line| && line[p] == '[' && line[e - 1] == ']' && IsUrl(line[p + 1..e - 1])
  }

  /** The end of the run of `[^\s\]]` characters from `j`. */
  function RunEnd(s: string, j: nat): (e: nat)
    requires j <= |s|
    ensures j <= e <= |s|
    ensures forall k :: j <= k < e ==> UrlChar(s[k])
    ensures e < |s| ==> !UrlChar(s[e])
    decreases |s| - j
  {
    if j < |s| && UrlChar(s[j]) then RunEnd(s, j + 1) else j
  }

  predicate HasAt(s: string, p: nat, w: string) {
    p + |w| <= |s| && s[p..p + |w|] == w
  }

  /**
   * The end of the match that starts at `p`, if there is one. `https?`
   * tries the `s` first; when the `s` is there, leaving it out cannot match
   * `://` either. The greedy `[^\s\]]+` stops at the first white space or
   * `]`, and only a `]` there completes the match.
   */
  function MatchAt(line: string, p: nat): (r: Option<nat>)
    requires p <= |line|
    ensures r.Some? ==> p + 2 <= r.value <= |line|
  {
    if p < |line| && line[p] == '[' then
      var q := if HasAt(line, p + 1, "https://") then p + 9 else if HasAt(line, p + 1, "http://") then p + 8 else 0;
      if q == 0 then None
      else
        var e := RunEnd(line, q);
        if q < e < |line| && line[e] == ']' then Some(e + 1) else None
    else None
  }

  /** The characters of both schemes belong to `[^\s\]]`. */
  lemma SchemeChars()
    ensures forall k :: 0 <= k < 8 ==> UrlChar("https://"[k])
    ensures forall k :: 0 <= k < 7 ==> UrlChar("http://"[k])
  {
    assert UrlChar('h') && UrlChar('t') && UrlChar('p') && UrlChar('s') && UrlChar(':') && UrlChar('/');
  }

  /** What `MatchAt` finds is a match of the pattern. */
  lemma MatchAtSound(line: string, p: nat)
    requires p <= |line|
    ensures MatchAt(line, p).Some? ==> MatchShape(line, p, MatchAt(line, p).value)
  {
    if MatchAt(line, p).Some? {
      var e := MatchAt(line, p).value - 1;
      var w := if HasAt(line, p + 1, "https://") then "https://" else "http://";
      var q := p + 1 + |w|;
      assert line[p + 1..q] == w;
      var u := line[p + 1..e];
      assert u[..|w|] == w;
      SchemeChars();
      forall k | 0 <= k < |u| ensures UrlChar(u[k]) {
        if k < |w| {
          assert u[k] == w[k];
        } else {
          assert u[k] == line[p + 1 + k];
        }
      }
    }
  }

  /** Every match of the pattern at `p` is the one `MatchAt` finds. */
  lemma MatchAtComplete(line: string, p: nat, e: nat)
    requires MatchShape(line, p, e)
    ensures MatchAt(line, p) == Some(e)
  {
    var u := line[p + 1..e - 1];
    var q := if |u| > 8 && u[..8] == "https://" then p + 9 else p + 8;
    if q == p + 9 {
      assert line[p + 1..p + 9] == u[..8];
    } else {
      assert u[..7] == "http://";
      assert line[p + 1..p + 8] == u[..7];
      assert line[p + 5] == u[4] == ':';
    }
    forall k | q <= k < e - 1 ensures UrlChar(line[k]) {
      assert line[k] == u[k - p - 1];
    }
    var r := RunEnd(line, q);
    assert !UrlChar(line[e - 1]);
    assert r == e - 1;
  }

  /** `line.match(urlPattern)`: the leftmost match at or after `from`. */
  function FindUrl(line: string, from: nat): (r: Option<(nat, nat)>)
    requires from <= |line|
    ensures r.Some? ==> from <= r.value.0 <= |line| && MatchAt(line, r.value.0) == Some(r.value.1)
    ensures r.Some? ==> forall p :: from <= p < r.value.0 ==> MatchAt(line, p).None?
    ensures r.None? ==> forall p :: from <= p <= |line| ==> MatchAt(line, p).None?
    decreases |line| - from
  {
    if from == |line| then None
    else
      match MatchAt(line, from)
      case Some(e) => Some((from, e))
      case None => FindUrl(line, from + 1)
  }

  // ---------------------------------------------------------------------
  // parseBulkText

  /** What one line of the text contributes to the entries. */
  function ParseLine(line: string): (r: Option<Person>)
    ensures r.Some? ==> r.value.name != [] && Trim(r.value.name) == r.value.name
  {
    match FindUrl(line, 0)
    case Some((b, e)) =>
      var name := Trim(line[..b] + line[e..]);
      TrimIdempotent(line[..b] + line[e..]);
      if name != [] then Some(Person(name, Some(line[b + 1..e - 1]))) else None
    case None =>
      var name := Trim(line);
      TrimIdempotent(line);
      if name != [] then Some(Person(name, Some(""))) else None
  }

  /**
   * A line whose first bracketed http(s) link spans `line[b..e]` gives that
   * link as the url and the rest of the line, trimmed, as the name; the line
   * is dropped when that name is empty.
   */
  lemma ParseLineWithUrl(line: string, b: nat, e: nat)
    requires MatchShape(line, b, e)
    requires forall p, f :: 0 <= p < b && MatchShape(line, p, f) ==> false
    ensures ParseLine(line) ==
      if Trim(line[..b] + line[e..]) == [] then None
      else Some(Person(Trim(line[..b] + line[e..]), Some(line[b + 1..e - 1])))
  {
    FirstMatchFound(line, b, e);
  }

  /** The leftmost match is the one `FindUrl` reports. */
  lemma FirstMatchFound(line: string, b: nat, e: nat)
    requires MatchShape(line, b, e)
    requires forall p, f :: 0 <= p < b && MatchShape(line, p, f) ==> false
    ensures FindUrl(line, 0) == Some((b, e))
  {
    forall p | 0 <= p < b ensures MatchAt(line, p).None? {
      MatchAtSound(line, p);
    }
    MatchAtComplete(line, b, e);
  }

  /** A line without a bracketed http(s) link gives its trimmed text as the name and an empty url. */
  lemma ParseLineWithoutUrl(line: string)
    requires forall p, f :: MatchShape(line, p, f) ==> false
    ensures ParseLine(line) == if Trim(line) == [] then None else Some(Person(Trim(line), Some("")))
  {
    forall p | 0 <= p <= |line| ensures MatchAt(line, p).None? {
      MatchAtSound(line, p);
    }
    var r := FindUrl(line, 0);
    assert r.None?;
  }

  /** A blank line never gives an entry. */
  lemma BlankLineIgnored(line: string)
    requires AllWhite(line)
    ensures ParseLine(line) == None
  {
    var r := FindUrl(line, 0);
    assert r.None?;
  }

  /** The value of an option, as a sequence of none or one element. */
  function Values<E>(o: Option<E>): (r: seq<E>)
    ensures |r| <= 1
  {
    match o
    case Some(x) => [x]
    case None => []
  }

  /** What `parse` gives for the lines, in line order; lines it gives nothing for are skipped. */
  function Collect<E>(lines: seq<string>, parse: string -> Option<E>): seq<E>
  {
    if lines == [] then [] else Collect(lines[..|lines| - 1], parse) + Values(parse(lines[|lines| - 1]))
  }

  lemma CollectSnoc<E>(lines: seq<string>, line: string, parse: string -> Option<E>)
    ensures Collect(lines + [line], parse) == Collect(lines, parse) + Values(parse(line))
  {
    assert (lines + [line])[..|lines|] == lines;
  }

  /** Collecting two blocks of lines is collecting the first block, then the second. */
  lemma {:induction false} CollectAppend<E>(a: seq<string>, b: seq<string>, parse: string -> Option<E>)
    ensures Collect(a + b, parse) == Collect(a, parse) + Collect(b, parse)
    decreases |b|
  {
    if b == [] {
      assert a + b == a;
      assert Collect(a, parse) + [] == Collect(a, parse);
    } else {
      var b', last := b[..|b| - 1], b[|b| - 1];
      FrontLast(b);
      AppendAssoc(a, b', [last]);
      CollectAppend(a, b', parse);
      CollectSnoc(a + b', last, parse);
      CollectSnoc(b', last, parse);
      AppendAssoc(Collect(a, parse), Collect(b', parse), Values(parse(last)));
    }
  }

  /** Every collected value comes from one of the lines. */
  lemma {:induction false} CollectSound<E>(lines: seq<string>, parse: string -> Option<E>, x: E)
    requires x in Collect(lines, parse)
    ensures exists line :: line in lines && parse(line) == Some(x)
  {
    var init, last := lines[..|lines| - 1], lines[|lines| - 1];
    if x in Collect(init, parse) {
      CollectSound(init, parse, x);
      var line :| line in init && parse(line) == Some(x);
      assert line in lines;
    } else {
      assert parse(last) == Some(x);
    }
  }

  /** The entries of `lines`, in line order. */
  function ParseLines(lines: seq<string>): seq<Person> {
    Collect(lines, ParseLine)
  }

  /** The entries of two blocks of lines are the entries of the first block, then those of the second. */
  lemma ParseLinesAppend(a: seq<string>, b: seq<string>)
    ensures ParseLines(a + b) == ParseLines(a) + ParseLines(b)
  {
    CollectAppend(a, b, ParseLine);
  }

  /** `.filter(line => line.trim() !== '')`. */
  function NonBlank(lines: seq<string>): (r: seq<string>)
    ensures forall k :: 0 <= k < |r| ==> !AllWhite(r[k])
  {
    if lines == [] then []
    else
      var init := NonBlank(lines[..|lines| - 1]);
      var last := lines[|lines| - 1];
      if Trim(last) != [] then init + [last] else init
  }

  /** Dropping the blank lines first changes no entry. */
  lemma {:induction false} NonBlankIrrelevant(lines: seq<string>)
    ensures ParseLines(NonBlank(lines)) == ParseLines(lines)
  {
    if lines != [] {
      var init, last := lines[..|lines| - 1], lines[|lines| - 1];
      NonBlankIrrelevant(init);
      FrontLast(lines);
      CollectSnoc(init, last, ParseLine);
      if Trim(last) != [] {
        CollectSnoc(NonBlank(init), last, ParseLine);
      } else {
        BlankLineIgnored(last);
      }
    }
  }

  /** The entries the text box gives. */
  function ParsedEntries(text: string): seq<Person> {
    ParseLines(NonBlank(Split(text, '\n')))
  }

  /** Every entry has a non-empty, trimmed name. */
  lemma ParseLinesNames(lines: seq<string>)
    ensures forall e :: e in ParseLines(lines) ==> e.name != [] && Trim(e.name) == e.name
  {
    forall e | e in ParseLines(lines) ensures e.name != [] && Trim(e.name) == e.name {
      CollectSound(lines, ParseLine, e);
    }
  }

  /**
   * The text read line by line: the entries are those of its lines, in line
   * order, and every entry has a non-empty, trimmed name.
   */
  lemma ParsedEntriesOfLines(lines: seq<string>)
    requires |lines| >= 1
    requires forall k :: 0 <= k < |lines| ==> '\n' !in lines[k]
    ensures ParsedEntries(Join(lines, "\n")) == ParseLines(lines)
    ensures forall e :: e in ParsedEntries(Join(lines, "\n")) ==> e.name != [] && Trim(e.name) == e.name
  {
    SplitJoin(lines, '\n');
    NonBlankIrrelevant(lines);
    ParseLinesNames(lines);
  }

  // ---------------------------------------------------------------------
  // handleSubmit's filter on the manual entries

  /** `personEntries.filter(person => person.name.trim() !== "")`. */
  function Submittable(entries: seq<Person>): (r: seq<Person>)
    ensures |r| <= |entries|
    ensures forall p :: p in r <==> p in entries && Trim(p.name) != []
    ensures forall p :: multiset(r)[p] == if Trim(p.name) != [] then multiset(entries)[p] else 0
  {
    if entries == [] then []
    else
      var rest := Submittable(entries[1..]);
      assert entries == [entries[0]] + entries[1..];
      assert forall p :: p in entries <==> p == entries[0] || p in entries[1..];
      if Trim(entries[0].name) != [] then [entries[0]] + rest else rest
  }

  /** The filter works entry by entry: filtering a concatenation filters each part. */
  lemma {:induction false} SubmittableAppend(a: seq<Person>, b: seq<Person>)
    ensures Submittable(a + b) == Submittable(a) + Submittable(b)
  {
    if a == [] {
      AppendEmpty(b);
    } else {
      TailAppend(a, b);
      SubmittableAppend(a[1..], b);
      var head := if Trim(a[0].name) != [] then [a[0]] else [];
      assert Submittable(a) == head + Submittable(a[1..]);
      assert Submittable(a + b) == head + Submittable(a[1..] + b);
      AppendAssoc(head, Submittable(a[1..]), Submittable(b));
    }
  }

  /** The start index `splice(index, 1)` uses on an array of length `len`. */
  function SpliceStart(index: int, len: nat): (s: nat)
    ensures s <= len
    ensures 0 <= index <= len ==> s == index
    ensures -(len as int) <= index < 0 ==> s as int == len as int + index
  {
    if index < 0 then (if len + index < 0 then 0 else len + index)
    else if index > len then len
    else index
  }

  class BulkAddModal {
    var activeTab: Tab
    var personEntries: seq<Person>
    var bulkText: string

    /** The manual tab always shows at least one entry. */
    ghost predicate Valid()
      reads this
    {
      personEntries != []
    }

    constructor ()
      ensures Valid()
      ensures activeTab == Manual && personEntries == [BlankEntry] && bulkText == []
    {
      activeTab, personEntries, bulkText := Manual, [BlankEntry], [];
    }

    /** resetState: back to one blank entry, empty text and the manual tab. */
    method ResetState()
      modifies this
      ensures Valid()
      ensures activeTab == Manual && personEntries == [BlankEntry] && bulkText == []
    {
      personEntries := [BlankEntry];
      bulkText := [];
      activeTab := Manual;
    }

    /** addEntry: one blank entry more, at the end. */
    method AddEntry()
      requires Valid()
      modifies this
      ensures Valid()
      ensures personEntries == old(personEntries) + [BlankEntry]
      ensures activeTab == old(activeTab) && bulkText == old(bulkText)
    {
      personEntries := personEntries + [BlankEntry];
    }

    /**
     * removeEntry: deletes the entry at `index` (with `splice`'s reading of
     * negative and too-large indices); when that leaves no entry, one blank
     * entry takes its place.
     */
    method RemoveEntry(index: int)
      requires Valid()
      modifies this
      ensures Valid()
      ensures var s := SpliceStart(index, |old(personEntries)|);
        var rest := if s < |old(personEntries)| then old(personEntries)[..s] + old(personEntries)[s + 1..]
                    else old(personEntries);
        personEntries == if rest == [] then [BlankEntry] else rest
      ensures 0 <= index < |old(personEntries)| && |old(personEntries)| > 1 ==>
        personEntries == old(personEntries)[..index] + old(personEntries)[index + 1..]
      ensures 0 <= index < |old(personEntries)| && |old(personEntries)| == 1 ==> personEntries == [BlankEntry]
      ensures index >= |old(personEntries)| ==> personEntries == old(personEntries)
      ensures activeTab == old(activeTab) && bulkText == old(bulkText)
    {
      var newEntries := personEntries;
      var start := SpliceStart(index, |newEntries|);
      if start < |newEntries| {
        newEntries := newEntries[..start] + newEntries[start + 1..];
      }
      if |newEntries| == 0 {
        newEntries := newEntries + [BlankEntry];
      }
      personEntries := newEntries;
    }

    /** updateEntry: sets one field of one entry; every other entry and field stays. */
    method UpdateEntry(index: nat, field: Field, value: string)
      requires Valid()
      requires index < |personEntries|
      modifies this
      ensures Valid()
      ensures |personEntries| == |old(personEntries)|
      ensures forall k :: 0 <= k < |personEntries| && k != index ==> personEntries[k] == old(personEntries)[k]
      ensures field == NameField ==>
        personEntries[index].name == value && personEntries[index].url == old(personEntries)[index].url
      ensures field == UrlField ==>
        personEntries[index].url == Some(value) && personEntries[index].name == old(personEntries)[index].name
      ensures activeTab == old(activeTab) && bulkText == old(bulkText)
    {
      var newEntries := personEntries;
      var entry := newEntries[index];
      newEntries := newEntries[index := match field case NameField => entry.(name := value) case UrlField => entry.(url := Some(value))];
      personEntries := newEntries;
    }

    /** parseBulkText: the entries of the non-blank lines of the text, in line order. */
    method ParseBulkText() returns (entries: seq<Person>)
      ensures entries == ParsedEntries(bulkText)
    {
      var lines := NonBlank(Split(bulkText, '\n'));
      entries := [];
      var i := 0;
      while i < |lines|
        invariant 0 <= i <= |lines|
        invariant entries == ParseLines(lines[..i])
      {
        var line := lines[i];
        TakeSnoc(lines, i);
        CollectSnoc(lines[..i], line, ParseLine);
        match ParseLine(line) {
          case Some(person) => entries := entries + [person];
          case None =>
        }
        i := i + 1;
      }
      assert lines[..i] == lines;
    }

    /**
     * handleSubmit: the non-blank manual entries, or the parsed text, are
     * handed to `onAddPersons` only when there is at least one; the dialog
     * is then reset (and asked to close). Otherwise nothing changes.
     */
    method HandleSubmit() returns (submitted: Option<seq<Person>>)
      requires Valid()
      modifies this
      ensures Valid()
      ensures var persons := if old(activeTab) == Manual then Submittable(old(personEntries))
                             else ParsedEntries(old(bulkText));
        submitted == if persons != [] then Some(persons) else None
      ensures submitted.Some? ==> activeTab == Manual && personEntries == [BlankEntry] && bulkText == []
      ensures submitted.None? ==>
        activeTab == old(activeTab) && personEntries == old(personEntries) && bulkText == old(bulkText)
    {
      var persons: seq<Person>;
      if activeTab == Manual {
        persons := Submittable(personEntries);
      } else {
        persons := ParseBulkText();
      }
      if |persons| > 0 {
        submitted := Some(persons);
        ResetState();
      } else {
        submitted := None;
      }
    }
  }
}
