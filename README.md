# Name Pairing Tool — a verified model of its core

The Name Pairing Tool keeps a list of names (or persons with an optional
link), shuffles them with a Fisher–Yates shuffle and splits the shuffled list
into consecutive groups of two, with one group of one when the count is odd.
Names are accepted only when they are runs of ASCII letters separated by
single spaces. Names can be pasted in bulk, separated by newlines and commas,
or as one `Name [https://link]` per line. The groups can be exported as CSV.
A small in-memory server store keeps users and saved name lists, and the
static build carries a browser-storage person list.

This project models that core in Dafny and proves what each piece promises:

- `text.dfy` (`Text`): the JavaScript string built-ins the code relies on —
  `trim` and the `\s` class, `split` on a character and on a run of
  `[\n,]`, `Array.prototype.join`, and decimal rendering of numbers.
- `namepattern.dfy` (`NamePattern`): the regular expression
  `^[a-zA-Z]+(?: [a-zA-Z]+)*$` as a matcher, proved equal to a declarative
  description of well-formed names.
- `utils.dfy` (`Utils`): `shuffleArray` and `generatePairs` as array
  methods with loops, `validateName`, `parseBulkInput`.
- `validation.dfy`, `shared_schema.dfy`, `client_schema.dfy`: the zod
  schemas as functions from input to "valid value" or "list of issues".
- `pairing_section.dfy` (`PairingSection`): `convertToCSV`.
- `bulk_add.dfy` (`BulkAdd`): the bulk-add dialog — the URL pattern
  `/\[(https?:\/\/[^\s\]]+)\]/` as a leftmost matcher, the line parser, and
  a class for the dialog's entry list and submit.
- `home.dfy` (`HomePage`): the page state (`names`, `pairs`,
  `pairsGenerated`) as a class whose methods are the handlers.
- `storage.dfy` (`Storage`): `MemStorage` as a class over two maps and two
  id counters.
- `pages_store.dfy` (`PagesStore`): the person-list service of the static
  build, with the stored list as a field and a count of writes; its
  `getPersons` is the method that hands back that field.

Randomness is a parameter: `rolls[i]` is the value the shuffle draws at
index `i` (`Math.floor(Math.random() * (i + 1))`), so any sequence with
`0 <= rolls[i] <= i` is a possible run. The clock read by `createNameList`
is the parameter `now`.

## Model

| member | source | states |
|---|---|---|
| Utils.ShuffleArray | client/src/lib/utils.ts:9-16 | the result is a fresh array equal to the Fisher–Yates shuffle of the input driven by the draws; the argument is not modified (no modifies clause) |
| Utils.FisherYatesPermutes | client/src/lib/utils.ts:11-14 | every step of the descending swap loop keeps the length and the multiset of elements |
| Utils.ShuffledIsPermutation | client/src/lib/utils.ts:9-16 | for every admissible draw sequence the shuffle has the input's length and multiset, i.e. it is a permutation |
| Utils.ShuffleInjective | client/src/lib/utils.ts:11-14 | on an input without repeats, two draw sequences that give the same arrangement are equal, so different draws give different arrangements |
| Utils.GeneratePairs | client/src/lib/utils.ts:19-33 | the stride-2 loop returns exactly `Pairs` of the shuffled copy |
| Utils.PairsCover | client/src/lib/utils.ts:23-31 | concatenating the groups gives back the shuffled array, in order |
| Utils.PairsShape | client/src/lib/utils.ts:23-31 | there are ceil(n/2) groups, group k holds items 2k and 2k+1, every group has one or two items, and a one-item group occurs exactly when n is odd and only as the last group |
| Utils.PairsOfFew | client/src/lib/utils.ts:23-31 | no items give no groups; one item `a` gives `[[a]]` |
| Utils.GeneratedPairsCover | client/src/lib/utils.ts:19-33 | the groups of generatePairs hold every input item exactly once (multiset equality) and number ceil(n/2) |
| NamePattern.MatchesIffWellFormed | client/src/lib/utils.ts:37 | the regex matcher accepts a string exactly when it is non-empty, only letters and spaces, starts and ends with a letter and has no two adjacent spaces |
| NamePattern.Matches | client/src/lib/utils.ts:37 | the anchored, greedy reading of `^[a-zA-Z]+(?: [a-zA-Z]+)*$`: a letter run, then either the end or one space and a match of the rest; its meaning is given by NamePattern.MatchesIffWellFormed |
| Utils.ValidateName | client/src/lib/utils.ts:36-38 | true exactly for well-formed names (letter runs separated by single spaces) |
| Utils.ValidNameShape | client/src/lib/utils.ts:36-38 | a valid name is already trimmed and holds no newline or comma |
| Utils.ParseBulkInput | client/src/lib/utils.ts:41-49 | blank text gives []; every result is a trimmed, valid name, free of separators, taken from the trimmed pieces between runs of newlines and commas |
| Utils.ParseBulkInputOfRuns | client/src/lib/utils.ts:41-49 | for any text written as separator-free pieces joined by runs of newlines and commas (every text can be, by Text.SplitRunsCovers), the result is exactly the pieces that are valid names after trimming, in their order; blank text gives [] |
| Utils.KeepValid | client/src/lib/utils.ts:48 | every kept piece is a valid name taken from the input; with Utils.KeepValidAppend and Utils.KeepValidOne it keeps exactly the valid pieces, in order |
| Utils.KeepValidAppend | client/src/lib/utils.ts:48 | the filter works piece by piece: filtering a concatenation filters each part, so kept names keep their relative order |
| Utils.KeepValidOne | client/src/lib/utils.ts:48 | a single piece is kept exactly when it is a valid name |
| Utils.ParseBulkInputSpaced | client/src/lib/utils.ts:41-49 | two valid names separated by a comma and a space (`"Alice, Bob"`) give both names, the space trimmed off |
| Utils.ParseBulkInputBlankLine | client/src/lib/utils.ts:41-49 | two valid names separated by a blank line (`"A\n\nB"`) give both names: the two newlines are one separator run |
| Utils.ParseBulkInputSkipsInvalid | client/src/lib/utils.ts:41-49 | a non-blank piece that is not a valid name after trimming (`"Alice,B0b,Carol"`) is dropped and its neighbours kept in order |
| Utils.ParseBulkInputJoin | client/src/lib/utils.ts:41-49 | valid names joined by a newline or by a comma are read back exactly, in order |
| Text.Trim | client/src/lib/utils.ts:42 | `trim` leaves no white space at either end, never lengthens, and is empty exactly when the input is all white space |
| Text.TrimInfix | client/src/lib/utils.ts:47 | the trimmed string is the piece of the input between an all-white prefix and an all-white suffix |
| Text.TrimIdempotent | client/src/lib/utils.ts:47 | trimming twice is trimming once |
| Text.Split | client/src/components/BulkAddModal.tsx:70 | `split('\n')` gives at least one piece, no piece holds the separator, and joining the pieces with it gives the input back |
| Text.SplitJoin | client/src/components/BulkAddModal.tsx:70 | splitting a join of separator-free pieces gives the pieces back |
| Text.Join | client/src/components/PairingSection.tsx:12-15 | `Array.prototype.join`: the pieces with the separator between consecutive ones, nothing for no pieces; Text.Split and Text.SplitJoin show it is undone by splitting on a separator no piece holds |
| Text.SplitRuns | client/src/lib/utils.ts:46 | `split(/[\n,]+/)` gives at least one piece, pieces are separator-free, interior pieces are non-empty, and the first piece is non-empty when the text does not start with a separator |
| Text.SplitRunsCovers | client/src/lib/utils.ts:46 | the pieces of `split(/[\n,]+/)`, joined back with the separator runs of the text in order, give the text back, with one piece more than runs |
| Text.SplitRunsOfJoinRuns | client/src/lib/utils.ts:46 | splitting separator-free pieces joined by non-empty separator runs, with non-empty interior pieces, gives the pieces back |
| Text.SplitRunsJoin | client/src/lib/utils.ts:46 | splitting a join (by one separator character) of non-empty separator-free pieces gives the pieces back |
| Text.NatToStringValue | client/src/components/PairingSection.tsx:12 | the decimal rendering of a number reads back as that number |
| SharedSchema.NameSchema | shared/schema.ts:26-27 | accepted exactly when the trimmed input is a well-formed name, with the trimmed input as value; a rejection always carries the pattern issue and carries the empty-name issue exactly when the input is blank |
| SharedSchema.BulkNamesSchema | shared/schema.ts:29 | accepted exactly when the array is non-empty and every element passes nameSchema; the value is the element-wise trimmed array; the empty array gets the single "At least one name is required" issue |
| ClientSchema.PersonSchema | client/src/lib/schema.ts:5-8 | accepted exactly when the untrimmed name is well-formed, whatever the url; the value is the person unchanged; an empty name reports both the "required" and the "invalid characters" issue |
| ClientSchema.UntrimmedNameRejected | client/src/lib/schema.ts:6 | a name with white space at either end is rejected |
| ClientSchema.PersonNamePassesNameSchema | client/src/lib/schema.ts:6 | an accepted person's name passes the shared nameSchema unchanged |
| ClientSchema.BulkPersonsSchema | client/src/lib/schema.ts:11 | accepted exactly when there is at least one person and every name is well-formed; the empty array gets the single "At least one person is required" issue |
| PairingSection.ConvertToCSV | client/src/components/PairingSection.tsx:4-16 | the loop's result is the header line followed by one numbered row per group, joined by newlines |
| PairingSection.CsvRow | client/src/components/PairingSection.tsx:12 | the template row `${index + 1},"${pair.join(', ')}"`; PairingSection.RowStartsWithNumber and PairingSection.CsvLines state what the rows of the file are |
| PairingSection.CsvLines | client/src/components/PairingSection.tsx:8-15 | when no name holds a newline, the file has exactly `pairs.length + 1` lines, the first is `Pair Number,Names` and line k is the row for group k |
| PairingSection.CsvOfNoPairs | client/src/components/PairingSection.tsx:8-15 | no groups give the header line alone |
| PairingSection.RowStartsWithNumber | client/src/components/PairingSection.tsx:12 | each row starts with its decimal number followed by a comma |
| BulkAdd.MatchAtSound | client/src/components/BulkAddModal.tsx:76 | a match found at a position is `[`, then `http://` or `https://` and at least one character that is neither white space nor `]`, then `]` |
| BulkAdd.MatchAtComplete | client/src/components/BulkAddModal.tsx:76 | every match of the URL pattern at a position is the one found there |
| BulkAdd.MatchAt | client/src/components/BulkAddModal.tsx:76 | a match at a position ends within the line, at least two characters on; BulkAdd.MatchAtSound and BulkAdd.MatchAtComplete show it finds exactly the matches of the URL pattern there |
| BulkAdd.FindUrl | client/src/components/BulkAddModal.tsx:77 | `line.match` reports the leftmost match, and reports none only when no position matches |
| BulkAdd.ParseLineWithUrl | client/src/components/BulkAddModal.tsx:79-85 | for a line whose first bracketed link spans b..e, the url is the bracket content and the name is the line with that part removed, trimmed; the line is dropped when that name is empty |
| BulkAdd.ParseLineWithoutUrl | client/src/components/BulkAddModal.tsx:86-92 | a line with no bracketed link gives its trimmed text and an empty url, or nothing when blank |
| BulkAdd.ParseLine | client/src/components/BulkAddModal.tsx:75-92 | one line's entry, whose name is non-empty and trimmed; BulkAdd.ParseLineWithUrl and BulkAdd.ParseLineWithoutUrl give the entry in each case |
| BulkAdd.BlankLineIgnored | client/src/components/BulkAddModal.tsx:70 | a white-space-only line never gives an entry |
| BulkAdd.ParseLinesAppend | client/src/components/BulkAddModal.tsx:74-93 | the entries of two blocks of lines are those of the first block followed by those of the second, so output order follows line order |
| BulkAdd.NonBlankIrrelevant | client/src/components/BulkAddModal.tsx:70 | filtering out blank lines first changes no entry |
| BulkAdd.NonBlank | client/src/components/BulkAddModal.tsx:70 | `filter(line => line.trim() !== '')`: no kept line is white space only; BulkAdd.NonBlankIrrelevant shows that the filter changes no entry |
| BulkAdd.ParseLinesNames | client/src/components/BulkAddModal.tsx:83-90 | every entry has a non-empty, trimmed name |
| BulkAdd.ParsedEntriesOfLines | client/src/components/BulkAddModal.tsx:68-96 | for text written as lines, the entries are those of its lines in order, each with a non-empty trimmed name |
| BulkAdd.Submittable | client/src/components/BulkAddModal.tsx:104 | a person is submitted from the manual tab exactly when it is an entry whose trimmed name is non-empty, and as many times as it occurs among the entries |
| BulkAdd.SubmittableAppend | client/src/components/BulkAddModal.tsx:104 | the filter works entry by entry, so submitted entries keep their order |
| BulkAdd.SpliceStart | client/src/components/BulkAddModal.tsx:53 | the position `splice(index, 1)` starts at: the index itself when it is in range, counted from the end when it is negative and at least -len, and clamped to 0 .. len otherwise |
| BulkAdd.BulkAddModal.constructor | client/src/components/BulkAddModal.tsx:29-31 | the initial state: manual tab, one blank entry, empty text; the class invariant holds |
| BulkAdd.BulkAddModal.ResetState | client/src/components/BulkAddModal.tsx:34-38 | one blank entry, empty text, manual tab |
| BulkAdd.BulkAddModal.AddEntry | client/src/components/BulkAddModal.tsx:46-48 | exactly one blank entry is appended; nothing else changes |
| BulkAdd.BulkAddModal.RemoveEntry | client/src/components/BulkAddModal.tsx:51-58 | the entry at the index (read as `splice` reads it) is deleted; an in-range index deletes exactly that entry; a removal that empties the list leaves one blank entry, so the list is never empty |
| BulkAdd.BulkAddModal.UpdateEntry | client/src/components/BulkAddModal.tsx:61-65 | only the chosen field of the chosen entry changes; every other entry and field stays |
| BulkAdd.BulkAddModal.ParseBulkText | client/src/components/BulkAddModal.tsx:68-96 | the loop returns the entries of the non-blank lines, in line order |
| BulkAdd.BulkAddModal.HandleSubmit | client/src/components/BulkAddModal.tsx:99-114 | submits the non-blank manual entries or the parsed text only when there is at least one, then resets; otherwise nothing changes |
| HomePage.Home.AddName | client/src/pages/Home.tsx:16-32 | a name already listed is refused with no change; a new name is appended and true returned; the groups stay |
| HomePage.Home.RemoveName | client/src/pages/Home.tsx:34-48 | every occurrence is removed, the other names keep their order; generated groups are regenerated from the rest, or cleared with the flag reset when nothing remains |
| HomePage.Without | client/src/pages/Home.tsx:35 | the removed name no longer occurs and every other name occurs as often as before |
| HomePage.WithoutAppend | client/src/pages/Home.tsx:35 | removal works piece by piece, so the kept names stay in their relative order |
| HomePage.Home.ClearNames | client/src/pages/Home.tsx:50-58 | no names, no groups, flag reset |
| HomePage.Home.HandleGeneratePairs | client/src/pages/Home.tsx:60-77 | an empty list changes nothing; otherwise the groups are generatePairs of the names and the flag is set |
| HomePage.Home.HandleBulkAdd | client/src/pages/Home.tsx:79-118 | appends exactly the batch names not already listed, in batch order, counting them; regenerates the groups when any were added and groups existed |
| HomePage.NotInCounts | client/src/pages/Home.tsx:89-96 | a listed name is never added and any other name is added as many times as the batch holds it |
| HomePage.NotInKeepsRepeats | client/src/pages/Home.tsx:89-96 | a new name repeated in the batch is added twice: repeats inside the batch are not removed |
| HomePage.NotIn | client/src/pages/Home.tsx:89-96 | the batch names not already listed, in batch order; its meaning is stated by HomePage.NotInCounts and HomePage.NotInKeepsRepeats |
| HomePage.PairUp | client/src/pages/Home.tsx:41 | the page's call of generatePairs on its names |
| HomePage.Home.constructor | client/src/pages/Home.tsx:10-12 | the initial state: no names, no groups, flag unset; the class invariant holds |
| Storage.MemStorage.constructor | server/storage.ts:24-29 | empty maps and both counters at 1 |
| Storage.MemStorage.GetUser | server/storage.ts:31-33 | a user is found exactly for ids 1 .. currentUserId - 1, and carries its id |
| Storage.MemStorage.GetUserByUsername | server/storage.ts:35-39 | the result has that username and no user inserted earlier has it; none exactly when no user has it |
| Storage.FirstKeyWith | server/storage.ts:36-38 | the smallest user id in a range with the given username, or none when no id there has it |
| Storage.MemStorage.CreateUser | server/storage.ts:41-46 | the new user gets the current counter as id, an id no user had; the counter grows by one; only that entry is added and getUser finds it |
| Storage.MemStorage.GetNameList | server/storage.ts:48-50 | a list is found exactly for stored ids, and carries its id, which lies below the counter |
| Storage.MemStorage.CreateNameList | server/storage.ts:52-62 | the new list gets the current counter as id, never used before even after deletions, and the injected time; only that entry is added and getNameList finds it |
| Storage.MemStorage.UpdateNameList | server/storage.ts:64-74 | an absent id gives none and no change; a present one keeps id and creation time, takes the new names, and no other entry changes |
| Storage.MemStorage.DeleteNameList | server/storage.ts:76-78 | true exactly when the id was present; afterwards getNameList finds nothing there, other entries and the counter unchanged |
| PagesStore.LocalPersonStore.constructor | github-pages-build.js:20-30 | the store starts from the list that `getStorageData` hands back, with no write made yet |
| PagesStore.LocalPersonStore.AddPerson | github-pages-build.js:44-54 | refused with no change and no write when the name is stored; otherwise appended with one write; distinct names stay distinct |
| PagesStore.HasName | github-pages-build.js:47 | `persons.some(p => p.name === name)`: some person has that name; PagesStore.WithoutNameShorter and PagesStore.LocalPersonStore.AddPerson use it to state when a write happens |
| PagesStore.LocalPersonStore.RemovePerson | github-pages-build.js:56-67 | every person with that name is removed; true, with one write, exactly when the length changed; distinct names stay distinct |
| PagesStore.WithoutName | github-pages-build.js:60 | every person with that name is gone and every other person occurs as often as before |
| PagesStore.WithoutNameAppend | github-pages-build.js:60 | the filter works person by person, so the kept persons stay in order |
| PagesStore.WithoutNameKeepsDistinct | github-pages-build.js:60 | filtering a list with distinct names keeps them distinct |
| PagesStore.WithoutNameShorter | github-pages-build.js:58-62 | filtering by name shortens the list exactly when that name is present, and leaves it as it was otherwise |
| PagesStore.LocalPersonStore.ClearPersons | github-pages-build.js:69-71 | the empty list is written |
| PagesStore.LocalPersonStore.AddPersons | github-pages-build.js:73-89 | the forEach loop gives the batch added in order, a person only when its name is not present at that moment; the count is the growth; one write exactly when it is positive; distinct names stay distinct |
| PagesStore.AddAllKeepsDistinct | github-pages-build.js:77-82 | adding a batch to a list with distinct names keeps the names distinct |
| PagesStore.AddAllCovers | github-pages-build.js:77-82 | afterwards every batch name is present, and every appended person comes from the batch |
| PagesStore.AddAllRepeatOnce | github-pages-build.js:77-82 | a new name given twice in the batch is added once |
| PagesStore.AddAll | github-pages-build.js:77-82 | the list after the forEach: the old list is kept as a prefix and at most the batch's length is added; PagesStore.AddAllKeepsDistinct, PagesStore.AddAllCovers and PagesStore.AddAllRepeatOnce give its meaning |

## Left out

- No derangement, second permutation or retry: `generatePairs` is one shuffle followed by consecutive pairing, and that is what is modelled.
- `Math.random` and its floating-point arithmetic are replaced by the draw sequence `rolls`; the model says nothing about the distribution of the shuffle.
- Utils.ShuffleInjective: shows that different draws give different arrangements of a repeat-free input, not that every arrangement is reachable or equally likely.
- `new Date()` in `createNameList` is the parameter `now`, an integer timestamp.
- server/routes.ts is not part of this model (HTTP plumbing, status codes, JSON error formatting).
- Browser storage and JSON: `getStorageData`/`saveStorageData` are replaced by the field `stored` and the write counter `saves`; a read that fails or finds malformed JSON is not modelled, and neither is a write that `saveStorageData` fails and swallows (github-pages-build.js:32-38), after which `stored` and `saves` describe a write that did not happen. client/src/lib/localStorage.ts is not part of this model.
- The build scripts' file writing and process calls, `downloadCSV` (Blob and DOM) and `cn` (foreign class-name libraries) are not part of this model.
- React rendering, toasts, dialogs and the DOM hooks are not modelled; `onClose` after submit is an outside callback.
- React's asynchronous state updates: each handler is one sequential state change. The handlers' toasts are left out.
- The zod and drizzle libraries: only the checks the schemas ask for and their messages are modelled, not the shape of zod's error objects beyond path and message.
- Strings are sequences of code points; JavaScript's UTF-16 code units are not modelled.
- The CSV writes names as they are: quotes or newlines inside a name are not escaped; PairingSection.CsvLines therefore assumes names without newlines.
- BulkAdd.BulkAddModal.UpdateEntry: requires an existing index, which is how the dialog calls it; an out-of-range index, which in JavaScript would extend the array, is not modelled.
- BulkAdd.BulkAddModal.HandleSubmit: the dialog's `handleClose` (reset, then the outside `onClose`) is covered only through ResetState.
- Home.tsx passes `handleBulkAdd` (which takes names) as `onAddNames`, while the dialog calls `onAddPersons` with persons; the two are modelled separately, each on its own terms.
- Home.tsx (lines 134-140) also gives NameInput the props `names`, `onAddName`, `onRemoveName` and `onClearNames`, while NameInput (client/src/components/NameInput.tsx:17-29) reads `persons`, `onRemovePerson` and `onClearPersons`; as written, the list would read `persons.length` of an undefined value. The page handlers are modelled as if they were wired correctly; the props mismatch itself is not modelled.
- HomePage.Home.AddName: `addName` does not regenerate groups that were already generated, and the model keeps that.
- Storage: ids are JavaScript numbers, which stop growing under `++` above 2^53; the model's counters are unbounded integers, so "an id never used before" holds there without limit.
- Storage: usernames are not checked for uniqueness by `createUser`, and the model does not add such a check; the interface `IStorage` is the class's method set.
