/**
 * client/src/components/PairingSection.tsx: `convertToCSV`, the text of the
 * downloadable file. A header line, then one line per group: its number
 * (counting from 1), a comma, and the group's names joined by ", " inside
 * double quotes. Lines are joined by "\n" with no newline at the end. Names
 * are written as they are: quotes inside a name are not escaped.
 */
module PairingSection {
  import opened Text

  const Header := "Pair Number,Names"

  /** The line for group number `number`. */
  function CsvRow(number: nat, pair: seq<string>): string {
    NatToString(number) + ",\"" + Join(pair, ", ") + "\""
  }

  /** The data lines, numbered 1, 2, … in the order of `pairs`. */
  function DataRows(pairs: seq<seq<string>>): (rows: seq<string>)
    ensures |rows| == |pairs|
    ensures forall k :: 0 <= k < |pairs| ==> rows[k] == CsvRow(k + 1, pairs[k])
  {
    seq(|pairs|, k requires 0 <= k < |pairs| => CsvRow(k + 1, pairs[k]))
  }

  /** The whole file for `pairs`. */
  function Csv(pairs: seq<seq<string>>): string {
    Join([Header] + DataRows(pairs), "\n")
  }

  /** convertToCSV: push the header, push one row per pair, join with newlines. */
  method ConvertToCSV(pairs: seq<seq<string>>) returns (csv: string)
    ensures csv == Csv(pairs)
  {
    var csvRows := [Header];
    var index := 0;
    while index < |pairs|
      invariant 0 <= index <= |pairs|
      invariant csvRows == [Header] + DataRows(pairs[..index])
    {
      csvRows := csvRows + [CsvRow(index + 1, pairs[index])];
      index := index + 1;
    }
    assert pairs[..index] == pairs;
    csv := Join(csvRows, "\n");
  }

  predicate NoNewline(pairs: seq<seq<string>>) {
    forall k, j :: 0 <= k < |pairs| && 0 <= j < |pairs[k]| ==> '\n' !in pairs[k][j]
  }

  lemma RowHasNoNewline(number: nat, pair: seq<string>)
    requires forall j :: 0 <= j < |pair| ==> '\n' !in pair[j]
    ensures '\n' !in CsvRow(number, pair)
  {
    JoinAvoids(pair, ", ", '\n');
  }

  /**
   * When no name contains a newline, the file has exactly `|pairs| + 1`
   * lines: the header first, then line `k` is the row for pair `k`.
   */
  lemma CsvLines(pairs: seq<seq<string>>)
    requires NoNewline(pairs)
    ensures Split(Csv(pairs), '\n') == [Header] + DataRows(pairs)
    ensures |Split(Csv(pairs), '\n')| == |pairs| + 1
    ensures Split(Csv(pairs), '\n')[0] == Header
    ensures forall k :: 1 <= k <= |pairs| ==> Split(Csv(pairs), '\n')[k] == CsvRow(k, pairs[k - 1])
  {
    var lines := [Header] + DataRows(pairs);
    forall k | 0 <= k < |lines| ensures '\n' !in lines[k] {
      if k > 0 {
        RowHasNoNewline(k, pairs[k - 1]);
      }
    }
    SplitJoin(lines, '\n');
  }

  /** With no pairs the file is the header line alone. */
  lemma CsvOfNoPairs()
    ensures Csv([]) == Header
  {
    assert [Header] + DataRows([]) == [Header];
  }

  /** Each data line starts with its number in decimal, followed by a comma. */
  lemma RowStartsWithNumber(number: nat, pair: seq<string>)
    ensures var line, d := CsvRow(number, pair), NatToString(number);
      && |d| < |line| && line[|d|] == ','
      && (forall i :: 0 <= i < |d| ==> IsDigit(line[i]))
      && DigitsValue(line[..|d|]) == number
  {
    var line, d := CsvRow(number, pair), NatToString(number);
    assert line[..|d|] == d;
    NatToStringValue(number);
  }
}
