/** extract_with_pattern, as a decision over the match list. Matching itself
    belongs to the regular-expression library: `matches` is what its find-all
    returned for the text. Serialising to JSON or CSV belongs to those
    libraries: the outcome carries the data they are given. */
module Pattern {
  import opened Wrappers
  import Decimal

  datatype Format = PlainText | Json | Csv

  datatype Outcome =
    | NothingToSearch                                 // the text is empty: no search at all
    | NoMatches                                       // "No matches found": nothing written
    | JsonFile(path: string, matches: seq<string>)    // {"matches": [...]} written to path
    | CsvFile(path: string, rows: seq<seq<string>>)   // a one-column table written to path
    | Console(lines: seq<string>)                     // numbered matches printed

  /** The CSV table: a "Match" header, then one row per match. */
  function CsvRows(matches: seq<string>): (rows: seq<seq<string>>)
    ensures |rows| == |matches| + 1 && rows[0] == ["Match"]
    ensures forall i :: 0 <= i < |matches| ==> rows[i + 1] == [matches[i]]
  {
    [["Match"]] + seq(|matches|, i requires 0 <= i < |matches| => [matches[i]])
  }

  /** The console listing: the matches numbered from 1, as "<n>. <match>". */
  function NumberedLines(matches: seq<string>): (lines: seq<string>)
    ensures |lines| == |matches|
  {
    seq(|matches|, i requires 0 <= i < |matches| => Decimal.NatToString(i + 1) + ". " + matches[i])
  }

  /** What extract_with_pattern does: a file is written exactly when the text
      is non-empty, there is at least one match, the format is JSON or CSV and
      an output file is named; it holds every match, in order. An empty text
      is not searched at all. Otherwise the matches, if any, are listed on
      the console, numbered from 1. */
  function FilterOutcome(text: string, matches: seq<string>, format: Option<Format>, outputFile: Option<string>)
    : (r: Outcome)
    ensures (r.JsonFile? || r.CsvFile?) <==>
      text != "" && matches != [] && outputFile.Some? && outputFile.value != "" &&
      (format == Some(Json) || format == Some(Csv))
    ensures r.JsonFile? ==> r.matches == matches && r.path == outputFile.value && format == Some(Json)
    ensures r.CsvFile? ==> r.rows == CsvRows(matches) && r.path == outputFile.value && format == Some(Csv)
    ensures r == NothingToSearch <==> text == ""
    ensures r == NoMatches <==> text != "" && matches == []
    ensures r.Console? <==>
      text != "" && matches != [] &&
      !(outputFile.Some? && outputFile.value != "" && (format == Some(Json) || format == Some(Csv)))
    ensures r.Console? ==> r.lines == NumberedLines(matches) && |r.lines| == |matches| > 0
  {
    if text == "" then NothingToSearch
    else if matches == [] then NoMatches
    else if format == Some(Json) && outputFile.Some? && outputFile.value != "" then JsonFile(outputFile.value, matches)
    else if format == Some(Csv) && outputFile.Some? && outputFile.value != "" then CsvFile(outputFile.value, CsvRows(matches))
    else Console(NumberedLines(matches))
  }

  /** Each console line starts with its 1-based number, in decimal, which
      reads back as that number, followed by ". " and the match. */
  lemma NumberedLinesRead(matches: seq<string>, i: nat)
    requires i < |matches|
    ensures var line, number := NumberedLines(matches)[i], Decimal.NatToString(i + 1);
      && line == number + ". " + matches[i]
      && Decimal.DigitsValue(number) == i + 1
  {
    Decimal.NatToStringRoundTrip(i + 1);
  }
}
