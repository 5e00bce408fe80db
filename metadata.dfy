/** extract_info and the console table of the `info` command. */
module Metadata {
  import opened Wrappers
  import opened Pdf
  import Decimal

  /** A value of the information record: None, a string, or the page count. */
  datatype Value = Null | Text(s: string) | Count(n: nat)

  /** The record, as an insertion-ordered list of key/value pairs. */
  type Record = seq<(string, Value)>

  /** The keys of a record built from an information dictionary, in order. */
  const MetadataKeys: seq<string> :=
    ["Title", "Author", "Subject", "Creator", "Producer", "Creation Date", "Modification Date", "Pages"]

  function Keys(record: Record): (keys: seq<string>)
    ensures |keys| == |record| && forall i :: 0 <= i < |record| ==> keys[i] == record[i].0
  {
    seq(|record|, i requires 0 <= i < |record| => record[i].0)
  }

  /** The value stored under `key`, the first one if it were repeated. */
  function Lookup(record: Record, key: string): (v: Option<Value>)
    ensures v.None? <==> key !in Keys(record)
  {
    if record == [] then None
    else if record[0].0 == key then Some(record[0].1)
    else
      assert Keys(record) == [record[0].0] + Keys(record[1..]);
      Lookup(record[1..], key)
  }

  function FieldValue(attribute: Option<string>): Value {
    match attribute
    case Some(s) => Text(s)
    case None => Null
  }

  /** The record for an accepted document: every field of the information
      dictionary and the page count when the dictionary is present (and
      truthy), only the page count otherwise. */
  function InfoRecord(doc: PdfDoc): Record {
    var pages := ("Pages", Count(|doc.pages|));
    match doc.info
    case None => [pages]
    case Some(info) =>
      [ ("Title", FieldValue(info.title)),
        ("Author", FieldValue(info.author)),
        ("Subject", FieldValue(info.subject)),
        ("Creator", FieldValue(info.creator)),
        ("Producer", FieldValue(info.producer)),
        ("Creation Date", FieldValue(info.creationDate)),
        ("Modification Date", FieldValue(info.modificationDate)),
        pages ]
  }

  /** extract_info: the same open and decrypt checks as text extraction, then
      the record. */
  function ExtractInfo(file: PdfFile, password: Option<string>): (r: Result<Record, ExtractError>)
    ensures r.Ok? <==> Open(file, password).Ok?
    ensures r.Err? ==> r.error == Open(file, password).error
  {
    match Open(file, password)
    case Err(e) => Err(e)
    case Ok(doc) => Ok(InfoRecord(doc))
  }

  /** No key occurs twice, as in the dictionary the record stands for. */
  predicate DistinctKeys(record: Record) {
    forall i, j :: 0 <= i < j < |record| ==> record[i].0 != record[j].0
  }

  lemma {:induction false} LookupAt(record: Record, i: nat)
    requires DistinctKeys(record) && i < |record|
    ensures Lookup(record, record[i].0) == Some(record[i].1)
  {
    if i > 0 {
      assert record[i] == record[1..][i - 1];
      LookupAt(record[1..], i - 1);
    }
  }

  /** The record's key set: the eight metadata keys in order when the
      document has an information dictionary, only "Pages" otherwise. Keys
      are distinct, "Pages" is the page count, and each metadata key holds
      the corresponding attribute, None when absent. */
  lemma InfoRecordShape(file: PdfFile, password: Option<string>)
    requires ExtractInfo(file, password).Ok?
    ensures var record := ExtractInfo(file, password).value;
      && Keys(record) == (if file.doc.info.Some? then MetadataKeys else ["Pages"])
      && DistinctKeys(record)
      && Lookup(record, "Pages") == Some(Count(|file.doc.pages|))
      && (file.doc.info.None? ==> forall key :: key != "Pages" ==> Lookup(record, key).None?)
      && (file.doc.info.Some? ==>
            var info := file.doc.info.value;
            && Lookup(record, "Title") == Some(FieldValue(info.title))
            && Lookup(record, "Author") == Some(FieldValue(info.author))
            && Lookup(record, "Subject") == Some(FieldValue(info.subject))
            && Lookup(record, "Creator") == Some(FieldValue(info.creator))
            && Lookup(record, "Producer") == Some(FieldValue(info.producer))
            && Lookup(record, "Creation Date") == Some(FieldValue(info.creationDate))
            && Lookup(record, "Modification Date") == Some(FieldValue(info.modificationDate)))
  {
    var record := ExtractInfo(file, password).value;
    assert Keys(record) == (if file.doc.info.Some? then MetadataKeys else ["Pages"]);
    assert DistinctKeys(record);
    LookupAt(record, |record| - 1);
    if file.doc.info.Some? {
      LookupAt(record, 0);
      LookupAt(record, 1);
      LookupAt(record, 2);
      LookupAt(record, 3);
      LookupAt(record, 4);
      LookupAt(record, 5);
      LookupAt(record, 6);
    }
  }

  /** The length of the longest key. */
  function MaxKeyLength(keys: seq<string>): (m: nat)
    requires keys != []
    ensures forall k :: k in keys ==> |k| <= m
    ensures exists k :: k in keys && |k| == m
  {
    if |keys| == 1 then |keys[0]|
    else
      var rest := MaxKeyLength(keys[1..]);
      if |keys[0]| > rest then |keys[0]| else rest
  }

  /** The width of the console table's key column: the longest key plus two. */
  function KeyColumnWidth(record: Record): nat
    requires record != []
  {
    MaxKeyLength(Keys(record)) + 2
  }

  /** `s` left-aligned in a field of `width` characters, as the format
      specification `<width` does: spaces on the right, never truncated. */
  function PadRight(s: string, width: nat): (r: string)
    ensures |r| == if |s| < width then width else |s|
    ensures r[..|s|] == s
    ensures forall i :: |s| <= i < |r| ==> r[i] == ' '
  {
    if |s| < width then s + seq(width - |s|, _ => ' ') else s
  }

  /** How a value prints: None as "None", a string as itself, a count in decimal. */
  function Render(v: Value): string {
    match v
    case Null => "None"
    case Text(s) => s
    case Count(n) => Decimal.NatToString(n)
  }

  /** The console table: one line per key, in record order. */
  function ConsoleRows(record: Record): (rows: seq<string>)
    requires record != []
    ensures |rows| == |record|
  {
    var width := KeyColumnWidth(record);
    seq(|record|, i requires 0 <= i < |record| => PadRight(record[i].0, width) + ": " + Render(record[i].1))
  }

  /** One console line: the key, spaces up to `width`, then ": " and the value. */
  lemma RowLayout(key: string, value: Value, width: nat)
    requires |key| + 2 <= width
    ensures var row := PadRight(key, width) + ": " + Render(value);
      && row[..|key|] == key
      && (forall j :: |key| <= j < width ==> row[j] == ' ')
      && row[width..] == ": " + Render(value)
  {
    var padded := PadRight(key, width);
    var row := padded + ": " + Render(value);
    assert |padded| == width;
    assert row == padded + (": " + Render(value));
    assert row[..|key|] == padded[..|key|];
    assert forall j :: |key| <= j < width ==> row[j] == padded[j];
  }

  /** Every row starts with its key, padded with spaces to the shared width
      (the longest key plus two), followed by ": " and the value, so the
      colons line up; the widest key is followed by exactly two spaces. */
  lemma ConsoleRowsAligned(record: Record)
    requires record != []
    ensures var width, rows := KeyColumnWidth(record), ConsoleRows(record);
      && (exists i :: 0 <= i < |record| && |record[i].0| + 2 == width)
      && forall i :: 0 <= i < |record| ==>
           && |record[i].0| + 2 <= width
           && rows[i][..|record[i].0|] == record[i].0
           && (forall j :: |record[i].0| <= j < width ==> rows[i][j] == ' ')
           && rows[i][width..] == ": " + Render(record[i].1)
  {
    var width, rows := KeyColumnWidth(record), ConsoleRows(record);
    var keys := Keys(record);
    var longest :| longest in keys && |longest| + 2 == width;
    var k :| 0 <= k < |keys| && keys[k] == longest;
    assert record[k].0 == keys[k];
    forall i | 0 <= i < |record|
      ensures && |record[i].0| + 2 <= width
              && rows[i][..|record[i].0|] == record[i].0
              && (forall j :: |record[i].0| <= j < width ==> rows[i][j] == ' ')
              && rows[i][width..] == ": " + Render(record[i].1)
    {
      assert record[i].0 == keys[i] && keys[i] in keys;
      assert rows[i] == PadRight(record[i].0, width) + ": " + Render(record[i].1);
      RowLayout(record[i].0, record[i].1, width);
    }
  }

  /** The key column of the `info` table is 19 characters wide ("Modification
      Date" plus two) when the document has an information dictionary, and 7
      ("Pages" plus two) otherwise. */
  lemma InfoKeyColumnWidth(file: PdfFile, password: Option<string>)
    requires ExtractInfo(file, password).Ok?
    ensures ExtractInfo(file, password).value != []
    ensures KeyColumnWidth(ExtractInfo(file, password).value) == if file.doc.info.Some? then 19 else 7
  {
    InfoRecordShape(file, password);
    var keys := Keys(ExtractInfo(file, password).value);
    if file.doc.info.Some? {
      MetadataKeysLongest();
    } else {
      assert keys == ["Pages"];
    }
  }

  /** A key as long as every other one fixes the longest length. */
  lemma MaxKeyLengthIs(keys: seq<string>, i: nat, b: nat)
    requires i < |keys| && |keys[i]| == b
    requires forall j :: 0 <= j < |keys| ==> |keys[j]| <= b
    ensures MaxKeyLength(keys) == b
  {
    assert keys[i] in keys;
  }

  lemma MetadataKeysLongest()
    ensures MaxKeyLength(MetadataKeys) == 17
  {
    assert forall j :: 0 <= j < |MetadataKeys| ==> |MetadataKeys[j]| <= 17;
    MaxKeyLengthIs(MetadataKeys, 6, 17);
  }
}
