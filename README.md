# PDF Text Extractor — a verified model of its own logic

The program is a command-line tool (`main.py`) that extracts text and metadata
from PDF files through the PyPDF2 library, for one file (`extract`, `info`) or
for a batch of files (`batch`). Most of it is plumbing around the library, the
file system and argparse. This project models the logic the program itself
decides, with the library and the operating system as inputs:

- **Opening** (`Pdf`): a file is missing, unreadable, or opened. An opened
  document carries its encrypted flag, the passwords on which decryption
  raises, one outcome per page (the page's text, or `None` when extracting it
  raised) and its optional information dictionary. `Open` is the gate that
  both `extract_text_from_pdf` and `extract_info` apply before reading any
  page.
- **Page range** (`PageRange`): absent bounds default to 1 and the page count.
  The start is then floored to 1 and the end capped at the page count. The
  request is refused only when the clamped start lies after the clamped end.
- **Page assembly** (`Assembly`, `Extraction`): `ExtractText` walks the
  0-based indices `start-1 .. end-1` in a loop. It appends each successful
  page's text followed by `"\n\n"` and skips pages whose extraction failed.
  It is proved against the specification function `Extracted`. A ghost log
  records the pages it visits.
- **Metadata** (`Metadata`): the record `extract_info` returns, kept as an
  ordered key/value list. Also the console table of the `info` command,
  whose key column is the longest key plus two.
- **Batch** (`Paths`, `Selection`, `Batch`): selecting the inputs, from a
  directory listing, a recursive walk, or a whitespace-separated argument.
  Each input's output path is `<output dir>/<base name without last
  extension>.txt`. The batch loop skips missing inputs, failed extractions
  and empty texts, and goes on with the next input. The writes the batch
  performs are returned in order. Two inputs with the same stem in
  different directories write the same output path, and the later write
  replaces the earlier one. A path named twice in the whitespace-separated
  list is processed, and written, twice.
- **Pattern filter** (`Pattern`): what `extract_with_pattern` does with the
  match list that the regular-expression library returned.

## Model

| member | source | states |
|---|---|---|
| `Pdf.Open` | main.py:14-59 | Proceeds exactly when the file opened and, for an encrypted document, the password is truthy (present and non-empty) and decryption does not raise. Encrypted with no usable password gives PasswordRequired; decryption raising gives IncorrectPassword; a missing file gives FileNotFound; a file that cannot be read gives OpenFailed. The same gate is repeated at main.py:77-86. |
| `PageRange.Resolve` | main.py:30-42 | On success 1 <= start <= end <= page count. A missing start is 1 and a missing end is the page count. A start below 1 becomes 1, an end past the last page becomes the page count, and a bound already in range is kept. The only error is InvalidRange, carrying the clamped start and end with start > end. |
| `PageRange.ResolveCoversRequest` | main.py:36-42 | Clamp-then-validate: the resolved range is exactly the set of document pages inside the requested bounds. The request is refused exactly when it covers no page of the document. |
| `PageRange.DefaultsCoverDocument` | main.py:31-33 | With no bounds the range is the whole document. A zero-page document is refused with start 1 > end 0. |
| `PageRange.StartBeyondLastPage` | main.py:36-42 | A start past the last page is always refused, whatever the end (for example 5 pages, start 10, end 20). |
| `Assembly.Successes` | main.py:46-51 | The successful pages' texts: at most one per page of the range. |
| `Assembly.SuccessesMembers` | main.py:46-51 | A text is kept exactly when some page of the range succeeded with that text. |
| `Assembly.AssembleSplit` | main.py:45-53 | The text of a range split in two is the first part's text followed by the second's. |
| `Assembly.AssembleFirst` | main.py:45-53 | The text of a non-empty range is the first page's contribution (its text and `"\n\n"`, or nothing when it failed) followed by the text of the rest. |
| `Assembly.AssembleIsJoinedSuccesses` | main.py:45-53 | The loop's text is the in-order concatenation of `text + "\n\n"` over the pages that succeeded. Failed pages contribute nothing. |
| `Assembly.JoinedLength` | main.py:49 | The joined text's length is the sum of the texts' lengths plus two per text. |
| `Assembly.AssembleLength` | main.py:45-49 | The length is the sum over successful pages of the text length plus 2. The text is empty exactly when no page succeeded. |
| `Assembly.SuccessesEmpty` | main.py:47-51 | No text is kept exactly when every page's extraction failed. |
| `Assembly.AssembleEmptyIffAllFail` | main.py:45-53 | The assembled text is `""` exactly when every page of the range failed. |
| `Extraction.Extracted` | main.py:12-59 | Open and decrypt errors come out unchanged. Once the gate passes, the extraction succeeds exactly when the page range resolves, and otherwise fails with `Resolve`'s InvalidRange, carrying the clamped bounds. |
| `Extraction.ExtractText` | main.py:12-53 | The result is `Extracted`. When the result is an error, no page was read. On success every index of `[start-1, end)` was visited exactly once, in order. |
| `Extraction.AssembleRange` | main.py:44-53 | The page loop returns the assembled text of the pages with indices lo to hi-1 and visits each of those indices once, in order. |
| `Extraction.ExtractedSuccess` | main.py:14-53 | A successful extraction means the file opened, the range resolved, and the text is the assembled text of that range. |
| `Extraction.ExtractedText` | main.py:44-53 | A successful extraction's text is the joined successful page texts of the resolved range, and its length is their lengths plus 2 each. |
| `Extraction.WholeDocument` | main.py:30-42 | With no range, an accepted document yields the text of all its pages. A document without pages is refused with InvalidRange(1, 0). |
| `Extraction.EmptyTextIffAllPagesFail` | main.py:44-53 | A successful extraction returns `""` exactly when every page of the resolved range failed. |
| `Metadata.ExtractInfo` | main.py:70-109 | Succeeds exactly when the open/decrypt gate passes, and propagates the gate's error otherwise. |
| `Metadata.InfoRecordShape` | main.py:88-103 | With an information dictionary, the keys are exactly Title, Author, Subject, Creator, Producer, Creation Date, Modification Date and Pages, in that order. Without one, the record holds only Pages: the seven other keys are absent, not null. Keys are distinct. Pages is the page count, each other key holds its attribute (None when absent), and no other key is present. |
| `Metadata.MaxKeyLength` | main.py:231 | No key is longer than the result, and some key is exactly that long. |
| `Metadata.PadRight` | main.py:233 | Left alignment in a field: the text, then spaces up to the width. The text is never truncated. |
| `Metadata.ConsoleRows` | main.py:232-233 | One console line per record entry. |
| `Metadata.RowLayout` | main.py:233 | One console line is the key, spaces up to the column width, then `": "` and the value. |
| `Metadata.ConsoleRowsAligned` | main.py:229-233 | Every line is its key padded with spaces to the longest key + 2, then `": "` and the value. The colons line up, and the longest key is followed by exactly two spaces. |
| `Metadata.InfoKeyColumnWidth` | main.py:229-233 | The key column is 19 wide with an information dictionary and 7 without. |
| `Decimal.NatToString` | main.py:233 | The page count prints as non-empty decimal digits without a leading zero. |
| `Decimal.NatToStringRoundTrip` | main.py:233 | Reading the printed digits back gives the number. |
| `Paths.Basename` | main.py:154 | The base name contains no `/`, is a suffix of the path, and follows its last `/`. |
| `Paths.SplitExt` | main.py:154 | Root + extension gives back the name. A non-empty extension starts with the last `.`, contains no further `.` or `/`, and follows a component that is not all dots. |
| `Paths.OutputPathShape` | main.py:154-155 | The output file's base name is `<stem>.txt`. The stem contains no `/`, and the stem plus the dropped extension is the input's base name. |
| `Paths.OutputPathInDirectory` | main.py:154-155 | The output path is the output directory followed by `<stem>.txt`, with one `/` put between them unless the directory is empty or already ends in `/`. |
| `Paths.StemDropsLastExtension` | main.py:154 | For `<dir>/<name><ext>` with one extension, the stem is `<name>`, unless the name is all dots. |
| `Paths.SplitExtOfName` | main.py:154 | A name that is not all dots, followed by one extension, splits into that name and that extension. |
| `Paths.PdfStem` | main.py:154 | The stem of `<dir>/<name>.pdf` is `<name>`. |
| `Paths.OutputPathOfPdf` | main.py:154-155 | `<dir>/<name>.pdf` is written to `<output dir>/<name>.txt`. |
| `Selection.IsPdfNameCaseInsensitive` | main.py:243 | The filter accepts exactly the names whose last four characters are `.`, `p`/`P`, `d`/`D`, `f`/`F`. |
| `Selection.ListedPdfs` | main.py:246-247 | At most one path per listing entry. |
| `Selection.ListedPdfsMembers` | main.py:246-247 | A path is selected exactly when some listed entry that is a file and has a `.pdf` name joins to it. |
| `Selection.CollectWalked` | main.py:239-244 | The nested loops collect `WalkedPdfs` of the walk, in walk order. |
| `Selection.PdfsInMembers` | main.py:242-244 | Within one directory of the walk, a path is collected exactly when a `.pdf` name joins to it. |
| `Selection.WalkedPdfsMembers` | main.py:241-244 | A path is collected exactly when some step of the walk has a `.pdf` name joining to it under that step's directory. |
| `Selection.SplitFrom` | main.py:254 | Every word produced is non-empty and contains no whitespace. |
| `Selection.Split` | main.py:254 | The words of the argument are non-empty and free of whitespace. |
| `Selection.SplitKeepsNonSpace` | main.py:254 | The words, concatenated, give the argument with its whitespace removed: nothing lost, nothing added. |
| `Selection.SplitJoinWords` | main.py:254 | Words joined by single spaces split back into the same words. |
| `Selection.SplitAnySpacing` | main.py:254 | Words separated by non-empty runs of any whitespace, with optional leading and trailing whitespace, split back into exactly those words. |
| `Selection.SplitAllSpace` | main.py:254 | An argument made only of whitespace (or empty) has no words. |
| `Batch.FileWrites` | main.py:148-160 | Processing one input writes at most one file. |
| `Batch.ExtractMultiple` | main.py:138-162 | When the output directory cannot be made, nothing is written. Otherwise the writes are `BatchWrites` of the inputs, in order. |
| `Batch.BatchWritesAppend` | main.py:147-162 | Inputs are independent: the writes of a list are those of its first part followed by those of the rest. |
| `Batch.FileWritesNothing` | main.py:149-160 | An input writes nothing exactly when it is missing, its extraction fails, or its text is empty. |
| `Batch.SkippedInputContinues` | main.py:147-162 | A skipped input (missing, failing or empty) does not stop the batch. The inputs after it write what they would have written without it. |
| `Batch.BatchWritesMembers` | main.py:147-160 | A write happens exactly when an input exists and its full extraction succeeds with non-empty text. That text goes to the input's output path. |
| `Batch.BatchWritesCount` | main.py:147-160 | No more writes than inputs. |
| `Batch.BatchInputs` | main.py:237-254 | A directory's inputs are its `.pdf` entries: the walk's, with `--recursive`, or the listing's. The batch stops before starting exactly when that selection is empty. An argument that is not a directory gives its whitespace-separated words. |
| `Batch.RunBatch` | main.py:235-257 | Writes exactly what the batch loop writes over `BatchInputs`, and nothing when that selection stops the batch. |
| `Pattern.FilterOutcome` | main.py:111-136 | An empty text is not searched. No matches means nothing is written. A file is written exactly when the text is non-empty, there is a match, the format is JSON or CSV and an output file is named; a JSON file holds all the matches in order, a CSV file the `CsvRows` table. In every other case with matches, the numbered lines `NumberedLines` are listed on the console. |
| `Pattern.CsvRows` | main.py:126-131 | The CSV table is the `Match` header, then one single-cell row per match, in order. |
| `Pattern.NumberedLines` | main.py:133-136 | One console line per match. |
| `Pattern.NumberedLinesRead` | main.py:134-136 | Line i is `<i+1>. <match>`, and its number reads back as i+1. |

## Left out

- PyPDF2 itself (parsing, `decrypt`, `extract_text`, the metadata object) is foreign code. Its outcomes are inputs: `PdfFile`, the set of passwords on which decryption raises, per-page `Option<string>`, and `Option<DocInfo>`. A wrong password on which decryption returns without raising is not distinguished. Its consequences show up as page outcomes or as an unreadable file.
- Exceptions the library raises after opening (reading the page count or the metadata) are folded into `Unreadable`. They reach the same outer handler and give the same `None`.
- File and directory I/O are modelled only as given values. `save_text` (main.py:61-68) becomes a `Write` record, and a failing write is not modelled (it only prints). `os.makedirs`/`os.path.exists` for the output directory become the `dirReady` flag. `os.path.exists` for an input becomes membership in the `FileSystem` map. `os.path.isdir` becomes `Option<Directory>`. `os.listdir`/`os.walk` and their order become given sequences.
- `re.findall` (main.py:116) is the regular-expression library. Its match list is an input to `FilterOutcome`.
- JSON and CSV serialisation (main.py:122-132, 223-224) is library formatting, so the outcome carries the data handed to it. `strftime` date formatting (main.py:97-98) is library formatting too: dates arrive already rendered.
- Argument parsing and command dispatch (main.py:164-233, apart from the key-width and row layout), including the `extract` command's default output file and its choice between regex filtering and saving, are command-line plumbing. So are all printed messages.
- The per-file `except Exception` in the batch loop (main.py:161-162) has nothing to catch in the model, because nothing in the loop body fails other than through the result of extraction.
- `Selection.LowerChar` lower-cases ASCII letters only. That is exact for the `.pdf` suffix test, because no other character lower-cases to `.`, `p`, `d` or `f`.
- `Pattern.FilterOutcome`: a failing open of the JSON or CSV output file (main.py:123, 127) is not modelled. The program does not catch it, and the run ends; the outcome treats the file as written.
- `Pattern.FilterOutcome`: the matches are strings. For a pattern with two or more groups, `re.findall` (main.py:116) returns tuples, and the JSON, CSV and console outputs then render tuples; that case is not modelled.
- `Paths`: only POSIX `os.path` behaviour is modelled, with `/` as the only separator. On Windows, `basename` and `join` (main.py:154-155, 244, 246) also split on and join with `\`.
