/** extract_multiple_pdfs and the batch command: each input that exists is
    extracted in full and its text written to `<output dir>/<stem>.txt`;
    a missing input, a failed extraction or an empty text writes nothing and
    the batch goes on with the next input. */
module Batch {
  import opened Wrappers
  import opened Pdf
  import opened Extraction
  import opened Paths
  import opened Selection

  /** One call of save_text: the file written and the text written to it. */
  datatype Write = Write(path: string, text: string)

  /** The file system as the batch sees it: a path exists exactly when it is
      a key, and opening it yields the value. */
  type FileSystem = map<string, PdfFile>

  /** What processing one input writes: nothing when it does not exist, when
      extraction fails, or when the text is empty (falsy). */
  function FileWrites(fs: FileSystem, outputDir: string, password: Option<string>, path: string): (writes: seq<Write>)
    ensures |writes| <= 1
  {
    if path !in fs then []
    else
      match Extracted(fs[path], None, None, password)
      case Ok(text) => if text != "" then [Write(OutputPath(outputDir, path), text)] else []
      case Err(_) => []
  }

  /** What processing `files` in order writes, once the output directory is
      there. Defined from the last input, which the loop processes last. */
  function BatchWrites(fs: FileSystem, outputDir: string, password: Option<string>, files: seq<string>): seq<Write> {
    if files == [] then []
    else BatchWrites(fs, outputDir, password, files[..|files| - 1]) + FileWrites(fs, outputDir, password, files[|files| - 1])
  }

  /** The batch loop. `dirReady` says whether the output directory exists or
      could be created; when it cannot, the batch stops before any input. */
  method ExtractMultiple(pdfFiles: seq<string>, fs: FileSystem, outputDir: string, dirReady: bool, password: Option<string>)
    returns (writes: seq<Write>)
    ensures writes == if dirReady then BatchWrites(fs, outputDir, password, pdfFiles) else []
  {
    writes := [];
    if !dirReady {
      return;
    }
    for i := 0 to |pdfFiles|
      invariant writes == BatchWrites(fs, outputDir, password, pdfFiles[..i])
    {
      var pdfPath := pdfFiles[i];
      assert pdfFiles[..i + 1][..i] == pdfFiles[..i];
      if pdfPath !in fs {
        // a missing input is reported and skipped
        continue;
      }
      var outputFile := OutputPath(outputDir, pdfPath);
      var text, _ := ExtractText(fs[pdfPath], None, None, password);
      if text.Ok? && text.value != "" {
        writes := writes + [Write(outputFile, text.value)];
      }
    }
    assert pdfFiles[..|pdfFiles|] == pdfFiles;
  }

  /** Inputs are processed independently: the writes of a list of inputs are
      those of its first part followed by those of the rest. */
  lemma {:induction false} BatchWritesAppend(fs: FileSystem, outputDir: string, password: Option<string>, a: seq<string>, b: seq<string>)
    ensures BatchWrites(fs, outputDir, password, a + b) ==
            BatchWrites(fs, outputDir, password, a) + BatchWrites(fs, outputDir, password, b)
    decreases |b|
  {
    if b == [] {
      assert a + b == a;
    } else {
      var b', last := b[..|b| - 1], b[|b| - 1];
      var ab := a + b;
      assert ab[..|ab| - 1] == a + b' && ab[|ab| - 1] == last;
      var x, y, z := BatchWrites(fs, outputDir, password, a), BatchWrites(fs, outputDir, password, b'),
                     FileWrites(fs, outputDir, password, last);
      assert BatchWrites(fs, outputDir, password, ab) == BatchWrites(fs, outputDir, password, a + b') + z;
      assert BatchWrites(fs, outputDir, password, b) == y + z;
      BatchWritesAppend(fs, outputDir, password, a, b');
      assert (x + y) + z == x + (y + z);
    }
  }

  /** An input writes nothing exactly when it is missing, its extraction
      fails, or its text is empty. */
  lemma FileWritesNothing(fs: FileSystem, outputDir: string, password: Option<string>, path: string)
    ensures FileWrites(fs, outputDir, password, path) == [] <==>
      path !in fs || Extracted(fs[path], None, None, password).Err? ||
      Extracted(fs[path], None, None, password) == Ok("")
  {
  }

  /** A skipped input (missing, failing, or with empty text) does not stop
      the batch: the inputs after it write exactly what they would have
      written without it. */
  lemma SkippedInputContinues(fs: FileSystem, outputDir: string, password: Option<string>,
                              before: seq<string>, path: string, after: seq<string>)
    requires path !in fs || Extracted(fs[path], None, None, password).Err? ||
             Extracted(fs[path], None, None, password) == Ok("")
    ensures BatchWrites(fs, outputDir, password, before + [path] + after) ==
            BatchWrites(fs, outputDir, password, before) + BatchWrites(fs, outputDir, password, after)
  {
    assert FileWrites(fs, outputDir, password, path) == [];
    assert (before + [path])[..|before|] == before;
    assert BatchWrites(fs, outputDir, password, before + [path]) == BatchWrites(fs, outputDir, password, before);
    BatchWritesAppend(fs, outputDir, password, before + [path], after);
  }

  /** Exactly the inputs that exist and yield a non-empty text are written,
      each to its output path and with its whole extracted text. */
  lemma {:induction false} BatchWritesMembers(fs: FileSystem, outputDir: string, password: Option<string>,
                                              files: seq<string>, w: Write)
    ensures w in BatchWrites(fs, outputDir, password, files) <==>
      exists path :: path in files && path in fs && w.text != "" &&
        Extracted(fs[path], None, None, password) == Ok(w.text) && w.path == OutputPath(outputDir, path)
  {
    if files != [] {
      var front, last := files[..|files| - 1], files[|files| - 1];
      BatchWritesMembers(fs, outputDir, password, front, w);
      assert forall path :: path in files <==> path in front || path == last;
    }
  }

  /** At most one output file per input. */
  lemma {:induction false} BatchWritesCount(fs: FileSystem, outputDir: string, password: Option<string>, files: seq<string>)
    ensures |BatchWrites(fs, outputDir, password, files)| <= |files|
  {
    if files != [] {
      BatchWritesCount(fs, outputDir, password, files[..|files| - 1]);
    }
  }

  /** A directory as the batch sees it: its listing, and a walk of the tree
      below it. */
  datatype Directory = Directory(listing: seq<Entry>, walk: seq<WalkStep>)

  /** The inputs of the batch command for argument `arg`: when `arg` is a
      directory, its `.pdf` entries (None, and no batch, when there are
      none); otherwise the whitespace-separated words of `arg`. */
  function BatchInputs(arg: string, directory: Option<Directory>, recursive: bool): (inputs: Option<seq<string>>)
    ensures directory.None? ==> inputs == Some(Split(arg))
    ensures directory.Some? ==>
      var found := if recursive then WalkedPdfs(directory.value.walk) else ListedPdfs(arg, directory.value.listing);
      && (inputs.None? <==> found == [])
      && (inputs.Some? ==> inputs.value == found && found != [])
  {
    match directory
    case None => Some(Split(arg))
    case Some(d) =>
      var found := if recursive then WalkedPdfs(d.walk) else ListedPdfs(arg, d.listing);
      if found == [] then None else Some(found)
  }

  /** The batch command: select the inputs, then run the batch loop over them. */
  method RunBatch(arg: string, directory: Option<Directory>, recursive: bool, fs: FileSystem,
                  outputDir: string, dirReady: bool, password: Option<string>)
    returns (writes: seq<Write>)
    ensures writes == match BatchInputs(arg, directory, recursive)
      case None => []
      case Some(files) => if dirReady then BatchWrites(fs, outputDir, password, files) else []
  {
    var pdfFiles: seq<string>;
    if directory.Some? {
      if recursive {
        pdfFiles := CollectWalked(directory.value.walk);
      } else {
        pdfFiles := ListedPdfs(arg, directory.value.listing);
      }
      if pdfFiles == [] {
        // an empty selection is reported and the batch does not start
        return [];
      }
    } else {
      pdfFiles := Split(arg);
    }
    writes := ExtractMultiple(pdfFiles, fs, outputDir, dirReady, password);
  }
}
