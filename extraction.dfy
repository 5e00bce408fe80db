/** extract_text_from_pdf: open and decrypt, resolve the page range, then
    accumulate the text of every page in the range, skipping pages whose
    extraction fails. */
module Extraction {
  import opened Wrappers
  import opened Pdf
  import opened PageRange
  import opened Assembly

  /** The result the extraction promises for `file`: an error when the file
      cannot be opened or decrypted or the range is empty, otherwise the
      assembled text of the resolved range. */
  function Extracted(file: PdfFile, startPage: Option<int>, endPage: Option<int>, password: Option<string>)
    : (r: Result<string, ExtractError>)
    ensures Open(file, password).Err? ==> r == Err(Open(file, password).error)
    ensures r.Err? && Open(file, password).Ok? ==> r.error.InvalidRange?
    ensures Open(file, password).Ok? ==> (r.Ok? <==> Resolve(|file.doc.pages|, startPage, endPage).Ok?)
    ensures Open(file, password).Ok? && r.Err? ==> r.error == Resolve(|file.doc.pages|, startPage, endPage).error
  {
    match Open(file, password)
    case Err(e) => Err(e)
    case Ok(doc) =>
      match Resolve(|doc.pages|, startPage, endPage)
      case Err(e) => Err(e)
      case Ok(range) => Ok(Assemble(doc.pages, range.start - 1, range.end))
  }

  /** The extraction itself. `visited` logs the 0-based page indices whose
      extraction was attempted, in order: none when the file is refused, and
      otherwise every index of the resolved range exactly once, in order. */
  method ExtractText(file: PdfFile, startPage: Option<int>, endPage: Option<int>, password: Option<string>)
    returns (r: Result<string, ExtractError>, ghost visited: seq<int>)
    ensures r == Extracted(file, startPage, endPage, password)
    ensures r.Err? ==> visited == []
    ensures r.Ok? ==> file.Opened? && Resolve(|file.doc.pages|, startPage, endPage).Ok?
    ensures r.Ok? ==>
      var range := Resolve(|file.doc.pages|, startPage, endPage).value;
      |visited| == range.end - range.start + 1 &&
      forall i :: 0 <= i < |visited| ==> visited[i] == range.start - 1 + i
  {
    visited := [];
    var gate := Open(file, password);
    if gate.Err? {
      // not found, unreadable, or encrypted without a usable password:
      // reported, and no page is read
      return Err(gate.error), visited;
    }
    var doc := gate.value;
    var total := |doc.pages|;
    var start := if startPage.Some? then startPage.value else 1;
    var end := if endPage.Some? then endPage.value else total;
    if start < 1 {
      start := 1;
    }
    if end > total {
      end := total;
    }
    if start > end {
      return Err(InvalidRange(start, end)), visited;
    }
    assert Resolve(total, startPage, endPage) == Ok(Range(start, end));

    var text;
    text, visited := AssembleRange(doc.pages, start - 1, end);
    r := Ok(text);
  }

  /** The page loop: for every 0-based index in [lo, hi), in order, append
      the page's text and the separator, or skip the page when its
      extraction failed. */
  method AssembleRange(pages: seq<Option<string>>, lo: nat, hi: nat) returns (text: string, ghost visited: seq<int>)
    requires lo <= hi <= |pages|
    ensures text == Assemble(pages, lo, hi)
    ensures |visited| == hi - lo && forall i :: 0 <= i < |visited| ==> visited[i] == lo + i
  {
    text, visited := "", [];
    for pageNum := lo to hi
      invariant text == Assemble(pages, lo, pageNum)
      invariant |visited| == pageNum - lo
      invariant forall i :: 0 <= i < |visited| ==> visited[i] == lo + i
    {
      visited := visited + [pageNum];
      match pages[pageNum]
      case Some(pageText) =>
        text := text + (pageText + Separator());
      case None =>
        // extracting this page raised: report it and go on with the next
    }
  }

  /** A successful extraction opened the file, resolved the range, and
      returned the assembled text of that range. */
  lemma ExtractedSuccess(file: PdfFile, startPage: Option<int>, endPage: Option<int>, password: Option<string>)
    requires Extracted(file, startPage, endPage, password).Ok?
    ensures file.Opened? && Resolve(|file.doc.pages|, startPage, endPage).Ok?
    ensures
      var range := Resolve(|file.doc.pages|, startPage, endPage).value;
      Extracted(file, startPage, endPage, password).value == Assemble(file.doc.pages, range.start - 1, range.end)
  {
    assert Open(file, password).Ok?;
  }

  /** On success the text is the in-order concatenation, over the pages of
      the resolved range whose extraction succeeded, of the page text and a
      blank-line separator; its length is the sum of those texts' lengths
      plus two per page. */
  lemma ExtractedText(file: PdfFile, startPage: Option<int>, endPage: Option<int>, password: Option<string>)
    requires Extracted(file, startPage, endPage, password).Ok?
    ensures file.Opened? && Resolve(|file.doc.pages|, startPage, endPage).Ok?
    ensures
      var range := Resolve(|file.doc.pages|, startPage, endPage).value;
      var succeeded := Successes(file.doc.pages, range.start - 1, range.end);
      var text := Extracted(file, startPage, endPage, password).value;
      text == Joined(succeeded) && |text| == TotalLength(succeeded)
  {
    ExtractedSuccess(file, startPage, endPage, password);
    var pages := file.doc.pages;
    var range := Resolve(|pages|, startPage, endPage).value;
    var lo, hi := range.start - 1, range.end;
    var text, succeeded := Extracted(file, startPage, endPage, password).value, Successes(pages, lo, hi);
    assert text == Assemble(pages, lo, hi);
    AssembleIsJoinedSuccesses(pages, lo, hi);
    JoinedLength(succeeded);
    assert text == Joined(succeeded) && |text| == TotalLength(succeeded);
  }

  /** With no range given, an accepted document yields the text of all its
      pages; a document without pages is refused with the range (1, 0). */
  lemma WholeDocument(file: PdfFile, password: Option<string>)
    requires Open(file, password).Ok?
    ensures |file.doc.pages| == 0 ==> Extracted(file, None, None, password) == Err(InvalidRange(1, 0))
    ensures |file.doc.pages| > 0 ==>
      Extracted(file, None, None, password) == Ok(Assemble(file.doc.pages, 0, |file.doc.pages|))
  {
    DefaultsCoverDocument(|file.doc.pages|);
  }

  /** A successful extraction yields the empty text exactly when every page
      of the resolved range failed. */
  lemma EmptyTextIffAllPagesFail(file: PdfFile, startPage: Option<int>, endPage: Option<int>, password: Option<string>)
    requires Extracted(file, startPage, endPage, password).Ok?
    ensures file.Opened? && Resolve(|file.doc.pages|, startPage, endPage).Ok?
    ensures
      var range := Resolve(|file.doc.pages|, startPage, endPage).value;
      Extracted(file, startPage, endPage, password).value == "" <==>
        forall k :: range.start - 1 <= k < range.end ==> file.doc.pages[k].None?
  {
    ExtractedSuccess(file, startPage, endPage, password);
    var range := Resolve(|file.doc.pages|, startPage, endPage).value;
    AssembleEmptyIffAllFail(file.doc.pages, range.start - 1, range.end);
  }
}
