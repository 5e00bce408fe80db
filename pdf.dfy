/** The PDF library as the program sees it. Parsing, decryption and per-page
    text extraction belong to the library; their outcomes are inputs here. */
module Pdf {
  import opened Wrappers

  /** Document information dictionary. Each attribute is `None` when the
      library does not provide it or provides it as None; dates are given
      already rendered as "YYYY-MM-DD HH:MM:SS" (the formatting is the
      library's). */
  datatype DocInfo = DocInfo(
    title: Option<string>,
    author: Option<string>,
    subject: Option<string>,
    creator: Option<string>,
    producer: Option<string>,
    creationDate: Option<string>,
    modificationDate: Option<string>)

  /** An opened document. `rejects` holds the passwords on which the
      library's decrypt raises; `pages` holds, per page, the extracted text,
      or None when extracting that page raises; `info` is None when the
      document has no information dictionary or an empty (falsy) one. */
  datatype PdfDoc = PdfDoc(
    encrypted: bool,
    rejects: set<string>,
    pages: seq<Option<string>>,
    info: Option<DocInfo>)

  /** What opening a path yields. */
  datatype PdfFile =
    | Missing            // opening raises FileNotFoundError
    | Unreadable         // opening or reading the document raises anything else
    | Opened(doc: PdfDoc)

  /** Why an operation on one file produced nothing. */
  datatype ExtractError =
    | FileNotFound
    | OpenFailed
    | PasswordRequired
    | IncorrectPassword
    | InvalidRange(start: int, end: int)

  /** Python truthiness of the optional password: present and non-empty. */
  predicate Truthy(password: Option<string>) {
    password.Some? && password.value != ""
  }

  /** The checks made before any page is read: the file must open, and an
      encrypted document needs a truthy password on which decrypt does not
      raise. An unencrypted document ignores the password. */
  function Open(file: PdfFile, password: Option<string>): (r: Result<PdfDoc, ExtractError>)
    ensures r.Ok? <==>
      file.Opened? && (file.doc.encrypted ==> Truthy(password) && password.value !in file.doc.rejects)
    ensures r.Ok? ==> r.value == file.doc
    ensures r == Err(PasswordRequired) <==> file.Opened? && file.doc.encrypted && !Truthy(password)
    ensures r == Err(IncorrectPassword) <==>
      file.Opened? && file.doc.encrypted && Truthy(password) && password.value in file.doc.rejects
    ensures file.Missing? <==> r == Err(FileNotFound)
    ensures file.Unreadable? <==> r == Err(OpenFailed)
  {
    match file
    case Missing => Err(FileNotFound)
    case Unreadable => Err(OpenFailed)
    case Opened(doc) =>
      if doc.encrypted then
        if Truthy(password) then
          if password.value in doc.rejects then Err(IncorrectPassword) else Ok(doc)
        else
          Err(PasswordRequired)
      else
        Ok(doc)
  }
}
