/** Resolution of the requested page range against the document's page count:
    defaults first, then clamping, then the only rejection (start after end). */
module PageRange {
  import opened Wrappers
  import opened Pdf

  /** A resolved, 1-based, inclusive page range. */
  datatype Range = Range(start: int, end: int)

  /** Page `page` lies within the requested bounds; an absent bound is no bound. */
  predicate Requested(page: int, startPage: Option<int>, endPage: Option<int>) {
    (startPage.None? || startPage.value <= page) && (endPage.None? || page <= endPage.value)
  }

  /** The requested range clamped to the document's `total` pages: an absent
      start is 1 and an absent end is `total`; the start is floored to 1 and
      the end capped at `total`; only a start after the end is refused. */
  function Resolve(total: nat, startPage: Option<int>, endPage: Option<int>): (r: Result<Range, ExtractError>)
    ensures r.Ok? ==> 1 <= r.value.start <= r.value.end <= total
    ensures r.Err? ==> r.error.InvalidRange? && r.error.start > r.error.end
    // the clamped bounds, carried by the range or by the error alike
    ensures var (s, e) := if r.Ok? then (r.value.start, r.value.end) else (r.error.start, r.error.end);
      && s == (if startPage.Some? && startPage.value >= 1 then startPage.value else 1)
      && e == (if endPage.Some? && endPage.value <= total then endPage.value else total)
  {
    var start := if startPage.Some? then startPage.value else 1;
    var end := if endPage.Some? then endPage.value else total;
    var start := if start < 1 then 1 else start;
    var end := if end > total then total else end;
    if start > end then
      Err(InvalidRange(start, end))
    else
      Ok(Range(start, end))
  }

  /** Clamp-then-validate means: the resolved range is exactly the set of
      document pages the request covers, and the request is refused exactly
      when it covers none of them. */
  lemma ResolveCoversRequest(total: nat, startPage: Option<int>, endPage: Option<int>)
    ensures var r := Resolve(total, startPage, endPage);
      && (r.Ok? <==> exists page :: 1 <= page <= total && Requested(page, startPage, endPage))
      && (r.Ok? ==> forall page :: r.value.start <= page <= r.value.end <==>
            1 <= page <= total && Requested(page, startPage, endPage))
  {
    var r := Resolve(total, startPage, endPage);
    if r.Ok? {
      assert Requested(r.value.start, startPage, endPage);
    }
  }

  /** With no bounds given, the whole document is the range. */
  lemma DefaultsCoverDocument(total: nat)
    ensures total >= 1 ==> Resolve(total, None, None) == Ok(Range(1, total))
    ensures total == 0 ==> Resolve(total, None, None) == Err(InvalidRange(1, 0))
  {
  }

  /** A start beyond the last page is refused even though the end is clamped:
      clamping never moves the start down. */
  lemma StartBeyondLastPage(total: nat, s: int, endPage: Option<int>)
    requires s > total
    ensures Resolve(total, Some(s), endPage).Err?
  {
  }
}
