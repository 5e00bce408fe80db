/** How the text of a page range is put together from per-page outcomes:
    each page whose extraction succeeded contributes its text followed by a
    blank-line separator; a page whose extraction raised contributes nothing. */
module Assembly {
  import opened Wrappers

  /** The blank-line separator that follows every page text. */
  function Separator(): string { "\n\n" }

  /** What one page adds to the text. */
  function Contribution(page: Option<string>): string {
    match page
    case Some(t) => t + Separator()
    case None => ""
  }

  /** The text accumulated by walking the pages with 0-based indices
      lo .. hi-1 in order, as the extraction loop does: defined from the last
      page, which the loop appends last. */
  function Assemble(pages: seq<Option<string>>, lo: nat, hi: nat): string
    requires lo <= hi <= |pages|
    decreases hi - lo
  {
    if lo == hi then "" else Assemble(pages, lo, hi - 1) + Contribution(pages[hi - 1])
  }

  /** The texts of the pages lo .. hi-1 whose extraction succeeded, in page order. */
  function Successes(pages: seq<Option<string>>, lo: nat, hi: nat): (texts: seq<string>)
    requires lo <= hi <= |pages|
    ensures |texts| <= hi - lo
    decreases hi - lo
  {
    if lo == hi then []
    else
      var rest := Successes(pages, lo + 1, hi);
      match pages[lo]
      case Some(t) => [t] + rest
      case None => rest
  }

  /** A text is kept exactly when some page of the range succeeded with it. */
  lemma {:induction false} SuccessesMembers(pages: seq<Option<string>>, lo: nat, hi: nat, t: string)
    requires lo <= hi <= |pages|
    ensures t in Successes(pages, lo, hi) <==> exists k :: lo <= k < hi && pages[k] == Some(t)
    decreases hi - lo
  {
    if lo < hi {
      SuccessesMembers(pages, lo + 1, hi, t);
      if pages[lo] == Some(t) {
        assert Successes(pages, lo, hi) == [t] + Successes(pages, lo + 1, hi);
      }
    }
  }

  /** Each text followed by the separator, concatenated in order. */
  function Joined(texts: seq<string>): string {
    if texts == [] then "" else texts[0] + Separator() + Joined(texts[1..])
  }

  /** The sum over `texts` of each length plus the separator's. */
  function TotalLength(texts: seq<string>): nat {
    if texts == [] then 0 else |texts[0]| + |Separator()| + TotalLength(texts[1..])
  }

  /** Assembling is compositional: the text of a range split in two is the
      text of the first part followed by the text of the second. */
  lemma {:induction false} AssembleSplit(pages: seq<Option<string>>, lo: nat, mid: nat, hi: nat)
    requires lo <= mid <= hi <= |pages|
    ensures Assemble(pages, lo, hi) == Assemble(pages, lo, mid) + Assemble(pages, mid, hi)
    decreases hi - mid
  {
    if mid == hi {
      assert Assemble(pages, mid, hi) == "";
    } else {
      AssembleSplit(pages, lo, mid, hi - 1);
      var x, y, z := Assemble(pages, lo, mid), Assemble(pages, mid, hi - 1), Contribution(pages[hi - 1]);
      assert (x + y) + z == x + (y + z);
    }
  }

  /** The text of a non-empty range is its first page's contribution
      followed by the text of the rest. */
  lemma AssembleFirst(pages: seq<Option<string>>, lo: nat, hi: nat)
    requires lo < hi <= |pages|
    ensures Assemble(pages, lo, hi) == Contribution(pages[lo]) + Assemble(pages, lo + 1, hi)
  {
    AssembleSplit(pages, lo, lo + 1, hi);
    assert Assemble(pages, lo, lo + 1) == Contribution(pages[lo]);
  }

  lemma JoinedCons(t: string, rest: seq<string>)
    ensures Joined([t] + rest) == t + Separator() + Joined(rest)
  {
    var all := [t] + rest;
    assert all[0] == t && all[1..] == rest;
  }

  /** The loop's text is the in-order concatenation of `text + "\n\n"` over
      the pages that succeeded. */
  lemma {:induction false} AssembleIsJoinedSuccesses(pages: seq<Option<string>>, lo: nat, hi: nat)
    requires lo <= hi <= |pages|
    ensures Assemble(pages, lo, hi) == Joined(Successes(pages, lo, hi))
    decreases hi - lo
  {
    if lo < hi {
      AssembleFirst(pages, lo, hi);
      AssembleIsJoinedSuccesses(pages, lo + 1, hi);
      var rest := Successes(pages, lo + 1, hi);
      match pages[lo]
      case Some(t) =>
        assert Successes(pages, lo, hi) == [t] + rest;
        JoinedCons(t, rest);
      case None =>
        assert Successes(pages, lo, hi) == rest;
    }
  }

  lemma {:induction false} JoinedLength(texts: seq<string>)
    ensures |Joined(texts)| == TotalLength(texts)
    ensures TotalLength(texts) >= |Separator()| * |texts|
  {
    if texts != [] {
      JoinedLength(texts[1..]);
    }
  }

  /** The length of the text is the sum over successful pages of the page
      text's length plus two; with no successful page the text is empty. */
  lemma AssembleLength(pages: seq<Option<string>>, lo: nat, hi: nat)
    requires lo <= hi <= |pages|
    ensures |Assemble(pages, lo, hi)| == TotalLength(Successes(pages, lo, hi))
    ensures Assemble(pages, lo, hi) == "" <==> Successes(pages, lo, hi) == []
  {
    AssembleIsJoinedSuccesses(pages, lo, hi);
    JoinedLength(Successes(pages, lo, hi));
  }

  /** No page succeeded exactly when every page outcome is a failure. */
  lemma {:induction false} SuccessesEmpty(pages: seq<Option<string>>, lo: nat, hi: nat)
    requires lo <= hi <= |pages|
    ensures Successes(pages, lo, hi) == [] <==> forall k :: lo <= k < hi ==> pages[k].None?
    decreases hi - lo
  {
    if lo < hi {
      SuccessesEmpty(pages, lo + 1, hi);
    }
  }

  /** The assembled text is empty exactly when every page failed. */
  lemma AssembleEmptyIffAllFail(pages: seq<Option<string>>, lo: nat, hi: nat)
    requires lo <= hi <= |pages|
    ensures Assemble(pages, lo, hi) == "" <==> forall k :: lo <= k < hi ==> pages[k].None?
  {
    AssembleLength(pages, lo, hi);
    SuccessesEmpty(pages, lo, hi);
  }
}
