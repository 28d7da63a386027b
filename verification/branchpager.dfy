/** The admin's per-branch order pager: choosing a branch shows its first
    five orders on page 1 of `ceil(n / 5)`, the previous and next buttons
    move one page, and each is disabled at its end of the range. */
module BranchPager {
  import opened Common
  import opened Paging

  /** The pager's state over orders of type `O`: the chosen branch's orders
      (`None` when no branch is chosen), the page on screen, the page count
      and current page, and the order opened in detail. */
  datatype Pager<O> = Pager(branch: Option<seq<O>>, shown: seq<O>, totalPages: int,
                            currentPage: int, selectedOrder: Option<O>)

  function Initial<O>(): (st: Pager<O>)
    ensures st.branch.None? && st.shown == [] && st.currentPage == 1 && st.totalPages == 0
  {
    Pager(None, [], 0, 1, None)
  }

  /** `handleBranchClick`. */
  function BranchClick<O>(st: Pager<O>, orders: seq<O>): (r: Pager<O>)
    ensures r.branch == Some(orders) && r.currentPage == 1 && r.selectedOrder.None?
    ensures r.shown == orders[..Min(PageSize, |orders|)]
    ensures r.totalPages * PageSize >= |orders| && (r.totalPages == 0 || (r.totalPages - 1) * PageSize < |orders|)
  {
    PageWindow(orders, 1);
    Pager(Some(orders), Page(orders, 1), TotalPages(|orders|), 1, None)
  }

  /** `changePage(p)`: shows page `p` of the chosen branch; without a chosen
      branch nothing changes. */
  function ChangePage<O>(st: Pager<O>, p: int): (r: Pager<O>)
    ensures st.branch.None? ==> r == st
    ensures st.branch.Some? ==> r == st.(shown := Page(st.branch.value, p), currentPage := p)
  {
    match st.branch
    case None => st
    case Some(orders) => st.(shown := Page(orders, p), currentPage := p)
  }

  /** The previous-page button is disabled exactly on page 1. */
  predicate PrevDisabled<O>(st: Pager<O>)
  {
    st.currentPage == 1
  }

  /** The next-page button as written: disabled exactly when the current
      page equals the page count. */
  predicate NextDisabled<O>(st: Pager<O>)
  {
    st.currentPage == st.totalPages
  }

  /** The state after choosing a branch and pressing "next" `k` times, each
      press allowed only while the button is enabled. */
  function NextPresses<O>(orders: seq<O>, k: nat, disabled: Pager<O> -> bool): Pager<O>
  {
    if k == 0 then BranchClick(Initial(), orders)
    else
      var st := NextPresses(orders, k - 1, disabled);
      if disabled(st) then st else ChangePage(st, st.currentPage + 1)
  }

  /** With orders present, pressing "next" walks through the pages one by
      one, every page shown is the matching window of the list, and the
      button disables itself on the last page. */
  lemma {:induction false} NextWalk<O>(orders: seq<O>, k: nat)
    requires |orders| > 0
    ensures var st := NextPresses(orders, k, NextDisabled);
            && st.branch == Some(orders)
            && st.totalPages == TotalPages(|orders|)
            && st.currentPage == Min(k + 1, TotalPages(|orders|))
            && st.shown == Page(orders, st.currentPage)
            && st.shown != []
            && (NextDisabled(st) <==> k + 1 >= TotalPages(|orders|))
  {
    PagesCover(orders);
    if k > 0 {
      NextWalk(orders, k - 1);
    }
  }

  /** With no orders the page count is 0, so "next" is never disabled and
      every press moves on to another empty page. */
  lemma {:induction false} NextNeverDisabledWhenEmpty<O>(orders: seq<O>, k: nat)
    requires orders == []
    ensures var st := NextPresses(orders, k, NextDisabled);
            && st.branch == Some(orders) && st.totalPages == 0 && st.currentPage == k + 1
            && st.shown == [] && !NextDisabled(st)
  {
    if k > 0 {
      NextNeverDisabledWhenEmpty(orders, k - 1);
    }
  }

  /** The evidently intended gate: "next" is disabled from the last page on,
      which also covers a branch with no orders. */
  predicate NextDisabledFixed<O>(st: Pager<O>)
  {
    st.currentPage >= st.totalPages
  }

  /** With the corrected gate, "next" never leaves page 1 for an empty
      branch and never goes past the last page otherwise, so no press ever
      lands on a page outside `1..max(1, ceil(n / 5))`. */
  lemma NextFixedStaysInRange<O>(orders: seq<O>, k: nat)
    ensures var st := NextPresses(orders, k, NextDisabledFixed);
            && st.branch == Some(orders)
            && st.totalPages == TotalPages(|orders|)
            && 1 <= st.currentPage
            && (|orders| == 0 ==> st.currentPage == 1)
            && (|orders| > 0 ==> st.currentPage == Min(k + 1, TotalPages(|orders|)))
            && st.shown == Page(orders, st.currentPage)
  {
    if |orders| == 0 {
      NextFixedEmpty(orders, k);
    } else {
      NextFixedWalk(orders, k);
    }
  }

  lemma {:induction false} NextFixedEmpty<O>(orders: seq<O>, k: nat)
    requires |orders| == 0
    ensures NextPresses(orders, k, NextDisabledFixed) == BranchClick(Initial(), orders)
  {
    if k > 0 {
      NextFixedEmpty(orders, k - 1);
    }
  }

  lemma {:induction false} NextFixedWalk<O>(orders: seq<O>, k: nat)
    requires |orders| > 0
    ensures var st := NextPresses(orders, k, NextDisabledFixed);
            && st.branch == Some(orders)
            && st.totalPages == TotalPages(|orders|)
            && st.currentPage == Min(k + 1, TotalPages(|orders|))
            && st.shown == Page(orders, st.currentPage)
  {
    if k > 0 {
      NextFixedWalk(orders, k - 1);
    }
  }
}
