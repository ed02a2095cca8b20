/**
  The paging state of the metric tag value selector. Each "scrolled to the
  bottom of the menu" event asks for the next page while more pages are
  believed to exist; the fetch is then re-issued with the state's page and
  limit. Nothing ever clears `hasMore`, so in every reachable state the
  guard holds and each event advances the page.
 */
module Pagination {

  /** The page to fetch next, how many tags a page holds, and whether more
      pages are believed to exist. */
  datatype PaginationState = PaginationState(page: nat, limit: nat, hasMore: bool)

  /** The state the selector starts from. */
  const Initial: PaginationState := PaginationState(0, 20, true)

  /** The menu was scrolled to its bottom: move to the next page when more
      pages are believed to exist, otherwise keep the state as it is. */
  function ScrollToBottom(p: PaginationState): (q: PaginationState)
    ensures q.limit == p.limit && q.hasMore == p.hasMore
    ensures p.hasMore <==> q.page == p.page + 1
    ensures !p.hasMore <==> q == p
  {
    if p.hasMore then p.(page := p.page + 1) else p
  }

  /** The state after `n` scroll-to-bottom events starting from `p`. */
  function ScrollTimes(p: PaginationState, n: nat): PaginationState {
    if n == 0 then p else ScrollToBottom(ScrollTimes(p, n - 1))
  }

  /** `n` events advance the page by `n` while `hasMore` holds, and change
      nothing once it does not; `limit` and `hasMore` never change. */
  lemma {:induction false} ScrollTimesEffect(p: PaginationState, n: nat)
    ensures ScrollTimes(p, n) == if p.hasMore then p.(page := p.page + n) else p
  {
    if n > 0 {
      ScrollTimesEffect(p, n - 1);
    }
  }

  /** From the initial state, `n` events give page `n`, the limit 20 and a
      `hasMore` that is still set. */
  lemma {:induction false} ScrollFromInitial(n: nat)
    ensures ScrollTimes(Initial, n) == PaginationState(n, 20, true)
  {
    if n > 0 {
      ScrollFromInitial(n - 1);
    }
  }

  /** The page never decreases: later states ask for the same page or a
      later one. */
  lemma {:induction false} PageNeverDecreases(p: PaginationState, m: nat, n: nat)
    requires m <= n
    ensures ScrollTimes(p, m).page <= ScrollTimes(p, n).page
    decreases n - m
  {
    if m < n {
      PageNeverDecreases(p, m, n - 1);
    }
  }

  /** Every state reachable from the initial one still believes more pages
      exist, so the guard of the scroll handler never blocks an advance. */
  lemma {:induction false} HasMoreNeverCleared(n: nat)
    ensures ScrollTimes(Initial, n).hasMore
    ensures ScrollToBottom(ScrollTimes(Initial, n)).page == ScrollTimes(Initial, n).page + 1
  {
    ScrollFromInitial(n);
  }
}
