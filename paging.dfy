/** What the two crawlers' page loops share: the page budget `max_pages`
    grants, the result of a crawl, and the per-page harvests a crawl
    concatenates. */
module Paging {
  import opened Dom
  import opened Records

  /** What a crawl produced: the papers, and the index of the page on screen
      when it stopped. */
  datatype Run = Run(papers: seq<Paper>, end: nat)

  /** The number of pages the `while current_page <= max_pages` loop allows:
      `current_page` runs from 1, so none when `max_pages` is not positive. */
  function Budget(maxPages: int): (b: nat)
    ensures maxPages <= 0 ==> b == 0
    ensures maxPages > 0 ==> b == maxPages
  {
    if maxPages <= 0 then 0 else maxPages
  }

  /** What `harvest` reads on `n` consecutive pages starting at `cur`. */
  function Harvests(pages: seq<Element>, cur: nat, n: nat, harvest: Element -> seq<Paper>): (hs: seq<seq<Paper>>)
    ensures |hs| == n
    ensures forall i :: 0 <= i < n ==> hs[i] == harvest(PageAt(pages, cur + i))
  {
    seq(n, i requires 0 <= i < n => harvest(PageAt(pages, cur + i)))
  }

  /** The harvests of `n + 1` pages are the first page's followed by those of
      the `n` pages after it. */
  lemma HarvestsCons(pages: seq<Element>, cur: nat, n: nat, harvest: Element -> seq<Paper>)
    ensures Harvests(pages, cur, n + 1, harvest) == [harvest(PageAt(pages, cur))] + Harvests(pages, cur + 1, n, harvest)
  {
    var hs := Harvests(pages, cur, n + 1, harvest);
    var tail := Harvests(pages, cur + 1, n, harvest);
    forall i | 1 <= i < n + 1 ensures hs[i] == tail[i - 1] {
      assert cur + i == (cur + 1) + (i - 1);
    }
  }

  /** The `n` pages from `cur` on. */
  function PagesFrom(pages: seq<Element>, cur: nat, n: nat): (ps: seq<Element>)
    ensures |ps| == n && forall i :: 0 <= i < n ==> ps[i] == PageAt(pages, cur + i)
  {
    seq(n, i requires 0 <= i < n => PageAt(pages, cur + i))
  }

  lemma PagesFromCons(pages: seq<Element>, cur: nat, n: nat)
    ensures PagesFrom(pages, cur, n + 1) == [PageAt(pages, cur)] + PagesFrom(pages, cur + 1, n)
  {
    var ps := PagesFrom(pages, cur, n + 1);
    var tail := PagesFrom(pages, cur + 1, n);
    forall i | 1 <= i < n + 1 ensures ps[i] == tail[i - 1] {
      assert cur + i == (cur + 1) + (i - 1);
    }
  }
}
