/** The first crawler (`CNKICrawler`): one XPath per lookup, a row becomes a
    paper whenever it has a title link (even one with blank text), the date is
    the leftmost match of one alternation, and the crawl reads on past pages
    without papers for as long as the results table is there and the
    next-page link can be clicked. */
module Original {
  import opened Cascade
  import opened Text
  import opened Lists
  import opened Dom
  import opened Dates
  import opened Records
  import opened WebDriver
  import opened Paging

  // ---------------------------------------------------------------------------
  // Selectors

  const TitleLink: Locator := XPath(".//a[@class='fz14']")
  const AuthorLinks: Locator := XPath(".//a[contains(@href, 'author')]")
  const JournalLink: Locator := XPath(".//a[contains(@href, 'journal') or contains(@href, 'magazine')]")
  const CitationSpan: Locator := XPath(".//span[contains(text(), '被引')]")
  const DownloadSpan: Locator := XPath(".//span[contains(text(), '下载')]")
  const ResultRows: Locator := XPath("//table[@class='result-table-list']//tr[position()>1]")
  /** The element the crawl waits for before reading a page. */
  const ResultTable: Locator := ClassName("result-table-list")
  const NextButton: Locator := XPath("//a[contains(text(), '下页') or contains(text(), '下一页')]")

  // ---------------------------------------------------------------------------
  // One row

  /** The trimmed text of the element `loc` finds in `scope`; `""` when it
      finds none (the `NoSuchElementException` the optional fields swallow). */
  function TextAt(scope: Element, loc: Locator): string {
    match FindElement(scope, loc)
    case Some(e) => Strip(e.text)
    case None => ""
  }

  /** `_extract_paper_info`: a paper exactly when the row has a title link,
      whatever that link's text; the authors are the trimmed texts of every
      author link, blank ones included, joined with "; ". */
  function ExtractPaperInfo(row: Element): (r: Option<Paper>)
    ensures r.Some? <==> FindElement(row, TitleLink).Some?
    ensures r.Some? ==> r.value.title == Strip(FindElement(row, TitleLink).value.text)
  {
    match FindElement(row, TitleLink)
    case None => None
    case Some(link) =>
      Some(Paper(Strip(link.text), Join("; ", AllTexts(FindElements(row, AuthorLinks))),
                 TextAt(row, JournalLink), OriginalDate(row.text),
                 TextAt(row, CitationSpan), TextAt(row, DownloadSpan)))
  }

  /** What a paper's fields can hold: the title, journal, citation and
      download texts are trimmed (the joined authors need not be), the date
      is one of the five shapes and occurs in the row's text, and the authors
      are empty exactly when the row has no author link or one whose text is
      blank. */
  lemma ExtractedFieldsWellFormed(row: Element)
    requires ExtractPaperInfo(row).Some?
    ensures var p := ExtractPaperInfo(row).value;
      && p.title == Strip(p.title) && p.journal == Strip(p.journal)
      && p.citations == Strip(p.citations) && p.downloads == Strip(p.downloads)
      && (p.date == "" || (IsDate(p.date) && Contains(row.text, p.date)))
      && (p.authors == "" <==> var links := FindElements(row, AuthorLinks);
                               links == [] || (|links| == 1 && Strip(links[0].text) == ""))
  {
    StripIdempotent(FindElement(row, TitleLink).value.text);
    TextAtTrimmed(row, JournalLink);
    TextAtTrimmed(row, CitationSpan);
    TextAtTrimmed(row, DownloadSpan);
    OriginalDateFound(row.text);
    var texts := AllTexts(FindElements(row, AuthorLinks));
    assert texts == [] <==> FindElements(row, AuthorLinks) == [];
  }

  lemma TextAtTrimmed(scope: Element, loc: Locator)
    ensures TextAt(scope, loc) == Strip(TextAt(scope, loc))
  {
    if FindElement(scope, loc).Some? {
      StripIdempotent(FindElement(scope, loc).value.text);
    }
  }

  // ---------------------------------------------------------------------------
  // One page

  /** `_extract_papers_from_page` as a value: the papers of the rows that
      have a title link, in row order. */
  function Harvest(page: Element): seq<Paper> {
    Keep(FindElements(page, ResultRows), ExtractPaperInfo)
  }

  /** The harvest holds one paper per row with a title link, in row order,
      and nothing else. */
  lemma HarvestIsLinkedRows(page: Element)
    ensures var rows := FindElements(page, ResultRows);
      var idx := KeptIndices(rows, |rows|, ExtractPaperInfo);
      && |idx| == |Harvest(page)|
      && (forall k :: 0 <= k < |idx| ==> idx[k] < |rows| && FindElement(rows[idx[k]], TitleLink).Some?
                                           && ExtractPaperInfo(rows[idx[k]]) == Some(Harvest(page)[k]))
      && (forall k, l :: 0 <= k < l < |idx| ==> idx[k] < idx[l])
      && (forall i :: 0 <= i < |rows| && FindElement(rows[i], TitleLink).Some? ==> i in idx)
  {
    var rows := FindElements(page, ResultRows);
    var idx := KeptIndices(rows, |rows|, ExtractPaperInfo);
    forall k | 0 <= k < |idx| ensures FindElement(rows[idx[k]], TitleLink).Some? {
      assert ExtractPaperInfo(rows[idx[k]]).Some?;
    }
  }

  /** `_extract_papers_from_page`. */
  method ExtractPapersFromPage(driver: Browser) returns (papers: seq<Paper>)
    ensures papers == Harvest(driver.Page())
  {
    var items := FindElements(driver.Page(), ResultRows);
    papers := KeepEach(items, ExtractPaperInfo);
  }

  // ---------------------------------------------------------------------------
  // Turning the page

  /** Whether `_go_to_next_page` clicks: there is a next-page link and its
      class does not mention "disabled" (the `disabled` attribute is not
      looked at). */
  predicate Moves(page: Element) {
    match FindElement(page, NextButton)
    case None => false
    case Some(button) => !Contains(button.cls, "disabled")
  }

  /** `_go_to_next_page`. */
  method GoToNextPage(driver: Browser) returns (moved: bool)
    modifies driver
    ensures moved == Moves(old(driver.Page()))
    ensures driver.pages == old(driver.pages)
    ensures driver.current == if moved then old(driver.current) + 1 else old(driver.current)
  {
    var button := FindElement(driver.Page(), NextButton);
    if button.None? {
      return false;
    }
    if Contains(button.value.cls, "disabled") {
      return false;
    }
    driver.Click();
    return true;
  }

  // ---------------------------------------------------------------------------
  // The crawl

  /** The results table is on the page. */
  predicate HasResultTable(page: Element) {
    FindElement(page, ResultTable).Some?
  }

  /** The crawl from page `cur` with `budget` pages left, reading each page
      with `harvest` and getting past exactly the pages `moves` accepts: stop
      if the results table is missing; otherwise keep the page's papers, even
      none, try to move on, and stop if that fails.  It stops on a page at
      most `budget` clicks on. */
  function CrawlBy(pages: seq<Element>, cur: nat, budget: nat,
                   harvest: Element -> seq<Paper>, moves: Element -> bool): (r: Run)
    ensures cur <= r.end <= cur + budget
    decreases budget
  {
    if budget == 0 || !HasResultTable(PageAt(pages, cur)) then Run([], cur)
    else
      var found := harvest(PageAt(pages, cur));
      if !moves(PageAt(pages, cur)) then Run(found, cur)
      else
        var rest := CrawlBy(pages, cur + 1, budget - 1, harvest, moves);
        Run(found + rest.papers, rest.end)
  }

  /** Without a budget, or without the results table on its first page, the
      crawl returns nothing. */
  lemma CrawlNeedsTable(pages: seq<Element>, cur: nat, budget: nat,
                        harvest: Element -> seq<Paper>, moves: Element -> bool)
    requires budget == 0 || !HasResultTable(PageAt(pages, cur))
    ensures CrawlBy(pages, cur, budget, harvest, moves) == Run([], cur)
  {
  }

  /** The crawl from `cur` read on past the `k` pages from there, each
      showing the results table and left by the paginator, whether or not it
      had papers, and then stopped with result `r`: with the budget spent (on
      the page after the last one read), on a page without the results
      table, or on a page whose papers it kept but which the paginator could
      not leave. */
  predicate StoppedAfter(pages: seq<Element>, cur: nat, budget: nat,
                         harvest: Element -> seq<Paper>, moves: Element -> bool, k: nat, r: Run)
  {
    && k <= budget
    && (forall p :: p in PagesFrom(pages, cur, k) ==> HasResultTable(p) && moves(p))
    && (|| (k == budget && r == Run(Flatten(Harvests(pages, cur, k, harvest)), cur + k))
        || (k < budget && !HasResultTable(PageAt(pages, cur + k))
            && r == Run(Flatten(Harvests(pages, cur, k, harvest)), cur + k))
        || (k < budget && HasResultTable(PageAt(pages, cur + k)) && !moves(PageAt(pages, cur + k))
            && r == Run(Flatten(Harvests(pages, cur, k + 1, harvest)), cur + k)))
  }

  /** A crawl that cannot get past its first page stops there, having read
      on past no page. */
  lemma CrawlStopsAtOnce(pages: seq<Element>, cur: nat, budget: nat,
                         harvest: Element -> seq<Paper>, moves: Element -> bool)
    requires budget == 0 || !HasResultTable(PageAt(pages, cur)) || !moves(PageAt(pages, cur))
    ensures StoppedAfter(pages, cur, budget, harvest, moves, 0, CrawlBy(pages, cur, budget, harvest, moves))
  {
    var found := harvest(PageAt(pages, cur));
    assert PagesFrom(pages, cur, 0) == [];
    assert Flatten(Harvests(pages, cur, 0, harvest)) == [];
    if budget > 0 && HasResultTable(PageAt(pages, cur)) {
      var hs := Harvests(pages, cur, 1, harvest);
      assert hs[0] == found && hs[1..] == [];
      assert Flatten(hs) == found;
    }
  }

  /** Reading on past page `cur` adds its papers in front of those of the
      crawl from the next page, and one page to the count read on. */
  lemma StoppedAfterStep(pages: seq<Element>, cur: nat, budget: nat,
                         harvest: Element -> seq<Paper>, moves: Element -> bool, k: nat, rest: Run)
    requires budget > 0 && HasResultTable(PageAt(pages, cur)) && moves(PageAt(pages, cur))
    requires StoppedAfter(pages, cur + 1, budget - 1, harvest, moves, k, rest)
    ensures StoppedAfter(pages, cur, budget, harvest, moves, k + 1, Run(harvest(PageAt(pages, cur)) + rest.papers, rest.end))
  {
    var found := harvest(PageAt(pages, cur));
    HarvestsCons(pages, cur, k, harvest);
    HarvestsCons(pages, cur, k + 1, harvest);
    PagesFromCons(pages, cur, k);
    var tail := Harvests(pages, cur + 1, k, harvest);
    var longer := Harvests(pages, cur + 1, k + 1, harvest);
    assert ([found] + tail)[1..] == tail;
    assert ([found] + longer)[1..] == longer;
    assert cur + 1 + k == cur + (k + 1);
  }

  /** Every crawl reads on, empty pages included, for as long as the results
      table shows, the paginator moves and the budget lasts, and stops at the
      first page where one of these fails, returning the papers of the pages
      read in page order. */
  lemma {:induction false} CrawlOutcome(pages: seq<Element>, cur: nat, budget: nat,
                                        harvest: Element -> seq<Paper>, moves: Element -> bool)
    ensures exists k :: StoppedAfter(pages, cur, budget, harvest, moves, k, CrawlBy(pages, cur, budget, harvest, moves))
    decreases budget
  {
    var r := CrawlBy(pages, cur, budget, harvest, moves);
    var found := harvest(PageAt(pages, cur));
    if budget == 0 || !HasResultTable(PageAt(pages, cur)) || !moves(PageAt(pages, cur)) {
      CrawlStopsAtOnce(pages, cur, budget, harvest, moves);
    } else {
      CrawlOutcome(pages, cur + 1, budget - 1, harvest, moves);
      var rest := CrawlBy(pages, cur + 1, budget - 1, harvest, moves);
      var k: nat :| StoppedAfter(pages, cur + 1, budget - 1, harvest, moves, k, rest);
      StoppedAfterStep(pages, cur, budget, harvest, moves, k, rest);
      assert r == Run(found + rest.papers, rest.end);
    }
  }

  /** `_crawl_search_results`, with the page reader and the paginator's
      decision as parameters (`Harvest` and `Moves` are what
      `ExtractPapersFromPage` and `GoToNextPage` compute): waiting for the
      results table, a page without one ends the crawl, which returns the
      papers of the pages read so far. */
  method CrawlSearchResults(driver: Browser, maxPages: int,
                            harvest: Element -> seq<Paper>, moves: Element -> bool) returns (papers: seq<Paper>)
    modifies driver
    ensures driver.pages == old(driver.pages)
    ensures Run(papers, driver.current) == CrawlBy(old(driver.pages), old(driver.current), Budget(maxPages), harvest, moves)
  {
    papers := [];
    var currentPage := 1;
    ghost var pages, total := driver.pages, CrawlBy(driver.pages, driver.current, Budget(maxPages), harvest, moves);
    ghost var left: nat := Budget(maxPages);
    while currentPage <= maxPages
      invariant driver.pages == pages
      invariant 1 <= currentPage && left == Budget(maxPages) - (currentPage - 1)
      invariant total == var rest := CrawlBy(pages, driver.current, left, harvest, moves);
                         Run(papers + rest.papers, rest.end)
      decreases maxPages - currentPage
    {
      var page := driver.Page();
      if !HasResultTable(page) {
        break;
      }
      var pagePapers := harvest(page);
      ghost var before := papers;
      papers := papers + pagePapers;
      if !moves(page) {
        break;
      }
      driver.Click();
      ghost var rest := CrawlBy(pages, driver.current, left - 1, harvest, moves);
      assert before + (pagePapers + rest.papers) == papers + rest.papers;
      currentPage, left := currentPage + 1, left - 1;
    }
  }
}
