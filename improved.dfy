/** The improved crawler (`CNKICrawlerImproved`): every lookup tries an ordered
    list of selectors, a row becomes a paper only when a title is found, the
    date is chosen by shape priority, the crawl stops at the first page without
    papers, and the search tries a direct search URL before the portal's
    search form. */
module Improved {
  import opened Cascade
  import opened Text
  import opened Lists
  import opened Dom
  import opened Dates
  import opened Records
  import opened WebDriver
  import opened Paging

  // ---------------------------------------------------------------------------
  // Selectors, in the order the crawler tries them

  const TitleLinks: seq<Locator> := [
    Css("a.fz14"), Css(".title a"), Css(".literature-title a"),
    Css("h3 a"), Css("a[href*='detail']"), Css(".result-item-title a")]

  /** Looked up only when no title link has text. */
  const TitleHeading: Locator := Css(".title, h3, .literature-title")

  const AuthorLinks: seq<Locator> := [
    Css("a[href*='author']"), Css(".author a"), Css(".literature-author a"), Css("[data-author] a")]

  const JournalLinks: seq<Locator> := [
    Css("a[href*='journal']"), Css("a[href*='magazine']"), Css(".journal a"),
    Css(".source a"), Css(".literature-source a")]

  const CitationCells: seq<Locator> := [
    Css("*[class*='cite']"), Css("*[class*='引']"), Css(".citation-count")]

  const DownloadCells: seq<Locator> := [Css("*[class*='download']"), Css("*[class*='下载']")]

  /** A citation text mentions 引 or, lower-cased, "cite"; a download text
      mentions 下载 or, lower-cased, "download". */
  const CitationWord: Acceptance := Keyword("引", "cite")
  const DownloadWord: Acceptance := Keyword("下载", "download")

  const ResultRows: seq<Locator> := [
    Css(".result-table-list tr:not(:first-child)"), Css(".searchResult .result-item"),
    Css(".search-result .item"), Css(".literature-item"), Css("[data-index]")]

  const NextButtons: seq<Locator> := [
    Css("a[title*='下页']"), Css("a[title*='下一页']"), Css(".next-page"), Css(".page-next"),
    Css("a:contains('下页')"), Css("a:contains('下一页')"), Css("a:contains('>')")]

  const PageIndicator: Locator := Css(".current-page, .active")

  /** The element whose presence marks a page of search results. */
  const ResultsContainer: Locator := Css(".result-table-list, .searchResult, .search-result")

  const SearchBoxes: seq<Locator> := [
    Css("input[placeholder*='请输入检索词']"), Css("input[placeholder*='检索']"),
    Css(".search-input input"), Css("#searchText"), Css(".nav-search input")]

  const BaseUrl: string := "https://kns.cnki.net"

  // ---------------------------------------------------------------------------
  // One row

  /** The text of the heading the title falls back to, `""` without one. */
  function HeadingText(row: Element): (t: string)
    ensures FindElement(row, TitleHeading).None? ==> t == ""
    ensures FindElement(row, TitleHeading).Some? ==> t == Strip(FindElement(row, TitleHeading).value.text)
  {
    match FindElement(row, TitleHeading)
    case Some(e) => Strip(e.text)
    case None => ""
  }

  /** The title: the trimmed text of the first title link whose text is not
      blank; when there is none, the trimmed text of the first heading. */
  function Title(row: Element): string {
    var linked := CascadeText(row, TitleLinks, NonBlank);
    if linked != "" then linked else HeadingText(row)
  }

  /** Which element the title comes from, and that it is trimmed. */
  lemma TitleChoice(row: Element)
    ensures forall i :: FirstAccepting(row, TitleLinks, NonBlank, i) ==> Some(Title(row)) == AcceptedText(row, TitleLinks[i], NonBlank)
    ensures NoneAccepting(row, TitleLinks, NonBlank) ==> Title(row) == HeadingText(row)
    ensures Title(row) == Strip(Title(row))
  {
    CascadeTextChoice(row, TitleLinks, NonBlank);
    match FindElement(row, TitleHeading)
    case Some(e) => StripIdempotent(e.text);
    case None =>
  }

  /** The authors: the element list of the first author selector that finds
      any, its non-blank trimmed texts joined with "; " in document order.  A
      list of blank links still ends the search, with `""`. */
  function Authors(row: Element): string {
    Join("; ", NonBlankTexts(FirstNonEmptyList(row, AuthorLinks)))
  }

  /** Which element list the authors come from. */
  lemma AuthorsChoice(row: Element)
    ensures forall i :: 0 <= i < |AuthorLinks| && FindElements(row, AuthorLinks[i]) != []
                        && (forall j :: 0 <= j < i ==> FindElements(row, AuthorLinks[j]) == [])
                        ==> Authors(row) == Join("; ", NonBlankTexts(FindElements(row, AuthorLinks[i])))
    ensures (forall i :: 0 <= i < |AuthorLinks| ==> FindElements(row, AuthorLinks[i]) == []) ==> Authors(row) == ""
  {
    FirstNonEmptyListChoice(row, AuthorLinks);
  }

  /** The journal: the trimmed text of the first journal link whose text is
      not blank, `""` when there is none. */
  function Journal(row: Element): (j: string)
    ensures forall i :: FirstAccepting(row, JournalLinks, NonBlank, i) ==> Some(j) == AcceptedText(row, JournalLinks[i], NonBlank)
    ensures NoneAccepting(row, JournalLinks, NonBlank) ==> j == ""
    ensures j == Strip(j)
  {
    CascadeTextChoice(row, JournalLinks, NonBlank);
    CascadeText(row, JournalLinks, NonBlank)
  }

  /** The citation count: the trimmed text of the first citation cell whose
      text mentions the keyword, `""` when there is none. */
  function Citations(row: Element): (c: string)
    ensures forall i :: FirstAccepting(row, CitationCells, CitationWord, i) ==> Some(c) == AcceptedText(row, CitationCells[i], CitationWord)
    ensures NoneAccepting(row, CitationCells, CitationWord) ==> c == ""
    ensures c != "" ==> Accepts(CitationWord, c) && c == Strip(c)
  {
    CascadeTextChoice(row, CitationCells, CitationWord);
    CascadeText(row, CitationCells, CitationWord)
  }

  /** The download count: the trimmed text of the first download cell whose
      text mentions the keyword, `""` when there is none. */
  function Downloads(row: Element): (d: string)
    ensures forall i :: FirstAccepting(row, DownloadCells, DownloadWord, i) ==> Some(d) == AcceptedText(row, DownloadCells[i], DownloadWord)
    ensures NoneAccepting(row, DownloadCells, DownloadWord) ==> d == ""
    ensures d != "" ==> Accepts(DownloadWord, d) && d == Strip(d)
  {
    CascadeTextChoice(row, DownloadCells, DownloadWord);
    CascadeText(row, DownloadCells, DownloadWord)
  }

  /** `_extract_paper_info`: a paper exactly when a title was found, with
      every field it could not find left as `""`. */
  function ExtractPaperInfo(row: Element): (r: Option<Paper>)
    ensures r.Some? <==> Title(row) != ""
    ensures r.Some? ==> r.value.title == Title(row)
  {
    var title := Title(row);
    if title == "" then None
    else Some(Paper(title, Authors(row), Journal(row), ImprovedDate(row.text), Citations(row), Downloads(row)))
  }

  /** What a paper's fields can hold: a trimmed non-blank title; a date that
      is one of the five shapes and occurs in the row's text; a citation or
      download text that is trimmed and mentions its keyword; a journal that
      is trimmed. */
  lemma ExtractedFieldsWellFormed(row: Element)
    requires ExtractPaperInfo(row).Some?
    ensures var p := ExtractPaperInfo(row).value;
      && p.title != "" && p.title == Strip(p.title)
      && (p.date == "" || (IsDate(p.date) && Contains(row.text, p.date)))
      && (p.citations == "" || (Accepts(CitationWord, p.citations) && p.citations == Strip(p.citations)))
      && (p.downloads == "" || (Accepts(DownloadWord, p.downloads) && p.downloads == Strip(p.downloads)))
      && p.journal == Strip(p.journal)
  {
    TitleChoice(row);
    ImprovedDateFound(row.text);
    CascadeTextChoice(row, CitationCells, CitationWord);
    CascadeTextChoice(row, DownloadCells, DownloadWord);
    CascadeTextChoice(row, JournalLinks, NonBlank);
  }

  // ---------------------------------------------------------------------------
  // One page

  /** The rows of the page: those of the first row selector that finds any;
      strategies are never merged. */
  function Rows(page: Element): seq<Element> {
    FirstNonEmptyList(page, ResultRows)
  }

  /** `_extract_papers_from_page` as a value: the papers of the rows that have
      a title, in row order. */
  function Harvest(page: Element): seq<Paper> {
    Keep(Rows(page), ExtractPaperInfo)
  }

  /** The harvest keeps, in row order, exactly the rows whose extraction
      succeeds, and so is never longer than the row list. */
  lemma HarvestIsTitledRows(page: Element)
    ensures |Harvest(page)| <= |Rows(page)|
    ensures forall k :: 0 <= k < |Harvest(page)| ==> Harvest(page)[k].title != ""
    ensures var idx := KeptIndices(Rows(page), |Rows(page)|, ExtractPaperInfo);
      && |idx| == |Harvest(page)|
      && (forall k :: 0 <= k < |idx| ==> idx[k] < |Rows(page)| && ExtractPaperInfo(Rows(page)[idx[k]]) == Some(Harvest(page)[k]))
      && (forall k, l :: 0 <= k < l < |idx| ==> idx[k] < idx[l])
      && (forall i :: 0 <= i < |Rows(page)| && Title(Rows(page)[i]) != "" ==> i in idx)
  {
    var rows := Rows(page);
    var idx := KeptIndices(rows, |rows|, ExtractPaperInfo);
    forall k | 0 <= k < |Harvest(page)| ensures Harvest(page)[k].title != "" {
      assert ExtractPaperInfo(rows[idx[k]]) == Some(Harvest(page)[k]);
    }
  }

  /** `_extract_papers_from_page`: find the rows with the first row selector
      that finds any, then extract each row in order, keeping the papers. */
  method ExtractPapersFromPage(driver: Browser) returns (papers: seq<Paper>)
    ensures papers == Harvest(driver.Page())
  {
    var page := driver.Page();
    var items: seq<Element> := [];
    var k := 0;
    while k < |ResultRows|
      invariant 0 <= k <= |ResultRows|
      invariant items == []
      invariant forall j :: 0 <= j < k ==> FindElements(page, ResultRows[j]) == []
    {
      items := FindElements(page, ResultRows[k]);
      if items != [] {
        break;
      }
      k := k + 1;
    }
    FirstNonEmptyListChoice(page, ResultRows);
    papers := KeepEach(items, ExtractPaperInfo);
  }

  // ---------------------------------------------------------------------------
  // Turning the page

  /** A next-page candidate is skipped when its class mentions "disabled" or
      its `disabled` attribute is set. */
  predicate Enabled(e: Element) {
    !(Contains(e.cls, "disabled") || e.disabled)
  }

  /** The candidate `loc` finds, when there is one and it is enabled. */
  function EnabledAt(page: Element, loc: Locator): (r: Option<Element>)
    ensures r.Some? <==> FindElement(page, loc).Some? && Enabled(FindElement(page, loc).value)
  {
    match FindElement(page, loc)
    case Some(e) => if Enabled(e) then Some(e) else None
    case None => None
  }

  /** How the paginator moves on: clicking the next-page candidate at an
      index, clicking the link for a page number, or not at all. */
  datatype Advance = ClickCandidate(index: nat) | ClickPageLink(number: int) | Stay

  /** The page-number link the fallback clicks: one past the number the
      current-page indicator shows. */
  function NextPageLink(page: Element): (n: Option<int>)
    ensures n.Some? ==> FindElement(page, PageIndicator).Some?
                        && ParseInt(FindElement(page, PageIndicator).value.text) == Some(n.value - 1)
                        && FindElement(page, LinkText(IntToDecimal(n.value))).Some?
    ensures n.None? ==> || FindElement(page, PageIndicator).None?
                        || ParseInt(FindElement(page, PageIndicator).value.text).None?
                        || FindElement(page, LinkText(IntToDecimal(ParseInt(FindElement(page, PageIndicator).value.text).value + 1))).None?
  {
    match FindElement(page, PageIndicator)
    case None => None
    case Some(indicator) =>
      match ParseInt(indicator.text)
      case None => None
      case Some(shown) =>
        if FindElement(page, LinkText(IntToDecimal(shown + 1))).Some? then Some(shown + 1) else None
  }

  /** `_go_to_next_page` as a value: the first enabled candidate; failing
      that, the next page-number link; failing that, nothing. */
  function NextStep(page: Element): (s: Advance)
    ensures s.ClickCandidate? ==> s.index < |NextButtons| && EnabledAt(page, NextButtons[s.index]).Some?
                                  && forall j :: 0 <= j < s.index ==> EnabledAt(page, NextButtons[j]).None?
    ensures !s.ClickCandidate? ==> forall j :: 0 <= j < |NextButtons| ==> EnabledAt(page, NextButtons[j]).None?
    ensures s.ClickPageLink? ==> NextPageLink(page) == Some(s.number)
    ensures s.Stay? ==> NextPageLink(page).None?
  {
    match FirstHit(NextButtons, loc => EnabledAt(page, loc), 0)
    case Some(h) => ClickCandidate(h.index)
    case None =>
      match NextPageLink(page)
      case Some(n) => ClickPageLink(n)
      case None => Stay
  }

  /** With no enabled candidate, a page whose indicator reads `str(n)` moves
      on through the link labelled `str(n + 1)`, whenever that link exists. */
  lemma PageLinkFollowsIndicator(page: Element, n: int)
    requires forall j :: 0 <= j < |NextButtons| ==> EnabledAt(page, NextButtons[j]).None?
    requires FindElement(page, PageIndicator).Some? && FindElement(page, PageIndicator).value.text == IntToDecimal(n)
    requires FindElement(page, LinkText(IntToDecimal(n + 1))).Some?
    ensures NextStep(page) == ClickPageLink(n + 1)
  {
    ParseIntRoundTrip(n);
  }

  /** The fallback of `_go_to_next_page`: read the page number the
      indicator shows and click the link labelled with the next one. */
  method FollowPageLink(driver: Browser) returns (moved: bool)
    modifies driver
    ensures moved == NextPageLink(old(driver.Page())).Some?
    ensures driver.pages == old(driver.pages)
    ensures driver.current == if moved then old(driver.current) + 1 else old(driver.current)
  {
    var page := driver.Page();
    var indicator := FindElement(page, PageIndicator);
    if indicator.None? {
      return false;
    }
    var shown := ParseInt(indicator.value.text);
    if shown.None? {
      return false;
    }
    var link := FindElement(page, LinkText(IntToDecimal(shown.value + 1)));
    if link.None? {
      return false;
    }
    driver.Click();
    return true;
  }

  /** `_go_to_next_page`: click the first enabled next-page candidate;
      failing that, follow the page-number link. */
  method GoToNextPage(driver: Browser) returns (moved: bool)
    modifies driver
    ensures moved == Moves(old(driver.Page()))
    ensures driver.pages == old(driver.pages)
    ensures driver.current == if moved then old(driver.current) + 1 else old(driver.current)
  {
    var page := driver.Page();
    var k := 0;
    while k < |NextButtons|
      invariant 0 <= k <= |NextButtons|
      invariant forall j :: 0 <= j < k ==> EnabledAt(page, NextButtons[j]).None?
    {
      var candidate := FindElement(page, NextButtons[k]);
      if candidate.Some? && Enabled(candidate.value) {
        driver.Click();
        return true;
      }
      k := k + 1;
    }
    moved := FollowPageLink(driver);
  }

  /** Whether the paginator gets past `page`. */
  predicate Moves(page: Element) {
    !NextStep(page).Stay?
  }

  // ---------------------------------------------------------------------------
  // The crawl

  /** The crawl from page `cur` with `budget` pages left, reading each page
      with `harvest` and getting past exactly the pages `moves` accepts: read
      the page; stop if it has no papers; otherwise keep them, try to move
      on, and stop if that fails.  It stops on a page at most `budget` clicks
      on, and returns nothing exactly when the budget is zero or the first
      page has no papers. */
  function CrawlBy(pages: seq<Element>, cur: nat, budget: nat,
                   harvest: Element -> seq<Paper>, moves: Element -> bool): (r: Run)
    ensures cur <= r.end <= cur + budget
    ensures r.papers == [] <==> budget == 0 || harvest(PageAt(pages, cur)) == []
    decreases budget
  {
    if budget == 0 then Run([], cur)
    else
      var found := harvest(PageAt(pages, cur));
      if found == [] then Run([], cur)
      else if !moves(PageAt(pages, cur)) then Run(found, cur)
      else
        var rest := CrawlBy(pages, cur + 1, budget - 1, harvest, moves);
        Run(found + rest.papers, rest.end)
  }

  /** `_crawl_search_results` as a value: the crawl with this crawler's page
      reader and paginator. */
  function Crawl(pages: seq<Element>, cur: nat, budget: nat): Run {
    CrawlBy(pages, cur, budget, Harvest, Moves)
  }

  /** The crawl from `cur` read on past the `k` pages from there, each with
      papers and left by the paginator, and then stopped with result `r`:
      with the budget spent (on the page after the last one read), on a page
      without papers, or on a page whose papers it kept but which the
      paginator could not leave. */
  predicate StoppedAfter(pages: seq<Element>, cur: nat, budget: nat,
                         harvest: Element -> seq<Paper>, moves: Element -> bool, k: nat, r: Run)
  {
    && k <= budget
    && (forall p :: p in PagesFrom(pages, cur, k) ==> harvest(p) != [] && moves(p))
    && (|| (k == budget && r == Run(Flatten(Harvests(pages, cur, k, harvest)), cur + k))
        || (k < budget && harvest(PageAt(pages, cur + k)) == []
            && r == Run(Flatten(Harvests(pages, cur, k, harvest)), cur + k))
        || (k < budget && harvest(PageAt(pages, cur + k)) != [] && !moves(PageAt(pages, cur + k))
            && r == Run(Flatten(Harvests(pages, cur, k + 1, harvest)), cur + k)))
  }

  /** A crawl that cannot get past its first page stops there, having read
      on past no page. */
  lemma CrawlStopsAtOnce(pages: seq<Element>, cur: nat, budget: nat,
                         harvest: Element -> seq<Paper>, moves: Element -> bool)
    requires budget == 0 || harvest(PageAt(pages, cur)) == [] || !moves(PageAt(pages, cur))
    ensures StoppedAfter(pages, cur, budget, harvest, moves, 0, CrawlBy(pages, cur, budget, harvest, moves))
  {
    var found := harvest(PageAt(pages, cur));
    assert PagesFrom(pages, cur, 0) == [];
    assert Flatten(Harvests(pages, cur, 0, harvest)) == [];
    if budget > 0 && found != [] {
      var hs := Harvests(pages, cur, 1, harvest);
      assert hs[0] == found && hs[1..] == [];
      assert Flatten(hs) == found;
    }
  }

  /** Reading on past page `cur` adds its papers in front of those of the
      crawl from the next page, and one page to the count read on. */
  lemma StoppedAfterStep(pages: seq<Element>, cur: nat, budget: nat,
                         harvest: Element -> seq<Paper>, moves: Element -> bool, k: nat, rest: Run)
    requires budget > 0 && harvest(PageAt(pages, cur)) != [] && moves(PageAt(pages, cur))
    requires StoppedAfter(pages, cur + 1, budget - 1, harvest, moves, k, rest)
    ensures StoppedAfter(pages, cur, budget, harvest, moves, k + 1, Run(harvest(PageAt(pages, cur)) + rest.papers, rest.end))
  {
    var found := harvest(PageAt(pages, cur));
    HarvestsCons(pages, cur, k, harvest);
    HarvestsCons(pages, cur, k + 1, harvest);
    PagesFromCons(pages, cur, k);
    var tail := Harvests(pages, cur + 1, k, harvest);
    var longer := Harvests(pages, cur + 1, k + 1, harvest);
    assert ([found] + tail)[1..] == tail;
    assert ([found] + longer)[1..] == longer;
    assert cur + 1 + k == cur + (k + 1);
  }

  /** Every crawl reads on for as long as pages have papers, the paginator
      moves and the budget lasts, and stops at the first page where one of
      these fails, returning the papers of the pages read in page order. */
  lemma {:induction false} CrawlOutcome(pages: seq<Element>, cur: nat, budget: nat,
                                        harvest: Element -> seq<Paper>, moves: Element -> bool)
    ensures exists k :: StoppedAfter(pages, cur, budget, harvest, moves, k, CrawlBy(pages, cur, budget, harvest, moves))
    decreases budget
  {
    var r := CrawlBy(pages, cur, budget, harvest, moves);
    var found := harvest(PageAt(pages, cur));
    if budget == 0 || found == [] || !moves(PageAt(pages, cur)) {
      CrawlStopsAtOnce(pages, cur, budget, harvest, moves);
    } else {
      CrawlOutcome(pages, cur + 1, budget - 1, harvest, moves);
      var rest := CrawlBy(pages, cur + 1, budget - 1, harvest, moves);
      var k: nat :| StoppedAfter(pages, cur + 1, budget - 1, harvest, moves, k, rest);
      StoppedAfterStep(pages, cur, budget, harvest, moves, k, rest);
      assert r == Run(found + rest.papers, rest.end);
    }
  }

  /** `_crawl_search_results`, with the page reader and the paginator's
      decision as parameters (the search passes `Harvest` and `Moves`, which
      `ExtractPapersFromPage` and `GoToNextPage` compute): starting from the
      page on screen, it returns the crawl's papers and leaves the browser on
      the page where the crawl stopped. */
  method CrawlSearchResults(driver: Browser, maxPages: int,
                            harvest: Element -> seq<Paper>, moves: Element -> bool) returns (papers: seq<Paper>)
    modifies driver
    ensures driver.pages == old(driver.pages)
    ensures Run(papers, driver.current) == CrawlBy(old(driver.pages), old(driver.current), Budget(maxPages), harvest, moves)
  {
    papers := [];
    var currentPage := 1;
    while currentPage <= maxPages
      invariant driver.pages == old(driver.pages)
      invariant 1 <= currentPage && currentPage - 1 <= Budget(maxPages)
      invariant CrawlBy(old(driver.pages), old(driver.current), Budget(maxPages), harvest, moves)
                == var rest := CrawlBy(driver.pages, driver.current, Budget(maxPages) - (currentPage - 1), harvest, moves);
                   Run(papers + rest.papers, rest.end)
      decreases maxPages - currentPage
    {
      var pagePapers := harvest(driver.Page());
      if pagePapers == [] {
        break;
      }
      ghost var before := papers;
      papers := papers + pagePapers;
      if !moves(driver.Page()) {
        break;
      }
      driver.Click();
      ghost var rest := CrawlBy(driver.pages, driver.current, Budget(maxPages) - currentPage, harvest, moves);
      assert before + (pagePapers + rest.papers) == papers + rest.papers;
      currentPage := currentPage + 1;
    }
  }

  // ---------------------------------------------------------------------------
  // The search

  /** The query both search strategies send: the author, and the institution
      only when one is given. */
  function SearchQuery(author: string, institution: string): (q: string)
    ensures |q| >= |"作者:"| + |author|
    ensures q[..|"作者:"|] == "作者:" && q[|"作者:"|..|"作者:"| + |author|] == author
    ensures institution == "" <==> |q| == |"作者:"| + |author|
    ensures institution != "" ==> q[|"作者:"| + |author|..] == " AND 单位:" + institution
  {
    "作者:" + author + (if institution != "" then " AND 单位:" + institution else "")
  }

  /** For one author, different institutions give different queries. */
  lemma SearchQueryKeepsInstitution(author: string, i1: string, i2: string)
    requires SearchQuery(author, i1) == SearchQuery(author, i2)
    ensures i1 == i2
  {
    var n := |"作者:"| + |author|;
    var q := SearchQuery(author, i1);
    if i1 != "" && i2 != "" {
      assert " AND 单位:" + i1 == " AND 单位:" + i2;
      assert i1 == (" AND 单位:" + i1)[|" AND 单位:"|..];
      assert i2 == (" AND 单位:" + i2)[|" AND 单位:"|..];
    }
  }

  function DirectSearchUrl(query: string): string {
    BaseUrl + "/kns8s/search?crossref=N&kw=" + query
  }

  predicate HasResults(page: Element) {
    FindElement(page, ResultsContainer).Some?
  }

  /** The search box the form strategy types into: the first selector that
      finds an element. */
  function SearchBox(home: Element): (r: Option<Hit<Element>>)
    ensures r.Some? ==> r.value.index < |SearchBoxes| && FindElement(home, SearchBoxes[r.value.index]) == Some(r.value.value)
    ensures r.Some? ==> forall j :: 0 <= j < r.value.index ==> FindElement(home, SearchBoxes[j]).None?
    ensures r.None? <==> forall j :: 0 <= j < |SearchBoxes| ==> FindElement(home, SearchBoxes[j]).None?
  {
    FirstHit(SearchBoxes, loc => FindElement(home, loc), 0)
  }

  /** `_try_direct_search`: load the search URL and report whether results appeared. */
  method TryDirectSearch(driver: Browser, author: string, institution: string) returns (ok: bool)
    modifies driver
    ensures driver.pages == driver.serve(DirectSearchUrl(SearchQuery(author, institution))) && driver.current == 0
    ensures ok == HasResults(driver.Page())
  {
    var query := SearchQuery(author, institution);
    driver.Get(DirectSearchUrl(query));
    ok := FindElement(driver.Page(), ResultsContainer).Some?;
  }

  /** `_try_form_search`: load the portal, find a search box, submit the
      query, and report whether results appeared.  Without a search box
      nothing is submitted. */
  method TryFormSearch(driver: Browser, author: string, institution: string) returns (ok: bool)
    modifies driver
    ensures driver.current == 0
    ensures SearchBox(PageAt(driver.serve(BaseUrl), 0)).None? ==> !ok && driver.pages == driver.serve(BaseUrl)
    ensures SearchBox(PageAt(driver.serve(BaseUrl), 0)).Some? ==>
              driver.pages == driver.submit(SearchQuery(author, institution)) && ok == HasResults(driver.Page())
  {
    driver.Get(BaseUrl);
    var home := driver.Page();
    var box: Option<Element> := None;
    var k := 0;
    while k < |SearchBoxes|
      invariant 0 <= k <= |SearchBoxes|
      invariant box.None?
      invariant forall j :: 0 <= j < k ==> FindElement(home, SearchBoxes[j]).None?
    {
      box := FindElement(home, SearchBoxes[k]);
      if box.Some? {
        break;
      }
      k := k + 1;
    }
    if box.None? {
      return false;
    }
    driver.Submit(SearchQuery(author, institution));
    ok := FindElement(driver.Page(), ResultsContainer).Some?;
  }

  /** `search_papers` as a value: crawl the direct search's results if it
      found any, otherwise the form search's, otherwise nothing. */
  function SearchResults(serve: string -> seq<Element>, submit: string -> seq<Element>,
                         author: string, institution: string, maxPages: int): seq<Paper>
  {
    var query := SearchQuery(author, institution);
    var direct := serve(DirectSearchUrl(query));
    if HasResults(PageAt(direct, 0)) then Crawl(direct, 0, Budget(maxPages)).papers
    else if SearchBox(PageAt(serve(BaseUrl), 0)).Some? && HasResults(PageAt(submit(query), 0)) then
      Crawl(submit(query), 0, Budget(maxPages)).papers
    else []
  }

  /** `search_papers`. */
  method SearchPapers(driver: Browser, author: string, institution: string, maxPages: int)
    returns (papers: seq<Paper>)
    modifies driver
    ensures papers == SearchResults(driver.serve, driver.submit, author, institution, maxPages)
    ensures var query := SearchQuery(author, institution);
            var direct := driver.serve(DirectSearchUrl(query));
            if HasResults(PageAt(direct, 0)) then
              driver.pages == direct && driver.current == Crawl(direct, 0, Budget(maxPages)).end
            else if SearchBox(PageAt(driver.serve(BaseUrl), 0)).None? then
              driver.pages == driver.serve(BaseUrl) && driver.current == 0
            else if HasResults(PageAt(driver.submit(query), 0)) then
              driver.pages == driver.submit(query) && driver.current == Crawl(driver.submit(query), 0, Budget(maxPages)).end
            else
              driver.pages == driver.submit(query) && driver.current == 0
  {
    papers := [];
    var success := TryDirectSearch(driver, author, institution);
    if !success {
      success := TryFormSearch(driver, author, institution);
    }
    if success {
      papers := CrawlSearchResults(driver, maxPages, Harvest, Moves);
    }
  }
}
