# CNKI paper crawlers, modelled in Dafny

`office-auto` has two Selenium crawlers for the CNKI literature portal: the
first `CNKICrawler` (`src/office_auto/cnki_crawler.py`) and the improved
`CNKICrawlerImproved` (`src/office_auto/cnki_crawler_improved.py`). Given an
author, and optionally an institution, a crawler searches the portal. It reads
result rows page by page and turns each row into a paper record with six
fields: title, authors, journal, publication date, citation count and download
count. It turns pages until the page budget runs out or there is no way on.
The improved crawler then writes the records to a spreadsheet in a fixed
column order.

This project models the row extraction, the page extraction, the pagination
and the crawl loop of both crawlers. For the improved crawler it also models
the search strategy fallback and the spreadsheet's column selection. It proves
what these return and how the two crawlers differ.

- **Pages.** A page is an immutable `Dom.Element`. It holds its text, its
  `class` attribute, whether its `disabled` attribute is set, and a map from a
  locator to the ordered list of elements the locator finds. Selector strings
  are the source's own, used as opaque keys.
- **Browser.** `WebDriver.Browser` is a class. Its fields are the list of
  pages the last navigation led to and the index of the page on screen.
  - `Get` (load a URL) and `Submit` (submit the search box) replace the list
    and show its first page.
  - `Click` shows the next page.
- **Selector cascades.** Every "try these selectors in order, first success
  wins" loop is `Cascade.FirstHit`. The named wrappers in `Dom` state which
  candidate wins.
- **Dates.** Both crawlers search the row text for the same five shapes.
  `Dates` models them as a small matcher:
  - the first crawler's single alternation takes the leftmost date;
  - the improved crawler's priority list takes the first shape that occurs
    anywhere.
- **Crawl loops.** Each crawl loop is a method proved equal to a function
  (`CrawlBy`). That function is proved to return the concatenated papers of
  the consecutive pages it read.

Modules: `Cascade`, `Text`, `Lists`, `Dom`, `Dates`, `Records`, `WebDriver`,
`Paging`, `Improved`, `Original`, and `Variants` (where the two crawlers
differ).

## Model

| member | source | states |
|---|---|---|
| Cascade.FirstHit | src/office_auto/cnki_crawler_improved.py:287-302 | The selector-cascade loop: the result is the first candidate whose probe succeeds, every earlier candidate failed, and there is no result exactly when every candidate fails |
| Cascade.FirstHitIgnoresLaterKeys | src/office_auto/cnki_crawler_improved.py:287-302 | The loop breaks at the first success: candidates appended after a successful prefix never change the outcome |
| Text.Strip | src/office_auto/cnki_crawler.py:215 | `str.strip()`: the result is no longer than the input and neither starts nor ends with whitespace |
| Text.StripRemovesOuterSpace | src/office_auto/cnki_crawler.py:215 | The stripped text is a contiguous slice of the input, and everything cut off on either side is whitespace |
| Text.StripIdempotent | src/office_auto/cnki_crawler_improved.py:299 | Stripping twice is the same as stripping once, so every extracted field is already trimmed |
| Text.IdeographicSpaceStripped | src/office_auto/cnki_crawler_improved.py:299 | The ideographic space U+3000 around a text is whitespace and is stripped, as Python's `strip()` does |
| Text.Lower | src/office_auto/cnki_crawler_improved.py:396-398 | `str.lower()` keeps the length, maps each character by itself, and leaves no upper-case ASCII letter |
| Text.Join | src/office_auto/cnki_crawler.py:223 | `"; ".join(parts)` is empty exactly when there are no parts or one empty part |
| Text.ParseIntRoundTrip | src/office_auto/cnki_crawler_improved.py:477-481 | `int(str(n)) == n` for every integer: the page number the paginator reads back is the one written |
| Lists.KeepEach | src/office_auto/cnki_crawler_improved.py:264-275 | The row loop: applies the extractor to each row in order and appends the successes, giving the `Keep` specification |
| Lists.KeptIndices | src/office_auto/cnki_crawler.py:196-203 | The kept results come from strictly increasing row positions; each is its row's extraction; every row that extracts is among them |
| Dom.CascadeTextChoice | src/office_auto/cnki_crawler_improved.py:340-359 | A single-element cascade yields the first acceptable candidate's trimmed text, `""` when none is acceptable, and otherwise a trimmed text that passes the acceptance test |
| Dom.FirstNonEmptyListChoice | src/office_auto/cnki_crawler_improved.py:254-262 | A list cascade yields the list of the first selector that finds anything, and is empty exactly when no selector does |
| Dom.NonBlankTextsTrimmed | src/office_auto/cnki_crawler_improved.py:329-335 | Every author text the improved crawler keeps is non-blank and trimmed |
| Dom.NonBlankTextsDropBlanks | src/office_auto/cnki_crawler_improved.py:329-335 | For every list of author links, the improved crawler's author texts are exactly the first crawler's texts (src/office_auto/cnki_crawler.py:223) with the empty ones removed, in the same order |
| Dates.MatchAt | src/office_auto/cnki_crawler_improved.py:365-371 | A shape matched at a position spans 5 to 10 characters and lies inside the text |
| Dates.SearchFrom | src/office_auto/cnki_crawler.py:243-247 | `re.search` of an alternation: no alternative matches before the returned position, the returned alternative is the first to match there, and there is no match exactly when no position matches |
| Dates.PriorityHit | src/office_auto/cnki_crawler_improved.py:373-377 | The pattern loop: the chosen pattern occurs in the text, every pattern listed before it does not, and there is no hit exactly when no pattern occurs |
| Dates.OriginalDateFound | src/office_auto/cnki_crawler.py:239-248 | The first crawler's date is empty or a whole date shape occurring in the row text |
| Dates.ImprovedDateFound | src/office_auto/cnki_crawler_improved.py:361-379 | The improved crawler's date is empty or a whole date shape occurring in the row text |
| Dates.SameDatesFound | src/office_auto/cnki_crawler_improved.py:361-379 | Both crawlers find a date in exactly the same rows |
| Dates.OriginalStartsNoLater | src/office_auto/cnki_crawler.py:243-244 | The alternation's date never starts after the priority list's date |
| Dates.ImprovedDateHasPriority | src/office_auto/cnki_crawler_improved.py:373-377 | No higher-priority shape occurs anywhere, and the chosen shape does not occur earlier |
| Dates.OriginalTakesLeftmost | src/office_auto/cnki_crawler.py:243-247 | In "2021年 2023-05-10" the first crawler takes the leftmost date, "2021年" |
| Dates.ImprovedTakesPriority | src/office_auto/cnki_crawler_improved.py:365-377 | In the same text the improved crawler takes the full date "2023-05-10" |
| Dates.MonthDateWhole | src/office_auto/cnki_crawler_improved.py:369 | Both crawlers take "2023年5月" whole, not its year alone |
| Dates.TwoDigitMonth | src/office_auto/cnki_crawler_improved.py:369 | A two-digit month is matched greedily: "2023年12月" matches in full |
| Records.AsRecord | src/office_auto/cnki_crawler.py:270-277 | The record dictionary has exactly the six keys, each holding the matching field |
| Records.SelectColumns | src/office_auto/cnki_crawler_improved.py:507-509 | The kept columns are exactly the listed ones present in some record, in the listed order |
| Records.SaveToExcel | src/office_auto/cnki_crawler_improved.py:496-516 | Nothing is written exactly when the list is empty; otherwise the header is the present columns in the fixed order, with one row per record and each cell its record's value, empty where the key is missing |
| Records.SavedPapersReadBack | src/office_auto/cnki_crawler_improved.py:496-516 | Saving crawled papers writes all six columns in order, and every row reads back as its paper |
| Improved.TitleChoice | src/office_auto/cnki_crawler_improved.py:284-312 | The title is the first title link's non-blank trimmed text; when no link has text, it is the heading's text; it is always trimmed |
| Improved.AuthorsChoice | src/office_auto/cnki_crawler_improved.py:314-338 | The authors come from the first author selector that finds any links, as their non-blank texts joined with "; ", and are `""` when none finds any |
| Improved.Journal | src/office_auto/cnki_crawler_improved.py:340-359 | The journal is the trimmed text of the first journal link with non-blank text, `""` when there is none, and is always trimmed |
| Improved.Citations | src/office_auto/cnki_crawler_improved.py:381-402 | The citation count is the trimmed text of the first citation cell whose text contains 引 or, lower-cased, "cite"; it is `""` when there is none; a non-empty result is trimmed and contains the keyword |
| Improved.Downloads | src/office_auto/cnki_crawler_improved.py:404-424 | The download count is the trimmed text of the first download cell whose text contains 下载 or, lower-cased, "download"; it is `""` when there is none; a non-empty result is trimmed and contains the keyword |
| Improved.ExtractPaperInfo | src/office_auto/cnki_crawler_improved.py:282-441 | A row yields a paper exactly when a title is found, and the paper's title is that title |
| Improved.ExtractedFieldsWellFormed | src/office_auto/cnki_crawler_improved.py:282-441 | The title is non-blank and trimmed; the date is empty or a date shape from the row text; citations and downloads are empty or trimmed and contain their keyword; the journal is trimmed |
| Improved.HarvestIsTitledRows | src/office_auto/cnki_crawler_improved.py:264-275 | The page's papers are exactly the titled rows' papers in row order, each with a non-empty title |
| Improved.ExtractPapersFromPage | src/office_auto/cnki_crawler_improved.py:237-280 | The method returns the papers of the rows of the first row selector that finds any |
| Improved.NextStep | src/office_auto/cnki_crawler_improved.py:443-494 | The paginator clicks the first enabled candidate; only when none is enabled does it use the page-number link; it stays only when both fail |
| Improved.PageLinkFollowsIndicator | src/office_auto/cnki_crawler_improved.py:476-486 | With no enabled candidate, an indicator reading `str(n)` and a link `str(n+1)`, the paginator clicks page `n+1` |
| Improved.FollowPageLink | src/office_auto/cnki_crawler_improved.py:476-490 | The fallback clicks (one page on) exactly when the page-number link exists, and otherwise leaves the browser as it was |
| Improved.GoToNextPage | src/office_auto/cnki_crawler_improved.py:443-494 | Reports a move exactly when the paginator's decision is not to stay, and then shows the next page; otherwise nothing changes |
| Improved.CrawlBy | src/office_auto/cnki_crawler_improved.py:199-235 | The crawl stops on a page at most `max_pages` clicks on, and returns nothing exactly when the budget is zero or the first page has no papers |
| Improved.CrawlOutcome | src/office_auto/cnki_crawler_improved.py:204-228 | For some `k`, the crawl read on past the `k` pages from its start, each with papers and left by the paginator. It then stopped in one of three ways: with the budget spent, on the page after the last one read, returning those pages' papers; on a page without papers, returning the same; or on a page with papers that the paginator could not leave, returning those papers too. The papers are always in page order |
| Improved.CrawlSearchResults | src/office_auto/cnki_crawler_improved.py:199-235 | The loop returns the crawl function's papers and leaves the browser on the page where the crawl stopped |
| Improved.SearchQuery | src/office_auto/cnki_crawler_improved.py:105-107 | The query is "作者:" then the author, then " AND 单位:" and the institution exactly when an institution is given |
| Improved.SearchQueryKeepsInstitution | src/office_auto/cnki_crawler_improved.py:105-107 | For one author, different institutions give different queries |
| Improved.SearchBox | src/office_auto/cnki_crawler_improved.py:146-164 | The search box is the element of the first selector that finds one: every selector before it finds nothing. There is none exactly when no selector finds one |
| Improved.TryDirectSearch | src/office_auto/cnki_crawler_improved.py:99-133 | Loads the search URL built from the query, and succeeds exactly when its first page shows results |
| Improved.TryFormSearch | src/office_auto/cnki_crawler_improved.py:135-197 | Loads the portal; without a search box it fails and submits nothing; otherwise it submits the query and succeeds exactly when results show |
| Improved.SearchPapers | src/office_auto/cnki_crawler_improved.py:62-97 | The direct search is crawled if it shows results; otherwise the form search is, if it does; otherwise the result is empty. The browser ends on the page where that crawl stopped, or on the first page of the last search tried |
| Original.ExtractPaperInfo | src/office_auto/cnki_crawler.py:210-281 | A row yields a paper exactly when it has a title link, whatever that link's text, and the title is the link's trimmed text |
| Original.ExtractedFieldsWellFormed | src/office_auto/cnki_crawler.py:210-281 | The title, journal, citation and download texts are trimmed; the date is empty or a date shape from the row text; the authors are empty exactly when there are no author links or one blank link |
| Original.HarvestIsLinkedRows | src/office_auto/cnki_crawler.py:196-203 | The page's papers are exactly those of the rows with a title link, in row order |
| Original.ExtractPapersFromPage | src/office_auto/cnki_crawler.py:186-208 | The method returns the papers of the result-table rows |
| Original.GoToNextPage | src/office_auto/cnki_crawler.py:283-304 | Clicks, and reports a move, exactly when the next-page link exists and its class does not mention "disabled"; otherwise nothing changes |
| Original.CrawlBy | src/office_auto/cnki_crawler.py:153-184 | The crawl stops on a page at most `max_pages` clicks on |
| Original.CrawlNeedsTable | src/office_auto/cnki_crawler.py:158-165 | With no budget, or without the results table on the first page, the crawl returns nothing and stays on that page |
| Original.CrawlOutcome | src/office_auto/cnki_crawler.py:158-177 | For some `k`, the crawl read on past the `k` pages from its start, each showing the results table and left by the paginator, whether or not it had papers. It then stopped with the budget spent (one page further on), on a page without the results table, or on a page that the paginator could not leave (keeping its papers). It returns the papers of the pages read, in page order |
| Original.CrawlSearchResults | src/office_auto/cnki_crawler.py:153-184 | The loop returns the crawl function's papers and leaves the browser on the page where the crawl stopped |
| Variants.BlankTitleVariants | src/office_auto/cnki_crawler.py:214-215 | A row whose title link is blank is a paper with an empty title for the first crawler and no paper for the improved one |
| Variants.BlankAuthorVariants | src/office_auto/cnki_crawler.py:223 | On a row with a title link and author links "张三" and " ", both crawlers return a paper; its authors are "张三; " in the first crawler and "张三" in the improved one (src/office_auto/cnki_crawler_improved.py:329-335) |
| Variants.DisabledAttributeVariants | src/office_auto/cnki_crawler.py:292-293 | A next-page link disabled only by its attribute is clicked by the first crawler and skipped by the improved one |
| Variants.EmptyPageVariants | src/office_auto/cnki_crawler_improved.py:214-218 | On a first page with the results table but no papers, the improved crawl stops with nothing, while the first crawl reads on |
| Variants.CrawlsAgreeOnFullPages | src/office_auto/cnki_crawler.py:153-184 | When every page the crawl reaches within the budget shows the results table and has papers, both crawls give the same papers and stop on the same page. Pages beyond where the paginator stops are unconstrained |

## Left out

- Driver setup and teardown are not modelled: `setup_driver`, `close`, `__enter__`/`__exit__` and `main`.
- Sleeps, and both crawlers' `WebDriverWait`, are not modelled as timing. A wait succeeds exactly when the element is on the page it loaded.
- CSS and XPath are not evaluated. Selectors are opaque keys into an element's lookup map.
  - So the improved paginator's `a:contains(...)` candidates are treated like any other key, although a browser rejects that pseudo-class and the code then skips them.
- Whitespace is the set Python's `str.isspace()` accepts, U+3000 included. Digits and lower-casing are ASCII only, so full-width digits and non-ASCII capitals are not converted. `int()` is modelled as: strip, an optional sign, then decimal digits. Underscores and non-ASCII digits are not accepted.
- Exceptions raised inside the per-row, per-selector and per-page `try` blocks are not modelled. The only failure paths are a missing element and an unparsable page number.
- `get_attribute("class")` returning `None` is not modelled; the class is a string, empty when absent.
- In the first crawler, `search_papers`, `_fill_search_form` and `_perform_search` are not modelled, nor is `save_to_excel`. They are not part of this model.
- Writing the spreadsheet file (pandas, openpyxl) is not modelled. `Records.SaveToExcel` returns the sheet's header and cells instead.
- Printing and logging are not modelled.
- Web pages and the portal are not modelled as live systems. The pages a URL or a submitted query leads to are fixed inputs of the browser (`serve`, `submit`). Every successful click shows the next page of that list.
- Improved.CrawlSearchResults and Original.CrawlSearchResults take the page reader and the paginator's decision as parameters. `Improved.SearchPapers` passes `Harvest` and `Moves`; `ExtractPapersFromPage` and `GoToNextPage` are proved to compute these two.
- Improved.ExtractPapersFromPage leaves out the second test `paper_info.get("标题")` in the row loop. `Improved.ExtractPaperInfo` only returns a paper with a non-empty title, so that test always holds.
- Improved.TryDirectSearch: the query is placed in the URL as is, as the source does. URL encoding is not modelled.
