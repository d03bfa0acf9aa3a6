/** Where the two crawlers part ways: on rows, on the authors field, on the
    next-page control and on pages without papers.  Each difference is shown
    on a small page built for it; where the crawlers agree, that is proved for
    all pages. */
module Variants {
  import opened Cascade
  import opened Text
  import opened Dom
  import opened Records
  import opened Paging
  import Lists
  import I = Improved
  import O = Original

  /** An element with only a text. */
  function Leaf(text: string): Element {
    Element(text, "", false, map[])
  }

  /** A row whose title link holds only whitespace, for both crawlers'
      first title selector. */
  const BlankTitledRow: Element :=
    Element("", "", false, map[O.TitleLink := [Leaf("  ")], Css("a.fz14") := [Leaf("  ")]])

  lemma StripBlank()
    ensures Strip(" ") == "" && Strip("  ") == ""
  {
    assert TrimStart(" ") == TrimStart("") == "";
    assert TrimStart("  ") == TrimStart(" ");
  }

  /** None of the improved crawler's title selectors yields a non-blank
      text in `BlankTitledRow`, and it has no heading. */
  lemma NoImprovedTitle()
    ensures I.Title(BlankTitledRow) == ""
  {
    StripBlank();
    forall j | 0 <= j < |I.TitleLinks| ensures AcceptedText(BlankTitledRow, I.TitleLinks[j], NonBlank).None? {
      if j == 0 {
        assert FindElement(BlankTitledRow, I.TitleLinks[j]) == Some(Leaf("  "));
      } else {
        assert I.TitleLinks[j] !in BlankTitledRow.found;
      }
    }
    assert I.TitleHeading !in BlankTitledRow.found;
    CascadeTextChoice(BlankTitledRow, I.TitleLinks, NonBlank);
  }

  /** The first crawler turns a row with a blank title link into a paper with
      an empty title; the improved crawler drops it. */
  lemma BlankTitleVariants()
    ensures O.ExtractPaperInfo(BlankTitledRow).Some? && O.ExtractPaperInfo(BlankTitledRow).value.title == ""
    ensures I.ExtractPaperInfo(BlankTitledRow).None?
  {
    StripBlank();
    assert FindElement(BlankTitledRow, O.TitleLink) == Some(Leaf("  "));
    NoImprovedTitle();
  }

  /** A row with a title link "论文" and two author links, the second blank,
      behind both crawlers' first title and first author selectors. */
  const AuthoredRow: Element :=
    Element("", "", false, map[
      O.TitleLink := [Leaf("论文")],
      Css("a.fz14") := [Leaf("论文")],
      O.AuthorLinks := [Leaf("张三"), Leaf(" ")],
      Css("a[href*='author']") := [Leaf("张三"), Leaf(" ")]])

  /** The improved crawler's title for `AuthoredRow` is its first title
      link's text. */
  lemma AuthoredRowTitled()
    ensures I.Title(AuthoredRow) == "论文"
  {
    StripTrimmed("论文");
    assert I.TitleLinks[0] == Css("a.fz14");
    assert FindElement(AuthoredRow, I.TitleLinks[0]) == Some(Leaf("论文"));
    assert AcceptedText(AuthoredRow, I.TitleLinks[0], NonBlank) == Some("论文");
    I.TitleChoice(AuthoredRow);
    assert FirstAccepting(AuthoredRow, I.TitleLinks, NonBlank, 0);
  }

  /** The first crawler's author texts for `AuthoredRow`, blank one kept. */
  lemma OriginalAuthorsOfRow()
    ensures Join("; ", AllTexts(FindElements(AuthoredRow, O.AuthorLinks))) == "张三; "
  {
    StripBlank();
    StripTrimmed("张三");
    var links := [Leaf("张三"), Leaf(" ")];
    assert FindElements(AuthoredRow, O.AuthorLinks) == links;
    assert AllTexts(links) == ["张三", ""];
    assert Join("; ", ["张三", ""]) == "张三" + "; " + "";
  }

  /** The improved crawler's author texts for `AuthoredRow`, blank one dropped. */
  lemma ImprovedAuthorsOfRow()
    ensures I.Authors(AuthoredRow) == "张三"
  {
    StripBlank();
    StripTrimmed("张三");
    var links := [Leaf("张三"), Leaf(" ")];
    assert FindElements(AuthoredRow, I.AuthorLinks[0]) == links;
    FirstNonEmptyListChoice(AuthoredRow, I.AuthorLinks);
    assert NonBlankText(links[0]) == Some("张三");
    assert NonBlankText(links[1]) == None;
    assert Lists.KeepFirst(links, 1, NonBlankText) == ["张三"];
    assert NonBlankTexts(links) == Lists.KeepFirst(links, 1, NonBlankText);
  }

  /** Both crawlers turn `AuthoredRow` into a paper.  The first keeps the
      blank author's empty text, leaving a dangling separator in the paper's
      authors; the improved crawler leaves it out. */
  lemma BlankAuthorVariants()
    ensures Join("; ", AllTexts(FindElements(AuthoredRow, O.AuthorLinks))) == "张三; "
    ensures I.Authors(AuthoredRow) == "张三"
    ensures O.ExtractPaperInfo(AuthoredRow).Some? && O.ExtractPaperInfo(AuthoredRow).value.authors == "张三; "
    ensures I.ExtractPaperInfo(AuthoredRow).Some? && I.ExtractPaperInfo(AuthoredRow).value.authors == "张三"
  {
    OriginalAuthorsOfRow();
    ImprovedAuthorsOfRow();
    AuthoredRowTitled();
    assert FindElement(AuthoredRow, O.TitleLink).Some?;
  }

  /** A next-page link that is not disabled by class but carries the
      `disabled` attribute, behind both crawlers' first next-page selector,
      on a page with no page-number indicator. */
  const DisabledNextPage: Element :=
    Element("", "", false, map[
      O.NextButton := [Element("下一页", "", true, map[])],
      Css("a[title*='下页']") := [Element("下一页", "", true, map[])]])

  /** The first crawler clicks a link whose `disabled` attribute is set; the
      improved crawler skips it and, with no other way on, stays. */
  lemma DisabledAttributeVariants()
    ensures O.Moves(DisabledNextPage)
    ensures !I.Moves(DisabledNextPage)
  {
    assert !Contains("", "disabled");
    assert I.NextButtons[0] == Css("a[title*='下页']");
    forall j | 0 <= j < |I.NextButtons| ensures I.EnabledAt(DisabledNextPage, I.NextButtons[j]).None? {
    }
    assert FindElement(DisabledNextPage, I.PageIndicator).None?;
  }

  /** A page with the results table but no papers, from which the paginator
      moves on: the improved crawl stops there with nothing, the first crawl
      reads on. */
  lemma EmptyPageVariants(pages: seq<Element>, harvest: Element -> seq<Paper>, moves: Element -> bool)
    requires O.HasResultTable(PageAt(pages, 0)) && harvest(PageAt(pages, 0)) == [] && moves(PageAt(pages, 0))
    ensures I.CrawlBy(pages, 0, 2, harvest, moves) == Run([], 0)
    ensures O.CrawlBy(pages, 0, 2, harvest, moves).papers == O.CrawlBy(pages, 1, 1, harvest, moves).papers
  {
  }

  /** The `i`-th page from `cur` shows the results table and has papers. */
  predicate FullAt(pages: seq<Element>, cur: nat, i: nat, harvest: Element -> seq<Paper>) {
    O.HasResultTable(PageAt(pages, cur + i)) && harvest(PageAt(pages, cur + i)) != []
  }

  /** Every page a crawl of `budget` pages from `cur` reaches is full: the
      `i`-th page on, whenever the paginator left each page before it. */
  predicate FullWhereReached(pages: seq<Element>, cur: nat, budget: nat,
                             harvest: Element -> seq<Paper>, moves: Element -> bool)
  {
    forall i: nat :: i < budget && (forall p :: p in PagesFrom(pages, cur, i) ==> moves(p)) ==> FullAt(pages, cur, i, harvest)
  }

  /** Past a page the paginator leaves, the pages reached are still full. */
  lemma FullWhereReachedStep(pages: seq<Element>, cur: nat, budget: nat,
                             harvest: Element -> seq<Paper>, moves: Element -> bool)
    requires budget > 0 && moves(PageAt(pages, cur))
    requires FullWhereReached(pages, cur, budget, harvest, moves)
    ensures FullWhereReached(pages, cur + 1, budget - 1, harvest, moves)
  {
    var next := cur + 1;
    forall i: nat | i < budget - 1 && (forall p :: p in PagesFrom(pages, next, i) ==> moves(p))
      ensures FullAt(pages, next, i, harvest)
    {
      PagesFromCons(pages, cur, i);
      assert forall p :: p in PagesFrom(pages, cur, i + 1) ==> moves(p);
      assert FullAt(pages, cur, i + 1, harvest);
      assert cur + (i + 1) == cur + 1 + i;
    }
  }

  /** On pages that all show the results table and have papers, as far as
      the crawl reaches, the two crawls are the same. */
  lemma {:induction false} CrawlsAgreeOnFullPages(pages: seq<Element>, cur: nat, budget: nat,
                                                  harvest: Element -> seq<Paper>, moves: Element -> bool)
    requires FullWhereReached(pages, cur, budget, harvest, moves)
    ensures I.CrawlBy(pages, cur, budget, harvest, moves) == O.CrawlBy(pages, cur, budget, harvest, moves)
    decreases budget
  {
    if budget > 0 {
      assert PagesFrom(pages, cur, 0) == [];
      assert FullAt(pages, cur, 0, harvest);
      if moves(PageAt(pages, cur)) {
        FullWhereReachedStep(pages, cur, budget, harvest, moves);
        CrawlsAgreeOnFullPages(pages, cur + 1, budget - 1, harvest, moves);
      }
    }
  }
}
