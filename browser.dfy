/** The browser the crawlers drive, reduced to what they observe of it: the
    list of result pages that the last navigation led to, and which of them is
    on screen.  Loading a URL or submitting the search box replaces the list
    and shows its first page; clicking an enabled next-page control shows the
    following one. */
module WebDriver {
  import opened Dom

  class Browser {
    /** The pages a URL leads to: the page loaded, then the pages reached by
        successive clicks on a next-page control. */
    const serve: string -> seq<Element>
    /** The pages that submitting a query in the portal's search box leads to. */
    const submit: string -> seq<Element>

    var pages: seq<Element>
    var current: nat

    constructor (serve: string -> seq<Element>, submit: string -> seq<Element>)
      ensures this.serve == serve && this.submit == submit
      ensures pages == [] && current == 0
    {
      this.serve := serve;
      this.submit := submit;
      pages := [];
      current := 0;
    }

    /** The page on screen; `Blank` once the clicks have gone past the last one. */
    function Page(): Element
      reads this
    {
      PageAt(pages, current)
    }

    /** `driver.get(url)`. */
    method Get(url: string)
      modifies this
      ensures pages == serve(url) && current == 0
      ensures Page() == PageAt(serve(url), 0)
    {
      pages := serve(url);
      current := 0;
    }

    /** Typing `query` into the search box and pressing Return. */
    method Submit(query: string)
      modifies this
      ensures pages == submit(query) && current == 0
      ensures Page() == PageAt(submit(query), 0)
    {
      pages := submit(query);
      current := 0;
    }

    /** A click on a next-page control or a page-number link. */
    method Click()
      modifies this
      ensures pages == old(pages) && current == old(current) + 1
      ensures Page() == PageAt(old(pages), old(current) + 1)
    {
      current := current + 1;
    }
  }
}
