/** An immutable model of a rendered page: what the crawlers read through the
    browser driver.  A page or element carries its visible text, its `class`
    attribute, whether its `disabled` attribute is truthy, and an opaque lookup
    from a locator to the ordered list of elements it finds inside it.  The
    selector strings themselves are keys; CSS and XPath semantics are not
    modelled. */
module Dom {
  import opened Cascade
  import opened Text
  import opened Lists

  /** The `By` strategy and the selector string of a lookup. */
  datatype Locator =
    | Css(selector: string)
    | XPath(path: string)
    | LinkText(linkText: string)
    | ClassName(name: string)

  datatype Element = Element(text: string, cls: string, disabled: bool, found: map<Locator, seq<Element>>)

  /** A page with nothing on it (the browser past its last page). */
  const Blank := Element("", "", false, map[])

  /** `scope.find_elements(by, selector)`, in document order; a lookup that
      matches nothing (or fails) is the empty list. */
  function FindElements(scope: Element, loc: Locator): seq<Element> {
    if loc in scope.found then scope.found[loc] else []
  }

  /** `scope.find_element(by, selector)`: the first match, or `None` where
      Selenium raises `NoSuchElementException`. */
  function FindElement(scope: Element, loc: Locator): (r: Option<Element>)
    ensures r.Some? <==> FindElements(scope, loc) != []
    ensures r.Some? ==> r.value == FindElements(scope, loc)[0]
  {
    var all := FindElements(scope, loc);
    if all == [] then None else Some(all[0])
  }

  /** The page at position `i` of a browsing history, `Blank` past its end. */
  function PageAt(pages: seq<Element>, i: nat): Element {
    if i < |pages| then pages[i] else Blank
  }

  /** What a single-element cascade accepts in a candidate's trimmed text:
      anything non-blank, or a text carrying a keyword (the native one as
      written, the English one after lower-casing). */
  datatype Acceptance = NonBlank | Keyword(native: string, english: string)

  predicate Accepts(acc: Acceptance, t: string) {
    match acc
    case NonBlank => t != ""
    case Keyword(native, english) => Contains(t, native) || Contains(Lower(t), english)
  }

  /** The trimmed text of the element `loc` finds in `scope`, when there is one
      and its text passes `acc`. */
  function AcceptedText(scope: Element, loc: Locator, acc: Acceptance): Option<string> {
    match FindElement(scope, loc)
    case None => None
    case Some(e) => if Accepts(acc, Strip(e.text)) then Some(Strip(e.text)) else None
  }

  /** Candidate `i` is the first of `locs` whose element exists and passes `acc`. */
  predicate FirstAccepting(scope: Element, locs: seq<Locator>, acc: Acceptance, i: int) {
    && 0 <= i < |locs|
    && AcceptedText(scope, locs[i], acc).Some?
    && forall j :: 0 <= j < i ==> AcceptedText(scope, locs[j], acc).None?
  }

  /** No candidate of `locs` yields an element whose text passes `acc`. */
  predicate NoneAccepting(scope: Element, locs: seq<Locator>, acc: Acceptance) {
    forall j :: 0 <= j < |locs| ==> AcceptedText(scope, locs[j], acc).None?
  }

  /** The candidate a single-element cascade settles on, and its text. */
  function AcceptingHit(scope: Element, locs: seq<Locator>, acc: Acceptance): (r: Option<Hit<string>>)
    ensures r.Some? ==> FirstAccepting(scope, locs, acc, r.value.index)
                        && AcceptedText(scope, locs[r.value.index], acc) == Some(r.value.value)
    ensures r.None? ==> NoneAccepting(scope, locs, acc)
  {
    FirstHit(locs, loc => AcceptedText(scope, loc, acc), 0)
  }

  /** A single-element selector cascade: the loop that tries each selector,
      takes the trimmed text and breaks at the first acceptable one, leaving
      `""` when none is. */
  function CascadeText(scope: Element, locs: seq<Locator>, acc: Acceptance): string {
    match AcceptingHit(scope, locs, acc)
    case Some(h) => h.value
    case None => ""
  }

  /** The cascade yields the text of its first acceptable candidate, `""`
      when there is none, and otherwise a trimmed text that passes `acc`. */
  lemma CascadeTextChoice(scope: Element, locs: seq<Locator>, acc: Acceptance)
    ensures forall i :: FirstAccepting(scope, locs, acc, i) ==> Some(CascadeText(scope, locs, acc)) == AcceptedText(scope, locs[i], acc)
    ensures NoneAccepting(scope, locs, acc) ==> CascadeText(scope, locs, acc) == ""
    ensures !NoneAccepting(scope, locs, acc) ==>
              Accepts(acc, CascadeText(scope, locs, acc)) && CascadeText(scope, locs, acc) == Strip(CascadeText(scope, locs, acc))
  {
    var r := AcceptingHit(scope, locs, acc);
    if r.Some? {
      var h := r.value;
      forall i | FirstAccepting(scope, locs, acc, i) ensures i == h.index {
        assert !(i < h.index) && !(h.index < i);
      }
      StripIdempotent(FindElement(scope, locs[h.index]).value.text);
    }
  }

  /** `xs` itself when it is non-empty. */
  function NonEmpty<X>(xs: seq<X>): Option<seq<X>> {
    if xs == [] then None else Some(xs)
  }

  /** A list cascade: the element list of the first locator that finds
      anything, `[]` when none does. */
  function FirstNonEmptyList(scope: Element, locs: seq<Locator>): seq<Element> {
    match FirstHit(locs, loc => NonEmpty(FindElements(scope, loc)), 0)
    case Some(h) => h.value
    case None => []
  }

  /** The list cascade settles on the first locator that finds anything, and
      is empty exactly when none does. */
  lemma FirstNonEmptyListChoice(scope: Element, locs: seq<Locator>)
    ensures forall i :: 0 <= i < |locs| && FindElements(scope, locs[i]) != []
                        && (forall j :: 0 <= j < i ==> FindElements(scope, locs[j]) == [])
                        ==> FirstNonEmptyList(scope, locs) == FindElements(scope, locs[i])
    ensures (forall i :: 0 <= i < |locs| ==> FindElements(scope, locs[i]) == []) <==> FirstNonEmptyList(scope, locs) == []
  {
    var r := FirstHit(locs, loc => NonEmpty(FindElements(scope, loc)), 0);
    forall i | 0 <= i < |locs| && FindElements(scope, locs[i]) != []
               && (forall j :: 0 <= j < i ==> FindElements(scope, locs[j]) == [])
      ensures r.Some? && r.value.index == i
    {
      assert NonEmpty(FindElements(scope, locs[i])).Some?;
      assert forall j :: 0 <= j < i ==> NonEmpty(FindElements(scope, locs[j])).None?;
    }
  }

  /** The trimmed text of an element, when it is not blank. */
  function NonBlankText(e: Element): (r: Option<string>)
    ensures r.Some? ==> r.value != ""
  {
    var t := Strip(e.text);
    if t == "" then None else Some(t)
  }

  /** `[x.text.strip() for x in elements if x.text.strip()]`. */
  function NonBlankTexts(elements: seq<Element>): (texts: seq<string>)
    ensures |texts| <= |elements|
  {
    Keep(elements, NonBlankText)
  }

  /** Each text kept is non-blank and already trimmed. */
  lemma NonBlankTextsTrimmed(elements: seq<Element>)
    ensures forall k :: 0 <= k < |NonBlankTexts(elements)| ==>
              NonBlankTexts(elements)[k] != "" && NonBlankTexts(elements)[k] == Strip(NonBlankTexts(elements)[k])
  {
    var texts := NonBlankTexts(elements);
    var idx := KeptIndices(elements, |elements|, NonBlankText);
    forall k | 0 <= k < |texts| ensures texts[k] != "" && texts[k] == Strip(texts[k]) {
      assert NonBlankText(elements[idx[k]]) == Some(texts[k]);
      StripIdempotent(elements[idx[k]].text);
    }
  }

  /** `[x.text.strip() for x in elements]`, blank entries included. */
  function AllTexts(elements: seq<Element>): (texts: seq<string>)
    ensures |texts| == |elements|
    ensures forall k :: 0 <= k < |elements| ==> texts[k] == Strip(elements[k].text)
  {
    seq(|elements|, k requires 0 <= k < |elements| => Strip(elements[k].text))
  }

  /** The non-empty entries among the first `n` of `ts`, in order. */
  function DropEmptyFirst(ts: seq<string>, n: nat): (r: seq<string>)
    requires n <= |ts|
    ensures |r| <= n
  {
    if n == 0 then []
    else DropEmptyFirst(ts, n - 1) + (if ts[n - 1] == "" then [] else [ts[n - 1]])
  }

  /** `ts` with its empty entries removed, the others kept in order. */
  function DropEmpty(ts: seq<string>): (r: seq<string>)
    ensures |r| <= |ts|
  {
    DropEmptyFirst(ts, |ts|)
  }

  lemma {:induction false} KeepFirstDropsBlanks(elements: seq<Element>, n: nat)
    requires n <= |elements|
    ensures KeepFirst(elements, n, NonBlankText) == DropEmptyFirst(AllTexts(elements), n)
  {
    if n > 0 {
      KeepFirstDropsBlanks(elements, n - 1);
      assert AllTexts(elements)[n - 1] == Strip(elements[n - 1].text);
    }
  }

  /** The improved crawler's author texts are the first crawler's with the
      blank ones left out: the same trimmed texts, in the same order. */
  lemma NonBlankTextsDropBlanks(elements: seq<Element>)
    ensures NonBlankTexts(elements) == DropEmpty(AllTexts(elements))
  {
    KeepFirstDropsBlanks(elements, |elements|);
  }
}
