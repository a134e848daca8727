/**
  The browser, seen by the scrapers only through what its calls return.
  Every value here is one possible answer of the page driver; the scraper
  functions and methods are total over all of them.
 */
module Driver {

  /** The result of one `find_element` by selector followed by reading its
      text or one attribute: the string when the element is there,
      `NotFound` for `NoSuchElementException`, `Raised` for any other
      driver exception (a stale element, a lost session). */
  datatype Lookup = Found(text: string) | NotFound | Raised

  /** The text a lookup yields when read: the element's string, or the empty
      string in its place. */
  function FieldText(l: Lookup): string
  {
    if l.Found? then l.text else ""
  }

  /** The result of `find_elements` over the web-link anchors followed by
      reading each anchor's text. */
  datatype Links = LinkTexts(texts: seq<string>) | LinksRaised

  /** A company's detail page: whether `driver.get(url)` returns normally,
      and what each of the field lookups of the clicking scraper yields. */
  datatype DetailPage = DetailPage(
    loads: bool,
    heading: Lookup,      // h1 text
    phoneHref: Lookup,    // href of the mobile-number anchor
    category: Lookup,     // activity zone text
    address: Lookup,      // street address text
    location: Lookup,     // third breadcrumb anchor text
    webLinks: Links)      // anchors of the sites/networks block

  /** What the first attempt of `click_element_safely` (scroll into view,
      pause, native click) does: succeeds, is intercepted, or fails with any
      other exception (which the function swallows). */
  datatype ClickFirst = Clicked | Intercepted | ClickFailed

  /** One entry of a listing page, found again by its 1-based index.
      `NoTitle`: the entry's title element is missing
      (`NoSuchElementException`). `StaleTitle`: locating or reading the title
      raises another driver exception. `Title`: the title is there; the
      first click attempt behaves as `first`, the script fallback click
      succeeds iff `scriptClicks`, `driver.current_url` afterwards is
      `landing`, that URL loads as `detail`, and `driver.back()` returns
      normally iff `backOk`. */
  datatype Row =
    | NoTitle
    | StaleTitle
    | Title(first: ClickFirst, scriptClicks: bool, landing: string, detail: DetailPage, backOk: bool)

  /** A listing page request: its entries, or a driver exception raised by
      `driver.get` or `find_elements`. */
  datatype PageLoad = Listing(rows: seq<Row>) | PageFailed

  /** The search site. For a format variant `f`, `results(f)` gives pages
      1, 2, ... in order; every page past the end lists no entries. */
  datatype Site = Site(results: string -> seq<PageLoad>)

  /** What requesting page `page` of format variant `format` yields. */
  function Load(site: Site, format: string, page: int): PageLoad
  {
    if 1 <= page <= |site.results(format)| then site.results(format)[page - 1] else Listing([])
  }
}
