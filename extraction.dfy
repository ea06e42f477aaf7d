/** Per-container extraction in `get_amazon_data_books`: which locator each
    field is read from, when a block is rejected, and the defaults used for
    missing fields. HTML parsing is abstracted away: a container carries the
    already stripped text each locator found, or None when the element is
    absent. */
module Extraction {
  import opened Wrappers
  import opened Books

  /** One search-result block (`div[data-component-type=s-search-result]`). */
  datatype Container = Container(
    titlePrimary: Option<string>,    // h2.a-size-mini
    titleFallback: Option<string>,   // span.a-text-normal
    authorPrimary: Option<string>,   // a.a-size-base
    authorFallback: Option<string>,  // span.a-size-base
    pricePrimary: Option<string>,    // span.a-price-whole
    priceFallback: Option<string>,   // span.a-offscreen
    rating: Option<string>,          // span.a-icon-alt (no fallback)
    malformed: bool)                 // reading the block raises; it is skipped

  const MinTitleLength := 3
  const UnknownAuthor := "Unknown"
  const NoPrice := "N/A"
  const NoRating := "No rating"

  /** Python's `find(primary) or find(secondary)`: an element that is present
      is always truthy, so the secondary locator is consulted only when the
      primary element is absent, even if the primary's text is empty. */
  function Either(primary: Option<string>, secondary: Option<string>): Option<string>
  {
    if primary.Some? then primary else secondary
  }

  /** `elem.get_text(strip=True) if elem else default`. */
  function TextOr(elem: Option<string>, default: string): string
  {
    if elem.Some? then elem.value else default
  }

  /** The title element of a container, if any. */
  function TitleOf(c: Container): Option<string>
  {
    Either(c.titlePrimary, c.titleFallback)
  }

  /** The record built for an accepted title: each field is the text of the
      first present locator, or the field's default when no locator is present. */
  function MakeBook(title: string, c: Container): (b: Book)
    ensures b.title == title
    ensures b.author == (if c.authorPrimary.Some? then c.authorPrimary.value
                         else if c.authorFallback.Some? then c.authorFallback.value
                         else "Unknown")
    ensures b.price == (if c.pricePrimary.Some? then c.pricePrimary.value
                        else if c.priceFallback.Some? then c.priceFallback.value
                        else "N/A")
    ensures b.rating == (if c.rating.Some? then c.rating.value else "No rating")
  {
    Book(title,
         TextOr(Either(c.authorPrimary, c.authorFallback), UnknownAuthor),
         TextOr(Either(c.pricePrimary, c.priceFallback), NoPrice),
         TextOr(c.rating, NoRating))
  }

  /** The record a container yields before the session's duplicate check:
      none for a malformed block, a block without a title element, or a title
      shorter than three characters. A present but short primary title
      rejects the block even when the secondary locator holds a long one. */
  function Candidate(c: Container): (r: Option<Book>)
    ensures r.Some? <==>
              && !c.malformed
              && ((c.titlePrimary.Some? && |c.titlePrimary.value| >= 3)
                  || (c.titlePrimary.None? && c.titleFallback.Some? && |c.titleFallback.value| >= 3))
    ensures r.Some? ==> |r.value.title| >= 3
    ensures r.Some? && c.titlePrimary.Some? ==> r.value.title == c.titlePrimary.value
    ensures r.Some? && c.titlePrimary.None? ==> r.value.title == c.titleFallback.value
    ensures r.Some? ==> r.value == MakeBook(r.value.title, c)
  {
    if c.malformed then None
    else
      match TitleOf(c)
      case None => None
      case Some(title) => if |title| < MinTitleLength then None else Some(MakeBook(title, c))
  }
}
