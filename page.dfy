/** An abstract stand-in for the parsed HTML document. Each element carries
    its text, its attributes, its element children (with tag and classes,
    which is all the review-box selector looks at) and, for every lookup the
    scraper performs, the elements that lookup returns in document order. */
module Page {
  import opened Outcomes

  /** The lookups scrape.py performs, one per selector string or
      `find`/`find_all` call. */
  datatype Selector =
    | TitleBlock     // find('div', id='toptop')
    | InfoCell       // find_all('div', class_='cell small-12')
    | BrandName      // div.cell.small-6.text-center span[itemprop="name"]
    | BrandLogo      // div.cell.small-6.text-center img[itemprop="logo"]
    | AccordBar      // find_all('div', class_='accord-bar')
    | BottleImage    // div.cell.small-6.text-center img[itemprop="image"]
    | RatingValue    // div.small-12.medium-6.text-center span[itemprop="ratingValue"]
    | RatingCount    // div.small-12.medium-6.text-center span[itemprop="ratingCount"]
    | Description    // div.cell.small-12[itemprop="description"]
    | Paragraph      // p
    | ReviewSection  // find('div', class_='grid-x grid-padding-x grid-margin-y')
    | ReviewGrid     // find('div', class_='grid-x')
    | ReviewBody     // ... div.flex-child-auto
    | ReviewAuthor   // ... div.flex-child-shrink p b.idLinkify
    | ReviewDate     // ... div.flex-child-shrink p span[itemprop="datePublished"]

  datatype Element = Element(
    tag: string,
    classes: set<string>,
    text: string,
    attributes: map<string, string>,
    children: seq<Element>,
    matches: map<Selector, seq<Element>>)

  /** `find_all` / `select`: every match, in document order. */
  function FindAll(scope: Element, sel: Selector): seq<Element> {
    if sel in scope.matches then scope.matches[sel] else []
  }

  /** `find` / `select_one`: the first match, or None. */
  function Find(scope: Element, sel: Selector): (r: Option<Element>)
    ensures r.None? <==> FindAll(scope, sel) == []
    ensures r.Some? ==> r.value == FindAll(scope, sel)[0]
  {
    var all := FindAll(scope, sel);
    if all == [] then None else Some(all[0])
  }

  /** `extract(html, css_sel)`: the first match of the selector inside the
      scope; a missing scope (the AttributeError the source catches) and a
      selector without matches both give None, and nothing is raised. */
  function Extract(scope: Option<Element>, sel: Selector): (r: Option<Element>)
    ensures r.None? <==> scope.None? || FindAll(scope.value, sel) == []
    ensures r.Some? ==> r.value == FindAll(scope.value, sel)[0] && r.value in FindAll(scope.value, sel)
  {
    match scope
    case None => None
    case Some(e) => Find(e, sel)
  }

  /** `element.text` / `element.get_text()`: AttributeError on None. */
  function TextOf(e: Option<Element>): (r: Result<string>)
    ensures r.Ok? <==> e.Some?
    ensures r.Ok? ==> r.value == e.value.text
    ensures r.Err? ==> r.error == AttributeError
  {
    match e
    case None => Err(AttributeError)
    case Some(x) => Ok(x.text)
  }

  /** `element.get(name)`: the attribute or None; AttributeError on a
      missing element. */
  function AttributeOf(e: Option<Element>, name: string): (r: Result<Option<string>>)
    ensures r.Ok? <==> e.Some?
    ensures r.Ok? ==> (r.value.Some? <==> name in e.value.attributes)
    ensures r.Ok? && r.value.Some? ==> r.value.value == e.value.attributes[name]
    ensures r.Err? ==> r.error == AttributeError
  {
    match e
    case None => Err(AttributeError)
    case Some(x) => Ok(if name in x.attributes then Some(x.attributes[name]) else None)
  }
}
