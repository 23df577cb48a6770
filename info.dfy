/** `parse_info`: the title block, then the second information cell and the
    fields read from it, then the reviews of the whole page. */
module Info {
  import opened Outcomes
  import Text
  import opened Page
  import opened Title
  import opened RatingCount
  import opened Reviews

  /** The mapping `parse_info` returns. */
  datatype Perfume = Perfume(
    name: string,
    gender: seq<string>,
    brand: string,
    brandImageUrl: Option<string>,
    accords: seq<string>,
    bottleImageUrl: Option<string>,
    rating: string,
    ratingCount: int,
    description: string,
    reviews: ReviewList)

  /** The text of each element, in order. */
  function Texts(elements: seq<Element>): (texts: seq<string>)
    decreases |elements|
    ensures |texts| == |elements|
    ensures forall k :: 0 <= k < |elements| ==> texts[k] == elements[k].text
  {
    if elements == [] then []
    else Texts(elements[..|elements| - 1]) + [elements[|elements| - 1].text]
  }

  /** `extract(infoSection, <description>).select_one('p').get_text().rstrip()`:
      a missing description block or paragraph is an AttributeError. */
  function DescriptionOf(info: Element): (r: Result<string>)
    ensures r.Err? ==> r.error == AttributeError
    ensures r.Ok? <==> Extract(Some(info), Description).Some?
                       && Find(Extract(Some(info), Description).value, Paragraph).Some?
    ensures r.Ok? ==>
      var t := FindAll(FindAll(info, Description)[0], Paragraph)[0].text;
      && |r.value| <= |t| && r.value == t[..|r.value|]
      && (forall k :: |r.value| <= k < |t| ==> Text.IsSpace(t[k]))
      && (r.value == [] || !Text.IsSpace(r.value[|r.value| - 1]))
  {
    var block := Extract(Some(info), Description);
    if block.None? then Err(AttributeError)
    else
      var text :- TextOf(Find(block.value, Paragraph));
      Ok(Text.RStrip(text))
  }

  /** What `parse_info(html)` returns or raises, in the order the source
      evaluates it: the title text and its split, the second information
      cell, then the record. */
  function InfoOf(doc: Element): (r: Result<Perfume>)
    ensures Find(doc, TitleBlock).None? ==> r == Err(AttributeError)
    ensures r.Ok? ==> |FindAll(doc, InfoCell)| >= 2 && 1 <= |r.value.gender| <= 2
    ensures r.Ok? ==> ReviewsOf(doc) == Ok(r.value.reviews)
  {
    var name :- TextOf(Find(doc, TitleBlock));
    var split :- SplitTitle(name);
    var cells := FindAll(doc, InfoCell);
    if |cells| < 2 then Err(IndexError)
    else RecordOf(doc, split, cells[1])
  }

  /** The fields read from the information cell `info`, then the reviews
      of the page. */
  function RecordOf(doc: Element, split: TitleGender, info: Element): (r: Result<Perfume>)
    ensures r.Ok? ==> r.value.name == split.title && r.value.gender == split.gender
    ensures r.Ok? ==> ReviewsOf(doc) == Ok(r.value.reviews)
    ensures r.Err? ==> r.error != IndexError
  {
    var brand :- TextOf(Extract(Some(info), BrandName));
    var brandImage :- AttributeOf(Extract(Some(info), BrandLogo), "src");
    var accords := Texts(FindAll(info, AccordBar));
    var bottleImage :- AttributeOf(Extract(Some(info), BottleImage), "src");
    var rating :- TextOf(Extract(Some(info), RatingValue));
    var countText :- TextOf(Extract(Some(info), Selector.RatingCount));
    var count :- ParseRatingCount(countText);
    var description :- DescriptionOf(info);
    var reviews :- ReviewsOf(doc);
    Ok(Perfume(split.title, split.gender, brand, brandImage, accords, bottleImage,
               rating, count, description, reviews))
  }

  /** `parse_info(html)`, with the accords loop and the call to `parse_reviews`. */
  method ParseInfo(doc: Element) returns (r: Result<Perfume>)
    ensures r == InfoOf(doc)
  {
    var name :- TextOf(Find(doc, TitleBlock));
    var split :- SplitTitle(name);
    var cells := FindAll(doc, InfoCell);
    if |cells| < 2 {
      return Err(IndexError);
    }
    var info := cells[1];
    var brand :- TextOf(Extract(Some(info), BrandName));
    var brandImage :- AttributeOf(Extract(Some(info), BrandLogo), "src");
    var bars := FindAll(info, AccordBar);
    var accords: seq<string> := [];
    for i := 0 to |bars|
      invariant accords == Texts(bars[..i])
    {
      assert bars[..i + 1][..i] == bars[..i];
      accords := accords + [bars[i].text];
    }
    assert bars[..|bars|] == bars;
    var bottleImage :- AttributeOf(Extract(Some(info), BottleImage), "src");
    var rating :- TextOf(Extract(Some(info), RatingValue));
    var countText :- TextOf(Extract(Some(info), Selector.RatingCount));
    var count :- ParseRatingCount(countText);
    var description :- DescriptionOf(info);
    var reviews :- ParseReviews(doc);
    return Ok(Perfume(split.title, split.gender, brand, brandImage, accords, bottleImage,
                      rating, count, description, reviews));
  }

  /** A page without the title block fails at its `.text`. */
  lemma NoTitleBlock(doc: Element)
    requires Find(doc, TitleBlock).None?
    ensures InfoOf(doc) == Err(AttributeError)
  {
  }

  /** With a readable title, fewer than two information cells make
      `find_all(...)[1]` raise IndexError, before any field is read. */
  lemma TooFewInfoCells(doc: Element)
    requires Find(doc, TitleBlock).Some?
    requires SplitTitle(Find(doc, TitleBlock).value.text).Ok?
    requires |FindAll(doc, InfoCell)| < 2
    ensures InfoOf(doc) == Err(IndexError)
  {
  }

  /** A title the split rejects aborts the parse with its IndexError. */
  lemma TitleWithoutGender(doc: Element)
    requires Find(doc, TitleBlock).Some?
    requires SplitTitle(Find(doc, TitleBlock).value.text).Err?
    ensures InfoOf(doc) == Err(IndexError)
  {
  }

  /** A completed parse took its title and gender from the split of the
      title text and its fields from the second information cell. */
  lemma ParsedHeader(doc: Element)
    requires InfoOf(doc).Ok?
    ensures Find(doc, TitleBlock).Some?
    ensures SplitTitle(FindAll(doc, TitleBlock)[0].text).Ok?
    ensures |FindAll(doc, InfoCell)| >= 2
    ensures var split := SplitTitle(FindAll(doc, TitleBlock)[0].text).value;
      && 1 <= |split.gender| <= 2
      && InfoOf(doc) == RecordOf(doc, split, FindAll(doc, InfoCell)[1])
  {
  }

  /** The five lookups `parse_info` dereferences in the information cell. */
  predicate FieldsPresent(info: Element) {
    && FindAll(info, BrandName) != []
    && FindAll(info, BrandLogo) != []
    && FindAll(info, BottleImage) != []
    && FindAll(info, RatingValue) != []
    && FindAll(info, Selector.RatingCount) != []
  }

  /** The record is built exactly when every lookup matches, the count
      reads as an integer, the description is there and the reviews parse. */
  lemma RecordCompletes(doc: Element, split: TitleGender, info: Element)
    ensures RecordOf(doc, split, info).Ok? <==>
      && FieldsPresent(info)
      && ParseRatingCount(FindAll(info, Selector.RatingCount)[0].text).Ok?
      && DescriptionOf(info).Ok?
      && ReviewsOf(doc).Ok?
  {
  }

  /** Which error a failed record raises, in the order the source meets
      them: a missing field, then the count, then the description, then
      the reviews. */
  lemma RecordErrors(doc: Element, split: TitleGender, info: Element)
    ensures !FieldsPresent(info) ==> RecordOf(doc, split, info) == Err(AttributeError)
    ensures FieldsPresent(info) && ParseRatingCount(FindAll(info, Selector.RatingCount)[0].text).Err? ==>
      RecordOf(doc, split, info) == Err(ValueError)
    ensures FieldsPresent(info) && ParseRatingCount(FindAll(info, Selector.RatingCount)[0].text).Ok?
            && DescriptionOf(info).Err? ==>
      RecordOf(doc, split, info) == Err(AttributeError)
    ensures FieldsPresent(info) && ParseRatingCount(FindAll(info, Selector.RatingCount)[0].text).Ok?
            && DescriptionOf(info).Ok? && ReviewsOf(doc).Err? ==>
      RecordOf(doc, split, info) == Err(ReviewsOf(doc).error)
  {
  }

  /** The fields of a completed record: the names and gender given, the
      brand and rating texts, the two image sources when the images carry
      one, one accord per accord bar in order, the count as
      ParseRatingCount reads it, the description and the reviews of the page. */
  lemma ParsedFields(doc: Element, split: TitleGender, info: Element, src: string)
    requires src == "src"
    requires RecordOf(doc, split, info).Ok?
    ensures FieldsPresent(info)
    ensures var p := RecordOf(doc, split, info).value;
      && p.name == split.title && p.gender == split.gender
      && p.brand == FindAll(info, BrandName)[0].text
      && (p.brandImageUrl.Some? <==> src in FindAll(info, BrandLogo)[0].attributes)
      && (p.brandImageUrl.Some? ==> p.brandImageUrl.value == FindAll(info, BrandLogo)[0].attributes[src])
      && |p.accords| == |FindAll(info, AccordBar)|
      && (forall k :: 0 <= k < |p.accords| ==> p.accords[k] == FindAll(info, AccordBar)[k].text)
      && (p.bottleImageUrl.Some? <==> src in FindAll(info, BottleImage)[0].attributes)
      && (p.bottleImageUrl.Some? ==> p.bottleImageUrl.value == FindAll(info, BottleImage)[0].attributes[src])
      && p.rating == FindAll(info, RatingValue)[0].text
      && ParseRatingCount(FindAll(info, Selector.RatingCount)[0].text) == Ok(p.ratingCount)
      && DescriptionOf(info) == Ok(p.description)
      && ReviewsOf(doc) == Ok(p.reviews)
  {
  }

  /** The description of a completed record is the paragraph's text with
      its trailing whitespace, and only that, removed. */
  lemma ParsedDescription(doc: Element, split: TitleGender, info: Element)
    requires RecordOf(doc, split, info).Ok?
    ensures FindAll(info, Description) != [] && FindAll(FindAll(info, Description)[0], Paragraph) != []
    ensures var d := RecordOf(doc, split, info).value.description;
      var t := FindAll(FindAll(info, Description)[0], Paragraph)[0].text;
      && |d| <= |t| && d == t[..|d|]
      && (forall k :: |d| <= k < |t| ==> Text.IsSpace(t[k]))
      && (d == [] || !Text.IsSpace(d[|d| - 1]))
  {
    RecordCompletes(doc, split, info);
    assert RecordOf(doc, split, info).value.description == DescriptionOf(info).value;
  }
}
