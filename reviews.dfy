/** `parse_reviews`: the review boxes of the review section, each read into
    a record, with the record of the latest box that had an inner grid
    appended once per box. */
module Reviews {
  import opened Outcomes
  import opened Page

  /** `:nth-child(-n+21)`: only boxes at child positions 1 to 21 are selected. */
  const MaxBoxPosition := 21

  datatype Review = Review(author: string, date: Option<string>, body: string)

  /** What `parse_reviews` returns: the string 'No reviews on this page.'
      when the page has no review section, otherwise the list. */
  datatype ReviewList = NoReviews | Listed(reviews: seq<Review>)

  /** `div.cell.fragrance-review-box`. */
  predicate IsReviewBox(e: Element) {
    e.tag == "div" && "cell" in e.classes && "fragrance-review-box" in e.classes
  }

  /** The review boxes among `children`, in order. */
  function BoxesAmong(children: seq<Element>): (boxes: seq<Element>)
    decreases |children|
    ensures |boxes| <= |children|
    ensures forall b :: b in boxes ==> b in children && IsReviewBox(b)
    ensures forall c :: c in children && IsReviewBox(c) ==> c in boxes
  {
    if children == [] then []
    else (if IsReviewBox(children[0]) then [children[0]] else []) + BoxesAmong(children[1..])
  }

  /** `select('div.cell.fragrance-review-box:nth-child(-n+21)')` over the
      section's children. */
  function SelectedBoxes(section: Element): (boxes: seq<Element>)
    ensures |boxes| <= MaxBoxPosition
    ensures var first := section.children[..if |section.children| < MaxBoxPosition then |section.children| else MaxBoxPosition];
      && (forall b :: b in boxes ==> IsReviewBox(b) && b in first)
      && (forall k :: 0 <= k < |first| && IsReviewBox(first[k]) ==> first[k] in boxes)
  {
    var n := if |section.children| < MaxBoxPosition then |section.children| else MaxBoxPosition;
    BoxesAmong(section.children[..n])
  }

  /** `review_box.find('div', class_='grid-x')`. */
  function GridOf(box: Element): Option<Element> {
    Find(box, ReviewGrid)
  }

  predicate HasGrid(box: Element) {
    GridOf(box).Some?
  }

  /** The record read from an inner grid: the body text, the author text
      and the `content` attribute of the date, each from its lookup; a
      missing lookup is an AttributeError. */
  function ReviewRecord(grid: Element): (r: Result<Review>)
    ensures r.Ok? <==> Extract(Some(grid), ReviewBody).Some? && Extract(Some(grid), ReviewAuthor).Some?
                       && Extract(Some(grid), ReviewDate).Some?
    ensures r.Err? ==> r.error == AttributeError
    ensures r.Ok? ==>
      && r.value.body == FindAll(grid, ReviewBody)[0].text
      && r.value.author == FindAll(grid, ReviewAuthor)[0].text
      && (r.value.date.Some? <==> "content" in FindAll(grid, ReviewDate)[0].attributes)
      && (r.value.date.Some? ==> r.value.date.value == FindAll(grid, ReviewDate)[0].attributes["content"])
  {
    var body :- TextOf(Extract(Some(grid), ReviewBody));
    var author :- TextOf(Extract(Some(grid), ReviewAuthor));
    var date :- AttributeOf(Extract(Some(grid), ReviewDate), "content");
    Ok(Review(author, date, body))
  }

  function BoxRecord(box: Element): Result<Review>
    requires HasGrid(box)
  {
    ReviewRecord(GridOf(box).value)
  }

  /** The loop state: the list so far and `item`, which is unbound (None)
      until the first box with a grid. */
  datatype Acc = Acc(reviews: seq<Review>, item: Option<Review>)

  /** One iteration: a box with a grid sets `item` to its record; either
      way `item` is appended, which raises UnboundLocalError while unbound. */
  function Step(acc: Acc, box: Element): (r: Result<Acc>)
    ensures r.Ok? ==>
      && |r.value.reviews| == |acc.reviews| + 1
      && r.value.reviews[..|acc.reviews|] == acc.reviews
      && r.value.item.Some? && r.value.reviews[|acc.reviews|] == r.value.item.value
    ensures r.Err? ==>
      || (HasGrid(box) && r.error == AttributeError)
      || (!HasGrid(box) && acc.item.None? && r.error == UnboundLocalError)
  {
    match GridOf(box)
    case Some(grid) =>
      var it :- ReviewRecord(grid);
      Ok(Acc(acc.reviews + [it], Some(it)))
    case None =>
      if acc.item.None? then Err(UnboundLocalError)
      else Ok(Acc(acc.reviews + [acc.item.value], acc.item))
  }

  /** The loop over `boxes`, from the empty list and an unbound `item`. */
  function Accumulate(boxes: seq<Element>): (r: Result<Acc>)
    decreases |boxes|
    ensures r.Ok? ==> |r.value.reviews| == |boxes|
    ensures r.Ok? ==> r.value.item == if boxes == [] then None else Some(r.value.reviews[|boxes| - 1])
    ensures r.Err? ==> r.error == AttributeError || r.error == UnboundLocalError
  {
    if boxes == [] then Ok(Acc([], None))
    else
      var acc :- Accumulate(boxes[..|boxes| - 1]);
      Step(acc, boxes[|boxes| - 1])
  }

  /** What `parse_reviews(html)` returns or raises. */
  function ReviewsOf(doc: Element): (r: Result<ReviewList>)
    ensures r == Ok(NoReviews) <==> Find(doc, ReviewSection).None?
    ensures r.Ok? && r.value.Listed? ==> |r.value.reviews| <= MaxBoxPosition
    ensures r.Err? ==> r.error == AttributeError || r.error == UnboundLocalError
  {
    match Find(doc, ReviewSection)
    case None => Ok(NoReviews)
    case Some(section) =>
      var acc :- Accumulate(SelectedBoxes(section));
      Ok(Listed(acc.reviews))
  }

  /** Once the loop has raised, the remaining boxes change nothing. */
  lemma {:induction false} AccumulateErrSticks(boxes: seq<Element>, n: nat)
    requires n <= |boxes|
    requires Accumulate(boxes[..n]).Err?
    ensures Accumulate(boxes) == Accumulate(boxes[..n])
    decreases |boxes| - n
  {
    if n < |boxes| {
      var p := boxes[..n + 1];
      assert p[..|p| - 1] == boxes[..n];
      AccumulateErrSticks(boxes, n + 1);
    } else {
      assert boxes[..n] == boxes;
    }
  }

  /** One more box is one more `Step`. */
  lemma AccumulateSnoc(boxes: seq<Element>, i: nat)
    requires i < |boxes| && Accumulate(boxes[..i]).Ok?
    ensures Accumulate(boxes[..i + 1]) == Step(Accumulate(boxes[..i]).value, boxes[i])
  {
    assert boxes[..i + 1][..i] == boxes[..i];
  }

  /** `parse_reviews(html)`. */
  method ParseReviews(doc: Element) returns (r: Result<ReviewList>)
    ensures r == ReviewsOf(doc)
  {
    var section := Find(doc, ReviewSection);
    if section.None? {
      return Ok(NoReviews);
    }
    var boxes := SelectedBoxes(section.value);
    var reviews: seq<Review> := [];
    var item: Option<Review> := None;
    for i := 0 to |boxes|
      invariant Accumulate(boxes[..i]) == Ok(Acc(reviews, item))
    {
      AccumulateSnoc(boxes, i);
      var grid := GridOf(boxes[i]);
      if grid.Some? {
        var record := ReviewRecord(grid.value);
        if record.Err? {
          AccumulateErrSticks(boxes, i + 1);
          return Err(record.error);
        }
        item := Some(record.value);
      } else if item.None? {
        AccumulateErrSticks(boxes, i + 1);
        return Err(UnboundLocalError);
      }
      reviews := reviews + [item.value];
    }
    assert boxes[..|boxes|] == boxes;
    return Ok(Listed(reviews));
  }

  /** The index of the latest box at or before `k` that has a grid. */
  function LatestGrid(boxes: seq<Element>, k: nat): (j: Option<nat>)
    requires k < |boxes|
    decreases k
    ensures j.Some? ==> j.value <= k && HasGrid(boxes[j.value])
    ensures j.Some? ==> forall m :: j.value < m <= k ==> !HasGrid(boxes[m])
    ensures j.None? ==> forall m :: 0 <= m <= k ==> !HasGrid(boxes[m])
  {
    if HasGrid(boxes[k]) then Some(k)
    else if k == 0 then None
    else LatestGrid(boxes, k - 1)
  }

  /** Boxes added after `k` do not change the latest grid at `k`. */
  lemma {:induction false} LatestGridPrefix(boxes: seq<Element>, n: nat, k: nat)
    requires k < n <= |boxes|
    ensures LatestGrid(boxes[..n], k) == LatestGrid(boxes, k)
    decreases k
  {
    assert boxes[..n][k] == boxes[k];
    if !HasGrid(boxes[k]) && k > 0 {
      LatestGridPrefix(boxes, n, k - 1);
    }
  }

  /** Every box with a grid yields a record. */
  predicate RecordsReadable(boxes: seq<Element>) {
    forall k :: 0 <= k < |boxes| && HasGrid(boxes[k]) ==> BoxRecord(boxes[k]).Ok?
  }

  /** Entry `k` is the record of the latest box at or before `k` with a grid. */
  predicate EntriesFollowLatestGrid(boxes: seq<Element>, reviews: seq<Review>) {
    && |reviews| == |boxes|
    && forall k :: 0 <= k < |boxes| ==>
         && LatestGrid(boxes, k).Some?
         && BoxRecord(boxes[LatestGrid(boxes, k).value]) == Ok(reviews[k])
  }

  /** The loop's outcome in closed form: it completes exactly when there are
      no boxes or the first box has a grid, and every grid yields a record;
      it then holds one entry per box, that of the latest grid so far, and
      `item` is the last entry. */
  lemma {:induction false} AccumulateClosedForm(boxes: seq<Element>)
    ensures Accumulate(boxes).Ok? <==> (boxes == [] || HasGrid(boxes[0])) && RecordsReadable(boxes)
    ensures Accumulate(boxes).Ok? ==>
      var acc := Accumulate(boxes).value;
      && EntriesFollowLatestGrid(boxes, acc.reviews)
      && acc.item == (if boxes == [] then None else Some(acc.reviews[|boxes| - 1]))
    decreases |boxes|
  {
    if boxes != [] {
      var n := |boxes| - 1;
      var p := boxes[..n];
      var b := boxes[n];
      AccumulateClosedForm(p);
      ReadableSnoc(boxes);
      if n > 0 {
        assert p[0] == boxes[0];
      }
      if Accumulate(p).Ok? {
        var acc := Accumulate(p).value;
        assert Accumulate(boxes) == Step(acc, b);
        StepOutcome(acc, b);
        if Accumulate(boxes).Ok? {
          EntriesStep(boxes, acc, Accumulate(boxes).value);
        }
      }
    }
  }

  /** The inductive step of the correspondence, from the prefix without the
      last box to all of `boxes`. */
  lemma EntriesStep(boxes: seq<Element>, acc: Acc, next: Acc)
    requires boxes != []
    requires EntriesFollowLatestGrid(boxes[..|boxes| - 1], acc.reviews)
    requires acc.item == (if |boxes| == 1 then None else Some(acc.reviews[|boxes| - 2]))
    requires Step(acc, boxes[|boxes| - 1]) == Ok(next)
    ensures EntriesFollowLatestGrid(boxes, next.reviews)
    ensures next.item == Some(next.reviews[|boxes| - 1])
  {
    var n := |boxes| - 1;
    var b := boxes[n];
    StepOutcome(acc, b);
    if !HasGrid(b) {
      assert LatestGrid(boxes, n) == LatestGrid(boxes, n - 1);
      LatestGridPrefix(boxes, n, n - 1);
      assert boxes[..n][LatestGrid(boxes, n - 1).value] == boxes[LatestGrid(boxes, n - 1).value];
    }
    EntriesSnoc(boxes, acc.reviews, next.item.value);
  }

  /** One iteration completes exactly when a grid yields its record, or
      there is no grid and `item` is bound; it appends one entry and leaves
      `item` equal to it. */
  lemma StepOutcome(acc: Acc, box: Element)
    ensures Step(acc, box).Ok? <==>
      (if HasGrid(box) then BoxRecord(box).Ok? else acc.item.Some?)
    ensures Step(acc, box).Ok? ==>
      var next := Step(acc, box).value;
      && next.reviews == acc.reviews + [next.item.value]
      && next.item.Some?
      && (HasGrid(box) ==> BoxRecord(box) == Ok(next.item.value))
      && (!HasGrid(box) ==> next.item == acc.item)
  {
  }

  /** Appending the record of the latest grid at the new last box extends
      the correspondence from the prefix to all of `boxes`. */
  lemma EntriesSnoc(boxes: seq<Element>, reviews: seq<Review>, x: Review)
    requires boxes != []
    requires EntriesFollowLatestGrid(boxes[..|boxes| - 1], reviews)
    requires LatestGrid(boxes, |boxes| - 1).Some?
    requires BoxRecord(boxes[LatestGrid(boxes, |boxes| - 1).value]) == Ok(x)
    ensures EntriesFollowLatestGrid(boxes, reviews + [x])
  {
    var n := |boxes| - 1;
    var p := boxes[..n];
    forall k | 0 <= k < n
      ensures LatestGrid(boxes, k).Some? && BoxRecord(boxes[LatestGrid(boxes, k).value]) == Ok((reviews + [x])[k])
    {
      LatestGridPrefix(boxes, n, k);
      assert p[LatestGrid(p, k).value] == boxes[LatestGrid(p, k).value];
    }
  }

  lemma ReadableSnoc(boxes: seq<Element>)
    requires boxes != []
    ensures RecordsReadable(boxes) <==>
      RecordsReadable(boxes[..|boxes| - 1]) && (HasGrid(boxes[|boxes| - 1]) ==> BoxRecord(boxes[|boxes| - 1]).Ok?)
  {
    var p := boxes[..|boxes| - 1];
    assert forall k :: 0 <= k < |p| ==> p[k] == boxes[k];
  }

  /** A box without a grid repeats the entry before it: the stale `item`. */
  lemma StaleItemRepeated(boxes: seq<Element>, k: nat)
    requires Accumulate(boxes).Ok?
    requires 0 < k < |boxes| && !HasGrid(boxes[k])
    ensures var reviews := Accumulate(boxes).value.reviews;
      |reviews| == |boxes| && reviews[k] == reviews[k - 1]
  {
    AccumulateClosedForm(boxes);
    assert LatestGrid(boxes, k) == LatestGrid(boxes, k - 1);
  }

  /** A first box without a grid appends the unbound `item`. */
  lemma FirstBoxWithoutGrid(boxes: seq<Element>)
    requires boxes != [] && !HasGrid(boxes[0])
    ensures Accumulate(boxes) == Err(UnboundLocalError)
  {
    assert boxes[..1][..0] == [];
    AccumulateErrSticks(boxes, 1);
  }

  /** The sentinel is returned exactly when the page has no review section. */
  lemma NoSectionSentinel(doc: Element)
    ensures ReviewsOf(doc) == Ok(NoReviews) <==> Find(doc, ReviewSection).None?
  {
  }

  /** With a review section: the call completes exactly when there are no
      boxes or the first has a grid, and every grid yields a record; the
      list then holds one entry per selected box, at most 21, each the
      record of the latest box so far with a grid. */
  lemma ReviewsClosedForm(doc: Element)
    requires Find(doc, ReviewSection).Some?
    ensures var boxes := SelectedBoxes(Find(doc, ReviewSection).value);
      && (ReviewsOf(doc).Ok? <==> (boxes == [] || HasGrid(boxes[0])) && RecordsReadable(boxes))
      && (ReviewsOf(doc).Ok? ==>
            && ReviewsOf(doc).value.Listed?
            && |ReviewsOf(doc).value.reviews| <= MaxBoxPosition
            && EntriesFollowLatestGrid(boxes, ReviewsOf(doc).value.reviews))
  {
    AccumulateClosedForm(SelectedBoxes(Find(doc, ReviewSection).value));
  }

  /** Raising is limited to the two faults of the source: a missing field
      of a grid, or the unbound `item`. */
  lemma ReviewsErrors(doc: Element)
    requires ReviewsOf(doc).Err?
    ensures ReviewsOf(doc).error == AttributeError || ReviewsOf(doc).error == UnboundLocalError
  {
  }

  /** When the first 21 children are all review boxes, all of them are selected. */
  lemma {:induction false} AllBoxesSelected(children: seq<Element>)
    requires forall k :: 0 <= k < |children| ==> IsReviewBox(children[k])
    ensures BoxesAmong(children) == children
    decreases |children|
  {
    if children != [] {
      assert forall k :: 0 <= k < |children| - 1 ==> children[1..][k] == children[k + 1];
      AllBoxesSelected(children[1..]);
    }
  }

  /** Selection distributes over concatenation: the boxes of `a + b`
      are those of `a` followed by those of `b`, so document order is kept. */
  lemma {:induction false} BoxesAmongAppend(a: seq<Element>, b: seq<Element>)
    ensures BoxesAmong(a + b) == BoxesAmong(a) + BoxesAmong(b)
    decreases |a|
  {
    if a == [] {
      assert a + b == b;
    } else {
      assert (a + b)[0] == a[0];
      assert (a + b)[1..] == a[1..] + b;
      BoxesAmongAppend(a[1..], b);
    }
  }

  /** A child that is not a review box is dropped wherever it stands. */
  lemma OnlyBoxesSelected(a: seq<Element>, c: Element, b: seq<Element>)
    requires !IsReviewBox(c)
    ensures BoxesAmong(a + [c] + b) == BoxesAmong(a) + BoxesAmong(b)
  {
    calc {
      BoxesAmong(a + [c] + b);
      { BoxesAmongAppend(a + [c], b); }
      BoxesAmong(a + [c]) + BoxesAmong(b);
      { BoxesAmongAppend(a, [c]); }
      BoxesAmong(a) + BoxesAmong([c]) + BoxesAmong(b);
      { BoxesAmongOne(c); }
      BoxesAmong(a) + [] + BoxesAmong(b);
      { assert BoxesAmong(a) + [] == BoxesAmong(a); }
      BoxesAmong(a) + BoxesAmong(b);
    }
  }

  /** A review box is kept, in its place between the boxes before it and
      the boxes after it. */
  lemma BoxKeptInPlace(a: seq<Element>, c: Element, b: seq<Element>)
    requires IsReviewBox(c)
    ensures BoxesAmong(a + [c] + b) == BoxesAmong(a) + [c] + BoxesAmong(b)
  {
    calc {
      BoxesAmong(a + [c] + b);
      { BoxesAmongAppend(a + [c], b); }
      BoxesAmong(a + [c]) + BoxesAmong(b);
      { BoxesAmongAppend(a, [c]); }
      BoxesAmong(a) + BoxesAmong([c]) + BoxesAmong(b);
      { BoxesAmongOne(c); }
      BoxesAmong(a) + [c] + BoxesAmong(b);
    }
  }

  /** One child is selected exactly when it is a review box. */
  lemma BoxesAmongOne(c: Element)
    ensures BoxesAmong([c]) == if IsReviewBox(c) then [c] else []
  {
    assert [c][1..] == [];
  }
}
