/** `scrape_all(url)`: fetch the page with the default budget, then parse
    it; None when every attempt failed. The page request is the oracle of
    the Fetch module. */
module Scrape {
  import opened Outcomes
  import opened Page
  import opened Fetch
  import opened Info

  /** What `scrape_all` returns or raises: Ok(None) after three failed
      attempts, otherwise the parse of the first fetched document. */
  function ScrapeOf(outcome: nat -> Attempt<Element>): (r: Result<Option<Perfume>>)
    ensures r == Ok(None) <==> forall j :: 0 <= j < DefaultMaxRetries ==> outcome(j).Failed?
    ensures r.Ok? && r.value.Some? ==>
      var k := FirstSuccess(outcome, DefaultMaxRetries);
      k.Some? && InfoOf(outcome(k.value).document) == Ok(r.value.value)
    ensures r.Err? ==>
      var k := FirstSuccess(outcome, DefaultMaxRetries);
      k.Some? && InfoOf(outcome(k.value).document) == Err(r.error)
  {
    match FirstSuccess(outcome, DefaultMaxRetries)
    case None => Ok(None)
    case Some(k) =>
      var p :- InfoOf(outcome(k).document);
      Ok(Some(p))
  }

  /** `scrape_all(url)`, with the number of attempts and sleeps it takes. */
  method ScrapeAll(outcome: nat -> Attempt<Element>)
    returns (r: Result<Option<Perfume>>, attempts: nat, sleeps: nat)
    ensures r == ScrapeOf(outcome)
    ensures FirstSuccess(outcome, DefaultMaxRetries).None? ==> attempts == sleeps == DefaultMaxRetries
    ensures FirstSuccess(outcome, DefaultMaxRetries).Some? ==>
      attempts == FirstSuccess(outcome, DefaultMaxRetries).value + 1 && sleeps == attempts - 1
    ensures attempts <= DefaultMaxRetries
  {
    var html;
    html, attempts, sleeps := GetHtml(DefaultMaxRetries, outcome);
    if html.None? {
      return Ok(None), attempts, sleeps;
    }
    var p := ParseInfo(html.value);
    if p.Err? {
      return Err(p.error), attempts, sleeps;
    }
    return Ok(Some(p.value)), attempts, sleeps;
  }

  /** Three failed attempts give None, whatever later attempts would give. */
  lemma AllAttemptsFail(outcome: nat -> Attempt<Element>)
    requires outcome(0).Failed? && outcome(1).Failed? && outcome(2).Failed?
    ensures ScrapeOf(outcome) == Ok(None)
  {
  }

  /** Otherwise the result is the parse of the first fetched document:
      its record, or the fault it raises. */
  lemma FetchedThenParsed(outcome: nat -> Attempt<Element>, k: nat)
    requires k < DefaultMaxRetries && outcome(k).Fetched?
    requires forall j :: 0 <= j < k ==> outcome(j).Failed?
    ensures InfoOf(outcome(k).document).Ok? ==> ScrapeOf(outcome) == Ok(Some(InfoOf(outcome(k).document).value))
    ensures InfoOf(outcome(k).document).Err? ==> ScrapeOf(outcome) == Err(InfoOf(outcome(k).document).error)
  {
    assert FirstSuccess(outcome, DefaultMaxRetries) == Some(k);
  }
}
