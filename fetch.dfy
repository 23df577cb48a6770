/** `get_html`: up to `max_retries` GET attempts, sleeping after every
    failed one (the length of a sleep, five seconds, is not modelled; only
    their number is). The network is an oracle: `outcome(k)` is what the k-th
    attempt (counting from 0) yields. */
module Fetch {
  import opened Outcomes

  /** The default attempt budget of `get_html`. */
  const DefaultMaxRetries := 3

  /** One attempt: a parsed document, or a RequestException. */
  datatype Attempt<D> = Fetched(document: D) | Failed

  function FirstSuccessFrom<D>(outcome: nat -> Attempt<D>, i: nat, budget: int): (k: Option<nat>)
    decreases budget - i
    ensures k.Some? ==> i <= k.value < budget && outcome(k.value).Fetched?
    ensures k.Some? ==> forall j :: i <= j < k.value ==> outcome(j).Failed?
    ensures k.None? ==> forall j :: i <= j < budget ==> outcome(j).Failed?
  {
    if budget <= i then None
    else if outcome(i).Fetched? then Some(i)
    else FirstSuccessFrom(outcome, i + 1, budget)
  }

  /** The index of the first successful attempt among the first `budget`
      attempts, if any. */
  function FirstSuccess<D>(outcome: nat -> Attempt<D>, budget: int): (k: Option<nat>)
    ensures k.Some? <==> exists j :: 0 <= j < budget && outcome(j).Fetched?
    ensures k.Some? ==> outcome(k.value).Fetched? && forall j :: 0 <= j < k.value ==> outcome(j).Failed?
    ensures k.Some? ==> k.value < budget
  {
    FirstSuccessFrom(outcome, 0, budget)
  }

  /** A larger budget does not change an attempt that already succeeded. */
  lemma FirstSuccessStable<D>(outcome: nat -> Attempt<D>, budget: int, larger: int)
    requires budget <= larger
    requires FirstSuccess(outcome, budget).Some?
    ensures FirstSuccess(outcome, larger) == FirstSuccess(outcome, budget)
  {
  }

  /** `get_html(url, max_retries)`. Returns the document of the first
      successful attempt, or None once `max_retries` attempts have failed
      (after falling off the end of the loop), together with the number of
      attempts made and the number of sleeps taken. */
  method GetHtml<D(==)>(maxRetries: int, outcome: nat -> Attempt<D>)
    returns (doc: Option<D>, attempts: nat, sleeps: nat)
    ensures FirstSuccess(outcome, maxRetries).Some? ==>
      var k := FirstSuccess(outcome, maxRetries).value;
      doc == Some(outcome(k).document) && attempts == k + 1 && sleeps == k
    ensures FirstSuccess(outcome, maxRetries).None? ==>
      doc == None && attempts == sleeps == (if maxRetries <= 0 then 0 else maxRetries)
    ensures attempts <= (if maxRetries <= 0 then 0 else maxRetries)
  {
    var retries := 0;
    attempts, sleeps := 0, 0;
    while retries < maxRetries
      invariant 0 <= retries && (retries <= maxRetries || retries == 0)
      invariant attempts == retries && sleeps == retries
      invariant forall j :: 0 <= j < retries ==> outcome(j).Failed?
      decreases maxRetries - retries
    {
      attempts := attempts + 1;
      match outcome(retries)
      case Fetched(d) =>
        doc := Some(d);
        return;
      case Failed =>
        retries := retries + 1;
        sleeps := sleeps + 1;
    }
    doc := None;
  }
}
