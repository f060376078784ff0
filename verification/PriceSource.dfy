/** Choosing one provider's price for each model out of a price list with many providers. */
module PriceSource {
  import opened Options
  import opened PriceTable
  import opened Sequences
  import opened StringOrder

  datatype Cost = Cost(input: Option<real>, output: Option<real>, cacheRead: Option<real>)

  datatype Candidate = Candidate(provider: string, input: real, output: Option<real>, cacheRead: Option<real>)

  type PriceList = map<string, map<string, Cost>>

  /** Costs that cannot be turned into ratios make no candidate; a bad cache price is only dropped. */
  function BuildCandidate(provider: string, cost: Cost): (candidate: Option<Candidate>)
    ensures candidate.Some? <==>
      && cost.input.Some? && cost.input.value >= 0.0
      && (cost.output.Some? ==> cost.output.value == 0.0 || (cost.output.value > 0.0 && cost.input.value > 0.0))
    ensures candidate.Some? ==>
      && candidate.value.provider == provider
      && Some(candidate.value.input) == cost.input && candidate.value.output == cost.output
      && (candidate.value.cacheRead == cost.cacheRead || candidate.value.cacheRead.None?)
      && (candidate.value.cacheRead.Some? <==> cost.cacheRead.Some? && cost.cacheRead.value >= 0.0)
  {
    if cost.input.None? || cost.input.value < 0.0 then None
    else if cost.output.Some? && cost.output.value < 0.0 then None
    else if cost.input.value == 0.0 && cost.output.Some? && cost.output.value > 0.0 then None
    else
      var cacheRead := if cost.cacheRead.Some? && cost.cacheRead.value >= 0.0 then cost.cacheRead else None;
      Some(Candidate(provider, cost.input.value, cost.output, cacheRead))
  }

  predicate ShouldReplace(current: Candidate, next: Candidate) {
    if (current.input > 0.0) != (next.input > 0.0) then next.input > 0.0
    else if next.input > 0.0 && !NearlyEqual(next.input, current.input) then next.input < current.input
    else Less(next.provider, current.provider)
  }

  /** The outcome of visiting candidates in the given order. */
  function Pick(candidates: seq<Candidate>): Option<Candidate> {
    if candidates == [] then None
    else
      var current, next := Pick(candidates[..|candidates| - 1]), candidates[|candidates| - 1];
      if current.None? || ShouldReplace(current.value, next) then Some(next) else current
  }

  function Offer(prices: PriceList, provider: string, model: string): Option<Candidate> {
    if provider in prices && model in prices[provider] then BuildCandidate(provider, prices[provider][model]) else None
  }

  /** The candidates for a model, in provider order. */
  function Offers(prices: PriceList, providers: seq<string>, model: string): seq<Candidate> {
    if providers == [] then []
    else
      var rest := Offers(prices, providers[..|providers| - 1], model);
      var offer := Offer(prices, providers[|providers| - 1], model);
      if offer.Some? then rest + [offer.value] else rest
  }

  ghost predicate Selects(prices: PriceList, providers: seq<string>, selected: map<string, Candidate>) {
    forall model ::
      (model in selected <==> Pick(Offers(prices, providers, model)).Some?) &&
      (model in selected ==> Pick(Offers(prices, providers, model)) == Some(selected[model]))
  }

  ghost predicate Same(a: map<string, Candidate>, b: map<string, Candidate>, model: string) {
    (model in a <==> model in b) && (model in a ==> a[model] == b[model])
  }

  /** The selection for one model after one more provider. */
  ghost predicate Updated(
    prices: PriceList, before: map<string, Candidate>, after: map<string, Candidate>, provider: string, model: string)
  {
    var offer := Offer(prices, provider, model);
    var next := if offer.Some? && (model !in before || ShouldReplace(before[model], offer.value)) then offer
                else if model in before then Some(before[model]) else None;
    (model in after <==> next.Some?) && (model in after ==> next == Some(after[model]))
  }

  lemma FreshName(names: seq<string>, i: nat)
    requires Ascending(names) && i < |names|
    ensures names[i] !in names[..i]
  {
    LessIrreflexive(names[i]);
  }

  /** One provider's models, in model order. */
  method VisitProvider(prices: PriceList, provider: string, before: map<string, Candidate>)
    returns (selected: map<string, Candidate>)
    requires provider in prices
    ensures forall model :: Updated(prices, before, selected, provider, model)
  {
    var modelNames := SortedKeys(prices[provider].Keys);
    selected := before;
    for i := 0 to |modelNames|
      invariant forall model :: model in modelNames[..i] ==> Updated(prices, before, selected, provider, model)
      invariant forall model :: model !in modelNames[..i] ==> Same(before, selected, model)
    {
      var model := modelNames[i];
      assert modelNames[..i + 1] == modelNames[..i] + [model];
      FreshName(modelNames, i);
      assert Same(before, selected, model);
      assert model in Elems(modelNames);
      var candidate := BuildCandidate(provider, prices[provider][model]);
      if candidate.Some? {
        if model !in selected || ShouldReplace(selected[model], candidate.value) {
          selected := selected[model := candidate.value];
        }
      }
      assert Updated(prices, before, selected, provider, model);
    }
    assert modelNames[..|modelNames|] == modelNames;
    forall model ensures Updated(prices, before, selected, provider, model) {
      if model !in modelNames {
        assert model !in Elems(modelNames);
        assert Same(before, selected, model);
      }
    }
  }

  lemma UpdatedSelects(
    prices: PriceList, providers: seq<string>, n: nat, before: map<string, Candidate>, after: map<string, Candidate>)
    requires n < |providers| && Selects(prices, providers[..n], before)
    requires forall model :: Updated(prices, before, after, providers[n], model)
    ensures Selects(prices, providers[..n + 1], after)
  {
    forall model ensures
      (model in after <==> Pick(Offers(prices, providers[..n + 1], model)).Some?) &&
      (model in after ==> Pick(Offers(prices, providers[..n + 1], model)) == Some(after[model]))
    {
      OffersStep(prices, providers, n, model);
      assert Updated(prices, before, after, providers[n], model);
    }
  }

  lemma OffersStep(prices: PriceList, providers: seq<string>, n: nat, model: string)
    requires n < |providers|
    ensures var offers, offer := Offers(prices, providers[..n], model), Offer(prices, providers[n], model);
      Offers(prices, providers[..n + 1], model) == if offer.Some? then offers + [offer.value] else offers
    ensures var offers, offer := Offers(prices, providers[..n], model), Offer(prices, providers[n], model);
      Pick(Offers(prices, providers[..n + 1], model)) ==
        if offer.Some? && (Pick(offers).None? || ShouldReplace(Pick(offers).value, offer.value)) then offer else Pick(offers)
  {
    assert providers[..n + 1][..n] == providers[..n];
    var offers, offer := Offers(prices, providers[..n], model), Offer(prices, providers[n], model);
    if offer.Some? {
      assert (offers + [offer.value])[..|offers|] == offers;
    }
  }

  datatype Selection = Selected(candidates: map<string, Candidate>) | EmptyResponse | NoValidEntries

  /** Providers are visited in name order, whatever order the map yields them in. */
  method SelectCandidates(prices: PriceList) returns (selection: Selection, ghost providers: seq<string>)
    ensures Ascending(providers) && Elems(providers) == prices.Keys
    ensures selection.EmptyResponse? <==> prices == map[]
    ensures selection.Selected? ==> Selects(prices, providers, selection.candidates)
    ensures selection.NoValidEntries? ==> prices != map[] && forall model :: Pick(Offers(prices, providers, model)).None?
  {
    var sorted := SortedKeys(prices.Keys);
    providers := sorted;
    if |prices| == 0 {
      return EmptyResponse, providers;
    }
    var selected: map<string, Candidate> := map[];
    for n := 0 to |sorted|
      invariant Selects(prices, sorted[..n], selected)
    {
      assert sorted[n] in Elems(sorted);
      var before := selected;
      if |prices[sorted[n]]| > 0 {
        selected := VisitProvider(prices, sorted[n], before);
      }
      UpdatedSelects(prices, sorted, n, before, selected);
    }
    assert sorted[..|sorted|] == sorted;
    if |selected| == 0 {
      assert selected == map[];
      return NoValidEntries, providers;
    }
    return Selected(selected), providers;
  }
}
