/** Which price is chosen, and why the visiting order matters. */
module PriceSourceTheorems {
  import opened Options
  import opened PriceSource
  import opened PriceTable
  import opened Sequences
  import opened StringOrder

  ghost predicate Ranked(candidates: seq<Candidate>) {
    && (forall i, j :: 0 <= i < j < |candidates| ==> Less(candidates[i].provider, candidates[j].provider))
    && (forall i :: 0 <= i < |candidates| ==> candidates[i].input >= 0.0)
  }

  /** Candidate k is a sound choice: non-zero if any is, within epsilon of the cheapest, first at its price. */
  ghost predicate BestChoice(candidates: seq<Candidate>, k: int) {
    && 0 <= k < |candidates|
    && (forall i :: 0 <= i < |candidates| && candidates[i].input > 0.0 ==>
        candidates[k].input > 0.0 && candidates[k].input < candidates[i].input + EPSILON)
    && (forall i :: 0 <= i < k ==> candidates[i].input != candidates[k].input)
  }

  lemma LaterNeverLess(a: string, b: string)
    requires Less(a, b)
    ensures !Less(b, a)
  {
    LessIrreflexive(a);
    if Less(b, a) {
      LessTransitive(a, b, a);
    }
  }

  lemma ChoiceStep(candidates: seq<Candidate>, k: int) returns (next: int)
    requires Ranked(candidates) && |candidates| > 1
    requires BestChoice(candidates[..|candidates| - 1], k)
    ensures next == if ShouldReplace(candidates[k], candidates[|candidates| - 1]) then |candidates| - 1 else k
    ensures BestChoice(candidates, next)
  {
    var front, last := candidates[..|candidates| - 1], candidates[|candidates| - 1];
    assert forall i :: 0 <= i < |front| ==> front[i] == candidates[i];
    LaterNeverLess(candidates[k].provider, last.provider);
    next := if ShouldReplace(candidates[k], last) then |candidates| - 1 else k;
  }

  /**
   * In provider order the epsilon comparison, although not transitive, ends at a candidate that is
   * non-zero if any is, less than epsilon above every non-zero one, and the first at its exact price.
   */
  lemma {:induction false} RankedPickIsBest(candidates: seq<Candidate>) returns (k: int)
    requires Ranked(candidates) && candidates != []
    ensures BestChoice(candidates, k) && Pick(candidates) == Some(candidates[k])
  {
    if |candidates| == 1 {
      k := 0;
      assert Pick(candidates[..0]).None?;
    } else {
      k := RankedPickIsBest(candidates[..|candidates| - 1]);
      k := ChoiceStep(candidates, k);
    }
  }

  lemma {:induction false} OffersRanked(prices: PriceList, providers: seq<string>, model: string)
    requires Ascending(providers)
    ensures Ranked(Offers(prices, providers, model))
    ensures forall c ::
      c in Offers(prices, providers, model) <==> c.provider in providers && Offer(prices, c.provider, model) == Some(c)
  {
    if providers != [] {
      var front, last := providers[..|providers| - 1], providers[|providers| - 1];
      OffersRanked(prices, front, model);
      assert providers == front + [last];
      var rest := Offers(prices, front, model);
      forall i | 0 <= i < |rest| ensures Less(rest[i].provider, last) {
        assert rest[i] in rest;
        var j :| 0 <= j < |front| && front[j] == rest[i].provider;
        assert Less(providers[j], providers[|providers| - 1]);
      }
    }
  }

  /** What the selection promises for one model, over all providers that offer it. */
  ghost predicate GoodPrice(prices: PriceList, model: string, chosen: Candidate) {
    && Offer(prices, chosen.provider, model) == Some(chosen)
    && forall provider :: Offer(prices, provider, model).Some? ==>
         var other := Offer(prices, provider, model).value;
         && (other.input > 0.0 ==> chosen.input > 0.0 && chosen.input < other.input + EPSILON)
         && (other.input == chosen.input ==> provider == chosen.provider || Less(chosen.provider, provider))
  }

  /** A model is priced iff some provider has a usable price for it, and then it is a good one. */
  lemma SelectedPriceIsGood(prices: PriceList, providers: seq<string>, model: string)
    requires Ascending(providers) && Elems(providers) == prices.Keys
    ensures Pick(Offers(prices, providers, model)).Some? <==> exists provider :: Offer(prices, provider, model).Some?
    ensures Pick(Offers(prices, providers, model)).Some? ==>
      GoodPrice(prices, model, Pick(Offers(prices, providers, model)).value)
  {
    var offers := Offers(prices, providers, model);
    OffersRanked(prices, providers, model);
    forall provider | Offer(prices, provider, model).Some?
      ensures Offer(prices, provider, model).value in offers && Offer(prices, provider, model).value.provider == provider
    {
      assert provider in Elems(providers);
    }
    if offers != [] {
      var k := RankedPickIsBest(offers);
      var chosen := offers[k];
      assert chosen in offers;
      assert Offer(prices, chosen.provider, model).Some?;
      forall provider | Offer(prices, provider, model).Some?
        ensures var other := Offer(prices, provider, model).value;
          && (other.input > 0.0 ==> chosen.input > 0.0 && chosen.input < other.input + EPSILON)
          && (other.input == chosen.input ==> provider == chosen.provider || Less(chosen.provider, provider))
      {
        var other := Offer(prices, provider, model).value;
        var i :| 0 <= i < |offers| && offers[i] == other;
      }
    }
  }

  /** A cost that can be turned into ratios. */
  predicate Usable(cost: Cost) {
    && cost.input.Some? && cost.input.value >= 0.0
    && (cost.output.Some? ==> cost.output.value == 0.0 || (cost.output.value > 0.0 && cost.input.value > 0.0))
  }

  predicate Sells(prices: PriceList, provider: string, model: string) {
    provider in prices && model in prices[provider] && Usable(prices[provider][model])
  }

  /**
   * The selection read off the price list: a model is priced iff somebody sells it; its price is one that a
   * provider asks, not zero unless all are, less than a billionth above every other price, and that provider
   * is the first by name to ask exactly it.
   */
  lemma SelectionMeaning(prices: PriceList, providers: seq<string>, selected: map<string, Candidate>, model: string)
    requires Ascending(providers) && Elems(providers) == prices.Keys && Selects(prices, providers, selected)
    ensures model in selected <==> exists provider :: Sells(prices, provider, model)
    ensures model in selected ==>
      var c := selected[model];
      && Sells(prices, c.provider, model) && prices[c.provider][model].input == Some(c.input)
      && forall provider :: Sells(prices, provider, model) ==>
           var asked := prices[provider][model].input.value;
           && (asked > 0.0 ==> c.input > 0.0 && c.input < asked + 0.000000001)
           && (asked == c.input ==> provider == c.provider || Less(c.provider, provider))
  {
    SelectedPriceIsGood(prices, providers, model);
    forall provider
      ensures Sells(prices, provider, model) <==> Offer(prices, provider, model).Some?
      ensures Sells(prices, provider, model) ==>
        Offer(prices, provider, model).value.input == prices[provider][model].input.value
    {
    }
    if provider :| Sells(prices, provider, model) {
      assert Offer(prices, provider, model).Some?;
    }
    assert model in selected <==> Pick(Offers(prices, providers, model)).Some?;
    if model in selected {
      assert Pick(Offers(prices, providers, model)) == Some(selected[model]);
      assert Offer(prices, selected[model].provider, model).Some?;
    }
  }

  /** The selection is a function of the price list: map iteration order cannot show. */
  lemma SelectionDetermined(prices: PriceList, a: seq<string>, b: seq<string>, s: map<string, Candidate>, t: map<string, Candidate>)
    requires Ascending(a) && Ascending(b) && Elems(a) == prices.Keys == Elems(b)
    requires Selects(prices, a, s) && Selects(prices, b, t)
    ensures s == t
  {
    forall x ensures x in a <==> x in b {
      assert x in Elems(a) <==> x in Elems(b);
    }
    AscendingUnique(a, b);
    forall model ensures model in s <==> model in t {
      assert model in s <==> Pick(Offers(prices, a, model)).Some?;
    }
    forall model | model in s ensures s[model] == t[model] {
      assert Pick(Offers(prices, a, model)) == Some(s[model]);
    }
  }

  /** Visited against the provider order, near ties would add up and the choice could drift off the cheapest. */
  lemma UnrankedPickDrifts(base: real)
    requires base > 0.0
    ensures var candidates := [
        Candidate("c", base, None, None),
        Candidate("b", base + 0.0000000006, None, None),
        Candidate("a", base + 0.0000000012, None, None)];
      && NearlyEqual(candidates[0].input, candidates[1].input)
      && NearlyEqual(candidates[1].input, candidates[2].input)
      && !NearlyEqual(candidates[0].input, candidates[2].input)
      && Pick(candidates) == Some(candidates[2])
      && candidates[2].input >= candidates[0].input + EPSILON
  {
    var c := Candidate("c", base, None, None);
    var b := Candidate("b", base + 0.0000000006, None, None);
    var a := Candidate("a", base + 0.0000000012, None, None);
    assert Less("b", "c") && Less("a", "b");
    assert [c][..0] == [] && [c, b][..1] == [c] && [c, b, a][..2] == [c, b];
    assert Pick([c]) == Some(c);
    assert Pick([c, b]) == Some(b);
  }
}
