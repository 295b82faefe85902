/**
  convertModelsDevToRatioData of controller/ratio_sync.go: of the providers that list a
  model, choose one candidate price and turn it into ratios. Costs are real numbers, USD per
  million tokens.
 */
module ModelsDev {
  import opened Wrappers
  import opened StringOrder
  import PricingDiff

  const EPSILON := PricingDiff.EPSILON
  const USD := 500.0
  const INPUT_COST_RATIO_BASE := 1000.0

  datatype Cost = Cost(input: Option<real>, output: Option<real>, cacheRead: Option<real>)

  type Catalog = map<string, map<string, Cost>>

  datatype Candidate = Candidate(provider: string, input: real, output: Option<real>, cacheRead: Option<real>)

  /** buildModelsDevCandidate: a price the local ratios can express, or None. */
  function BuildCandidate(provider: string, cost: Cost): Option<Candidate> {
    if cost.input.None? || cost.input.value < 0.0 then None
    else if cost.output.Some? && cost.output.value < 0.0 then None
    else if cost.input.value == 0.0 && cost.output.Some? && cost.output.value > 0.0 then None
    else
      var cacheRead := if cost.cacheRead.Some? && cost.cacheRead.value >= 0.0 then cost.cacheRead else None;
      Some(Candidate(provider, cost.input.value, cost.output, cacheRead))
  }

  /** shouldReplaceModelsDevCandidate */
  predicate ShouldReplace(current: Candidate, next: Candidate) {
    if (current.input > 0.0) != (next.input > 0.0) then next.input > 0.0
    else if next.input > 0.0 && !PricingDiff.NearlyEqual(next.input, current.input) then next.input < current.input
    else Less(next.provider, current.provider)
  }

  function CandidateOf(catalog: Catalog, provider: string, model: string): Option<Candidate> {
    if provider in catalog && model in catalog[provider] then BuildCandidate(provider, catalog[provider][model])
    else None
  }

  /** The candidate selected after visiting the providers in the given order. */
  function Select(providers: seq<string>, catalog: Catalog, model: string): Option<Candidate> {
    if providers == [] then None
    else
      var current := Select(providers[..|providers| - 1], catalog, model);
      Choose(current, CandidateOf(catalog, providers[|providers| - 1], model))
  }

  function Choose(current: Option<Candidate>, next: Option<Candidate>): Option<Candidate> {
    if next.None? then current
    else if current.None? || ShouldReplace(current.value, next.value) then next
    else current
  }

  // ------------------------------------------------------------------ what is selected

  /** A candidate with a non-zero price among the providers. */
  ghost predicate Priced(providers: seq<string>, catalog: Catalog, model: string, i: nat) {
    && i < |providers| && CandidateOf(catalog, providers[i], model).Some?
    && CandidateOf(catalog, providers[i], model).value.input > 0.0
  }

  /** The selection is the candidate of one of the providers. */
  lemma {:induction false} SelectsCandidate(providers: seq<string>, catalog: Catalog, model: string)
    ensures Select(providers, catalog, model).Some? <==>
            exists i | 0 <= i < |providers| :: CandidateOf(catalog, providers[i], model).Some?
    ensures Select(providers, catalog, model).Some? ==>
              exists i | 0 <= i < |providers| ::
                CandidateOf(catalog, providers[i], model) == Select(providers, catalog, model)
  {
    if providers == [] {
    } else {
      var front := providers[..|providers| - 1];
      SelectsCandidate(front, catalog, model);
      assert forall i | 0 <= i < |front| :: front[i] == providers[i];
      if i :| 0 <= i < |front| && CandidateOf(catalog, front[i], model) == Select(front, catalog, model) {
        assert CandidateOf(catalog, providers[i], model) == Select(front, catalog, model);
      }
      if i :| 0 <= i < |front| && CandidateOf(catalog, front[i], model).Some? {
        assert CandidateOf(catalog, providers[i], model).Some?;
      }
    }
  }

  /** A candidate's provider is the one it was built for. */
  lemma CandidateProvider(catalog: Catalog, provider: string, model: string)
    ensures CandidateOf(catalog, provider, model).Some? ==>
              CandidateOf(catalog, provider, model).value.provider == provider
    ensures CandidateOf(catalog, provider, model).Some? ==>
              CandidateOf(catalog, provider, model).value.input >= 0.0
  {
  }

  /** The candidate repeats what its provider lists, and the ratios can express it. */
  ghost predicate Listed(c: Candidate, catalog: Catalog, model: string) {
    && c.provider in catalog && model in catalog[c.provider]
    && var cost := catalog[c.provider][model];
       && cost.input == Some(c.input) && cost.output == c.output
       && c.input >= 0.0 && (c.output.Some? ==> c.output.value >= 0.0)
       && (c.input == 0.0 && c.output.Some? ==> c.output.value == 0.0)
       && (c.cacheRead.Some? <==> cost.cacheRead.Some? && cost.cacheRead.value >= 0.0)
       && (c.cacheRead.Some? ==> c.cacheRead == cost.cacheRead)
  }

  /** What is selected for a model is a price that one of its providers really lists. */
  lemma SelectsListed(providers: seq<string>, catalog: Catalog, model: string)
    ensures Select(providers, catalog, model).Some? ==> Listed(Select(providers, catalog, model).value, catalog, model)
  {
    SelectsCandidate(providers, catalog, model);
  }

  /** Visiting providers in increasing order, the tie-breaker never replaces a selection. */
  lemma NoTieReplacement(providers: seq<string>, catalog: Catalog, model: string)
    requires providers != [] && Increasing(providers)
    requires Select(providers[..|providers| - 1], catalog, model).Some?
    ensures !Less(providers[|providers| - 1], Select(providers[..|providers| - 1], catalog, model).value.provider)
  {
    var front, last := providers[..|providers| - 1], providers[|providers| - 1];
    SelectsCandidate(front, catalog, model);
    var i :| 0 <= i < |front| && CandidateOf(catalog, front[i], model) == Select(front, catalog, model);
    CandidateProvider(catalog, front[i], model);
    assert Less(providers[i], last);
    Asymmetric(providers[i], last);
  }

  /** One more provider keeps the promise about all earlier ones. */
  lemma ChooseKeepsCheapest(current: Candidate, next: Candidate, other: real)
    requires other > 0.0 && current.input > 0.0 && current.input < other + EPSILON
    requires !Less(next.provider, current.provider)
    ensures Choose(Some(current), Some(next)).value.input > 0.0
    ensures Choose(Some(current), Some(next)).value.input < other + EPSILON
  {
  }

  /**
    In sorted order: a non-zero price is selected whenever there is one, and the selected
    price is less than epsilon above every non-zero price.
   */
  lemma {:induction false} SelectsCheapest(providers: seq<string>, catalog: Catalog, model: string, i: nat)
    requires Increasing(providers) && Priced(providers, catalog, model, i)
    ensures Select(providers, catalog, model).Some?
    ensures Select(providers, catalog, model).value.input > 0.0
    ensures Select(providers, catalog, model).value.input
            < CandidateOf(catalog, providers[i], model).value.input + EPSILON
  {
    var k := |providers| - 1;
    var front := providers[..k];
    var other := CandidateOf(catalog, providers[i], model).value.input;
    if i < k {
      SelectsCheapest(front, catalog, model, i);
      NoTieReplacement(providers, catalog, model);
      var next := CandidateOf(catalog, providers[k], model);
      CandidateProvider(catalog, providers[k], model);
      if next.Some? {
        ChooseKeepsCheapest(Select(front, catalog, model).value, next.value, other);
      }
    } else if Select(front, catalog, model).Some? {
      NoTieReplacement(providers, catalog, model);
    }
  }

  /** If only zero prices exist, the first provider that lists the model is selected. */
  lemma {:induction false} SelectsFirstFree(providers: seq<string>, catalog: Catalog, model: string, i: nat)
    requires Increasing(providers) && i < |providers| && CandidateOf(catalog, providers[i], model).Some?
    requires forall j | 0 <= j < |providers| :: !Priced(providers, catalog, model, j)
    requires forall j | 0 <= j < i :: CandidateOf(catalog, providers[j], model).None?
    ensures Select(providers, catalog, model) == CandidateOf(catalog, providers[i], model)
  {
    var k := |providers| - 1;
    var front := providers[..k];
    CandidateProvider(catalog, providers[k], model);
    CandidateProvider(catalog, providers[i], model);
    if i < k {
      forall j | 0 <= j < |front| ensures !Priced(front, catalog, model, j) {
        assert !Priced(providers, catalog, model, j);
      }
      assert !Priced(providers, catalog, model, k) && !Priced(providers, catalog, model, i);
      SelectsFirstFree(front, catalog, model, i);
      NoTieReplacement(providers, catalog, model);
    } else {
      NothingBefore(front, catalog, model);
    }
  }

  lemma {:induction false} NothingBefore(providers: seq<string>, catalog: Catalog, model: string)
    requires forall j | 0 <= j < |providers| :: CandidateOf(catalog, providers[j], model).None?
    ensures Select(providers, catalog, model).None?
  {
    if providers == [] {
    } else {
      NothingBefore(providers[..|providers| - 1], catalog, model);
    }
  }

  /** The selection does not depend on the order in which the catalogue is visited. */
  lemma OrderIrrelevant(a: seq<string>, b: seq<string>, catalog: Catalog, model: string)
    requires Lists(a, catalog.Keys) && Lists(b, catalog.Keys)
    ensures Select(a, catalog, model) == Select(b, catalog, model)
  {
    ListingUnique(a, b, catalog.Keys);
  }

  // ------------------------------------------------------------------ in terms of the listed costs

  /** An input price, no negative price, and no output price on top of free input. */
  predicate Expressible(cost: Cost) {
    && cost.input.Some? && cost.input.value >= 0.0
    && (cost.output.Some? ==> cost.output.value >= 0.0 && (cost.output.value > 0.0 ==> cost.input.value > 0.0))
  }

  predicate Offers(catalog: Catalog, provider: string, model: string) {
    provider in catalog && model in catalog[provider] && Expressible(catalog[provider][model])
  }

  lemma OffersIff(catalog: Catalog, provider: string, model: string)
    ensures CandidateOf(catalog, provider, model).Some? <==> Offers(catalog, provider, model)
    ensures Offers(catalog, provider, model) ==>
              CandidateOf(catalog, provider, model).value.input == catalog[provider][model].input.value
  {
  }

  /** A model gets a price exactly if some provider offers it, and it gets such an offer. */
  lemma SelectsOffer(providers: seq<string>, catalog: Catalog, model: string)
    requires Lists(providers, catalog.Keys)
    ensures Select(providers, catalog, model).Some? <==> exists p :: Offers(catalog, p, model)
    ensures var s := Select(providers, catalog, model);
            s.Some? ==> Offers(catalog, s.value.provider, model) && Listed(s.value, catalog, model)
  {
    SelectsCandidate(providers, catalog, model);
    SelectsListed(providers, catalog, model);
    if Select(providers, catalog, model).Some? {
      OffersIff(catalog, Select(providers, catalog, model).value.provider, model);
    }
    if p :| Offers(catalog, p, model) {
      OffersIff(catalog, p, model);
      var i :| 0 <= i < |providers| && providers[i] == p;
      assert CandidateOf(catalog, providers[i], model).Some?;
    }
  }

  /** No offer with a non-zero price is a billionth or more below the selected price, which is non-zero itself. */
  lemma SelectsCheapestOffer(providers: seq<string>, catalog: Catalog, model: string, p: string)
    requires Lists(providers, catalog.Keys) && Offers(catalog, p, model)
    requires catalog[p][model].input.value > 0.0
    ensures Select(providers, catalog, model).Some?
    ensures 0.0 < Select(providers, catalog, model).value.input < catalog[p][model].input.value + 0.000000001
  {
    OffersIff(catalog, p, model);
    var i :| 0 <= i < |providers| && providers[i] == p;
    SelectsCheapest(providers, catalog, model, i);
  }

  /** If all offers are free, the selected provider comes before every other that offers the model. */
  lemma SelectsFirstFreeOffer(providers: seq<string>, catalog: Catalog, model: string, p: string)
    requires Lists(providers, catalog.Keys) && Offers(catalog, p, model)
    requires forall q | Offers(catalog, q, model) :: catalog[q][model].input == Some(0.0)
    ensures var s := Select(providers, catalog, model);
            s.Some? && (s.value.provider == p || Less(s.value.provider, p))
  {
    var i := FirstOffer(providers, catalog, model, p);
    forall j | 0 <= j < |providers| ensures !Priced(providers, catalog, model, j) {
      OffersIff(catalog, providers[j], model);
    }
    SelectsFirstFree(providers, catalog, model, i);
    CandidateProvider(catalog, providers[i], model);
    OffersIff(catalog, p, model);
    var k :| 0 <= k < |providers| && providers[k] == p;
    assert i <= k;
  }

  lemma FirstOffer(providers: seq<string>, catalog: Catalog, model: string, p: string) returns (i: nat)
    requires p in providers && Offers(catalog, p, model)
    ensures i < |providers| && CandidateOf(catalog, providers[i], model).Some?
    ensures forall j | 0 <= j < i :: CandidateOf(catalog, providers[j], model).None?
  {
    OffersIff(catalog, p, model);
    i := 0;
    while CandidateOf(catalog, providers[i], model).None?
      invariant i < |providers| && exists k | i <= k < |providers| :: providers[k] == p
      invariant forall j | 0 <= j < i :: CandidateOf(catalog, providers[j], model).None?
      decreases |providers| - i
    {
      i := i + 1;
    }
  }

  // ------------------------------------------------------------------ when it is the cheapest

  /** In any catalogue: if no non-zero price lies within epsilon above the least one, the least one is selected. */
  lemma SelectsMinimum(providers: seq<string>, catalog: Catalog, model: string, i: nat)
    requires Increasing(providers) && Priced(providers, catalog, model, i)
    requires var least := CandidateOf(catalog, providers[i], model).value.input;
             forall j: nat | Priced(providers, catalog, model, j) ::
               var price := CandidateOf(catalog, providers[j], model).value.input;
               price == least || price >= least + EPSILON
    ensures Select(providers, catalog, model).Some?
    ensures Select(providers, catalog, model).value.input == CandidateOf(catalog, providers[i], model).value.input
  {
    SelectsCheapest(providers, catalog, model, i);
    SelectsCandidate(providers, catalog, model);
    var j :| 0 <= j < |providers| && CandidateOf(catalog, providers[j], model) == Select(providers, catalog, model);
    assert Priced(providers, catalog, model, j);
  }

  /** A non-zero price without a negative side to it. */
  predicate Payable(cost: Cost) {
    cost.input.Some? && cost.input.value > 0.0 && (cost.output.Some? ==> cost.output.value >= 0.0)
  }

  /** One model, offered by each provider at its own cost. */
  ghost function Offered(names: seq<string>, costs: seq<Cost>, model: string): Catalog
    requires |names| == |costs|
  {
    if names == [] then map[]
    else
      var n := |names| - 1;
      Offered(names[..n], costs[..n], model)[names[n] := map[model := costs[n]]]
  }

  lemma {:induction false} OfferedAt(names: seq<string>, costs: seq<Cost>, model: string, i: nat)
    requires |names| == |costs| && Increasing(names) && i < |names|
    ensures CandidateOf(Offered(names, costs, model), names[i], model) == BuildCandidate(names[i], costs[i])
  {
    var n := |names| - 1;
    if i == n {
    } else {
      Irreflexive(names[n]);
      assert names[i] != names[n];
      OfferedAt(names[..n], costs[..n], model, i);
    }
  }

  /** The selected price is that of a payable offer, and no payable offer is cheaper. */
  ghost predicate IsCheapest(selected: Option<Candidate>, costs: seq<Cost>) {
    (exists i | 0 <= i < |costs| :: Payable(costs[i])) ==>
      && selected.Some? && selected.value.input > 0.0
      && forall i | 0 <= i < |costs| && Payable(costs[i]) :: selected.value.input <= costs[i].input.value
  }

  /** a is a cheapest payable cost and b lies strictly between it and epsilon above it. */
  predicate InGap(costs: seq<Cost>, a: Cost, b: Cost) {
    && a in costs && b in costs && Payable(a) && Payable(b)
    && (forall c | c in costs && Payable(c) :: a.input.value <= c.input.value)
    && a.input.value < b.input.value < a.input.value + EPSILON
  }

  ghost predicate GapEmpty(costs: seq<Cost>) {
    forall a, b :: !InGap(costs, a, b)
  }

  /** With an empty gap, the sorted visit selects the minimum, whatever the names. */
  lemma EmptyGapSelectsCheapest(names: seq<string>, costs: seq<Cost>, model: string)
    requires |names| == |costs| && Increasing(names) && GapEmpty(costs)
    ensures IsCheapest(Select(names, Offered(names, costs, model), model), costs)
  {
    if exists i | 0 <= i < |costs| :: Payable(costs[i]) {
      var a := Cheapest(costs);
      var k :| 0 <= k < |costs| && costs[k] == a;
      var catalog := Offered(names, costs, model);
      OfferedAt(names, costs, model, k);
      assert Priced(names, catalog, model, k);
      SelectsCheapest(names, catalog, model, k);
      SelectsCandidate(names, catalog, model);
      var j :| 0 <= j < |names| && CandidateOf(catalog, names[j], model) == Select(names, catalog, model);
      OfferedAt(names, costs, model, j);
      assert costs[j] in costs && Payable(costs[j]);
      assert !InGap(costs, a, costs[j]);
      assert forall i | 0 <= i < |costs| && Payable(costs[i]) :: costs[i] in costs;
    }
  }

  lemma {:induction false} Cheapest(costs: seq<Cost>) returns (a: Cost)
    requires exists i | 0 <= i < |costs| :: Payable(costs[i])
    ensures a in costs && Payable(a) && forall c | c in costs && Payable(c) :: a.input.value <= c.input.value
  {
    var n := |costs| - 1;
    assert costs == costs[..n] + [costs[n]];
    if exists i | 0 <= i < n :: Payable(costs[i]) {
      var i :| 0 <= i < n && Payable(costs[i]);
      assert costs[..n][i] == costs[i];
      a := Cheapest(costs[..n]);
      if Payable(costs[n]) && costs[n].input.value < a.input.value {
        a := costs[n];
      }
    } else {
      a := costs[n];
      forall c | c in costs && Payable(c) ensures c == a {
        var i :| 0 <= i < |costs| && costs[i] == c;
      }
    }
  }

  /** An offer in the gap that is visited first is never replaced. */
  lemma {:induction false} FirstInGapStays(names: seq<string>, costs: seq<Cost>, model: string, a: Cost, k: nat)
    requires |names| == |costs| && Increasing(names) && 1 <= k <= |names| && InGap(costs, a, costs[0])
    ensures Select(names[..k], Offered(names, costs, model), model) == BuildCandidate(names[0], costs[0])
  {
    var catalog := Offered(names, costs, model);
    var front, last := names[..k - 1], names[k - 1];
    assert names[..k][..k - 1] == front && names[..k][k - 1] == last;
    OfferedAt(names, costs, model, k - 1);
    if k == 1 {
      assert front == [];
    } else {
      FirstInGapStays(names, costs, model, a, k - 1);
      assert Less(names[0], last) && costs[k - 1] in costs;
      Asymmetric(names[0], last);
      StaysInGap(names[0], costs[0], last, costs[k - 1], a.input.value);
    }
  }

  /** One comparison against an offer of a later provider. */
  lemma StaysInGap(first: string, b: Cost, name: string, c: Cost, least: real)
    requires Payable(b) && least < b.input.value < least + EPSILON
    requires !Less(name, first) && (Payable(c) ==> least <= c.input.value)
    ensures Choose(BuildCandidate(first, b), BuildCandidate(name, c)) == BuildCandidate(first, b)
  {
  }

  /** For the given provider names, the cheapest price is selected however the offers are spread over them. */
  ghost predicate AlwaysCheapest(names: seq<string>, costs: seq<Cost>, model: string)
    requires |names| == |costs|
  {
    forall spread: seq<Cost> | |spread| == |names| && multiset(spread) == multiset(costs) ::
      IsCheapest(Select(names, Offered(names, spread, model), model), spread)
  }

  lemma SameOffers(costs: seq<Cost>, spread: seq<Cost>, c: Cost)
    requires multiset(spread) == multiset(costs)
    ensures c in spread <==> c in costs
  {
    assert c in spread <==> c in multiset(spread);
    assert c in costs <==> c in multiset(costs);
  }

  lemma GapEmptySpread(costs: seq<Cost>, spread: seq<Cost>)
    requires multiset(spread) == multiset(costs) && GapEmpty(costs)
    ensures GapEmpty(spread)
  {
    forall a, b ensures !InGap(spread, a, b) {
      if InGap(spread, a, b) {
        forall c ensures c in spread <==> c in costs {
          SameOffers(costs, spread, c);
        }
        assert InGap(costs, a, b);
      }
    }
  }

  /** The offers with offer i moved to the front. */
  function Fronted(costs: seq<Cost>, i: nat): seq<Cost>
    requires i < |costs|
  {
    [costs[i]] + costs[..i] + costs[i + 1..]
  }

  lemma FrontedIs(costs: seq<Cost>, i: nat)
    requires i < |costs|
    ensures multiset(Fronted(costs, i)) == multiset(costs) && |Fronted(costs, i)| == |costs|
  {
    assert costs == costs[..i] + [costs[i]] + costs[i + 1..];
  }

  lemma GapIsHit(names: seq<string>, costs: seq<Cost>, model: string, a: Cost, b: Cost)
    requires |names| == |costs| && Increasing(names) && InGap(costs, a, b)
    ensures !AlwaysCheapest(names, costs, model)
  {
    var i :| 0 <= i < |costs| && costs[i] == b;
    var spread := Fronted(costs, i);
    FrontedIs(costs, i);
    forall c ensures c in spread <==> c in costs {
      SameOffers(costs, spread, c);
    }
    assert InGap(spread, a, spread[0]);
    FirstInGapStays(names, spread, model, a, |names|);
    assert names[..|names|] == names;
    var k :| 0 <= k < |spread| && spread[k] == a;
    assert !IsCheapest(Select(names, Offered(names, spread, model), model), spread);
  }

  /**
    The cheapest non-zero price is selected under every assignment of the offers to the provider
    names exactly if no offer lies strictly between the minimum and epsilon above it.
   */
  lemma AlwaysCheapestIff(names: seq<string>, costs: seq<Cost>, model: string)
    requires |names| == |costs| && Increasing(names)
    ensures AlwaysCheapest(names, costs, model) <==> GapEmpty(costs)
  {
    if GapEmpty(costs) {
      forall spread: seq<Cost> | |spread| == |names| && multiset(spread) == multiset(costs)
        ensures IsCheapest(Select(names, Offered(names, spread, model), model), spread)
      {
        GapEmptySpread(costs, spread);
        EmptyGapSelectsCheapest(names, spread, model);
      }
    } else {
      var a, b :| InGap(costs, a, b);
      GapIsHit(names, costs, model, a, b);
    }
  }

  /** In the sorted order of the code: the dearer of two near-equal prices wins by its provider's name. */
  lemma SortedMissesCheapest(model: string)
    ensures var costs := [Cost(Some(1.0 + 0.5 * EPSILON), None, None), Cost(Some(1.0), None, None)];
            && Increasing(["a", "b"])
            && Select(["a", "b"], Offered(["a", "b"], costs, model), model) == BuildCandidate("a", costs[0])
            && !IsCheapest(Select(["a", "b"], Offered(["a", "b"], costs, model), model), costs)
  {
    var names, costs := ["a", "b"], [Cost(Some(1.0 + 0.5 * EPSILON), None, None), Cost(Some(1.0), None, None)];
    assert Less("a", "b");
    assert InGap(costs, costs[1], costs[0]);
    FirstInGapStays(names, costs, model, costs[1], 2);
    assert names[..2] == names;
    assert Payable(costs[1]);
  }
}
