/** The loops of convertModelsDevToRatioData, and the error of the rounded ratios. */
module ModelsDevSync {
  import opened Wrappers
  import opened StringOrder
  import opened ModelsDev

  datatype Ratios = Ratios(model: map<string, real>, completion: map<string, real>, cache: map<string, real>)

  datatype ConvertError = EmptyResponse | NoValidEntries

  /** math.Round: to the nearest integer, halves away from zero. */
  function Round(x: real): int {
    if x >= 0.0 then (x + 0.5).Floor else -((-x + 0.5).Floor)
  }

  /** roundRatioValue: six decimal places. */
  function RoundRatio(x: real): real {
    Round(x * 1000000.0) as real / 1000000.0
  }

  /** The ratios of a price before they are rounded. */
  function ExactModelRatio(input: real): real {
    input * USD / INPUT_COST_RATIO_BASE
  }

  function ExactCompletionRatio(input: real, output: real): real
    requires input != 0.0
  {
    output / input
  }

  function ModelRatio(c: Candidate): real {
    if c.input == 0.0 then 0.0 else RoundRatio(ExactModelRatio(c.input))
  }

  function Lookup(selected: map<string, Candidate>, m: string): Option<Candidate> {
    if m in selected then Some(selected[m]) else None
  }

  /** No provider has a valid price for any model. */
  ghost predicate NothingSelected(providers: seq<string>, catalog: Catalog) {
    forall m :: Select(providers, catalog, m).None?
  }

  /** selectedCandidates holds, for every model, the selection after the given providers. */
  ghost predicate Holds(selected: map<string, Candidate>, providers: seq<string>, catalog: Catalog) {
    forall m :: Lookup(selected, m) == Select(providers, catalog, m)
  }

  /** ... where only the models in `visited` have seen the last provider. */
  ghost predicate HoldsPartly(selected: map<string, Candidate>, before: seq<string>, after: seq<string>,
                              catalog: Catalog, visited: seq<string>) {
    forall m :: Lookup(selected, m) == if m in visited then Select(after, catalog, m) else Select(before, catalog, m)
  }

  /** The models of one provider. */
  method VisitProvider(catalog: Catalog, before: seq<string>, provider: string, selected: map<string, Candidate>)
    returns (selected': map<string, Candidate>)
    requires provider in catalog && Holds(selected, before, catalog)
    ensures Holds(selected', before + [provider], catalog)
  {
    var after := before + [provider];
    assert after[..|after| - 1] == before;
    selected' := selected;
    var names := SortedKeys(catalog[provider].Keys);
    for k := 0 to |names|
      invariant HoldsPartly(selected', before, after, catalog, names[..k])
    {
      var name := names[k];
      assert names[..k + 1] == names[..k] + [name];
      assert name !in names[..k] by {
        Irreflexive(name);
      }
      assert name in names;
      assert Lookup(selected', name) == Select(before, catalog, name);
      var candidate := BuildCandidate(provider, catalog[provider][name]);
      if candidate.Some? && (name !in selected' || ShouldReplace(selected'[name], candidate.value)) {
        selected' := selected'[name := candidate.value];
      }
    }
    assert names[..|names|] == names;
    forall m ensures Lookup(selected', m) == Select(after, catalog, m) {
      assert m !in names ==> CandidateOf(catalog, provider, m).None?;
    }
  }

  method SelectCandidates(catalog: Catalog) returns (selected: map<string, Candidate>, providers: seq<string>)
    ensures Lists(providers, catalog.Keys)
    ensures Holds(selected, providers, catalog)
  {
    providers := SortedKeys(catalog.Keys);
    selected := map[];
    for i := 0 to |providers|
      invariant Holds(selected, providers[..i], catalog)
    {
      assert providers[i] in providers;
      assert providers[..i + 1] == providers[..i] + [providers[i]];
      selected := VisitProvider(catalog, providers[..i], providers[i], selected);
    }
    assert providers[..|providers|] == providers;
  }

  /** The entries of one model in the three ratio maps. */
  predicate RatiosAt(r: Ratios, m: string, o: Option<Candidate>) {
    if o.None? then m !in r.model && m !in r.completion && m !in r.cache
    else
      var c := o.value;
      && m in r.model && r.model[m] == ModelRatio(c)
      && (m in r.completion <==> c.input != 0.0 && c.output.Some?)
      && (m in r.completion ==> r.completion[m] == RoundRatio(ExactCompletionRatio(c.input, c.output.value)))
      && (m in r.cache <==> c.input != 0.0 && c.cacheRead.Some?)
      && (m in r.cache ==> r.cache[m] == RoundRatio(c.cacheRead.value / c.input))
  }

  /** The ratios of one candidate. */
  function WithRatios(r: Ratios, m: string, c: Candidate): Ratios {
    Ratios(
      r.model[m := ModelRatio(c)],
      if c.input != 0.0 && c.output.Some?
      then r.completion[m := RoundRatio(ExactCompletionRatio(c.input, c.output.value))]
      else r.completion,
      if c.input != 0.0 && c.cacheRead.Some? then r.cache[m := RoundRatio(c.cacheRead.value / c.input)] else r.cache)
  }

  lemma WithRatiosAt(r: Ratios, m: string, c: Candidate, n: string, o: Option<Candidate>)
    requires RatiosAt(r, n, o) && RatiosAt(r, m, None)
    ensures RatiosAt(WithRatios(r, m, c), m, Some(c))
    ensures n != m ==> RatiosAt(WithRatios(r, m, c), n, o)
  {
  }

  method ToRatios(selected: map<string, Candidate>) returns (r: Ratios)
    ensures forall m :: RatiosAt(r, m, Lookup(selected, m))
  {
    r := Ratios(map[], map[], map[]);
    var todo := selected.Keys;
    while todo != {}
      invariant todo <= selected.Keys
      invariant forall m :: RatiosAt(r, m, if m in todo then None else Lookup(selected, m))
      decreases |todo|
    {
      var m :| m in todo;
      forall n
        ensures RatiosAt(WithRatios(r, m, selected[m]), n, if n in todo - {m} then None else Lookup(selected, n))
      {
        WithRatiosAt(r, m, selected[m], n, if n in todo then None else Lookup(selected, n));
      }
      r := WithRatios(r, m, selected[m]);
      todo := todo - {m};
    }
  }

  lemma EmptyMeansNothing(selected: map<string, Candidate>, providers: seq<string>, catalog: Catalog)
    requires Holds(selected, providers, catalog) && selected == map[]
    ensures NothingSelected(providers, catalog)
  {
    forall m ensures Select(providers, catalog, m).None? {
      assert Lookup(selected, m).None?;
    }
  }

  lemma SomethingSelected(selected: map<string, Candidate>, providers: seq<string>, catalog: Catalog, m: string)
    requires Holds(selected, providers, catalog) && m in selected
    ensures !NothingSelected(providers, catalog)
  {
    assert Lookup(selected, m).Some? && Select(providers, catalog, m).Some?;
  }

  /** The whole conversion; `providers` is the sorted list of the catalogue's providers. */
  method Convert(catalog: Catalog) returns (r: Result<Ratios, ConvertError>, ghost providers: seq<string>)
    ensures Lists(providers, catalog.Keys)
    ensures r == Err(EmptyResponse) <==> catalog == map[]
    ensures r == Err(NoValidEntries) <==> catalog != map[] && NothingSelected(providers, catalog)
    ensures r.Ok? ==> forall m :: RatiosAt(r.value, m, Select(providers, catalog, m))
  {
    var selected, sorted := SelectCandidates(catalog);
    providers := sorted;
    if catalog == map[] {
      return Err(EmptyResponse), providers;
    }
    if selected == map[] {
      EmptyMeansNothing(selected, providers, catalog);
      return Err(NoValidEntries), providers;
    }
    var m :| m in selected;
    SomethingSelected(selected, providers, catalog, m);
    var ratios := ToRatios(selected);
    return Ok(ratios), providers;
  }

  // ------------------------------------------------------------------ rounding

  const HALF_STEP := 0.0000005

  function Abs(x: real): real {
    if x < 0.0 then -x else x
  }

  lemma RoundError(x: real)
    ensures Abs(RoundRatio(x) - x) <= HALF_STEP
  {
    var y := x * 1000000.0;
    assert Abs(Round(y) as real - y) <= 0.5;
    assert RoundRatio(x) - x == (Round(y) as real - y) / 1000000.0;
  }

  /** What two ratios stand for: the output price in the unit of the model ratio. */
  function Product(modelRatio: real, completionRatio: real): real {
    modelRatio * completionRatio
  }

  lemma Scaled(k: real, e: real, h: real)
    requires k >= 0.0 && -h <= e <= h
    ensures -(k * h) <= k * e <= k * h
  {
  }

  lemma ProductOfErrors(a: real, b: real, h: real)
    requires -h <= a <= h && -h <= b <= h
    ensures -(h * h) <= a * b <= h * h
  {
    if a >= 0.0 {
      ProductOfErrorsPos(a, b, h);
    } else {
      ProductOfErrorsPos(-a, b, h);
      assert (-a) * b == -(a * b);
    }
  }

  lemma ProductOfErrorsPos(a: real, b: real, h: real)
    requires 0.0 <= a <= h && -h <= b <= h
    ensures -(h * h) <= a * b <= h * h
  {
    var ab, ah, ha, hh := a * b, a * h, h * a, h * h;
    assert -ah <= ab <= ah by {
      Scaled(a, b, h);
    }
    assert ha <= hh by {
      Scaled(h, a, h);
    }
    assert ah == ha;
  }

  lemma Distribute(h: real, m: real, c: real)
    ensures h * (m + c) == m * h + c * h
  {
  }

  /** Adding up three errors, whatever products they stand for. */
  lemma SumOfErrors(mb: real, ca: real, ab: real, mh: real, ch: real, hh: real)
    requires -mh <= mb <= mh && -ch <= ca <= ch && -hh <= ab <= hh
    ensures Abs(mb + ca + ab) <= mh + ch + hh
  {
  }

  lemma ProductError(m: real, c: real, a: real, b: real, h: real)
    requires m >= 0.0 && c >= 0.0 && -h <= a <= h && -h <= b <= h
    ensures Abs((m + a) * (c + b) - m * c) <= h * (m + c) + h * h
  {
    var mb, ca, ab, mh, ch, hh := m * b, c * a, a * b, m * h, c * h, h * h;
    assert -mh <= mb <= mh by { Scaled(m, b, h); }
    assert -ch <= ca <= ch by { Scaled(c, a, h); }
    assert -hh <= ab <= hh by { ProductOfErrors(a, b, h); }
    SumOfErrors(mb, ca, ab, mh, ch, hh);
    Expand(m, c, a, b);
    Distribute(h, m, c);
  }

  lemma RoundedProductError(m: real, c: real, m': real, c': real, h: real)
    requires m >= 0.0 && c >= 0.0 && Abs(m' - m) <= h && Abs(c' - c) <= h
    ensures Abs(Product(m', c') - Product(m, c)) <= h * (m + c) + h * h
  {
    ProductError(m, c, m' - m, c' - c, h);
    assert m + (m' - m) == m' && c + (c' - c) == c';
  }

  lemma Expand(m: real, c: real, a: real, b: real)
    ensures (m + a) * (c + b) - m * c == m * b + c * a + a * b
  {
  }

  lemma Cancel(input: real, output: real)
    requires input > 0.0 && output >= 0.0
    ensures ExactModelRatio(input) >= 0.0 && ExactCompletionRatio(input, output) >= 0.0
    ensures Product(ExactModelRatio(input), ExactCompletionRatio(input, output)) == ExactModelRatio(output)
  {
    var c := output / input;
    assert input * c == output;
    NonNegativeFactor(input, c);
  }

  lemma NonNegativeFactor(x: real, y: real)
    requires x > 0.0 && x * y >= 0.0
    ensures y >= 0.0
  {
  }

  /** x is within h (M + C) + h * h of y. */
  predicate Near(x: real, y: real, m: real, c: real) {
    Abs(x - y) <= HALF_STEP * (m + c) + HALF_STEP * HALF_STEP
  }

  lemma EmittedError(m: real, c: real)
    requires m >= 0.0 && c >= 0.0
    ensures Near(Product(RoundRatio(m), RoundRatio(c)), Product(m, c), m, c)
  {
    RoundError(m);
    RoundError(c);
    RoundedProductError(m, c, RoundRatio(m), RoundRatio(c), HALF_STEP);
  }

  /**
    The price of output that the two rounded ratios stand for, against the true one: with
    M = input * USD / 1000, C = output / input and h = 5e-7 they differ by at most
    h (M + C) + h * h.
   */
  lemma EmittedPriceError(input: real, output: real)
    requires input > 0.0 && output >= 0.0
    ensures var m, c := ExactModelRatio(input), ExactCompletionRatio(input, output);
            Near(Product(RoundRatio(m), RoundRatio(c)), ExactModelRatio(output), m, c)
  {
    Cancel(input, output);
    EmittedError(ExactModelRatio(input), ExactCompletionRatio(input, output));
  }

  /**
    For the result of the conversion: the two ratios emitted for a model, multiplied, give the
    output price that the selected provider lists, up to that error.
   */
  lemma ConvertedPriceError(r: Ratios, providers: seq<string>, catalog: Catalog, model: string)
    requires RatiosAt(r, model, Select(providers, catalog, model)) && model in r.completion
    ensures Select(providers, catalog, model).Some? && model in r.model
    ensures var x := Select(providers, catalog, model).value;
            && x.input > 0.0 && x.output.Some? && x.provider in catalog && model in catalog[x.provider]
            && catalog[x.provider][model].input == Some(x.input) && catalog[x.provider][model].output == x.output
            && Near(Product(r.model[model], r.completion[model]), ExactModelRatio(x.output.value),
                    ExactModelRatio(x.input), ExactCompletionRatio(x.input, x.output.value))
  {
    SelectsListed(providers, catalog, model);
    var x := Select(providers, catalog, model).value;
    EmittedPriceError(x.input, x.output.value);
  }

  // ------------------------------------------------------------------ the emitted ratios outright

  /** x to six decimal places, a half rounded up. */
  ghost predicate SixPlaces(ratio: real, x: real) {
    exists n: int :: ratio == Micros(n) && -0.5 < n as real - x * 1000000.0 <= 0.5
  }

  function Micros(n: int): real { n as real / 1000000.0 }

  lemma RoundsHalfUp(x: real)
    requires x >= 0.0
    ensures SixPlaces(RoundRatio(x), x)
  {
    var n := Round(x * 1000000.0);
    assert RoundRatio(x) == Micros(n);
  }

  /** A negative number is rounded as its absolute value is. */
  lemma RoundsSymmetrically(x: real)
    ensures RoundRatio(-x) == -RoundRatio(x)
  {
    assert (-x) * 1000000.0 == -(x * 1000000.0);
    assert Round(-(x * 1000000.0)) == -Round(x * 1000000.0);
  }

  /** What the ratios of a model mean for prices in dollars per million tokens: a ratio of 1 is two dollars. */
  ghost predicate MeansPrices(r: Ratios, model: string, input: real, output: Option<real>, cacheRead: Option<real>) {
    && model in r.model
    && if input == 0.0 then r.model[model] == 0.0 && model !in r.completion && model !in r.cache
       else
         && SixPlaces(r.model[model], input / 2.0)
         && (model in r.completion <==> output.Some?)
         && (model in r.completion ==> SixPlaces(r.completion[model], output.value / input))
         && (model in r.cache <==> cacheRead.Some? && cacheRead.value >= 0.0)
         && (model in r.cache ==> SixPlaces(r.cache[model], cacheRead.value / input))
  }

  /** A model gets ratios exactly if a provider offers it, and they mean the prices of the one selected. */
  lemma ConvertedMeansPrices(r: Ratios, providers: seq<string>, catalog: Catalog, model: string)
    requires Lists(providers, catalog.Keys) && RatiosAt(r, model, Select(providers, catalog, model))
    ensures model in r.model <==> exists p :: Offers(catalog, p, model)
    ensures model in r.model ==>
              var p := Select(providers, catalog, model).value.provider;
              && Offers(catalog, p, model)
              && var cost := catalog[p][model];
                 MeansPrices(r, model, cost.input.value, cost.output, cost.cacheRead)
    ensures model !in r.model ==> model !in r.completion && model !in r.cache
  {
    SelectsOffer(providers, catalog, model);
    if Select(providers, catalog, model).Some? {
      CandidateMeansPrices(r, model, Select(providers, catalog, model).value);
    }
  }

  lemma CandidateMeansPrices(r: Ratios, model: string, c: Candidate)
    requires RatiosAt(r, model, Some(c)) && c.input >= 0.0
    requires (c.output.Some? ==> c.output.value >= 0.0) && (c.cacheRead.Some? ==> c.cacheRead.value >= 0.0)
    ensures MeansPrices(r, model, c.input, c.output, c.cacheRead)
  {
    if c.input > 0.0 {
      assert ExactModelRatio(c.input) == c.input / 2.0;
      RoundsHalfUp(c.input / 2.0);
      if c.output.Some? {
        Quotient(c.input, c.output.value);
        RoundsHalfUp(c.output.value / c.input);
      }
      if c.cacheRead.Some? {
        Quotient(c.input, c.cacheRead.value);
        RoundsHalfUp(c.cacheRead.value / c.input);
      }
    }
  }

  lemma Quotient(input: real, price: real)
    requires input > 0.0 && price >= 0.0
    ensures price / input >= 0.0
  {
  }
}
