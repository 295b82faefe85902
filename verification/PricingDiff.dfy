/**
  buildDifferences of controller/ratio_sync.go: which pricing values of which upstream
  channels differ from the local ones. Prices are real numbers; a missing value and JSON null
  are both `Null`, as in the source.
 */
module PricingDiff {
  import opened Maps
  import opened Wrappers

  const EPSILON := 0.000000001

  datatype Field =
    | ModelRatio | CompletionRatio | CacheRatio | CreateCacheRatio | ImageRatio
    | AudioRatio | AudioCompletionRatio | ModelPrice | BillingMode | BillingExpr

  const FIELDS: seq<Field> :=
    [ModelRatio, CompletionRatio, CacheRatio, CreateCacheRatio, ImageRatio,
     AudioRatio, AudioCompletionRatio, ModelPrice, BillingMode, BillingExpr]

  datatype Value = Null | Num(r: real) | Int(i: int) | Str(s: string) | Bool(b: bool)

  const SAME := Str("same")

  type Data = map<Field, map<string, Value>>

  datatype Channel = Channel(name: string, data: Data)

  datatype Item = Item(current: Value, upstreams: map<string, Value>, confidence: map<string, bool>)

  type Rows = map<Field, Item>
  type Differences = map<string, Rows>

  predicate NearlyEqual(a: real, b: real) {
    if a > b then a - b < EPSILON else b - a < EPSILON
  }

  predicate ValuesEqual(a: Value, b: Value) {
    if a.Num? && b.Num? then NearlyEqual(a.r, b.r) else a == b
  }

  function Normalized(f: Field, v: Value): Value {
    if v.Int? && !f.BillingMode? && !f.BillingExpr? then Num(v.i as real) else v
  }

  /** valueMap(data[field]) */
  function At(data: Data, f: Field): map<string, Value> {
    if f in data then data[f] else map[]
  }

  function Local(local: Data, m: string, f: Field): Value {
    if m in At(local, f) then Normalized(f, At(local, f)[m]) else Null
  }

  function Supplied(c: Channel, m: string, f: Field): Option<Value> {
    if m in At(c.data, f) then Some(Normalized(f, At(c.data, f)[m])) else None
  }

  /** The entry of a channel in a row: its value, "same", or nil. */
  function Cell(l: Value, up: Option<Value>): Value {
    match up
    case None => if l.Null? then SAME else Null
    case Some(v) => if ValuesEqual(l, v) then SAME else v
  }

  /** The channel contributes to "has a difference" in the source. */
  predicate Flags(l: Value, up: Option<Value>) {
    up.Some? && if l.Null? then !up.value.Null? && up.value != SAME else !ValuesEqual(l, up.value)
  }

  predicate AnySupplied(channels: seq<Channel>, m: string, f: Field) {
    exists i | 0 <= i < |channels| :: Supplied(channels[i], m, f).Some?
  }

  predicate AnyFlag(local: Data, channels: seq<Channel>, m: string, f: Field) {
    exists i | 0 <= i < |channels| :: Flags(Local(local, m, f), Supplied(channels[i], m, f))
  }

  predicate Included(local: Data, channels: seq<Channel>, m: string, f: Field) {
    if Local(local, m, f).Null? then AnySupplied(channels, m, f) else AnyFlag(local, channels, m, f)
  }

  /** The pricing endpoint's placeholder: ratio 37.5 with completion ratio 1. */
  predicate Trusted(c: Channel, m: string) {
    var ratios, completions := At(c.data, ModelRatio), At(c.data, CompletionRatio);
    !(m in ratios && m in completions && IsNumber(ratios[m], 37.5) && IsNumber(completions[m], 1.0))
  }

  predicate IsNumber(v: Value, x: real) {
    (v.Num? && NearlyEqual(v.r, x)) || (v.Int? && NearlyEqual(v.i as real, x))
  }

  /** One cell per channel name; of equal names the last one counts. */
  function Upstreams(local: Data, channels: seq<Channel>, m: string, f: Field): map<string, Value> {
    if channels == [] then map[]
    else
      var c := channels[|channels| - 1];
      Upstreams(local, channels[..|channels| - 1], m, f)[c.name := Cell(Local(local, m, f), Supplied(c, m, f))]
  }

  function Confidence(channels: seq<Channel>, m: string): map<string, bool> {
    if channels == [] then map[]
    else
      var c := channels[|channels| - 1];
      Confidence(channels[..|channels| - 1], m)[c.name := Trusted(c, m)]
  }

  function RawItem(local: Data, channels: seq<Channel>, m: string, f: Field): Item {
    Item(Local(local, m, f), Upstreams(local, channels, m, f), Confidence(channels, m))
  }

  function AllModels(local: Data, channels: seq<Channel>): set<string> {
    (set f, m | f in local && m in local[f] :: m)
    + (set i, f, m | 0 <= i < |channels| && f in channels[i].data && m in channels[i].data[f] :: m)
  }

  ghost function RawRows(local: Data, channels: seq<Channel>, m: string): Rows {
    MapOf((set f: Field | Included(local, channels, m, f)), f => RawItem(local, channels, m, f))
  }

  ghost function Raw(local: Data, channels: seq<Channel>): Differences {
    MapOf((set m | m in AllModels(local, channels) && RawRows(local, channels, m) != map[]),
          m => RawRows(local, channels, m))
  }

  predicate Visible(v: Value) {
    !v.Null? && v != SAME
  }

  /** Names of channels with a visible value in some row. */
  function Shown(diff: Differences): set<string> {
    set m, f, n | m in diff && f in diff[m] && n in diff[m][f].upstreams && Visible(diff[m][f].upstreams[n]) :: n
  }

  function Trim(item: Item, shown: set<string>): Item {
    var silent := item.upstreams.Keys - shown;
    item.(upstreams := item.upstreams - silent, confidence := item.confidence - silent)
  }

  predicate Keeps(item: Item) {
    exists n :: n in item.upstreams && item.upstreams[n] != SAME
  }

  /** The item of a row once silent channels are dropped. */
  function TrimmedRow(rows: Rows, f: Field, shown: set<string>): Item {
    if f in rows then Trim(rows[f], shown) else Item(Null, map[], map[])
  }

  ghost function PrunedRows(rows: Rows, shown: set<string>): Rows {
    MapOf((set f | f in rows && Keeps(Trim(rows[f], shown))), f => TrimmedRow(rows, f, shown))
  }

  ghost function PrunedModel(diff: Differences, m: string, shown: set<string>): Rows {
    if m in diff then PrunedRows(diff[m], shown) else map[]
  }

  ghost function Pruned(diff: Differences, shown: set<string>): Differences {
    MapOf((set m | m in diff && PrunedRows(diff[m], shown) != map[]), m => PrunedModel(diff, m, shown))
  }

  /** The two passes of the source as one expression. */
  ghost function Build(local: Data, channels: seq<Channel>): Differences {
    Pruned(Raw(local, channels), Shown(Raw(local, channels)))
  }

  // ------------------------------------------------------------------ what the result means

  predicate HasRow(d: Differences, m: string, f: Field) {
    m in d && f in d[m]
  }

  predicate DistinctNames(channels: seq<Channel>) {
    forall i, j | 0 <= i < j < |channels| :: channels[i].name != channels[j].name
  }

  /** The channel supplies a value that differs from the local one or has no local counterpart. */
  predicate DiffersAt(local: Data, c: Channel, m: string, f: Field) {
    var up := Supplied(c, m, f);
    up.Some? && !up.value.Null? && !ValuesEqual(Local(local, m, f), up.value)
  }

  /** ... and that value is not the literal "same". */
  predicate VisibleAt(local: Data, c: Channel, m: string, f: Field) {
    Visible(Cell(Local(local, m, f), Supplied(c, m, f)))
  }

  ghost predicate VisibleSomewhere(local: Data, c: Channel) {
    exists m, f :: VisibleAt(local, c, m, f)
  }

  lemma FieldsComplete(f: Field)
    ensures f in FIELDS
  {
    match f {
      case ModelRatio => assert FIELDS[0] == f;
      case CompletionRatio => assert FIELDS[1] == f;
      case CacheRatio => assert FIELDS[2] == f;
      case CreateCacheRatio => assert FIELDS[3] == f;
      case ImageRatio => assert FIELDS[4] == f;
      case AudioRatio => assert FIELDS[5] == f;
      case AudioCompletionRatio => assert FIELDS[6] == f;
      case ModelPrice => assert FIELDS[7] == f;
      case BillingMode => assert FIELDS[8] == f;
      case BillingExpr => assert FIELDS[9] == f;
    }
  }

  lemma {:induction false} UpstreamAt(local: Data, channels: seq<Channel>, m: string, f: Field, i: nat)
    requires DistinctNames(channels) && i < |channels|
    ensures var ups := Upstreams(local, channels, m, f);
            channels[i].name in ups && ups[channels[i].name] == Cell(Local(local, m, f), Supplied(channels[i], m, f))
  {
    if i == |channels| - 1 {
    } else {
      UpstreamAt(local, channels[..|channels| - 1], m, f, i);
    }
  }

  lemma {:induction false} ConfidenceAt(channels: seq<Channel>, m: string, i: nat)
    requires DistinctNames(channels) && i < |channels|
    ensures var conf := Confidence(channels, m);
            channels[i].name in conf && conf[channels[i].name] == Trusted(channels[i], m)
  {
    if i == |channels| - 1 {
    } else {
      ConfidenceAt(channels[..|channels| - 1], m, i);
    }
  }

  lemma RowCells(local: Data, channels: seq<Channel>, m: string, f: Field)
    requires DistinctNames(channels)
    ensures forall i | 0 <= i < |channels| ::
              && channels[i].name in Upstreams(local, channels, m, f)
              && Upstreams(local, channels, m, f)[channels[i].name]
                 == Cell(Local(local, m, f), Supplied(channels[i], m, f))
              && channels[i].name in Confidence(channels, m)
              && Confidence(channels, m)[channels[i].name] == Trusted(channels[i], m)
  {
    forall i | 0 <= i < |channels|
      ensures channels[i].name in Upstreams(local, channels, m, f)
      ensures Upstreams(local, channels, m, f)[channels[i].name]
              == Cell(Local(local, m, f), Supplied(channels[i], m, f))
      ensures channels[i].name in Confidence(channels, m)
      ensures Confidence(channels, m)[channels[i].name] == Trusted(channels[i], m)
    {
      UpstreamAt(local, channels, m, f, i);
      ConfidenceAt(channels, m, i);
    }
  }

  lemma {:induction false} RowNames(local: Data, channels: seq<Channel>, m: string, f: Field, n: string)
    ensures n in Upstreams(local, channels, m, f) <==> n in Confidence(channels, m)
    ensures n in Upstreams(local, channels, m, f) ==> exists i | 0 <= i < |channels| :: channels[i].name == n
  {
    if channels == [] {
    } else {
      var k := |channels| - 1;
      RowNames(local, channels[..k], m, f, n);
      if n in Upstreams(local, channels[..k], m, f) {
        var i :| 0 <= i < k && channels[..k][i].name == n;
        assert channels[i].name == n;
      } else {
        assert channels[k].name == channels[k].name;
      }
    }
  }

  lemma IncludedModel(local: Data, channels: seq<Channel>, m: string, f: Field)
    requires Included(local, channels, m, f)
    ensures m in AllModels(local, channels)
  {
    var i :| 0 <= i < |channels| && Supplied(channels[i], m, f).Some?;
    assert f in channels[i].data && m in channels[i].data[f];
  }

  lemma RawRowsHas(local: Data, channels: seq<Channel>, m: string, f: Field)
    ensures f in RawRows(local, channels, m) <==> Included(local, channels, m, f)
    ensures f in RawRows(local, channels, m) ==> RawRows(local, channels, m)[f] == RawItem(local, channels, m, f)
    ensures f in RawRows(local, channels, m) ==> RawRows(local, channels, m) != map[]
  {
  }

  lemma RawModel(local: Data, channels: seq<Channel>, m: string)
    ensures m in Raw(local, channels) <==> m in AllModels(local, channels) && RawRows(local, channels, m) != map[]
    ensures m in Raw(local, channels) ==> Raw(local, channels)[m] == RawRows(local, channels, m)
  {
  }

  /** A row exists after the first pass exactly when it is included. */
  lemma RawHas(local: Data, channels: seq<Channel>, m: string, f: Field)
    ensures HasRow(Raw(local, channels), m, f) <==> Included(local, channels, m, f)
    ensures HasRow(Raw(local, channels), m, f) ==> Raw(local, channels)[m][f] == RawItem(local, channels, m, f)
  {
    RawRowsHas(local, channels, m, f);
    RawModel(local, channels, m);
    if Included(local, channels, m, f) {
      IncludedModel(local, channels, m, f);
    }
  }

  lemma VisibleIsIncluded(local: Data, channels: seq<Channel>, i: nat, m: string, f: Field)
    requires i < |channels| && VisibleAt(local, channels[i], m, f)
    ensures Included(local, channels, m, f)
  {
  }

  /** The channels that stay in the result. */
  lemma ShownIff(local: Data, channels: seq<Channel>, i: nat)
    requires DistinctNames(channels) && i < |channels|
    ensures channels[i].name in Shown(Raw(local, channels)) <==> VisibleSomewhere(local, channels[i])
  {
    var d, n := Raw(local, channels), channels[i].name;
    if n in Shown(d) {
      var m, f :| m in d && f in d[m] && n in d[m][f].upstreams && Visible(d[m][f].upstreams[n]);
      assert HasRow(d, m, f);
      RawHas(local, channels, m, f);
      RowCells(local, channels, m, f);
      assert VisibleAt(local, channels[i], m, f);
    }
    if VisibleSomewhere(local, channels[i]) {
      var m, f :| VisibleAt(local, channels[i], m, f);
      VisibleIsIncluded(local, channels, i, m, f);
      RawHas(local, channels, m, f);
      RowCells(local, channels, m, f);
      assert m in d && f in d[m] && n in d[m][f].upstreams && Visible(d[m][f].upstreams[n]);
    }
  }

  lemma PrunedHas(d: Differences, shown: set<string>, m: string, f: Field)
    ensures HasRow(Pruned(d, shown), m, f) <==> HasRow(d, m, f) && Keeps(Trim(d[m][f], shown))
    ensures HasRow(Pruned(d, shown), m, f) ==> Pruned(d, shown)[m][f] == Trim(d[m][f], shown)
  {
    if HasRow(d, m, f) && Keeps(Trim(d[m][f], shown)) {
      assert f in PrunedRows(d[m], shown);
    }
  }

  /**
    For all inputs with distinct channel names: a row is present exactly when it is included
    and some channel with a visible value somewhere is not "same" in it.
   */
  lemma RowIff(local: Data, channels: seq<Channel>, m: string, f: Field)
    requires DistinctNames(channels)
    ensures HasRow(Build(local, channels), m, f)
       <==> && Included(local, channels, m, f)
            && exists i | 0 <= i < |channels| ::
                 VisibleSomewhere(local, channels[i]) && Cell(Local(local, m, f), Supplied(channels[i], m, f)) != SAME
  {
    var d := Raw(local, channels);
    var shown := Shown(d);
    RawHas(local, channels, m, f);
    PrunedHas(d, shown, m, f);
    RowCells(local, channels, m, f);
    if HasRow(d, m, f) {
      var item := Trim(d[m][f], shown);
      if Keeps(item) {
        var n :| n in item.upstreams && item.upstreams[n] != SAME;
        RowNames(local, channels, m, f, n);
        var i :| 0 <= i < |channels| && channels[i].name == n;
        ShownIff(local, channels, i);
      }
      if i :| 0 <= i < |channels| && VisibleSomewhere(local, channels[i])
              && Cell(Local(local, m, f), Supplied(channels[i], m, f)) != SAME {
        ShownIff(local, channels, i);
        assert channels[i].name in item.upstreams;
      }
    }
  }

  /** No supplied value that differs from the local one is null or the literal "same". */
  ghost predicate NothingHidden(local: Data, channels: seq<Channel>) {
    forall i, m, f | 0 <= i < |channels| && Supplied(channels[i], m, f).Some?
                     && !ValuesEqual(Local(local, m, f), Supplied(channels[i], m, f).value) ::
      Visible(Supplied(channels[i], m, f).value)
  }

  lemma DiffersIsVisible(local: Data, channels: seq<Channel>, i: nat, m: string, f: Field)
    requires NothingHidden(local, channels) && i < |channels|
    ensures DiffersAt(local, channels[i], m, f) <==> VisibleAt(local, channels[i], m, f)
  {
  }

  /** Then a row is present iff some channel's value differs or has no local counterpart ... */
  lemma RowMeansDifference(local: Data, channels: seq<Channel>, m: string, f: Field)
    requires DistinctNames(channels) && NothingHidden(local, channels)
    ensures HasRow(Build(local, channels), m, f)
       <==> exists i | 0 <= i < |channels| :: DiffersAt(local, channels[i], m, f)
  {
    RowIff(local, channels, m, f);
    if HasRow(Build(local, channels), m, f) {
      var i := IncludedDiffers(local, channels, m, f);
      assert DiffersAt(local, channels[i], m, f);
    }
    if i :| 0 <= i < |channels| && DiffersAt(local, channels[i], m, f) {
      DiffersIsVisible(local, channels, i, m, f);
      VisibleIsIncluded(local, channels, i, m, f);
      assert VisibleSomewhere(local, channels[i]);
    }
  }

  lemma IncludedDiffers(local: Data, channels: seq<Channel>, m: string, f: Field) returns (i: nat)
    requires NothingHidden(local, channels) && Included(local, channels, m, f)
    requires exists k | 0 <= k < |channels| :: Cell(Local(local, m, f), Supplied(channels[k], m, f)) != SAME
    ensures i < |channels| && DiffersAt(local, channels[i], m, f)
  {
    if Local(local, m, f).Null? {
      i :| 0 <= i < |channels| && Cell(Local(local, m, f), Supplied(channels[i], m, f)) != SAME;
    } else {
      i :| 0 <= i < |channels| && Flags(Local(local, m, f), Supplied(channels[i], m, f));
    }
  }

  /** The channel spells a differing value "same" here, or says null beside a local value. */
  predicate SaysSameAt(local: Data, c: Channel, m: string, f: Field) {
    Supplied(c, m, f) == Some(SAME) && !ValuesEqual(Local(local, m, f), SAME)
  }

  predicate SaysNullAt(local: Data, c: Channel, m: string, f: Field) {
    Supplied(c, m, f) == Some(Null) && !Local(local, m, f).Null?
  }

  /** There is a local value, and the channel has none to set against it. */
  predicate SilentAt(local: Data, c: Channel, m: string, f: Field) {
    !Local(local, m, f).Null? && (Supplied(c, m, f).None? || Supplied(c, m, f) == Some(Null))
  }

  ghost predicate SomeVisible(local: Data, channels: seq<Channel>, m: string, f: Field) {
    exists i | 0 <= i < |channels| :: VisibleAt(local, channels[i], m, f)
  }

  ghost predicate SomeSame(local: Data, channels: seq<Channel>, m: string, f: Field) {
    exists i | 0 <= i < |channels| :: SaysSameAt(local, channels[i], m, f)
  }

  ghost predicate SomeNull(local: Data, channels: seq<Channel>, m: string, f: Field) {
    exists i | 0 <= i < |channels| :: SaysNullAt(local, channels[i], m, f)
  }

  /** A channel that is silent here is shown because of a value elsewhere. */
  ghost predicate SilentShown(local: Data, channels: seq<Channel>, m: string, f: Field) {
    exists i | 0 <= i < |channels| :: SilentAt(local, channels[i], m, f) && VisibleSomewhere(local, channels[i])
  }

  lemma CellKinds(local: Data, c: Channel, m: string, f: Field)
    ensures DiffersAt(local, c, m, f) <==> VisibleAt(local, c, m, f) || SaysSameAt(local, c, m, f)
    ensures Cell(Local(local, m, f), Supplied(c, m, f)) != SAME <==>
              VisibleAt(local, c, m, f) || SilentAt(local, c, m, f)
    ensures !Local(local, m, f).Null? ==>
              (Flags(Local(local, m, f), Supplied(c, m, f)) <==>
               VisibleAt(local, c, m, f) || SaysSameAt(local, c, m, f) || SaysNullAt(local, c, m, f))
  {
  }

  /** Without a visible value a row is there exactly if a "same" or null flags it and a silent channel keeps it. */
  lemma InvisibleRowIff(local: Data, channels: seq<Channel>, m: string, f: Field)
    requires DistinctNames(channels) && !SomeVisible(local, channels, m, f)
    ensures HasRow(Build(local, channels), m, f)
       <==> && (SomeSame(local, channels, m, f) || SomeNull(local, channels, m, f))
            && SilentShown(local, channels, m, f)
  {
    RowIff(local, channels, m, f);
    forall i | 0 <= i < |channels|
      ensures Cell(Local(local, m, f), Supplied(channels[i], m, f)) != SAME <==> SilentAt(local, channels[i], m, f)
      ensures !Local(local, m, f).Null? ==>
                (Flags(Local(local, m, f), Supplied(channels[i], m, f)) <==>
                 SaysSameAt(local, channels[i], m, f) || SaysNullAt(local, channels[i], m, f))
    {
      CellKinds(local, channels[i], m, f);
      assert !VisibleAt(local, channels[i], m, f);
    }
  }

  lemma VisibleRow(local: Data, channels: seq<Channel>, m: string, f: Field)
    requires DistinctNames(channels) && SomeVisible(local, channels, m, f)
    ensures HasRow(Build(local, channels), m, f)
    ensures exists i | 0 <= i < |channels| :: DiffersAt(local, channels[i], m, f)
  {
    var i :| 0 <= i < |channels| && VisibleAt(local, channels[i], m, f);
    CellKinds(local, channels[i], m, f);
    VisibleIsIncluded(local, channels, i, m, f);
    assert VisibleSomewhere(local, channels[i]);
    RowIff(local, channels, m, f);
  }

  /**
    For all inputs with distinct names, one (model, field) pair at a time: presence means a
    difference exactly if some channel has a visible value there, or else a literal "same" comes
    with a silent channel that is shown for another value, and a null without one comes with none.
   */
  lemma PresenceMeansDifferenceIff(local: Data, channels: seq<Channel>, m: string, f: Field)
    requires DistinctNames(channels)
    ensures (HasRow(Build(local, channels), m, f)
             <==> exists i | 0 <= i < |channels| :: DiffersAt(local, channels[i], m, f))
       <==> || SomeVisible(local, channels, m, f)
            || (if SomeSame(local, channels, m, f) then SilentShown(local, channels, m, f)
                else !(SomeNull(local, channels, m, f) && SilentShown(local, channels, m, f)))
  {
    if SomeVisible(local, channels, m, f) {
      VisibleRow(local, channels, m, f);
    } else {
      InvisibleRowIff(local, channels, m, f);
      forall i | 0 <= i < |channels|
        ensures DiffersAt(local, channels[i], m, f) <==> SaysSameAt(local, channels[i], m, f)
      {
        CellKinds(local, channels[i], m, f);
        assert !VisibleAt(local, channels[i], m, f);
      }
    }
  }

  ghost predicate DiffersSomewhere(local: Data, c: Channel) {
    exists m, f :: DiffersAt(local, c, m, f)
  }

  /** The row has an entry for the channel, value and confidence, exactly if the channel differs somewhere. */
  ghost predicate Lists(local: Data, c: Channel, item: Item, m: string, f: Field) {
    && item.current == Local(local, m, f)
    && (c.name in item.upstreams <==> DiffersSomewhere(local, c))
    && (c.name in item.confidence <==> DiffersSomewhere(local, c))
    && (c.name in item.upstreams ==>
          && item.upstreams[c.name] == Cell(Local(local, m, f), Supplied(c, m, f))
          && item.confidence[c.name] == Trusted(c, m))
  }

  /** ... and lists exactly the channels that differ somewhere, with matching confidence keys. */
  lemma RowLists(local: Data, channels: seq<Channel>, m: string, f: Field, i: nat)
    requires DistinctNames(channels) && i < |channels|
    ensures NothingHidden(local, channels) && HasRow(Build(local, channels), m, f) ==>
              Lists(local, channels[i], Build(local, channels)[m][f], m, f)
  {
    if NothingHidden(local, channels) && HasRow(Build(local, channels), m, f) {
      var d := Raw(local, channels);
      RawHas(local, channels, m, f);
      PrunedHas(d, Shown(d), m, f);
      RowCells(local, channels, m, f);
      ShownIff(local, channels, i);
      VisibleIsDifferent(local, channels, i);
    }
  }

  lemma VisibleIsDifferent(local: Data, channels: seq<Channel>, i: nat)
    requires NothingHidden(local, channels) && i < |channels|
    ensures VisibleSomewhere(local, channels[i]) <==> DiffersSomewhere(local, channels[i])
  {
    if VisibleSomewhere(local, channels[i]) {
      var m, f :| VisibleAt(local, channels[i], m, f);
      DiffersIsVisible(local, channels, i, m, f);
      assert DiffersAt(local, channels[i], m, f);
    }
    if DiffersSomewhere(local, channels[i]) {
      var m, f :| DiffersAt(local, channels[i], m, f);
      DiffersIsVisible(local, channels, i, m, f);
      assert VisibleAt(local, channels[i], m, f);
    }
  }

  // ------------------------------------------------------------------ the result in terms of the raw prices

  predicate Supplies(data: Data, m: string, f: Field) {
    f in data && m in data[f]
  }

  function Given(data: Data, m: string, f: Field): Value {
    if Supplies(data, m, f) then data[f][m] else Null
  }

  /** v is the number x, as a float or as an integer. */
  predicate IsNum(v: Value, x: real) {
    v == Num(x) || (v.Int? && v.i as real == x)
  }

  predicate WithinBillionth(x: real, y: real) {
    -0.000000001 < x - y < 0.000000001
  }

  /** Integers count as numbers except where a billing rule is named or spelled out. */
  ghost predicate CloseNumbers(f: Field, a: Value, b: Value) {
    exists x, y ::
      && WithinBillionth(x, y)
      && (if f in {BillingMode, BillingExpr} then a == Num(x) && b == Num(y) else IsNum(a, x) && IsNum(b, y))
  }

  ghost predicate SamePrice(f: Field, a: Value, b: Value) {
    a == b || CloseNumbers(f, a, b)
  }

  lemma SamePriceIff(f: Field, a: Value, b: Value)
    ensures ValuesEqual(Normalized(f, a), Normalized(f, b)) <==> SamePrice(f, a, b)
  {
    var a', b' := Normalized(f, a), Normalized(f, b);
    if a'.Num? && b'.Num? {
      if NearlyEqual(a'.r, b'.r) {
        assert WithinBillionth(a'.r, b'.r);
      }
    }
  }

  lemma GivenIs(data: Data, m: string, f: Field)
    ensures Local(data, m, f) == Normalized(f, Given(data, m, f))
    ensures Supplied(Channel("", data), m, f).Some? <==> Supplies(data, m, f)
  {
  }

  /** The price a row shows for one channel. */
  ghost predicate Reports(cell: Value, local: Data, c: Channel, m: string, f: Field) {
    var l, v := Given(local, m, f), Given(c.data, m, f);
    if !Supplies(c.data, m, f) then cell == (if l == Null then Str("same") else Null)
    else if SamePrice(f, l, v) then cell == Str("same")
    else ShownAs(cell, f, v)
  }

  /** Values are shown as they are, integers as floats where they count as numbers. */
  predicate ShownAs(cell: Value, f: Field, v: Value) {
    if v.Int? && f != BillingMode && f != BillingExpr then cell == Num(v.i as real) else cell == v
  }

  /** The channel quotes the placeholder of the pricing endpoint for the model: ratio 37.5, completion ratio 1. */
  ghost predicate QuotesPlaceholder(c: Channel, m: string) {
    exists r, q ::
      && Supplies(c.data, m, ModelRatio) && IsNum(c.data[ModelRatio][m], r) && WithinBillionth(r, 37.5)
      && Supplies(c.data, m, CompletionRatio) && IsNum(c.data[CompletionRatio][m], q) && WithinBillionth(q, 1.0)
  }

  lemma TrustedIff(c: Channel, m: string)
    ensures Trusted(c, m) <==> !QuotesPlaceholder(c, m)
  {
    if !Trusted(c, m) {
      var v, w := c.data[ModelRatio][m], c.data[CompletionRatio][m];
      var r, q := if v.Num? then v.r else v.i as real, if w.Num? then w.r else w.i as real;
      assert IsNum(v, r) && WithinBillionth(r, 37.5) && IsNum(w, q) && WithinBillionth(q, 1.0);
    }
  }

  /** The local price, and of channel c, if it is listed, the price and whether it can be trusted. */
  ghost predicate RowTells(item: Item, local: Data, c: Channel, m: string, f: Field) {
    && ShownAs(item.current, f, Given(local, m, f))
    && (c.name in item.upstreams ==>
          && Reports(item.upstreams[c.name], local, c, m, f)
          && c.name in item.confidence
          && (!item.confidence[c.name] <==> QuotesPlaceholder(c, m)))
  }

  /** What a present row tells about any channel, for all inputs with distinct channel names. */
  lemma RowReports(local: Data, channels: seq<Channel>, m: string, f: Field, i: nat)
    requires DistinctNames(channels) && i < |channels| && HasRow(Build(local, channels), m, f)
    ensures RowTells(Build(local, channels)[m][f], local, channels[i], m, f)
  {
    RowEntry(local, channels, m, f, i);
    EntryTells(Build(local, channels)[m][f], local, channels[i], m, f);
  }

  ghost predicate Entry(item: Item, local: Data, c: Channel, m: string, f: Field) {
    && item.current == Local(local, m, f)
    && (c.name in item.upstreams ==>
          && item.upstreams[c.name] == Cell(Local(local, m, f), Supplied(c, m, f))
          && c.name in item.confidence && item.confidence[c.name] == Trusted(c, m))
  }

  lemma RowEntry(local: Data, channels: seq<Channel>, m: string, f: Field, i: nat)
    requires DistinctNames(channels) && i < |channels| && HasRow(Build(local, channels), m, f)
    ensures Entry(Build(local, channels)[m][f], local, channels[i], m, f)
  {
    var d := Raw(local, channels);
    RawHas(local, channels, m, f);
    PrunedHas(d, Shown(d), m, f);
    RowCells(local, channels, m, f);
  }

  lemma EntryTells(item: Item, local: Data, c: Channel, m: string, f: Field)
    requires Entry(item, local, c, m, f)
    ensures RowTells(item, local, c, m, f)
  {
    TrustedIff(c, m);
    CellReports(local, c, m, f);
    GivenIs(local, m, f);
  }

  lemma CellReports(local: Data, c: Channel, m: string, f: Field)
    ensures Reports(Cell(Local(local, m, f), Supplied(c, m, f)), local, c, m, f)
  {
    GivenIs(local, m, f);
    SamePriceIff(f, Given(local, m, f), Given(c.data, m, f));
  }

  /** The channel gives a price that is not the local one. */
  ghost predicate GivesOther(local: Data, c: Channel, m: string, f: Field) {
    && Supplies(c.data, m, f) && Given(c.data, m, f) != Null
    && !SamePrice(f, Given(local, m, f), Given(c.data, m, f))
  }

  lemma GivesOtherIff(local: Data, c: Channel, m: string, f: Field)
    ensures GivesOther(local, c, m, f) <==> DiffersAt(local, c, m, f)
  {
    GivenIs(local, m, f);
    SamePriceIff(f, Given(local, m, f), Given(c.data, m, f));
  }

  /** No channel spells a price "same", and none gives null for one that is set locally. */
  ghost predicate PlainPrices(local: Data, channels: seq<Channel>) {
    forall i, m, f | 0 <= i < |channels| && Supplies(channels[i].data, m, f) ::
      && Given(channels[i].data, m, f) != Str("same")
      && (Given(channels[i].data, m, f) == Null ==> Given(local, m, f) == Null)
  }

  ghost predicate GivesOtherSomewhere(local: Data, c: Channel) {
    exists m, f :: GivesOther(local, c, m, f)
  }

  /** Then a row is present iff some channel gives another price ... */
  lemma RowIffOtherPrice(local: Data, channels: seq<Channel>, m: string, f: Field)
    requires DistinctNames(channels) && PlainPrices(local, channels)
    ensures HasRow(Build(local, channels), m, f)
       <==> exists i | 0 <= i < |channels| :: GivesOther(local, channels[i], m, f)
  {
    PlainHidesNothing(local, channels);
    RowMeansDifference(local, channels, m, f);
    forall i | 0 <= i < |channels|
      ensures GivesOther(local, channels[i], m, f) <==> DiffersAt(local, channels[i], m, f)
    {
      GivesOtherIff(local, channels[i], m, f);
    }
  }

  /** ... and lists the channels that give another price anywhere. */
  lemma RowListsOtherPrices(local: Data, channels: seq<Channel>, m: string, f: Field, i: nat)
    requires DistinctNames(channels) && PlainPrices(local, channels) && i < |channels|
    requires HasRow(Build(local, channels), m, f)
    ensures channels[i].name in Build(local, channels)[m][f].upstreams <==> GivesOtherSomewhere(local, channels[i])
  {
    PlainHidesNothing(local, channels);
    RowLists(local, channels, m, f, i);
    GivesSomewhereIff(local, channels[i]);
  }

  lemma GivesSomewhereIff(local: Data, c: Channel)
    ensures GivesOtherSomewhere(local, c) <==> DiffersSomewhere(local, c)
  {
    if m, f :| GivesOther(local, c, m, f) {
      GivesOtherIff(local, c, m, f);
    }
    if m, f :| DiffersAt(local, c, m, f) {
      GivesOtherIff(local, c, m, f);
    }
  }

  lemma PlainHidesNothing(local: Data, channels: seq<Channel>)
    requires PlainPrices(local, channels)
    ensures NothingHidden(local, channels)
  {
    forall i, m, f | 0 <= i < |channels| && Supplied(channels[i], m, f).Some?
                     && !ValuesEqual(Local(local, m, f), Supplied(channels[i], m, f).value)
      ensures Visible(Supplied(channels[i], m, f).value)
    {
      assert Supplies(channels[i].data, m, f);
      GivenIs(local, m, f);
    }
  }

  /** A row names no channel that does not exist. */
  lemma RowNamesChannels(local: Data, channels: seq<Channel>, m: string, f: Field, n: string)
    ensures HasRow(Build(local, channels), m, f) ==>
              var item := Build(local, channels)[m][f];
              && (n in item.upstreams <==> n in item.confidence)
              && (n in item.upstreams ==> exists i | 0 <= i < |channels| :: channels[i].name == n)
  {
    var d := Raw(local, channels);
    RawHas(local, channels, m, f);
    PrunedHas(d, Shown(d), m, f);
    RowNames(local, channels, m, f, n);
  }

  /** The channel supplies nothing but one billing mode, spelled "same". */
  function SaysSame(m: string): Channel {
    Channel("x", map[BillingMode := map[m := SAME]])
  }

  lemma SaysSameSupplies(m: string, m': string, f: Field)
    ensures Supplied(SaysSame(m), m', f) == if m' == m && f == BillingMode then Some(SAME) else None
  {
  }

  lemma SaysSameHides(m: string)
    ensures !VisibleSomewhere(map[], SaysSame(m))
  {
    forall m', f ensures !VisibleAt(map[], SaysSame(m), m', f) {
      SaysSameSupplies(m, m', f);
    }
  }

  /** A value spelled "same" that differs from the local one is never reported. */
  lemma LiteralSameIsHidden(m: string)
    ensures DiffersAt(map[], SaysSame(m), m, BillingMode)
    ensures !HasRow(Build(map[], [SaysSame(m)]), m, BillingMode)
  {
    SaysSameSupplies(m, m, BillingMode);
    SaysSameHides(m);
    RowIff(map[], [SaysSame(m)], m, BillingMode);
  }

  /** One local price, and a channel with a null beside it and a price of its own for another model. */
  const ONE_PRICE: Data := map[ModelRatio := map["a" := Num(1.0)]]

  const NULL_BESIDE :=
    Channel("x", map[ModelRatio := map["a" := Null], ModelPrice := map["b" := Num(2.0)]])

  lemma NullBesideSupplies()
    ensures Local(ONE_PRICE, "a", ModelRatio) == Num(1.0) && Supplied(NULL_BESIDE, "a", ModelRatio) == Some(Null)
    ensures Local(ONE_PRICE, "b", ModelPrice) == Null && Supplied(NULL_BESIDE, "b", ModelPrice) == Some(Num(2.0))
  {
  }

  /** A null beside a local price keeps its row, although the channel supplies no value there. */
  lemma NullKeepsRow()
    ensures HasRow(Build(ONE_PRICE, [NULL_BESIDE]), "a", ModelRatio)
    ensures !DiffersAt(ONE_PRICE, NULL_BESIDE, "a", ModelRatio)
  {
    var channels := [NULL_BESIDE];
    NullBesideSupplies();
    assert VisibleAt(ONE_PRICE, channels[0], "b", ModelPrice);
    assert SilentAt(ONE_PRICE, channels[0], "a", ModelRatio) && SaysNullAt(ONE_PRICE, channels[0], "a", ModelRatio);
    assert !SomeVisible(ONE_PRICE, channels, "a", ModelRatio);
    InvisibleRowIff(ONE_PRICE, channels, "a", ModelRatio);
  }
}
