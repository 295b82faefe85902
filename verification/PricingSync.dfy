/** The loops of buildDifferences; every map is visited in an arbitrary order. */
module PricingSync {
  import opened Maps
  import opened Wrappers
  import opened PricingDiff

  method CollectModels(local: Data, channels: seq<Channel>) returns (models: set<string>)
    ensures models == AllModels(local, channels)
  {
    models := {};
    for k := 0 to |FIELDS|
      invariant forall m :: m in models <==> exists j | 0 <= j < k :: m in At(local, FIELDS[j])
    {
      models := models + At(local, FIELDS[k]).Keys;
    }
    LocalModelsAre(local, models);
    for i := 0 to |channels|
      invariant models == AllModels(local, channels[..i])
    {
      var more := ModelsOf(channels[i].data);
      ModelsStep(local, channels, i, more);
      models := models + more;
    }
    assert channels[..|channels|] == channels;
  }

  /** The models that one data set mentions in any field. */
  method ModelsOf(data: Data) returns (models: set<string>)
    ensures models == set f, m | f in data && m in data[f] :: m
  {
    models := {};
    for k := 0 to |FIELDS|
      invariant forall m :: m in models <==> exists j | 0 <= j < k :: m in At(data, FIELDS[j])
    {
      models := models + At(data, FIELDS[k]).Keys;
    }
    AllFieldsSeen(data, models);
  }

  lemma AllFieldsSeen(data: Data, models: set<string>)
    requires forall m :: m in models <==> exists j | 0 <= j < |FIELDS| :: m in At(data, FIELDS[j])
    ensures models == set f, m | f in data && m in data[f] :: m
  {
    forall f, m | f in data && m in data[f] ensures m in models {
      FieldsComplete(f);
      var j :| 0 <= j < |FIELDS| && FIELDS[j] == f;
      assert m in At(data, FIELDS[j]);
    }
  }

  lemma LocalModelsAre(local: Data, models: set<string>)
    requires forall m :: m in models <==> exists j | 0 <= j < |FIELDS| :: m in At(local, FIELDS[j])
    ensures models == AllModels(local, [])
  {
    AllFieldsSeen(local, models);
  }

  lemma ModelsStep(local: Data, channels: seq<Channel>, i: nat, more: set<string>)
    requires i < |channels| && more == set f, m | f in channels[i].data && m in channels[i].data[f] :: m
    ensures AllModels(local, channels[..i + 1]) == AllModels(local, channels[..i]) + more
  {
    var a, b := channels[..i], channels[..i + 1];
    assert forall j | 0 <= j < i :: a[j] == b[j];
    assert b[i] == channels[i];
  }

  /** The model loop of the pre-pass. */
  method TrustOf(c: Channel, models: set<string>) returns (trusted: map<string, bool>)
    ensures trusted.Keys == models && forall m | m in models :: trusted[m] == Trusted(c, m)
  {
    trusted := map[];
    var todo := models;
    while todo != {}
      invariant todo <= models && trusted.Keys == models - todo
      invariant forall m | m in trusted :: trusted[m] == Trusted(c, m)
      decreases |todo|
    {
      var m :| m in todo;
      todo := todo - {m};
      trusted := trusted[m := Trusted(c, m)];
    }
  }

  /** The pre-pass: for every channel name and model, is the price to be trusted? */
  method CollectConfidence(channels: seq<Channel>, models: set<string>) returns (conf: map<string, map<string, bool>>)
    ensures forall n, m | n in conf && m in models :: m in conf[n]
    ensures forall n, m | m in models :: n in conf <==> n in Confidence(channels, m)
    ensures forall n, m | n in conf && m in models :: conf[n][m] == Confidence(channels, m)[n]
  {
    conf := map[];
    for i := 0 to |channels|
      invariant forall n, m | n in conf && m in models :: m in conf[n]
      invariant forall n, m | m in models :: n in conf <==> n in Confidence(channels[..i], m)
      invariant forall n, m | n in conf && m in models :: conf[n][m] == Confidence(channels[..i], m)[n]
    {
      assert channels[..i + 1][..i] == channels[..i];
      var trusted := TrustOf(channels[i], models);
      conf := conf[channels[i].name := trusted];
    }
    assert channels[..|channels|] == channels;
  }

  /** The branches that turn a supplied value into a cell. */
  method CellOf(l: Value, up: Option<Value>) returns (value: Value, hasDifference: bool)
    ensures value == Cell(l, up) && (hasDifference <==> Flags(l, up))
  {
    value, hasDifference := Null, false;
    if up.Some? {
      value := up.value;
      if !l.Null? && !ValuesEqual(l, value) {
        hasDifference := true;
      } else if ValuesEqual(l, value) {
        value := SAME;
      }
    }
    if value.Null? && l.Null? {
      value := SAME;
    }
    if l.Null? && !value.Null? && value != SAME {
      hasDifference := true;
    }
  }

  lemma UpstreamsStep(local: Data, channels: seq<Channel>, i: nat, m: string, f: Field)
    requires i < |channels|
    ensures Upstreams(local, channels[..i + 1], m, f) ==
            Upstreams(local, channels[..i], m, f)[
              channels[i].name := Cell(Local(local, m, f), Supplied(channels[i], m, f))]
  {
    assert channels[..i + 1][..i] == channels[..i];
  }

  lemma AnySuppliedStep(channels: seq<Channel>, i: nat, m: string, f: Field)
    requires i < |channels|
    ensures AnySupplied(channels[..i + 1], m, f) <==>
            AnySupplied(channels[..i], m, f) || Supplied(channels[i], m, f).Some?
  {
    var a, b := channels[..i], channels[..i + 1];
    assert b == a + [channels[i]];
  }

  lemma AnyFlagStep(local: Data, channels: seq<Channel>, i: nat, m: string, f: Field)
    requires i < |channels|
    ensures AnyFlag(local, channels[..i + 1], m, f) <==>
            AnyFlag(local, channels[..i], m, f) || Flags(Local(local, m, f), Supplied(channels[i], m, f))
  {
    var a, b := channels[..i], channels[..i + 1];
    assert b == a + [channels[i]];
    if AnyFlag(local, a, m, f) {
      var j :| 0 <= j < i && Flags(Local(local, m, f), Supplied(a[j], m, f));
      assert b[j] == a[j];
    }
  }

  /** The channel loop of one (model, field) pair. */
  method BuildItem(local: Data, channels: seq<Channel>, confidence: map<string, bool>, m: string, f: Field)
    returns (keep: bool, item: Item)
    requires confidence == Confidence(channels, m)
    ensures keep <==> Included(local, channels, m, f)
    ensures item == RawItem(local, channels, m, f)
  {
    var l := Local(local, m, f);
    var upstreams: map<string, Value> := map[];
    var hasUpstream, hasDifference := false, false;
    for i := 0 to |channels|
      invariant upstreams == Upstreams(local, channels[..i], m, f)
      invariant hasUpstream <==> AnySupplied(channels[..i], m, f)
      invariant hasDifference <==> AnyFlag(local, channels[..i], m, f)
    {
      UpstreamsStep(local, channels, i, m, f);
      AnySuppliedStep(channels, i, m, f);
      AnyFlagStep(local, channels, i, m, f);
      var up := Supplied(channels[i], m, f);
      var value, differs := CellOf(l, up);
      hasUpstream := hasUpstream || up.Some?;
      hasDifference := hasDifference || differs;
      upstreams := upstreams[channels[i].name := value];
    }
    assert channels[..|channels|] == channels;
    keep := if !l.Null? then hasDifference else hasUpstream;
    item := Item(l, upstreams, confidence);
  }

  method BuildRows(local: Data, channels: seq<Channel>, confidence: map<string, bool>, m: string) returns (rows: Rows)
    requires confidence == Confidence(channels, m)
    ensures rows == RawRows(local, channels, m)
  {
    rows := BuildRowsOf(FIELDS, local, channels, confidence, m);
    RowsAreRaw(local, channels, m, rows);
  }

  lemma RowsAreRaw(local: Data, channels: seq<Channel>, m: string, rows: Rows)
    requires forall f :: f in rows <==> f in FIELDS && Included(local, channels, m, f)
    requires forall f | f in rows :: rows[f] == RawItem(local, channels, m, f)
    ensures rows == RawRows(local, channels, m)
  {
    var raw := RawRows(local, channels, m);
    forall f: Field ensures f in rows <==> f in raw {
      FieldsComplete(f);
      RawRowsHas(local, channels, m, f);
    }
    forall f | f in rows ensures rows[f] == raw[f] {
      RawRowsHas(local, channels, m, f);
    }
    assert rows.Keys == raw.Keys;
  }

  /** The field loop of one model. */
  method BuildRowsOf(fields: seq<Field>, local: Data, channels: seq<Channel>, confidence: map<string, bool>, m: string)
    returns (rows: Rows)
    requires confidence == Confidence(channels, m)
    ensures forall f :: f in rows <==> f in fields && Included(local, channels, m, f)
    ensures forall f | f in rows :: rows[f] == RawItem(local, channels, m, f)
  {
    rows := map[];
    for k := 0 to |fields|
      invariant forall f :: f in rows <==> f in fields[..k] && Included(local, channels, m, f)
      invariant forall f | f in rows :: rows[f] == RawItem(local, channels, m, f)
    {
      assert fields[..k + 1] == fields[..k] + [fields[k]];
      var keep, item := BuildItem(local, channels, confidence, m, fields[k]);
      if keep {
        rows := rows[fields[k] := item];
      }
    }
    assert fields[..|fields|] == fields;
  }

  /** confidenceMap[name][model] for one model. */
  method ConfidenceFor(channels: seq<Channel>, models: set<string>, conf: map<string, map<string, bool>>, m: string)
    returns (confidence: map<string, bool>)
    requires m in models
    requires forall n, x | n in conf && x in models :: x in conf[n]
    requires forall n, x | x in models :: n in conf <==> n in Confidence(channels, x)
    requires forall n, x | n in conf && x in models :: conf[n][x] == Confidence(channels, x)[n]
    ensures confidence == Confidence(channels, m)
  {
    confidence := map[];
    var todo := conf.Keys;
    while todo != {}
      invariant todo <= conf.Keys && confidence.Keys == conf.Keys - todo
      invariant forall n | n in confidence :: confidence[n] == conf[n][m]
      decreases |todo|
    {
      var n :| n in todo;
      todo := todo - {n};
      confidence := confidence[n := conf[n][m]];
    }
  }

  /** The first pass. */
  method BuildRaw(local: Data, channels: seq<Channel>) returns (diff: Differences)
    ensures diff == Raw(local, channels)
  {
    var models := CollectModels(local, channels);
    var conf := CollectConfidence(channels, models);
    diff := map[];
    var todo := models;
    while todo != {}
      invariant todo <= models
      invariant forall m :: m in diff <==> m in models && m !in todo && RawRows(local, channels, m) != map[]
      invariant forall m | m in diff :: diff[m] == RawRows(local, channels, m)
      decreases |todo|
    {
      var m :| m in todo;
      todo := todo - {m};
      var confidence := ConfidenceFor(channels, models, conf, m);
      var rows := BuildRows(local, channels, confidence, m);
      if rows != map[] {
        diff := diff[m := rows];
      }
    }
    RawIs(local, channels, diff);
  }

  lemma SameMap(a: Differences, b: Differences)
    requires forall m :: m in a <==> m in b
    requires forall m | m in a :: a[m] == b[m]
    ensures a == b
  {
  }

  lemma RawIs(local: Data, channels: seq<Channel>, diff: Differences)
    requires forall m :: m in diff <==> m in AllModels(local, channels) && RawRows(local, channels, m) != map[]
    requires forall m | m in diff :: diff[m] == RawRows(local, channels, m)
    ensures diff == Raw(local, channels)
  {
    var raw := Raw(local, channels);
    forall m ensures m in diff <==> m in raw
             ensures m in diff ==> diff[m] == raw[m]
    {
      RawModel(local, channels, m);
    }
    SameMap(diff, raw);
  }

  /** The pass that finds the channels with a visible value somewhere. */
  method CollectShown(diff: Differences) returns (shown: set<string>)
    ensures shown == Shown(diff)
  {
    shown := {};
    var todo := diff.Keys;
    while todo != {}
      invariant todo <= diff.Keys
      invariant forall n :: n in shown <==> exists m :: m in diff && m !in todo && ShownIn(diff[m], n)
      decreases |todo|
    {
      var m :| m in todo;
      todo := todo - {m};
      var more := ShownInRows(diff[m]);
      shown := shown + more;
    }
  }

  predicate ShownIn(rows: Rows, n: string) {
    exists f :: f in rows && n in rows[f].upstreams && Visible(rows[f].upstreams[n])
  }

  method ShownInRows(rows: Rows) returns (shown: set<string>)
    ensures forall n :: n in shown <==> ShownIn(rows, n)
  {
    shown := {};
    var todo := rows.Keys;
    while todo != {}
      invariant todo <= rows.Keys
      invariant forall n :: n in shown <==>
                  exists f :: f in rows && f !in todo && n in rows[f].upstreams && Visible(rows[f].upstreams[n])
      decreases |todo|
    {
      var f :| f in todo;
      todo := todo - {f};
      shown := shown + set n | n in rows[f].upstreams && Visible(rows[f].upstreams[n]);
    }
  }

  lemma PrunedIs(diff: Differences, shown: set<string>, pruned: Differences)
    requires forall m :: m in pruned <==> m in diff && PrunedRows(diff[m], shown) != map[]
    requires forall m | m in pruned :: pruned[m] == PrunedRows(diff[m], shown)
    ensures pruned == Pruned(diff, shown)
  {
    var spec := Pruned(diff, shown);
    forall m | m in spec ensures spec[m] == PrunedRows(diff[m], shown) {
    }
    SameMap(pruned, spec);
  }

  /** The last pass: drop silent channels, then empty rows, then empty models. */
  method Prune(diff: Differences, shown: set<string>) returns (pruned: Differences)
    ensures pruned == Pruned(diff, shown)
  {
    pruned := diff;
    var todo := diff.Keys;
    while todo != {}
      invariant todo <= pruned.Keys <= diff.Keys
      invariant forall m | m in diff :: m in pruned <==> m in todo || PrunedRows(diff[m], shown) != map[]
      invariant forall m | m in pruned :: pruned[m] == if m in todo then diff[m] else PrunedRows(diff[m], shown)
      decreases |todo|
    {
      var m :| m in todo;
      todo := todo - {m};
      var rows := PruneRows(diff[m], shown);
      if rows == map[] {
        pruned := pruned - {m};
      } else {
        pruned := pruned[m := rows];
      }
    }
    PrunedIs(diff, shown, pruned);
  }

  lemma PrunedRowsAre(rows: Rows, shown: set<string>, pruned: Rows)
    requires forall f :: f in pruned <==> f in rows && Keeps(Trim(rows[f], shown))
    requires forall f | f in pruned :: pruned[f] == Trim(rows[f], shown)
    ensures pruned == PrunedRows(rows, shown)
  {
    assert pruned.Keys == PrunedRows(rows, shown).Keys;
  }

  /** The loop that stops at the first value other than "same"; a row without channels counts as well. */
  method AllSame(item: Item) returns (same: bool)
    ensures same <==> !Keeps(item)
  {
    same := true;
    var todo := item.upstreams.Keys;
    while todo != {} && same
      invariant todo <= item.upstreams.Keys
      invariant same <==> forall n | n in item.upstreams && n !in todo :: item.upstreams[n] == SAME
      decreases |todo|
    {
      var n :| n in todo;
      todo := todo - {n};
      same := item.upstreams[n] == SAME;
    }
  }

  /** One row: its item without silent channels, and whether it stays. */
  method PruneRow(item: Item, shown: set<string>) returns (trimmed: Item, keep: bool)
    ensures trimmed == Trim(item, shown) && (keep <==> Keeps(trimmed))
  {
    trimmed := PruneItem(item, shown);
    var same := AllSame(trimmed);
    keep := !(|trimmed.upstreams| == 0 || same);
  }

  method PruneRows(rows: Rows, shown: set<string>) returns (pruned: Rows)
    ensures pruned == PrunedRows(rows, shown)
  {
    pruned := rows;
    var todo := rows.Keys;
    while todo != {}
      invariant todo <= pruned.Keys <= rows.Keys
      invariant forall f | f in rows :: f in pruned <==> f in todo || Keeps(Trim(rows[f], shown))
      invariant forall f | f in pruned :: pruned[f] == if f in todo then rows[f] else Trim(rows[f], shown)
      decreases |todo|
    {
      var f :| f in todo;
      todo := todo - {f};
      var item, keep := PruneRow(rows[f], shown);
      if keep {
        pruned := pruned[f := item];
      } else {
        pruned := pruned - {f};
      }
    }
    PrunedRowsAre(rows, shown, pruned);
  }

  /** The innermost loop: silent channels leave both maps of a row. */
  method PruneItem(item: Item, shown: set<string>) returns (trimmed: Item)
    ensures trimmed == Trim(item, shown)
  {
    var upstreams, confidence := item.upstreams, item.confidence;
    var todo := item.upstreams.Keys;
    ghost var silent: set<string> := {};
    while todo != {}
      invariant todo <= item.upstreams.Keys && silent == item.upstreams.Keys - shown - todo
      invariant upstreams == item.upstreams - silent && confidence == item.confidence - silent
      decreases |todo|
    {
      var n :| n in todo;
      todo := todo - {n};
      if n !in shown {
        MinusMinus(item.upstreams, silent, n);
        MinusMinus(item.confidence, silent, n);
        upstreams, confidence, silent := upstreams - {n}, confidence - {n}, silent + {n};
      }
    }
    assert silent == item.upstreams.Keys - shown;
    trimmed := Item(item.current, upstreams, confidence);
  }

  method BuildDifferences(local: Data, channels: seq<Channel>) returns (diff: Differences)
    ensures diff == Build(local, channels)
  {
    diff := BuildRaw(local, channels);
    var shown := CollectShown(diff);
    diff := Prune(diff, shown);
  }
}
