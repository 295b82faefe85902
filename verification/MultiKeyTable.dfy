/**
  What the actions on a multi-key channel really do, for every stored channel: the keys as they
  are read from the key text, the recorded size and the three maps. A changed key list is joined,
  stored and read again, which loses blank keys at its ends but does not move the maps. The
  result refines the record list exactly when nothing is lost.
 */
module MultiKeyTable {
  import opened Wrappers
  import opened MultiKey
  import Text

  datatype Table = Table(keys: seq<string>, size: int, meta: Meta)

  function Records(t: Table): seq<KeyRecord> {
    RecordsOf(t.keys, t.meta)
  }

  /** The maps that hold the details of these records and nothing else. */
  function MetaOf(rs: seq<KeyRecord>): Meta {
    if rs == [] then EMPTY_META else WithDetails(MetaOf(rs[..|rs| - 1]), |rs| - 1, rs[|rs| - 1])
  }

  /** The details of one more record, at index i. */
  function WithDetails(m: Meta, i: int, r: KeyRecord): Meta {
    Meta(if r.status != ENABLED then m.status[i := r.status] else m.status,
         if r.time.Some? then m.time[i := r.time.value] else m.time,
         if r.reason.Some? then m.reason[i := r.reason.value] else m.reason)
  }

  /** The keys after storing a text; the empty text keeps what was stored. */
  function KeysAfter(keys: seq<string>, text: string): seq<string> {
    if text == "" then keys else Text.Decode(text, '\n')
  }

  /** ... when the text is a list of keys, joined. */
  function Reread(keys: seq<string>, parts: seq<string>): seq<string> {
    KeysAfter(keys, Text.Join(parts, '\n'))
  }

  /** Channel.Update: the size follows the keys, statuses past it go, times and reasons stay. */
  function Synced(keys: seq<string>, m: Meta): Table {
    Table(keys, |keys|, m.(status := m.status - (set i | i in m.status && i >= |keys|)))
  }

  function Rewritten(t: Table, rs: seq<KeyRecord>): Table {
    Synced(Reread(t.keys, KeysOf(rs)), MetaOf(rs))
  }

  /** The statuses after disabling every enabled index below size. */
  function SwitchedOff(status: map<int, int>, size: int): map<int, int> {
    if size <= 0 then status
    else
      var before := SwitchedOff(status, size - 1);
      if StatusAt(before, size - 1) == ENABLED then before[size - 1 := MANUALLY_DISABLED] else before
  }

  lemma {:induction false} SwitchedOffAt(status: map<int, int>, size: int, i: int)
    ensures StatusAt(SwitchedOff(status, size), i)
         == if 0 <= i < size && StatusAt(status, i) == ENABLED then MANUALLY_DISABLED else StatusAt(status, i)
    ensures i in SwitchedOff(status, size) ==> i in status || 0 <= i < size
  {
    if size <= 0 {
    } else {
      SwitchedOffAt(status, size - 1, i);
    }
  }

  predicate AnyOn(status: map<int, int>, size: int) {
    exists i | 0 <= i < size :: StatusAt(status, i) == ENABLED
  }

  /** How many keys disabling all switches off. */
  function OnCount(status: map<int, int>, size: int): nat {
    if size <= 0 then 0 else OnCount(status, size - 1) + if StatusAt(status, size - 1) == ENABLED then 1 else 0
  }

  lemma {:induction false} AnyOnIff(status: map<int, int>, size: int)
    ensures AnyOn(status, size) <==> OnCount(status, size) > 0
  {
    if size <= 0 {
    } else {
      AnyOnIff(status, size - 1);
      assert AnyOn(status, size) <==> AnyOn(status, size - 1) || StatusAt(status, size - 1) == ENABLED;
    }
  }

  /** ... which are the indices of the enabled keys. */
  lemma {:induction false} OnCountIs(status: map<int, int>, size: nat)
    ensures OnCount(status, size) == |set i | 0 <= i < size && (i !in status || status[i] == 1)|
  {
    if size == 0 {
    } else {
      OnCountIs(status, size - 1);
      var before := set i | 0 <= i < size - 1 && (i !in status || status[i] == 1);
      var after := set i | 0 <= i < size && (i !in status || status[i] == 1);
      assert after == if StatusAt(status, size - 1) == ENABLED then before + {size - 1} else before;
    }
  }

  /** Storing keys records their number and drops the statuses of indices past it; times and reasons stay. */
  lemma SyncedIs(keys: seq<string>, m: Meta, i: int)
    ensures var t := Synced(keys, m);
            && t.keys == keys && t.size == |keys| && t.meta.time == m.time && t.meta.reason == m.reason
            && (i in t.meta.status <==> i in m.status && i < |keys|)
            && (i in t.meta.status ==> t.meta.status[i] == m.status[i])
  {
  }

  /** delete_key; the last key is not deleted */
  function Deleted(t: Table, i: int): Table {
    if 0 <= i < t.size && Without(Records(t), i) != [] then Rewritten(t, Without(Records(t), i)) else t
  }

  /** delete_disabled_keys */
  function Purged(t: Table): Table {
    if HasAutoDisabled(Records(t)) then Rewritten(t, Survivors(Records(t))) else t
  }

  function Act(t: Table, op: Op): Table {
    var m := t.meta;
    match op
    case Disable(i) =>
      if 0 <= i < t.size then Synced(t.keys, m.(status := m.status[i := MANUALLY_DISABLED])) else t
    case Enable(i) =>
      if 0 <= i < t.size then Synced(t.keys, Meta(m.status - {i}, m.time - {i}, m.reason - {i})) else t
    case EnableAll => Synced(t.keys, EMPTY_META)
    case DisableAll =>
      if AnyOn(m.status, t.size) then Synced(t.keys, m.(status := SwitchedOff(m.status, t.size))) else t
    case DeleteKey(i) => Deleted(t, i)
    case DeleteAutoDisabled => Purged(t)
    case Append(input) =>
      if t.keys == [] then Synced(KeysAfter(t.keys, input), m)
      else Synced(Reread(t.keys, t.keys + NewKeys(SeenIn(t.keys), InputKeys(input))), m)
    case AutoUpdate(usingKey, status, reason, now) =>
      var i := IndexOf(Records(t), usingKey);
      if i == |t.keys| then t
      else if status == ENABLED then t.(meta := m.(status := m.status - {i}))
      else t.(meta := Meta(m.status[i := status], m.time[i := now], m.reason[i := reason]))
  }

  /** Switching a key on or off outside the recorded size is refused. */
  lemma RefusedOutside(t: Table, i: int)
    requires i < 0 || i >= t.size
    ensures Act(t, Disable(i)) == t && Act(t, Enable(i)) == t
  {
  }

  function ActAll(t: Table, ops: seq<Op>): Table {
    if ops == [] then t else Act(ActAll(t, ops[..|ops| - 1]), ops[|ops| - 1])
  }

  // ------------------------------------------------------------------ reading back what was written

  /** Keys that were read from a key text. */
  predicate FromText(keys: seq<string>) {
    Text.SepFree(keys, '\n') && (keys == [""] || Text.EndsNonEmpty(keys))
  }

  lemma DecodedFromText(text: string)
    ensures FromText(Text.Decode(text, '\n'))
  {
    Text.DecodeSepFree(text, '\n');
    Text.DecodeEnds(text, '\n');
  }

  lemma RereadFromText(keys: seq<string>, parts: seq<string>)
    requires FromText(keys)
    ensures FromText(Reread(keys, parts))
  {
    DecodedFromText(Text.Join(parts, '\n'));
  }

  /** A changed list survives being stored exactly when it has no blank at either end. */
  lemma RereadIff(keys: seq<string>, parts: seq<string>)
    requires Text.SepFree(parts, '\n') && parts != keys
    ensures Reread(keys, parts) == parts <==> parts != [] && Text.EndsNonEmpty(parts)
  {
    Text.JoinEmptyIff(parts, '\n');
    Text.DecodeJoin(parts, '\n');
  }

  lemma {:induction false} MetaOfIs(rs: seq<KeyRecord>)
    ensures InRange(MetaOf(rs), |rs|)
    ensures forall i | 0 <= i < |rs| :: RecordOf(rs[i].key, MetaOf(rs), i) == rs[i]
  {
    if rs == [] {
    } else {
      MetaOfIs(rs[..|rs| - 1]);
    }
  }

  lemma MetaOfRecords(rs: seq<KeyRecord>)
    ensures RecordsOf(KeysOf(rs), MetaOf(rs)) == rs && InRange(MetaOf(rs), |rs|)
  {
    MetaOfIs(rs);
  }

  lemma SyncedInRange(keys: seq<string>, m: Meta)
    requires InRange(m, |keys|)
    ensures Synced(keys, m) == Table(keys, |keys|, m)
  {
    assert m.status - (set i | i in m.status && i >= |keys|) == m.status;
  }

  lemma KeysOfRecords(t: Table)
    ensures KeysOf(Records(t)) == t.keys
  {
  }

  lemma RewrittenKept(t: Table, rs: seq<KeyRecord>)
    requires Reread(t.keys, KeysOf(rs)) == KeysOf(rs)
    ensures Rewritten(t, rs) == Table(KeysOf(rs), |rs|, MetaOf(rs)) && Records(Rewritten(t, rs)) == rs
  {
    MetaOfRecords(rs);
    SyncedInRange(KeysOf(rs), MetaOf(rs));
  }

  lemma RewrittenLost(t: Table, rs: seq<KeyRecord>)
    requires Reread(t.keys, KeysOf(rs)) != KeysOf(rs)
    ensures Records(Rewritten(t, rs)) != rs
  {
    KeysOfRecords(Rewritten(t, rs));
  }

  lemma RewrittenIff(t: Table, rs: seq<KeyRecord>, keys: seq<string>)
    requires keys == KeysOf(rs) && Text.SepFree(keys, '\n') && keys != t.keys
    ensures Records(Rewritten(t, rs)) == rs <==> keys != [] && Text.EndsNonEmpty(keys)
    ensures keys != [] && Text.EndsNonEmpty(keys) ==> Rewritten(t, rs) == Table(keys, |rs|, MetaOf(rs))
  {
    RereadIff(t.keys, keys);
    if Reread(t.keys, keys) == keys {
      RewrittenKept(t, rs);
    } else {
      RewrittenLost(t, rs);
    }
  }

  // ------------------------------------------------------------------ one action

  /** Size and maps fit the keys. */
  predicate InStep(t: Table) {
    t.size == |t.keys| && InRange(t.meta, |t.keys|) && FromText(t.keys)
  }

  /** The action keeps the keys, or leaves a non-empty list without a blank key at either end. */
  predicate Storable(rs: seq<KeyRecord>, op: Op) {
    var next := KeysOf(Apply(rs, op));
    rs == [] || next == KeysOf(rs) || (next != [] && Text.EndsNonEmpty(next))
  }

  /** The table does what is meant, and stays in step. */
  ghost predicate Meets(t: Table, op: Op) {
    Records(Act(t, op)) == Apply(Records(t), op) && InStep(Act(t, op))
  }

  lemma DisableMeets(t: Table, i: int)
    requires InStep(t)
    ensures Meets(t, Op.Disable(i))
  {
    if 0 <= i < t.size {
      var m := t.meta.(status := t.meta.status[i := MANUALLY_DISABLED]);
      SyncedInRange(t.keys, m);
      SetRecord(t.keys, t.meta, m, i);
    }
  }

  lemma EnableMeets(t: Table, i: int)
    requires InStep(t)
    ensures Meets(t, Op.Enable(i))
  {
    if 0 <= i < t.size {
      var m := Meta(t.meta.status - {i}, t.meta.time - {i}, t.meta.reason - {i});
      SyncedInRange(t.keys, m);
      SetRecord(t.keys, t.meta, m, i);
    }
  }

  lemma EnableAllMeets(t: Table)
    requires InStep(t)
    ensures Meets(t, EnableAll)
  {
    SyncedInRange(t.keys, EMPTY_META);
    assert Records(Act(t, EnableAll)) == AllFresh(Records(t));
  }

  lemma DisableAllMeets(t: Table)
    requires InStep(t)
    ensures Meets(t, DisableAll)
  {
    var off := SwitchedOff(t.meta.status, t.size);
    forall i ensures i in off ==> 0 <= i < t.size {
      SwitchedOffAt(t.meta.status, t.size, i);
    }
    if AnyOn(t.meta.status, t.size) {
      SyncedInRange(t.keys, t.meta.(status := off));
      forall i | 0 <= i < |t.keys|
        ensures Records(Act(t, DisableAll))[i] == AllDisabled(Records(t))[i]
      {
        SwitchedOffAt(t.meta.status, t.size, i);
      }
    }
    assert Records(Act(t, DisableAll)) == AllDisabled(Records(t));
  }

  /** The maps after a relay's report on index i. */
  lemma ReportedMeta(t: Table, i: nat, m: Meta)
    requires InStep(t) && i < |t.keys| && InRange(m, |t.keys|)
    requires forall j | 0 <= j < |t.keys| && j != i :: RecordOf(t.keys[j], m, j) == RecordOf(t.keys[j], t.meta, j)
    ensures Records(t.(meta := m)) == Records(t)[i := RecordOf(t.keys[i], m, i)] && InStep(t.(meta := m))
  {
    SetRecord(t.keys, t.meta, m, i);
  }

  lemma AutoEnableMeets(t: Table, i: nat)
    requires InStep(t) && i < |t.keys|
    ensures var next := t.(meta := t.meta.(status := t.meta.status - {i}));
            Records(next) == Records(t)[i := Records(t)[i].(status := ENABLED)] && InStep(next)
  {
    ReportedMeta(t, i, t.meta.(status := t.meta.status - {i}));
  }

  lemma AutoDisableMeets(t: Table, i: nat, status: int, reason: string, now: int)
    requires InStep(t) && i < |t.keys|
    ensures var m := t.meta;
            var next := t.(meta := Meta(m.status[i := status], m.time[i := now], m.reason[i := reason]));
            && Records(next) == Records(t)[i := KeyRecord(t.keys[i], status, Some(now), Some(reason))]
            && InStep(next)
  {
    var m := t.meta;
    ReportedMeta(t, i, Meta(m.status[i := status], m.time[i := now], m.reason[i := reason]));
  }

  lemma AutoUpdateMeets(t: Table, op: Op)
    requires InStep(t) && op.AutoUpdate?
    ensures Meets(t, op)
  {
    var i := IndexOf(Records(t), op.usingKey);
    if i == |t.keys| {
    } else if op.status == ENABLED {
      AutoEnableMeets(t, i);
    } else {
      AutoDisableMeets(t, i, op.status, op.reason, op.now);
    }
  }

  lemma KeysStay(rs: seq<KeyRecord>, op: Op)
    requires !op.DeleteKey? && !op.DeleteAutoDisabled? && !op.Append?
    ensures KeysOf(Apply(rs, op)) == KeysOf(rs)
  {
  }

  lemma SomeKeysSepFree(t: Table, rs: seq<KeyRecord>)
    requires Text.SepFree(t.keys, '\n') && forall r | r in rs :: r.key in t.keys
    ensures Text.SepFree(KeysOf(rs), '\n')
  {
    forall i | 0 <= i < |rs| ensures '\n' !in rs[i].key {
      assert rs[i] in rs;
    }
  }

  lemma {:induction false} SurvivorsFrom(rs: seq<KeyRecord>, r: KeyRecord)
    requires r in Survivors(rs)
    ensures exists q | q in rs :: q.key == r.key
  {
    if rs == [] {
    } else {
      var front, last := rs[..|rs| - 1], rs[|rs| - 1];
      if r in Survivors(front) {
        SurvivorsFrom(front, r);
        var q :| q in front && q.key == r.key;
        assert q in rs;
      } else {
        assert last in rs;
      }
    }
  }

  /** The two deletions, on the list they write: what makes it storable, and what then is stored. */
  lemma DeletionIff(t: Table, rs: seq<KeyRecord>)
    requires InStep(t) && |rs| < |t.keys| && forall r | r in rs :: r.key in t.keys
    ensures Records(Rewritten(t, rs)) == rs <==> CanStore(t, rs)
    ensures CanStore(t, rs) ==> InStep(Rewritten(t, rs))
  {
    SomeKeysSepFree(t, rs);
    KeysOfRecords(t);
    assert |KeysOf(rs)| == |rs|;
    RewrittenIff(t, rs, KeysOf(rs));
    MetaOfRecords(rs);
    RereadFromText(t.keys, KeysOf(rs));
  }

  /** The condition of Storable, for the list an action leaves. */
  predicate CanStore(t: Table, rs: seq<KeyRecord>) {
    t.keys == [] || KeysOf(rs) == t.keys || (KeysOf(rs) != [] && Text.EndsNonEmpty(KeysOf(rs)))
  }

  lemma StorableIs(t: Table, op: Op)
    ensures Storable(Records(t), op) <==> CanStore(t, Apply(Records(t), op))
  {
    KeysOfRecords(t);
  }

  lemma KeyOfRecord(t: Table, r: KeyRecord)
    requires r in Records(t)
    ensures r.key in t.keys
  {
  }

  lemma WithoutFrom(t: Table, i: nat)
    requires i < |t.keys|
    ensures var rs := Without(Records(t), i); |rs| == |t.keys| - 1 && forall r | r in rs :: r.key in t.keys
  {
    forall r | r in Without(Records(t), i) ensures r.key in t.keys {
      assert r in Records(t);
      KeyOfRecord(t, r);
    }
  }

  lemma DeleteKeyIff(t: Table, i: int)
    requires InStep(t)
    ensures Records(Act(t, Op.DeleteKey(i))) == Apply(Records(t), Op.DeleteKey(i))
       <==> Storable(Records(t), Op.DeleteKey(i))
    ensures Storable(Records(t), Op.DeleteKey(i)) ==> InStep(Act(t, Op.DeleteKey(i)))
  {
    if 0 <= i < t.size && |t.keys| > 1 {
      WithoutFrom(t, i);
      DeletionIff(t, Without(Records(t), i));
      StorableIs(t, Op.DeleteKey(i));
    } else {
      RefusedDelete(t, i);
    }
  }

  lemma RefusedDelete(t: Table, i: int)
    requires t.size == |t.keys| && !(0 <= i < t.size && |t.keys| > 1)
    ensures Act(t, Op.DeleteKey(i)) == t && Apply(Records(t), Op.DeleteKey(i)) == Records(t)
    ensures Storable(Records(t), Op.DeleteKey(i))
  {
  }

  lemma SurvivorsFromKeys(t: Table)
    requires HasAutoDisabled(Records(t))
    ensures var rs := Survivors(Records(t)); |rs| < |t.keys| && forall r | r in rs :: r.key in t.keys
  {
    SurvivorsFewer(Records(t));
    forall r | r in Survivors(Records(t)) ensures r.key in t.keys {
      SurvivorsFrom(Records(t), r);
      var q :| q in Records(t) && q.key == r.key;
      KeyOfRecord(t, q);
    }
  }

  lemma ActDeleteAuto(t: Table)
    ensures Act(t, DeleteAutoDisabled) == Purged(t)
  {
  }

  lemma MeantDeleteAuto(rs: seq<KeyRecord>)
    ensures Apply(rs, DeleteAutoDisabled) == if HasAutoDisabled(rs) then Survivors(rs) else rs
  {
  }

  lemma PurgedIff(t: Table)
    requires InStep(t) && HasAutoDisabled(Records(t))
    ensures Records(Purged(t)) == Survivors(Records(t)) <==> CanStore(t, Survivors(Records(t)))
    ensures CanStore(t, Survivors(Records(t))) ==> InStep(Purged(t))
  {
    SurvivorsFromKeys(t);
    DeletionIff(t, Survivors(Records(t)));
  }

  lemma UnchangedCanStore(t: Table)
    ensures CanStore(t, Records(t))
  {
    KeysOfRecords(t);
  }

  lemma DeleteAutoIff(t: Table)
    requires InStep(t)
    ensures Records(Act(t, DeleteAutoDisabled)) == Apply(Records(t), DeleteAutoDisabled)
       <==> Storable(Records(t), DeleteAutoDisabled)
    ensures Storable(Records(t), DeleteAutoDisabled) ==> InStep(Act(t, DeleteAutoDisabled))
  {
    ActDeleteAuto(t);
    MeantDeleteAuto(Records(t));
    StorableIs(t, DeleteAutoDisabled);
    if HasAutoDisabled(Records(t)) {
      PurgedIff(t);
    } else {
      UnchangedCanStore(t);
    }
  }

  lemma AppendFresh(keys: seq<string>, m: Meta, more: seq<string>)
    requires InRange(m, |keys|)
    ensures RecordsOf(keys + more, m) == RecordsOf(keys, m) + FreshAll(more)
  {
  }

  lemma FirstKeysMeet(t: Table, input: string)
    requires InStep(t) && t.keys == []
    ensures Meets(t, Op.Append(input))
  {
    var keys := Text.Decode(input, '\n');
    SyncedInRange(keys, t.meta);
    DecodedFromText(input);
    AppendFresh([], t.meta, keys);
    assert [] + keys == keys && RecordsOf([], t.meta) + FreshAll(keys) == FreshAll(keys);
  }

  lemma AppendNewIff(t: Table, more: seq<string>)
    requires InStep(t) && t.keys != [] && more != [] && Text.SepFree(more, '\n')
    ensures var next := Synced(Reread(t.keys, t.keys + more), t.meta);
            && (Records(next) == Records(t) + FreshAll(more) <==> Text.EndsNonEmpty(t.keys + more))
            && (Text.EndsNonEmpty(t.keys + more) ==> InStep(next))
  {
    var all := t.keys + more;
    var next := Synced(Reread(t.keys, all), t.meta);
    AppendFresh(t.keys, t.meta, more);
    RereadIff(t.keys, all);
    KeysOfRecords(next);
    if Text.EndsNonEmpty(all) {
      SyncedInRange(all, t.meta);
    } else {
      assert KeysOf(RecordsOf(all, t.meta)) == all;
    }
  }

  lemma AppendNothing(t: Table)
    requires InStep(t) && t.keys != []
    ensures Synced(Reread(t.keys, t.keys + []), t.meta) == t
  {
    assert t.keys + [] == t.keys;
    Text.JoinEmptyIff(t.keys, '\n');
    Text.DecodeJoin(t.keys, '\n');
    SyncedInRange(t.keys, t.meta);
  }

  lemma AppendedKeysOf(t: Table, more: seq<string>)
    ensures KeysOf(Records(t) + FreshAll(more)) == t.keys + more
  {
  }

  lemma AppendMoreIff(t: Table, input: string, more: seq<string>)
    requires InStep(t) && t.keys != [] && more == NewKeys(SeenIn(t.keys), InputKeys(input))
    ensures var next := Synced(Reread(t.keys, t.keys + more), t.meta);
            && (Records(next) == Records(t) + FreshAll(more) <==> more == [] || Text.EndsNonEmpty(t.keys + more))
            && (more == [] || Text.EndsNonEmpty(t.keys + more) ==> InStep(next))
  {
    NewKeysAreLines(t.keys, input);
    if more == [] {
      AppendNothing(t);
      assert Records(t) + FreshAll(more) == Records(t);
    } else {
      AppendNewIff(t, more);
    }
  }

  lemma AppendStorable(t: Table, input: string, more: seq<string>)
    requires t.keys != [] && more == NewKeys(SeenIn(t.keys), InputKeys(input))
    ensures Apply(Records(t), Op.Append(input)) == Records(t) + FreshAll(more)
    ensures Storable(Records(t), Op.Append(input)) <==> more == [] || Text.EndsNonEmpty(t.keys + more)
  {
    KeysOfRecords(t);
    AppendedKeysOf(t, more);
    assert |t.keys + more| == |t.keys| <==> more == [];
    assert t.keys + [] == t.keys;
  }

  /** What appending does, apart from the other actions. */
  lemma ActAppend(t: Table, input: string)
    ensures Act(t, Op.Append(input))
         == if t.keys == [] then Synced(KeysAfter(t.keys, input), t.meta)
            else Synced(Reread(t.keys, t.keys + NewKeys(SeenIn(t.keys), InputKeys(input))), t.meta)
  {
  }

  lemma AppendIff(t: Table, input: string)
    requires InStep(t)
    ensures Records(Act(t, Op.Append(input))) == Apply(Records(t), Op.Append(input))
       <==> Storable(Records(t), Op.Append(input))
    ensures Storable(Records(t), Op.Append(input)) ==> InStep(Act(t, Op.Append(input)))
  {
    if t.keys == [] {
      FirstKeysMeet(t, input);
    } else {
      AppendMore(t, input, NewKeys(SeenIn(t.keys), InputKeys(input)));
    }
  }

  lemma AppendMore(t: Table, input: string, more: seq<string>)
    requires InStep(t) && t.keys != [] && more == NewKeys(SeenIn(t.keys), InputKeys(input))
    ensures Records(Act(t, Op.Append(input))) == Apply(Records(t), Op.Append(input))
       <==> Storable(Records(t), Op.Append(input))
    ensures Storable(Records(t), Op.Append(input)) ==> InStep(Act(t, Op.Append(input)))
  {
    ActAppend(t, input);
    AppendStorable(t, input, more);
    AppendMoreIff(t, input, more);
  }

  /** An action does what is meant exactly when the key list it leaves can be stored, and then stays in step. */
  lemma StepRefinesIff(t: Table, op: Op)
    requires InStep(t)
    ensures Records(Act(t, op)) == Apply(Records(t), op) <==> Storable(Records(t), op)
    ensures Storable(Records(t), op) ==> InStep(Act(t, op))
  {
    match op
    case DeleteKey(i) => DeleteKeyIff(t, i);
    case DeleteAutoDisabled => DeleteAutoIff(t);
    case Append(input) => AppendIff(t, input);
    case Disable(i) => DisableMeets(t, i); KeysStay(Records(t), op);
    case Enable(i) => EnableMeets(t, i); KeysStay(Records(t), op);
    case EnableAll => EnableAllMeets(t); KeysStay(Records(t), op);
    case DisableAll => DisableAllMeets(t); KeysStay(Records(t), op);
    case AutoUpdate(_, _, _, _) => AutoUpdateMeets(t, op); KeysStay(Records(t), op);
  }

  // ------------------------------------------------------------------ every run

  /** After every action of the run the table holds the record list that was meant. */
  ghost predicate AgreesThroughout(t: Table, ops: seq<Op>) {
    && Records(ActAll(t, ops)) == ApplyAll(Records(t), ops)
    && (ops == [] || AgreesThroughout(t, ops[..|ops| - 1]))
  }

  /** Every action, on the list it is meant to find, leaves a list that can be stored. */
  predicate StorableThroughout(rs: seq<KeyRecord>, ops: seq<Op>) {
    ops == [] || (
      && StorableThroughout(rs, ops[..|ops| - 1])
      && Storable(ApplyAll(rs, ops[..|ops| - 1]), ops[|ops| - 1]))
  }

  /**
    Every run, of any channel in step: the table refines the record list throughout exactly if
    every action leaves a list that can be stored, and then it stays in step.
   */
  lemma {:induction false} RunRefinesIff(t: Table, ops: seq<Op>)
    requires InStep(t)
    ensures AgreesThroughout(t, ops) <==> StorableThroughout(Records(t), ops)
    ensures StorableThroughout(Records(t), ops) ==> InStep(ActAll(t, ops))
  {
    if ops == [] {
    } else {
      var front := ops[..|ops| - 1];
      RunRefinesIff(t, front);
      if StorableThroughout(Records(t), front) {
        StepRefinesIff(ActAll(t, front), ops[|ops| - 1]);
      }
    }
  }

  /** On such runs times and reasons stay on disabled keys, unless a relay re-enables a key that has some. */
  lemma TidyRun(t: Table, ops: seq<Op>)
    requires InStep(t) && Tidy(Records(t)) && StorableThroughout(Records(t), ops)
    requires forall k | 0 <= k < |ops| :: !LeavesStaleDetails(ApplyAll(Records(t), ops[..k]), ops[k])
    ensures Tidy(Records(ActAll(t, ops)))
  {
    RunRefinesIff(t, ops);
    TidyRunIff(Records(t), ops, |ops|);
    assert ops[..|ops|] == ops;
  }

  // ------------------------------------------------------------------ what happens otherwise

  /** What is read back of these keys: those between the blanks at the ends, or one blank. */
  ghost predicate KeysReadBack(read: seq<string>, keys: seq<string>) {
    var kept := Text.Strip(keys);
    && read == (if kept == [] then [""] else kept) && |read| <= |keys|
    && Text.Lead(keys) + |kept| <= |keys|
    && (forall j | 0 <= j < |kept| :: read[j] == keys[Text.Lead(keys) + j])
  }

  /** The details written for rs are at their indices, and past the end of the table only times and reasons. */
  ghost predicate DetailsStay(next: Table, rs: seq<KeyRecord>) {
    && |next.keys| <= |rs|
    && (forall j | 0 <= j < |next.keys| :: Records(next)[j] == rs[j].(key := next.keys[j]))
    && (forall j | |next.keys| <= j < |rs| ::
          && (j in next.meta.time <==> rs[j].time.Some?)
          && (j in next.meta.reason <==> rs[j].reason.Some?))
  }

  /**
    What any written list of records becomes. Its keys lose their blanks at the ends, but the
    details stay at their indices: a key that moves up by the number of leading blanks takes the
    details of the key that many places before it. Times and reasons past the end stay behind.
   */
  lemma RewrittenIs(t: Table, rs: seq<KeyRecord>)
    requires Text.SepFree(KeysOf(rs), '\n') && Text.Join(KeysOf(rs), '\n') != ""
    ensures KeysReadBack(Rewritten(t, rs).keys, KeysOf(rs)) && DetailsStay(Rewritten(t, rs), rs)
  {
    RewrittenKeys(t, rs, KeysOf(rs));
    RewrittenDetails(t, rs);
  }

  lemma RewrittenKeys(t: Table, rs: seq<KeyRecord>, keys: seq<string>)
    requires keys == KeysOf(rs) && Text.SepFree(keys, '\n') && Text.Join(keys, '\n') != ""
    ensures KeysReadBack(Rewritten(t, rs).keys, keys) && |keys| == |rs|
  {
    Text.DecodeJoinIs(keys, '\n');
    Text.StripIs(keys);
    Text.JoinEmptyIff(keys, '\n');
  }

  lemma RewrittenDetails(t: Table, rs: seq<KeyRecord>)
    requires |Rewritten(t, rs).keys| <= |rs|
    ensures DetailsStay(Rewritten(t, rs), rs)
  {
    MetaOfIs(rs);
    forall j | 0 <= j < |rs| ensures RecordOf(rs[j].key, MetaOf(rs), j) == rs[j] {
    }
  }

  /** If nothing, or one blank key, is left to store, the old keys stay and take over the details left. */
  lemma NothingToStore(t: Table, rs: seq<KeyRecord>)
    requires KeysOf(rs) == [] || KeysOf(rs) == [""]
    ensures var next := Rewritten(t, rs);
            && next.keys == t.keys
            && forall j | |rs| <= j < |t.keys| :: Records(next)[j] == Fresh(t.keys[j])
  {
    assert |KeysOf(rs)| == |rs|;
    MetaOfIs(rs);
  }

  lemma SurvivorsSepFree(t: Table)
    requires Text.SepFree(t.keys, '\n')
    ensures Text.SepFree(KeysOf(Survivors(Records(t))), '\n')
  {
    var rs := Records(t);
    forall r | r in Survivors(rs) ensures r.key in t.keys {
      SurvivorsFrom(rs, r);
      var q :| q in rs && q.key == r.key;
      KeyOfRecord(t, q);
    }
    SomeKeysSepFree(t, Survivors(rs));
  }

  /** Deleting the auto-disabled keys when there are no others deletes none of them and enables them all. */
  lemma AllAutoDisabledRevives(t: Table)
    requires t.keys != [] && forall i | 0 <= i < |t.keys| :: StatusAt(t.meta.status, i) == AUTO_DISABLED
    ensures Act(t, DeleteAutoDisabled).keys == t.keys
    ensures Records(Act(t, DeleteAutoDisabled)) == AllFresh(Records(t))
  {
    var rs := Records(t);
    NoSurvivors(rs);
    assert rs[0].status == AUTO_DISABLED;
    NothingToStore(t, []);
  }

  /**
    delete_disabled_keys leaves exactly the keys that are not auto-disabled if and only if there is
    nothing to delete, or what remains is not empty and has no blank key at either end.
   */
  lemma DeleteAutoDisabledMeetsIntent(t: Table)
    requires Text.SepFree(t.keys, '\n')
    ensures Act(t, DeleteAutoDisabled).keys == KeptKeys(Records(t))
       <==> || !HasAutoDisabled(Records(t))
            || (KeptKeys(Records(t)) != [] && Text.EndsNonEmpty(KeptKeys(Records(t))))
  {
    var rs := Records(t);
    KeysOfRecords(t);
    SurvivorKeys(rs);
    if HasAutoDisabled(rs) {
      SurvivorsFewer(rs);
      SurvivorsSepFree(t);
      assert |KeptKeys(rs)| == |Survivors(rs)| < |t.keys|;
      RereadIff(t.keys, KeptKeys(rs));
    } else {
      NothingDropped(rs);
    }
  }

  // ------------------------------------------------------------------ creation

  /** AddChannel with several keys: empty lines are skipped before they are trimmed. */
  function CleanKeys(lines: seq<string>): seq<string> {
    if lines == [] then []
    else
      var last := lines[|lines| - 1];
      CleanKeys(lines[..|lines| - 1]) + if last == "" then [] else [Text.TrimSpace(last)]
  }

  function Created(input: string): Table {
    var keys := CleanKeys(Text.Split(input, '\n'));
    Table(Text.Decode(Text.Join(keys, '\n'), '\n'), |keys|, EMPTY_META)
  }

  lemma {:induction false} CleanKeysSepFree(lines: seq<string>)
    requires Text.SepFree(lines, '\n')
    ensures Text.SepFree(CleanKeys(lines), '\n')
  {
    if lines == [] {
    } else {
      CleanKeysSepFree(lines[..|lines| - 1]);
      Text.TrimSpaceKeeps(lines[|lines| - 1], '\n');
    }
  }

  /** A list is read back at its full length exactly when neither end is blank. */
  lemma SameLengthIff(parts: seq<string>)
    requires Text.SepFree(parts, '\n')
    ensures |Text.Decode(Text.Join(parts, '\n'), '\n')| == |parts| <==> Text.EndsNonEmpty(parts)
  {
    Text.StripIs(parts);
    Text.JoinEmptyIff(parts, '\n');
    if Text.Join(parts, '\n') != "" {
      Text.DecodeJoinIs(parts, '\n');
    }
  }

  /** The recorded size of a new channel fits its keys exactly when neither the first nor the last key is blank. */
  lemma CreatedInStepIff(input: string)
    ensures InStep(Created(input)) <==> Text.EndsNonEmpty(CleanKeys(Text.Split(input, '\n')))
  {
    var lines := Text.Split(input, '\n');
    var keys := CleanKeys(lines);
    Text.SplitSepFree(input, '\n');
    CleanKeysSepFree(lines);
    DecodedFromText(Text.Join(keys, '\n'));
    SameLengthIff(keys);
  }

  lemma SplitThree(a: string, b: string, c: string)
    requires '\n' !in a && '\n' !in b && '\n' !in c
    ensures Text.Split(a + ['\n'] + (b + ['\n'] + c), '\n') == [a, b, c]
  {
    Text.SplitAtSep(a, b + ['\n'] + c, '\n');
    Text.SplitAtSep(b, c, '\n');
    Text.SplitPrefix(c, "", '\n');
    assert c + "" == c;
  }

  lemma CleanThree(a: string, b: string, c: string)
    requires a != "" && b != "" && c != ""
    ensures CleanKeys([a, b, c]) == [Text.TrimSpace(a), Text.TrimSpace(b), Text.TrimSpace(c)]
  {
    var lines := [a, b, c];
    assert lines[..2] == [a, b] && [a, b][..1] == [a] && [a][..0] == [];
    assert CleanKeys([a]) == [Text.TrimSpace(a)];
    assert CleanKeys([a, b]) == [Text.TrimSpace(a), Text.TrimSpace(b)];
  }

  /** A line of spaces between two keys is stored as a blank key. */
  lemma SpacesBecomeBlankKey(first: string, spaces: string, last: string)
    requires Text.TrimSpace(first) == first != "" && Text.TrimSpace(last) == last != ""
    requires '\n' !in first && '\n' !in spaces && '\n' !in last && spaces != "" && Text.TrimSpace(spaces) == ""
    ensures Created(first + ['\n'] + (spaces + ['\n'] + last)) == Table([first, "", last], 3, EMPTY_META)
  {
    SplitThree(first, spaces, last);
    CleanThree(first, spaces, last);
    Text.DecodeJoin([first, "", last], '\n');
  }

  lemma BlankKeyWitness()
    ensures Created("a\n \nb") == Table(["a", "", "b"], 3, EMPTY_META)
  {
    var a, b, input := "a", "b", "a\n \nb";
    assert Text.TrimSpace(a) == a && Text.TrimSpace(b) == b;
    Text.TrimByIs(" ", Text.IsSpace);
    assert input == a + ['\n'] + (" " + ['\n'] + b);
    SpacesBecomeBlankKey(a, " ", b);
  }

  /** Leading spaces make the recorded size of a new channel one too large. */
  lemma LeadingSpacesMiscount()
    ensures Created(" \na").keys == ["a"] && Created(" \na").size == 2 && !InStep(Created(" \na"))
  {
    var input, keys := " \na", ["", "a"];
    Text.SplitAtSep(" ", "a", '\n');
    Text.SplitPrefix("a", "", '\n');
    assert input == " " + ['\n'] + "a" && "a" + "" == "a";
    Text.TrimByIs(" ", Text.IsSpace);
    assert [" ", "a"][..1] == [" "] && [" "][..0] == [];
    assert CleanKeys([" "]) == [""];
    assert CleanKeys([" ", "a"]) == keys;
    Text.JoinEmptyIff(keys, '\n');
    BlankThenLast("a");
    Text.DecodeJoinIs(keys, '\n');
  }

  lemma BlankThenLast(last: string)
    requires last != "" && '\n' !in last
    ensures Text.SepFree(["", last], '\n') && Text.Join(["", last], '\n') != "" && Text.Strip(["", last]) == [last]
  {
    Text.JoinEmptyIff(["", last], '\n');
    assert ["", last][1..] == [last];
    assert Text.StripLeft([last]) == [last] && Text.StripLeft(["", last]) == [last];
    assert Text.StripRight([last]) == [last];
  }

  /** A blank key between two others, the last of which a relay has disabled. */
  function BlankBetween(first: string, last: string, reason: string, now: int): Table {
    Table([first, "", last], 3, Meta(map[2 := AUTO_DISABLED], map[2 := now], map[2 := reason]))
  }

  /** A relay's report on the last key of a fresh channel leads to that table. */
  lemma ReportOnLast(first: string, last: string, reason: string, now: int)
    requires first != last && last != ""
    ensures Act(Table([first, "", last], 3, EMPTY_META), Op.AutoUpdate(last, AUTO_DISABLED, reason, now))
         == BlankBetween(first, last, reason, now)
  {
    var t := Table([first, "", last], 3, EMPTY_META);
    assert Records(t)[2].key == last;
    FirstIndex(Records(t), last, 2);
  }

  /**
    Deleting the first key of such a channel: the auto-disabled key comes back enabled, and its
    disable time and reason stay behind at an index outside the list.
   */
  lemma DeletionEnablesDisabledKey(first: string, last: string, reason: string, now: int)
    requires first != "" && '\n' !in first && last != "" && '\n' !in last
    ensures var t := BlankBetween(first, last, reason, now);
            var next := Act(t, Op.DeleteKey(0));
            && InStep(t) && Records(t)[2].status == AUTO_DISABLED
            && Records(next) == [Fresh(last)] && next.size == 1
            && 1 in next.meta.time && 1 in next.meta.reason && !InStep(next)
  {
    var t := BlankBetween(first, last, reason, now);
    var rs := [Fresh(""), KeyRecord(last, AUTO_DISABLED, Some(now), Some(reason))];
    assert Without(Records(t), 0) == rs;
    assert Act(t, Op.DeleteKey(0)) == Rewritten(t, rs);
    BlankFirstRewritten(t, last, reason, now);
  }

  /** A blank key in front is lost, and the details of the key behind it stay where they were. */
  lemma BlankFirstRewritten(t: Table, last: string, reason: string, now: int)
    requires last != "" && '\n' !in last
    ensures var next := Rewritten(t, [Fresh(""), KeyRecord(last, AUTO_DISABLED, Some(now), Some(reason))]);
            && Records(next) == [Fresh(last)] && next.size == 1
            && 1 in next.meta.time && 1 in next.meta.reason && !InStep(next)
  {
    var rs := [Fresh(""), KeyRecord(last, AUTO_DISABLED, Some(now), Some(reason))];
    assert KeysOf(rs) == ["", last];
    BlankThenLast(last);
    RewrittenIs(t, rs);
    assert Records(Rewritten(t, rs)) == [rs[0].(key := last)];
  }

  /** What the report and the deletion are meant to leave. */
  lemma MeantAfterReport(first: string, last: string, reason: string, now: int)
    requires first != last && last != ""
    ensures var t := Table([first, "", last], 3, EMPTY_META);
            Apply(Apply(Records(t), Op.AutoUpdate(last, AUTO_DISABLED, reason, now)), Op.DeleteKey(0))
            == [Fresh(""), KeyRecord(last, AUTO_DISABLED, Some(now), Some(reason))]
  {
    var t := Table([first, "", last], 3, EMPTY_META);
    var rs := [Fresh(first), Fresh(""), Fresh(last)];
    assert Records(t) == rs;
    FirstIndex(rs, last, 2);
    assert rs[2 := KeyRecord(last, AUTO_DISABLED, Some(now), Some(reason))][1..]
        == [Fresh(""), KeyRecord(last, AUTO_DISABLED, Some(now), Some(reason))];
  }

  /** The whole story of one channel: created with a line of a space, one report, one deletion. */
  lemma ReachableLoss(reason: string, now: int)
    ensures var ops := [Op.AutoUpdate("b", AUTO_DISABLED, reason, now), Op.DeleteKey(0)];
            var end := ActAll(Created("a\n \nb"), ops);
            && ApplyAll(Records(Created("a\n \nb")), ops)
               == [Fresh(""), KeyRecord("b", AUTO_DISABLED, Some(now), Some(reason))]
            && Records(end) == [Fresh("b")] && 1 in end.meta.time && 1 in end.meta.reason
  {
    BlankKeyWitness();
    ReportOnLast("a", "b", reason, now);
    MeantAfterReport("a", "b", reason, now);
    DeletionEnablesDisabledKey("a", "b", reason, now);
    TwoActions(Table(["a", "", "b"], 3, EMPTY_META), Op.AutoUpdate("b", AUTO_DISABLED, reason, now), Op.DeleteKey(0));
  }

  lemma TwoActions(t: Table, a: Op, b: Op)
    ensures ActAll(t, [a, b]) == Act(Act(t, a), b)
    ensures ApplyAll(Records(t), [a, b]) == Apply(Apply(Records(t), a), b)
  {
    assert [a, b][..1] == [a] && [a][..0] == [];
    assert ActAll(t, [a]) == Act(t, a);
    assert ApplyAll(Records(t), [a]) == Apply(Records(t), a);
  }
}
