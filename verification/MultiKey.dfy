/**
  Multi-key channels (controller/channel.go, model/channel.go). A channel stores its keys as
  one newline-joined text and, beside it, three sparse maps from key index to status, disable
  time and disable reason. This module is the reference: a plain list of per-key records, and
  what each action is meant to do to it.
 */
module MultiKey {
  import opened Wrappers
  import Text

  const ENABLED := 1
  const MANUALLY_DISABLED := 2
  const AUTO_DISABLED := 3

  datatype KeyRecord = KeyRecord(key: string, status: int, time: Option<int>, reason: Option<string>)

  /** The three sparse maps of ChannelInfo; an index without a status is enabled. */
  datatype Meta = Meta(status: map<int, int>, time: map<int, int>, reason: map<int, string>)

  const EMPTY_META := Meta(map[], map[], map[])

  function StatusAt(status: map<int, int>, i: int): int {
    if i in status then status[i] else ENABLED
  }

  function RecordOf(key: string, m: Meta, i: int): KeyRecord {
    KeyRecord(key, StatusAt(m.status, i),
              if i in m.time then Some(m.time[i]) else None,
              if i in m.reason then Some(m.reason[i]) else None)
  }

  /** The list of records that the keys and the three maps stand for. */
  function RecordsOf(keys: seq<string>, m: Meta): (rs: seq<KeyRecord>)
    ensures |rs| == |keys|
    ensures forall i | 0 <= i < |keys| :: rs[i] == RecordOf(keys[i], m, i)
  {
    seq(|keys|, i requires 0 <= i < |keys| => RecordOf(keys[i], m, i))
  }

  predicate InRange(m: Meta, n: int) {
    && (forall i | i in m.status :: 0 <= i < n)
    && (forall i | i in m.time :: 0 <= i < n)
    && (forall i | i in m.reason :: 0 <= i < n)
  }

  // ------------------------------------------------------------------ the record list

  function Fresh(key: string): KeyRecord {
    KeyRecord(key, ENABLED, None, None)
  }

  function AllFresh(rs: seq<KeyRecord>): (r: seq<KeyRecord>)
    ensures |r| == |rs| && forall i | 0 <= i < |rs| :: r[i] == Fresh(rs[i].key)
  {
    seq(|rs|, i requires 0 <= i < |rs| => Fresh(rs[i].key))
  }

  function AllDisabled(rs: seq<KeyRecord>): (r: seq<KeyRecord>)
    ensures |r| == |rs|
    ensures forall i | 0 <= i < |rs| ::
              r[i] == if rs[i].status == ENABLED then rs[i].(status := MANUALLY_DISABLED) else rs[i]
  {
    seq(|rs|, i requires 0 <= i < |rs| =>
      if rs[i].status == ENABLED then rs[i].(status := MANUALLY_DISABLED) else rs[i])
  }

  function Without(rs: seq<KeyRecord>, k: nat): seq<KeyRecord> {
    if k < |rs| then rs[..k] + rs[k + 1..] else rs
  }

  /** The records that are not auto-disabled, in order; an enabled one loses stale details. */
  function Survivors(rs: seq<KeyRecord>): (r: seq<KeyRecord>)
    ensures |r| <= |rs|
  {
    if rs == [] then []
    else
      var last := rs[|rs| - 1];
      Survivors(rs[..|rs| - 1]) +
      (if last.status == AUTO_DISABLED then []
       else if last.status == ENABLED then [Fresh(last.key)] else [last])
  }

  datatype Op =
    | Disable(index: int)
    | Enable(index: int)
    | EnableAll
    | DisableAll
    | DeleteKey(index: int)
    | DeleteAutoDisabled
    | Append(input: string)
    | AutoUpdate(usingKey: string, status: int, reason: string, now: int)

  /** The trimmed, non-blank lines of a key text, as UpdateChannel reads them. */
  function InputKeys(input: string): seq<string> {
    Trimmed(Text.Split(input, '\n'))
  }

  function Trimmed(lines: seq<string>): seq<string> {
    if lines == [] then []
    else
      var t := Text.TrimSpace(lines[|lines| - 1]);
      Trimmed(lines[..|lines| - 1]) + (if t == "" then [] else [t])
  }

  /** The trimmed forms already seen among the first keys of a list. */
  function SeenIn(keys: seq<string>): set<string> {
    set i | 0 <= i < |keys| && Text.TrimSpace(keys[i]) != "" :: Text.TrimSpace(keys[i])
  }

  /** The input keys that are new, each once, in order of first appearance. */
  function NewKeys(seen: set<string>, input: seq<string>): seq<string> {
    if input == [] then []
    else
      var before := NewKeys(seen, input[..|input| - 1]);
      var k := input[|input| - 1];
      if k in seen || k in before then before else before + [k]
  }

  function FreshAll(keys: seq<string>): (r: seq<KeyRecord>)
    ensures |r| == |keys| && forall i | 0 <= i < |keys| :: r[i] == Fresh(keys[i])
  {
    seq(|keys|, i requires 0 <= i < |keys| => Fresh(keys[i]))
  }

  function KeysOf(rs: seq<KeyRecord>): (keys: seq<string>)
    ensures |keys| == |rs| && forall i | 0 <= i < |rs| :: keys[i] == rs[i].key
  {
    seq(|rs|, i requires 0 <= i < |rs| => rs[i].key)
  }

  /** The first position of a key, or the length of the list. */
  function IndexOf(rs: seq<KeyRecord>, key: string): (i: nat)
    ensures i <= |rs|
    ensures i < |rs| ==> rs[i].key == key
    ensures forall j | 0 <= j < i :: rs[j].key != key
  {
    if rs == [] || rs[0].key == key then 0 else 1 + IndexOf(rs[1..], key)
  }

  predicate HasAutoDisabled(rs: seq<KeyRecord>) {
    exists i | 0 <= i < |rs| :: rs[i].status == AUTO_DISABLED
  }

  /** What each action is meant to do to the list of records; a refused action changes nothing. */
  function Apply(rs: seq<KeyRecord>, op: Op): seq<KeyRecord> {
    match op
    case Disable(i) => if 0 <= i < |rs| then rs[i := rs[i].(status := MANUALLY_DISABLED)] else rs
    case Enable(i) => if 0 <= i < |rs| then rs[i := Fresh(rs[i].key)] else rs
    case EnableAll => AllFresh(rs)
    case DisableAll => AllDisabled(rs)
    case DeleteKey(i) => if 0 <= i < |rs| && |rs| > 1 then Without(rs, i) else rs
    case DeleteAutoDisabled =>
      if HasAutoDisabled(rs) then Survivors(rs) else rs
    case Append(input) =>
      // the first keys of a channel are taken as they are submitted
      if rs == [] then FreshAll(Text.Decode(input, '\n'))
      else rs + FreshAll(NewKeys(SeenIn(KeysOf(rs)), InputKeys(input)))
    case AutoUpdate(usingKey, status, reason, now) =>
      var i := IndexOf(rs, usingKey);
      if i == |rs| then rs
      else if status == ENABLED then rs[i := rs[i].(status := ENABLED)]
      else rs[i := rs[i].(status := status, time := Some(now), reason := Some(reason))]
  }

  function ApplyAll(rs: seq<KeyRecord>, ops: seq<Op>): seq<KeyRecord> {
    if ops == [] then rs else Apply(ApplyAll(rs, ops[..|ops| - 1]), ops[|ops| - 1])
  }

  // ------------------------------------------------------------------ small facts about the view

  /** Writing one index of the maps changes one record. */
  lemma SetRecord(keys: seq<string>, m: Meta, m': Meta, k: nat)
    requires k < |keys|
    requires forall i | 0 <= i < |keys| && i != k :: RecordOf(keys[i], m', i) == RecordOf(keys[i], m, i)
    ensures RecordsOf(keys, m') == RecordsOf(keys, m)[k := RecordOf(keys[k], m', k)]
  {
  }

  lemma FirstIndex(rs: seq<KeyRecord>, key: string, i: nat)
    requires i <= |rs| && (i < |rs| ==> rs[i].key == key)
    requires forall j | 0 <= j < i :: rs[j].key != key
    ensures i == IndexOf(rs, key)
  {
  }

  lemma WithoutStep(rs: seq<KeyRecord>, i: nat, k: nat)
    requires i < |rs|
    ensures Without(rs[..i + 1], k) == if i == k then Without(rs[..i], k) else Without(rs[..i], k) + [rs[i]]
  {
    if k < i {
      assert rs[..i + 1][..k] == rs[..i][..k];
      assert rs[..i + 1][k + 1..] == rs[..i][k + 1..] + [rs[i]];
    }
  }

  lemma SurvivorsStep(rs: seq<KeyRecord>, i: nat)
    requires i < |rs|
    ensures Survivors(rs[..i + 1]) ==
            Survivors(rs[..i]) + (if rs[i].status == AUTO_DISABLED then []
                                  else if rs[i].status == ENABLED then [Fresh(rs[i].key)] else [rs[i]])
  {
    assert rs[..i + 1][..i] == rs[..i];
  }

  // ------------------------------------------------------------------ what the record list promises

  /** Disable times and reasons exist only on disabled keys. */
  ghost predicate Tidy(rs: seq<KeyRecord>) {
    forall i | 0 <= i < |rs| && rs[i].status == ENABLED :: rs[i] == Fresh(rs[i].key)
  }

  /** The number of records that delete_disabled_keys keeps. */
  function KeptCount(rs: seq<KeyRecord>): nat {
    if rs == [] then 0
    else KeptCount(rs[..|rs| - 1]) + (if rs[|rs| - 1].status == AUTO_DISABLED then 0 else 1)
  }

  /** What a kept record looks like: an enabled one has no details. */
  function Kept(r: KeyRecord): KeyRecord {
    if r.status == ENABLED then Fresh(r.key) else r
  }

  /** A kept record lands at the position given by the number of kept records before it. */
  lemma {:induction false} SurvivorsKeepOrder(rs: seq<KeyRecord>, i: nat)
    requires i < |rs| && rs[i].status != AUTO_DISABLED
    ensures |Survivors(rs)| == KeptCount(rs)
    ensures KeptCount(rs[..i]) < KeptCount(rs) && Survivors(rs)[KeptCount(rs[..i])] == Kept(rs[i])
  {
    var front := rs[..|rs| - 1];
    SurvivorCount(front);
    if i == |rs| - 1 {
    } else {
      SurvivorsKeepOrder(front, i);
      assert front[..i] == rs[..i];
    }
  }

  lemma {:induction false} SurvivorCount(rs: seq<KeyRecord>)
    ensures |Survivors(rs)| == KeptCount(rs)
  {
    if rs == [] {
    } else {
      SurvivorCount(rs[..|rs| - 1]);
    }
  }

  lemma {:induction false} NoSurvivors(rs: seq<KeyRecord>)
    requires forall i | 0 <= i < |rs| :: rs[i].status == AUTO_DISABLED
    ensures Survivors(rs) == []
  {
    if rs == [] {
    } else {
      NoSurvivors(rs[..|rs| - 1]);
    }
  }

  lemma {:induction false} SurvivorsFewer(rs: seq<KeyRecord>)
    ensures |Survivors(rs)| == |rs| <==> !HasAutoDisabled(rs)
  {
    if rs == [] {
    } else {
      var front, n := rs[..|rs| - 1], |rs| - 1;
      SurvivorsFewer(front);
      assert forall i | 0 <= i < n :: front[i] == rs[i];
    }
  }

  /** The keys that are not auto-disabled, in order. */
  function KeptKeys(rs: seq<KeyRecord>): seq<string> {
    if rs == [] then []
    else KeptKeys(rs[..|rs| - 1]) + if rs[|rs| - 1].status == AUTO_DISABLED then [] else [rs[|rs| - 1].key]
  }

  lemma {:induction false} SurvivorKeys(rs: seq<KeyRecord>)
    ensures KeysOf(Survivors(rs)) == KeptKeys(rs)
  {
    if rs == [] {
    } else {
      var front := rs[..|rs| - 1];
      SurvivorKeys(front);
      assert KeysOf(Survivors(front)) + [rs[|rs| - 1].key] == KeysOf(Survivors(front) + [Kept(rs[|rs| - 1])]);
    }
  }

  lemma {:induction false} NothingDropped(rs: seq<KeyRecord>)
    requires !HasAutoDisabled(rs)
    ensures KeptKeys(rs) == KeysOf(rs)
  {
    if rs == [] {
    } else {
      NothingDropped(rs[..|rs| - 1]);
    }
  }

  lemma {:induction false} SurvivorsTidy(rs: seq<KeyRecord>)
    ensures Tidy(Survivors(rs))
  {
    if rs == [] {
    } else {
      SurvivorsTidy(rs[..|rs| - 1]);
    }
  }

  predicate HasKey(rs: seq<KeyRecord>, key: string, status: int) {
    exists r | r in rs :: r.key == key && r.status == status
  }

  /** delete_disabled_keys keeps every key whose status is not 3, in that status, and no key whose status is 3. */
  lemma DeletesStatusThree(rs: seq<KeyRecord>)
    ensures forall i | 0 <= i < |rs| && rs[i].status != 3 ::
              HasKey(Apply(rs, DeleteAutoDisabled), rs[i].key, rs[i].status)
    ensures forall i | 0 <= i < |rs| && rs[i].status == 2 :: rs[i] in Apply(rs, DeleteAutoDisabled)
    ensures forall r | r in Apply(rs, DeleteAutoDisabled) :: r.status != 3
  {
    SurvivorStatuses(rs);
    forall i | 0 <= i < |rs| && rs[i].status != 3 ensures Kept(rs[i]) in Survivors(rs) {
      SurvivorsKeepOrder(rs, i);
    }
  }

  lemma {:induction false} SurvivorStatuses(rs: seq<KeyRecord>)
    ensures forall r | r in Survivors(rs) :: r.status != 3
  {
    if rs == [] {
    } else {
      SurvivorStatuses(rs[..|rs| - 1]);
    }
  }

  /** A key that an administrator has switched off, alone or with all others, survives the deletion as it is. */
  lemma OffByHandSurvives(rs: seq<KeyRecord>, i: nat)
    requires i < |rs|
    ensures rs[i].(status := 2) in Apply(Apply(rs, Disable(i)), DeleteAutoDisabled)
    ensures rs[i].status == 1 ==> rs[i].(status := 2) in Apply(Apply(rs, DisableAll), DeleteAutoDisabled)
  {
    var one, all := Apply(rs, Disable(i)), Apply(rs, DisableAll);
    assert one[i] == rs[i].(status := 2);
    DeletesStatusThree(one);
    DeletesStatusThree(all);
    assert rs[i].status == 1 ==> all[i] == rs[i].(status := 2);
  }

  /** A key that a relay has reported with status 3 does not. */
  lemma ReportedKeyGoes(rs: seq<KeyRecord>, i: nat, reason: string, now: int)
    requires i < |rs| && forall j | 0 <= j < |rs| && j != i :: rs[j].key != rs[i].key
    ensures forall r | r in Apply(Apply(rs, AutoUpdate(rs[i].key, 3, reason, now)), DeleteAutoDisabled) ::
              r.key != rs[i].key
  {
    FirstIndex(rs, rs[i].key, i);
    var off := Apply(rs, AutoUpdate(rs[i].key, 3, reason, now));
    assert off == rs[i := rs[i].(status := 3, time := Some(now), reason := Some(reason))];
    SurvivorSources(off);
  }

  lemma {:induction false} SurvivorSources(rs: seq<KeyRecord>)
    ensures forall r | r in Survivors(rs) :: exists i :: 0 <= i < |rs| && rs[i].key == r.key && rs[i].status != 3
  {
    if rs == [] {
    } else {
      var n := |rs| - 1;
      SurvivorSources(rs[..n]);
      forall r | r in Survivors(rs[..n]) ensures exists i :: 0 <= i < |rs| && rs[i].key == r.key && rs[i].status != 3 {
        var i :| 0 <= i < n && rs[..n][i].key == r.key && rs[..n][i].status != 3;
        assert rs[i].key == r.key;
      }
      assert rs[n].key == rs[n].key;
    }
  }

  /** The one action that leaves details behind: a relay re-enabling a key that has some. */
  predicate LeavesStaleDetails(rs: seq<KeyRecord>, op: Op) {
    && op.AutoUpdate? && op.status == ENABLED
    && var i := IndexOf(rs, op.usingKey);
       i < |rs| && (rs[i].time.Some? || rs[i].reason.Some?)
  }

  /** Every action keeps details on disabled keys only, except exactly that one. */
  lemma TidyIff(rs: seq<KeyRecord>, op: Op)
    requires Tidy(rs)
    ensures Tidy(Apply(rs, op)) <==> !LeavesStaleDetails(rs, op)
  {
    SurvivorsTidy(rs);
    if op.AutoUpdate? && op.status == ENABLED {
      var i := IndexOf(rs, op.usingKey);
      if i < |rs| {
        assert Apply(rs, op)[i].status == ENABLED;
      }
    }
  }

  /** For instance: a relay disables a key and then enables it again. */
  lemma ReenableLeavesDetails(key: string, reason: string, now: int, later: int)
    ensures var off, on := AutoUpdate(key, AUTO_DISABLED, reason, now), AutoUpdate(key, ENABLED, "", later);
            && Tidy([Fresh(key)]) && Tidy(Apply([Fresh(key)], off))
            && Apply(Apply([Fresh(key)], off), on) == [KeyRecord(key, ENABLED, Some(now), Some(reason))]
            && !Tidy(Apply(Apply([Fresh(key)], off), on))
  {
    var off, on := AutoUpdate(key, AUTO_DISABLED, reason, now), AutoUpdate(key, ENABLED, "", later);
    var disabled := KeyRecord(key, AUTO_DISABLED, Some(now), Some(reason));
    assert Apply([Fresh(key)], off) == [disabled];
    assert Apply([disabled], on) == [disabled.(status := ENABLED)];
    assert [disabled.(status := ENABLED)][0].status == ENABLED;
  }

  lemma ApplyAllStep(rs: seq<KeyRecord>, ops: seq<Op>, k: nat)
    requires k < |ops|
    ensures ApplyAll(rs, ops[..k + 1]) == Apply(ApplyAll(rs, ops[..k]), ops[k])
  {
    assert ops[..k + 1][..k] == ops[..k];
  }

  /** Over every run: details stay on disabled keys throughout exactly if no step is that one. */
  lemma {:induction false} TidyRunIff(rs: seq<KeyRecord>, ops: seq<Op>, n: nat)
    requires Tidy(rs) && n <= |ops|
    ensures (forall k | 0 <= k <= n :: Tidy(ApplyAll(rs, ops[..k])))
       <==> (forall k | 0 <= k < n :: !LeavesStaleDetails(ApplyAll(rs, ops[..k]), ops[k]))
  {
    if n == 0 {
      assert ops[..0] == [];
    } else {
      TidyRunIff(rs, ops, n - 1);
      ApplyAllStep(rs, ops, n - 1);
      if Tidy(ApplyAll(rs, ops[..n - 1])) {
        TidyIff(ApplyAll(rs, ops[..n - 1]), ops[n - 1]);
      }
    }
  }

  /** Appending never introduces a key twice, nor one that is already there. */
  lemma {:induction false} NewKeysDistinct(seen: set<string>, input: seq<string>)
    ensures forall i, j | 0 <= i < j < |NewKeys(seen, input)| :: NewKeys(seen, input)[i] != NewKeys(seen, input)[j]
    ensures forall k :: k in NewKeys(seen, input) <==> k in input && k !in seen
  {
    if input == [] {
    } else {
      NewKeysDistinct(seen, input[..|input| - 1]);
    }
  }

  /** Submitted keys are not blank, and single lines. */
  lemma {:induction false} TrimmedLines(lines: seq<string>)
    requires Text.SepFree(lines, '\n')
    ensures forall i | 0 <= i < |Trimmed(lines)| :: Trimmed(lines)[i] != "" && '\n' !in Trimmed(lines)[i]
  {
    if lines == [] {
    } else {
      TrimmedLines(lines[..|lines| - 1]);
      Text.TrimSpaceKeeps(lines[|lines| - 1], '\n');
    }
  }

  lemma {:induction false} TrimmedTwice(lines: seq<string>)
    ensures Trimmed(Trimmed(lines)) == Trimmed(lines)
  {
    if lines == [] {
    } else {
      var front, t := Trimmed(lines[..|lines| - 1]), Text.TrimSpace(lines[|lines| - 1]);
      TrimmedTwice(lines[..|lines| - 1]);
      Text.TrimSpaceIdempotent(lines[|lines| - 1]);
      if t == "" {
        assert Trimmed(lines) == front;
      } else {
        assert Trimmed(lines) == front + [t];
        assert (front + [t])[..|front|] == front;
      }
    }
  }

  lemma {:induction false} NewKeysFromInput(seen: set<string>, input: seq<string>)
    ensures forall k | k in NewKeys(seen, input) :: k in input
  {
    if input == [] {
    } else {
      NewKeysFromInput(seen, input[..|input| - 1]);
    }
  }

  lemma NewKeysAreLines(keys: seq<string>, input: string)
    ensures var more := NewKeys(SeenIn(keys), InputKeys(input));
            Text.SepFree(more, '\n') && forall i | 0 <= i < |more| :: more[i] != ""
  {
    var more := NewKeys(SeenIn(keys), InputKeys(input));
    Text.SplitSepFree(input, '\n');
    TrimmedLines(Text.Split(input, '\n'));
    NewKeysFromInput(SeenIn(keys), InputKeys(input));
    forall i | 0 <= i < |more| ensures '\n' !in more[i] && more[i] != "" {
      assert more[i] in more;
    }
  }
}
