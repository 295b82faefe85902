/** The stored channel row and the actions on its keys, as the handlers perform them. */
module MultiKeyChannel {
  import opened MultiKey
  import opened MultiKeyTable
  import Text

  /** The loop of Channel.Update that deletes statuses of indices past the key count. */
  method DropBeyond(statuses: map<int, int>, n: nat) returns (kept: map<int, int>)
    ensures kept == statuses - (set i | i in statuses && i >= n)
  {
    kept := statuses;
    var todo := statuses.Keys;
    while todo != {}
      invariant todo <= statuses.Keys && kept.Keys == todo + (set i | i in statuses && i < n)
      invariant forall i | i in kept :: kept[i] == statuses[i]
      decreases |todo|
    {
      var idx :| idx in todo;
      todo := todo - {idx};
      if idx >= n {
        kept := kept - {idx};
      }
    }
    assert kept.Keys == (statuses - (set i | i in statuses && i >= n)).Keys;
  }

  /** The loop of delete_key: skip one key and move the details of the others down. */
  method DropOne(keys: seq<string>, m: Meta, index: nat) returns (remaining: seq<string>, info: Meta)
    ensures var rs := Without(RecordsOf(keys, m), index); remaining == KeysOf(rs) && info == MetaOf(rs)
  {
    ghost var done := [];
    remaining, info := [], EMPTY_META;
    var newIndex := 0;
    for i := 0 to |keys|
      invariant newIndex == |remaining| == |done|
      invariant done == DoneAt(keys, m, i, index)
      invariant remaining == KeysOf(done) && info == MetaOf(done)
    {
      DoneStep(keys, m, i, index);
      if i != index {
        ghost var r := RecordOf(keys[i], m, i);
        MetaOfSnoc(done, r);
        KeysOfSnoc(done, r);
        info := CopyDetails(keys[i], m, i, info, newIndex);
        remaining := remaining + [keys[i]];
        newIndex := newIndex + 1;
        done := done + [r];
      }
    }
    assert RecordsOf(keys, m)[..|keys|] == RecordsOf(keys, m);
  }

  /** The records of the first i keys, without the one at index. */
  ghost function DoneAt(keys: seq<string>, m: Meta, i: nat, index: nat): seq<KeyRecord>
    requires i <= |keys|
  {
    Without(RecordsOf(keys, m)[..i], index)
  }

  lemma DoneStep(keys: seq<string>, m: Meta, i: nat, index: nat)
    requires i < |keys|
    ensures DoneAt(keys, m, i + 1, index)
         == if i == index then DoneAt(keys, m, i, index) else DoneAt(keys, m, i, index) + [RecordOf(keys[i], m, i)]
  {
    WithoutStep(RecordsOf(keys, m), i, index);
  }

  lemma MetaOfSnoc(rs: seq<KeyRecord>, r: KeyRecord)
    ensures MetaOf(rs + [r]) == WithDetails(MetaOf(rs), |rs|, r)
  {
    var all := rs + [r];
    assert all[..|all| - 1] == rs && all[|all| - 1] == r;
  }

  lemma KeysOfSnoc(rs: seq<KeyRecord>, r: KeyRecord)
    ensures KeysOf(rs + [r]) == KeysOf(rs) + [r.key]
  {
  }

  /** Index newIndex of the new maps receives the details of index i of the old ones. */
  method CopyDetails(ghost key: string, m: Meta, i: nat, info: Meta, newIndex: nat) returns (info': Meta)
    ensures info' == WithDetails(info, newIndex, RecordOf(key, m, i))
  {
    info' := info;
    if i in m.status && m.status[i] != ENABLED {
      info' := info'.(status := info'.status[newIndex := m.status[i]]);
    }
    if i in m.time {
      info' := info'.(time := info'.time[newIndex := m.time[i]]);
    }
    if i in m.reason {
      info' := info'.(reason := info'.reason[newIndex := m.reason[i]]);
    }
  }

  /** One more record: it is dropped, or its key and details are added at the end. */
  lemma KeptStep(rs: seq<KeyRecord>, i: nat)
    requires i < |rs|
    ensures var before, after := Survivors(rs[..i]), Survivors(rs[..i + 1]);
            if rs[i].status == AUTO_DISABLED then after == before
            else
              && KeysOf(after) == KeysOf(before) + [rs[i].key]
              && MetaOf(after) == if rs[i].status == ENABLED then MetaOf(before)
                                  else WithDetails(MetaOf(before), |before|, rs[i])
  {
    SurvivorsStep(rs, i);
    MetaOfSnoc(Survivors(rs[..i]), Kept(rs[i]));
    KeysOfSnoc(Survivors(rs[..i]), Kept(rs[i]));
  }

  /** The loop of delete_disabled_keys: keep what is not auto-disabled. */
  method DropAutoDisabled(keys: seq<string>, m: Meta)
    returns (remaining: seq<string>, info: Meta, deletedCount: nat)
    ensures var rs := Survivors(RecordsOf(keys, m)); remaining == KeysOf(rs) && info == MetaOf(rs)
    ensures deletedCount == |keys| - |remaining|
  {
    ghost var rs := RecordsOf(keys, m);
    remaining, info, deletedCount := [], EMPTY_META, 0;
    var newIndex := 0;
    for i := 0 to |keys|
      invariant newIndex == |remaining|
      invariant remaining == KeysOf(Survivors(rs[..i])) && info == MetaOf(Survivors(rs[..i]))
      invariant deletedCount == i - |remaining|
    {
      KeptStep(rs, i);
      var status := StatusAt(m.status, i);
      assert rs[i].status == status;
      if status == AUTO_DISABLED {
        deletedCount := deletedCount + 1;
      } else {
        if status != ENABLED {
          info := CopyDetails(keys[i], m, i, info, newIndex);
        }
        remaining := remaining + [keys[i]];
        newIndex := newIndex + 1;
      }
    }
    assert rs[..|keys|] == rs;
  }

  /** The loop of disable_all_keys. */
  method SwitchOff(status: map<int, int>, size: int) returns (newStatus: map<int, int>, disabledCount: nat)
    ensures newStatus == SwitchedOff(status, size)
    ensures disabledCount == OnCount(status, size)
  {
    newStatus, disabledCount := status, 0;
    var i := 0;
    while i < size
      invariant 0 <= i && (i <= size || i == 0)
      invariant newStatus == SwitchedOff(status, i)
      invariant disabledCount == OnCount(status, i)
    {
      SwitchedOffAt(status, i, i);
      if StatusAt(newStatus, i) == ENABLED {
        newStatus := newStatus[i := MANUALLY_DISABLED];
        disabledCount := disabledCount + 1;
      }
      i := i + 1;
    }
  }

  /** The loop of UpdateChannel that reads the submitted key text line by line. */
  method ReadInput(input: string) returns (newKeys: seq<string>)
    ensures newKeys == InputKeys(input)
  {
    var lines := Text.Split(input, '\n');
    newKeys := [];
    var i := 0;
    while i < |lines|
      invariant 0 <= i <= |lines|
      invariant newKeys == Trimmed(lines[..i])
    {
      var key := Text.TrimSpace(lines[i]);
      assert lines[..i + 1][..i] == lines[..i];
      if key != "" {
        newKeys := newKeys + [key];
      }
      i := i + 1;
    }
    assert lines[..i] == lines;
  }

  /** The first append loop of UpdateChannel: the trimmed forms of the existing keys. */
  method CollectSeen(existing: seq<string>) returns (seen: set<string>)
    ensures seen == SeenIn(existing)
  {
    seen := {};
    var i := 0;
    while i < |existing|
      invariant 0 <= i <= |existing|
      invariant seen == SeenIn(existing[..i])
    {
      var normalized := Text.TrimSpace(existing[i]);
      SeenStep(existing, i);
      if normalized != "" {
        seen := seen + {normalized};
      }
      i := i + 1;
    }
    assert existing[..i] == existing;
  }

  lemma NewKeysStep(seen: set<string>, newKeys: seq<string>, i: nat)
    requires i < |newKeys|
    ensures var before, k := NewKeys(seen, Trimmed(newKeys[..i])), Text.TrimSpace(newKeys[i]);
            NewKeys(seen, Trimmed(newKeys[..i + 1])) ==
            if k == "" || k in seen || k in before then before else before + [k]
  {
    var front, k := Trimmed(newKeys[..i]), Text.TrimSpace(newKeys[i]);
    assert newKeys[..i + 1][..i] == newKeys[..i];
    assert Trimmed(newKeys[..i + 1]) == if k == "" then front else front + [k];
    assert (front + [k])[..|front|] == front && (front + [k])[|front|] == k;
  }

  /** The second append loop of UpdateChannel: keep each unseen key once, trimmed. */
  method Dedupe(seen: set<string>, newKeys: seq<string>) returns (deduped: seq<string>)
    ensures deduped == NewKeys(seen, Trimmed(newKeys))
  {
    var seen' := seen;
    deduped := [];
    for i := 0 to |newKeys|
      invariant deduped == NewKeys(seen, Trimmed(newKeys[..i]))
      invariant forall k :: k in seen' <==> k in seen || k in deduped
    {
      NewKeysStep(seen, newKeys, i);
      var normalized := Text.TrimSpace(newKeys[i]);
      if normalized != "" && normalized !in seen' {
        seen' := seen' + {normalized};
        deduped := deduped + [normalized];
      }
    }
    assert newKeys[..|newKeys|] == newKeys;
  }

  method AppendedKeys(existing: seq<string>, input: string) returns (deduped: seq<string>)
    ensures deduped == NewKeys(SeenIn(existing), InputKeys(input))
  {
    var newKeys := ReadInput(input);
    var seen := CollectSeen(existing);
    deduped := Dedupe(seen, newKeys);
    TrimmedTwice(Text.Split(input, '\n'));
  }

  lemma SeenStep(keys: seq<string>, i: nat)
    requires i < |keys|
    ensures SeenIn(keys[..i + 1]) ==
            SeenIn(keys[..i]) + (if Text.TrimSpace(keys[i]) == "" then {} else {Text.TrimSpace(keys[i])})
  {
    forall k | k in SeenIn(keys[..i]) ensures k in SeenIn(keys[..i + 1]) {
      var j :| 0 <= j < i && Text.TrimSpace(keys[..i][j]) != "" && Text.TrimSpace(keys[..i][j]) == k;
      assert keys[..i + 1][j] == keys[j];
    }
    assert keys[..i + 1][i] == keys[i];
    forall k | k in SeenIn(keys[..i + 1]) ensures k in SeenIn(keys[..i]) || k == Text.TrimSpace(keys[i]) {
      var j :| 0 <= j < i + 1 && Text.TrimSpace(keys[..i + 1][j]) != "" && Text.TrimSpace(keys[..i + 1][j]) == k;
      if j < i {
        assert keys[..i][j] == keys[j];
      }
    }
  }

  method FindKey(keys: seq<string>, usingKey: string) returns (i: nat)
    ensures i <= |keys| && (i < |keys| ==> keys[i] == usingKey)
    ensures forall j | 0 <= j < i :: keys[j] != usingKey
  {
    i := 0;
    while i < |keys| && keys[i] != usingKey
      invariant i <= |keys|
      invariant forall j | 0 <= j < i :: keys[j] != usingKey
    {
      i := i + 1;
    }
  }

  lemma CleanStep(lines: seq<string>, i: nat)
    requires i < |lines|
    ensures CleanKeys(lines[..i + 1])
         == CleanKeys(lines[..i]) + if lines[i] == "" then [] else [Text.TrimSpace(lines[i])]
  {
    assert lines[..i + 1][..i] == lines[..i];
  }

  /** The loop of AddChannel over the submitted lines. */
  method ReadNewKeys(input: string) returns (keys: seq<string>)
    ensures keys == CleanKeys(Text.Split(input, '\n'))
  {
    var lines := Text.Split(input, '\n');
    keys := [];
    for i := 0 to |lines|
      invariant keys == CleanKeys(lines[..i])
    {
      CleanStep(lines, i);
      if lines[i] != "" {
        keys := keys + [Text.TrimSpace(lines[i])];
      }
    }
    assert lines[..|lines|] == lines;
  }

  class Channel {
    var key: string                      // newline-joined key text
    var size: int                        // MultiKeySize
    var status: map<int, int>            // MultiKeyStatusList
    var disabledTime: map<int, int>      // MultiKeyDisabledTime
    var disabledReason: map<int, string> // MultiKeyDisabledReason

    /** AddChannel with mode "multi_to_single". */
    constructor (input: string)
      ensures View() == Created(input)
    {
      var keys := ReadNewKeys(input);
      key, size := Text.Join(keys, '\n'), |keys|;
      status, disabledTime, disabledReason := map[], map[], map[];
    }

    /** Channel.GetKeys for a newline-separated text. */
    function Keys(): seq<string>
      reads this
    {
      Text.Decode(key, '\n')
    }

    function Info(): Meta
      reads this
    {
      Meta(status, disabledTime, disabledReason)
    }

    ghost function View(): Table
      reads this
    {
      Table(Keys(), size, Info())
    }

    /**
      Channel.Update: recomputes the size from the key text, drops statuses beyond it, and
      saves. An empty key text means "not provided": the stored one stays.
     */
    method Update(newKey: string, info: Meta)
      modifies this
      ensures View() == Synced(KeysAfter(old(Keys()), newKey), info)
    {
      var keyStr := if newKey != "" then newKey else key;
      var n := |Text.Decode(keyStr, '\n')|;
      var kept := DropBeyond(info.status, n);
      key, size := keyStr, n;
      status, disabledTime, disabledReason := kept, info.time, info.reason;
    }

    method DisableKey(index: int) returns (ok: bool)
      modifies this
      ensures View() == Act(old(View()), Op.Disable(index)) && (ok <==> 0 <= index < old(size))
    {
      if index < 0 || index >= size {
        return false;
      }
      Update(key, Info().(status := status[index := MANUALLY_DISABLED]));
      return true;
    }

    method EnableKey(index: int) returns (ok: bool)
      modifies this
      ensures View() == Act(old(View()), Op.Enable(index)) && (ok <==> 0 <= index < old(size))
    {
      if index < 0 || index >= size {
        return false;
      }
      Update(key, Meta(status - {index}, disabledTime - {index}, disabledReason - {index}));
      return true;
    }

    method EnableAllKeys()
      modifies this
      ensures View() == Act(old(View()), EnableAll)
    {
      Update(key, EMPTY_META);
    }

    /** ok says that some key was still enabled. */
    method DisableAllKeys() returns (disabledCount: nat)
      modifies this
      ensures View() == Act(old(View()), DisableAll) && disabledCount == OnCount(old(status), old(size))
    {
      AnyOnIff(status, size);
      var newStatus;
      newStatus, disabledCount := SwitchOff(status, size);
      if disabledCount == 0 {
        return;
      }
      Update(key, Info().(status := newStatus));
    }

    /** Deleting the last remaining key is refused. */
    method DeleteKey(index: int) returns (ok: bool)
      modifies this
      ensures View() == Act(old(View()), Op.DeleteKey(index))
      ensures ok <==> 0 <= index < old(size) && Without(Records(old(View())), index) != []
    {
      if index < 0 || index >= size {
        return false;
      }
      var remaining, info := DropOne(Keys(), Info(), index);
      if |remaining| == 0 {
        return false;
      }
      Update(Text.Join(remaining, '\n'), info);
      return true;
    }

    /** ok says that some key was auto-disabled. */
    method DeleteDisabledKeys() returns (deletedCount: nat)
      modifies this
      ensures View() == Act(old(View()), DeleteAutoDisabled)
      ensures deletedCount == |Records(old(View()))| - |Survivors(Records(old(View())))|
    {
      ActDeleteAuto(View());
      SurvivorsFewer(Records(View()));
      var remaining, info;
      remaining, info, deletedCount := DropAutoDisabled(Keys(), Info());
      if deletedCount == 0 {
        return;
      }
      Update(Text.Join(remaining, '\n'), info);
    }

    /** UpdateChannel with key_mode "append". */
    method AppendKeys(input: string)
      modifies this
      ensures View() == Act(old(View()), Op.Append(input))
    {
      Text.DecodeEnds(key, '\n');
      ActAppend(View(), input);
      if key == "" {
        Update(input, Info());
        return;
      }
      var deduped := AppendedKeys(Keys(), input);
      Update(Text.Join(Keys() + deduped, '\n'), Info());
    }

    /** handlerMultiKeyUpdate: a relay reports on the first key equal to usingKey. */
    method AutoUpdate(usingKey: string, newStatus: int, reason: string, now: int)
      modifies this
      ensures View() == Act(old(View()), Op.AutoUpdate(usingKey, newStatus, reason, now))
    {
      var keyIndex := FindKey(Keys(), usingKey);
      FirstIndex(Records(View()), usingKey, keyIndex);
      if keyIndex == |Keys()| {
        return;
      }
      if newStatus == ENABLED {
        status := status - {keyIndex};
      } else {
        status := status[keyIndex := newStatus];
        disabledReason := disabledReason[keyIndex := reason];
        disabledTime := disabledTime[keyIndex := now];
      }
    }

    method Perform(op: Op)
      modifies this
      ensures View() == Act(old(View()), op)
    {
      match op {
        case Disable(i) => var _ := DisableKey(i);
        case Enable(i) => var _ := EnableKey(i);
        case EnableAll => EnableAllKeys();
        case DisableAll => var _ := DisableAllKeys();
        case DeleteKey(i) => var _ := DeleteKey(i);
        case DeleteAutoDisabled => var _ := DeleteDisabledKeys();
        case Append(input) => AppendKeys(input);
        case AutoUpdate(usingKey, newStatus, reason, now) => AutoUpdate(usingKey, newStatus, reason, now);
      }
    }

    /**
      Every run of actions on every stored channel does what the table machine does; on a channel
      in step it refines the record list if every action leaves a list that can be stored.
     */
    method PerformAll(ops: seq<Op>)
      modifies this
      ensures View() == ActAll(old(View()), ops)
      ensures old(InStep(View())) && StorableThroughout(old(Records(View())), ops) ==>
                InStep(View()) && Records(View()) == ApplyAll(old(Records(View())), ops)
    {
      for i := 0 to |ops|
        invariant View() == ActAll(old(View()), ops[..i])
      {
        assert ops[..i + 1][..i] == ops[..i];
        Perform(ops[i]);
      }
      assert ops[..|ops|] == ops;
      if old(InStep(View())) {
        RunRefinesIff(old(View()), ops);
      }
    }
  }
}
