/** The loops and the stored channel of controller/channel_upstream_update.go. */
module UpstreamChannel {
  import opened Wrappers
  import opened ModelNames
  import opened UpstreamModels
  import Text

  /** The loops that turn a list into a set of names. */
  method ToSet(names: seq<string>) returns (s: set<string>)
    ensures forall x :: x in s <==> x in names
  {
    s := {};
    for i := 0 to |names|
      invariant forall x :: x in s <==> x in names[..i]
    {
      assert names[..i + 1] == names[..i] + [names[i]];
      s := s + {names[i]};
    }
    assert names[..|names|] == names;
  }

  lemma FilterStep(names: seq<string>, i: nat, keep: string -> bool)
    requires i < |names|
    ensures Filter(names[..i + 1], keep) == Filter(names[..i], keep) + if keep(names[i]) then [names[i]] else []
  {
    assert names[..i + 1][..i] == names[..i];
  }

  /** The first names of a clean list: each one is new. */
  lemma PrefixGrows(names: seq<string>, i: nat)
    requires Clean(names) && i < |names|
    ensures names[i] !in names[..i]
    ensures forall x :: x in names[..i + 1] <==> x in names[..i] || x == names[i]
  {
    assert names[..i + 1] == names[..i] + [names[i]];
  }

  lemma SeenGrows(seen: set<string>, base: seq<string>, names: seq<string>, i: nat)
    requires Clean(names) && i < |names| && forall x :: x in seen <==> x in base || x in names[..i]
    ensures names[i] in seen <==> names[i] in base
    ensures forall x :: x in seen + {names[i]} <==> x in base || x in names[..i + 1]
    ensures names[i] in seen ==> forall x :: x in seen <==> x in base || x in names[..i + 1]
  {
    PrefixGrows(names, i);
  }

  method MergeModelNames(base: seq<string>, appended: seq<string>) returns (merged: seq<string>)
    ensures merged == Merge(base, appended)
  {
    merged := AppendNew(Normalize(base), Normalize(appended));
  }

  /** The loop that appends the names not seen before. */
  method AppendNew(base: seq<string>, more: seq<string>) returns (merged: seq<string>)
    requires Clean(more)
    ensures merged == base + Filter(more, NotIn(base))
  {
    merged := base;
    var seen := ToSet(merged);
    for i := 0 to |more|
      invariant merged == base + Filter(more[..i], NotIn(base))
      invariant forall x :: x in seen <==> x in base || x in more[..i]
    {
      FilterStep(more, i, NotIn(base));
      SeenGrows(seen, base, more, i);
      if more[i] !in seen {
        seen := seen + {more[i]};
        merged := merged + [more[i]];
      }
    }
    assert more[..|more|] == more;
  }

  method SubtractModelNames(base: seq<string>, removed: seq<string>) returns (r: seq<string>)
    ensures r == Subtract(base, removed)
  {
    var n := Normalize(removed);
    var removeSet := ToSet(n);
    r := Filter(Normalize(base), x => x !in removeSet);
    FilterSame(Normalize(base), x => x !in removeSet, x => x !in n);
  }

  method IntersectModelNames(base: seq<string>, allowed: seq<string>) returns (r: seq<string>)
    ensures r == Intersect(base, allowed)
  {
    var n := Normalize(allowed);
    var allowedSet := ToSet(n);
    r := Filter(Normalize(base), x => x in allowedSet);
    FilterSame(Normalize(base), x => x in allowedSet, x => x in n);
  }

  /** collectPendingUpstreamModelChangesFromModels; the mapping is visited in any order. */
  method CollectPending(local: seq<string>, upstream: seq<string>, ignored: seq<string>,
                        mapping: map<string, string>, matches: Matcher)
    returns (pendingAdd: seq<string>, pendingRemove: seq<string>)
    ensures pendingAdd == PendingAdd(local, upstream, ignored, mapping, matches)
    ensures pendingRemove == PendingRemove(local, upstream, mapping)
  {
    var l, u, rules := Normalize(local), Normalize(upstream), Normalize(ignored);
    var localSet := ToSet(l);
    var upstreamSet := ToSet(u);
    var sources, targets := CollectAliases(mapping);
    var covered := localSet + targets;
    pendingAdd := Filter(u, x => x !in covered && !Ignored(rules, x, matches));
    FilterSame(u, x => x !in covered && !Ignored(rules, x, matches),
               x => !Covered(l, mapping, x) && !Ignored(rules, x, matches));
    pendingRemove := Filter(l, x => x !in sources && x !in upstreamSet);
    FilterSame(l, x => x !in sources && x !in upstreamSet, x => x !in mapping && x !in u);
    FilterClean(u, x => !Covered(l, mapping, x) && !Ignored(rules, x, matches));
    FilterClean(l, x => x !in mapping && x !in u);
    NormalizeClean(pendingAdd);
    NormalizeClean(pendingRemove);
    return Normalize(pendingAdd), Normalize(pendingRemove);
  }

  method CollectAliases(mapping: map<string, string>) returns (sources: set<string>, targets: set<string>)
    ensures sources == mapping.Keys && targets == mapping.Values
  {
    sources, targets := {}, {};
    var todo := mapping.Keys;
    while todo != {}
      invariant todo <= mapping.Keys && sources == mapping.Keys - todo
      invariant targets == set k | k in mapping && k !in todo :: mapping[k]
      decreases |todo|
    {
      var source :| source in todo;
      todo := todo - {source};
      sources := sources + {source};
      targets := targets + {mapping[source]};
    }
  }

  /** The first part of applyChannelUpstreamModelUpdates: which requested names are pending. */
  method SelectPending(s: Settings, addInput: seq<string>, ignoreInput: seq<string>, removeInput: seq<string>)
    returns (sel: Selection)
    ensures sel == Select(s, addInput, ignoreInput, removeInput)
  {
    var pendingAdd, pendingRemove := Normalize(s.detected), Normalize(s.removed);
    var add := IntersectModelNames(addInput, pendingAdd);
    var ignore := IntersectModelNames(ignoreInput, pendingAdd);
    var remove := IntersectModelNames(removeInput, pendingRemove);
    remove := SubtractModelNames(remove, add);
    sel := Selection(add, ignore, remove);
  }

  /** The second part: the new settings, and whether the model list differs. */
  method ApplySelection(s: Settings, sel: Selection) returns (next: Settings, changed: bool)
    ensures next == UpstreamModels.Apply(s, sel)
    ensures changed <==> NextModels(s, sel) != LocalModels(s)
  {
    var origin := LocalModels(s);
    var nextModels := ApplySelected(origin, sel.add, sel.remove);
    changed := origin != nextModels;
    var models := if changed then Text.Join(nextModels, ',') else s.models;
    var ignored := MergeModelNames(s.ignored, sel.ignore);
    if |sel.add| > 0 {
      ignored := SubtractModelNames(ignored, sel.add);
    }
    var remaining := SubtractModelNames(Normalize(s.detected), sel.add + sel.ignore);
    var remainingRemove := SubtractModelNames(Normalize(s.removed), sel.remove);
    next := Settings(models, ignored, remaining, remainingRemove);
  }

  class Channel {
    var settings: Settings
    var lastCheckTime: int
    var autoSync: bool

    /** applyChannelUpstreamModelUpdates, up to the database writes. */
    method ApplyUpdates(addInput: seq<string>, ignoreInput: seq<string>, removeInput: seq<string>, now: int)
      returns (added: seq<string>, removed: seq<string>, remaining: seq<string>,
               remainingRemove: seq<string>, changed: bool)
      modifies this
      ensures var sel := Select(old(settings), addInput, ignoreInput, removeInput);
              && settings == UpstreamModels.Apply(old(settings), sel)
              && added == sel.add && removed == sel.remove
              && changed == (NextModels(old(settings), sel) != LocalModels(old(settings)))
      ensures remaining == settings.detected && remainingRemove == settings.removed
      ensures lastCheckTime == now && autoSync == old(autoSync)
    {
      var sel := SelectPending(settings, addInput, ignoreInput, removeInput);
      added, removed := sel.add, sel.remove;
      settings, changed := ApplySelection(settings, sel);
      remaining, remainingRemove := settings.detected, settings.removed;
      lastCheckTime := now;
    }

    /** checkAndPersistChannelUpstreamModelUpdates; `reply` is None when the fetch fails. */
    method Check(reply: Option<seq<string>>, mapping: map<string, string>, matches: Matcher,
                 force: bool, allowAutoApply: bool, now: int, minInterval: int)
      returns (changed: bool, autoAdded: int)
      modifies this
      ensures autoSync == old(autoSync)
      ensures var skipped := !force && old(lastCheckTime) > 0 && now - old(lastCheckTime) < minInterval;
              && lastCheckTime == (if skipped then old(lastCheckTime) else now)
              && (skipped || reply.None? ==> settings == old(settings) && !changed && autoAdded == 0)
              && (!skipped && reply.Some? ==>
                    var d := Detect(old(settings), reply.value, mapping, matches);
                    && settings == (if allowAutoApply && autoSync then AutoAdd(d) else d)
                    && autoAdded == (if allowAutoApply && autoSync then |d.detected| else 0)
                    && (changed <==> autoAdded > 0))
    {
      changed, autoAdded := false, 0;
      if !force && lastCheckTime > 0 && now - lastCheckTime < minInterval {
        return;
      }
      lastCheckTime := now;
      if reply.None? {
        return;
      }
      DetectedOk(settings, reply.value, mapping, matches);
      var add, remove :=
        CollectPending(Text.Decode(settings.models, ','), reply.value, settings.ignored, mapping, matches);
      ghost var d := Detect(settings, reply.value, mapping, matches);
      if allowAutoApply && autoSync && |add| > 0 {
        var origin := LocalModels(settings);
        NewNamesGrow(origin, add);
        var merged := MergeModelNames(origin, add);
        if |merged| > |origin| {
          settings := settings.(models := Text.Join(merged, ','));
          autoAdded := |merged| - |origin|;
          changed := true;
        }
        settings := settings.(detected := [], removed := remove);
      } else {
        settings := settings.(detected := add, removed := remove);
      }
    }
  }
}
