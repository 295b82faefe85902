/**
  Reconciliation of a channel's model list with its upstream
  (controller/channel_upstream_update.go): detect what is missing or gone, then apply the
  administrator's selection. Regular-expression matching is an uninterpreted predicate.
 */
module UpstreamModels {
  import opened ModelNames
  import StringOrder
  import Text

  const REGEX_PREFIX := "regex:"

  type Matcher = (string, string) -> bool

  /** The part of a channel that reconciliation reads and writes. */
  datatype Settings = Settings(
    models: string,          // comma-joined model list
    ignored: seq<string>,    // names and "regex:" rules never to be proposed
    detected: seq<string>,   // pending additions
    removed: seq<string>)    // pending removals

  function LocalModels(s: Settings): seq<string> {
    Normalize(Text.Decode(s.models, ','))
  }

  predicate RuleMatches(rule: string, name: string, matches: Matcher) {
    if REGEX_PREFIX <= rule then matches(Text.TrimSpace(rule[|REGEX_PREFIX|..]), name)
    else rule == name
  }

  predicate Ignored(rules: seq<string>, name: string, matches: Matcher) {
    exists i | 0 <= i < |rules| :: RuleMatches(rules[i], name, matches)
  }

  /** Already served under its own name, or the target of an alias. */
  predicate Covered(local: seq<string>, mapping: map<string, string>, name: string) {
    name in local || name in mapping.Values
  }

  function PendingAdd(local: seq<string>, upstream: seq<string>, ignored: seq<string>,
                      mapping: map<string, string>, matches: Matcher): seq<string> {
    var l, rules := Normalize(local), Normalize(ignored);
    Filter(Normalize(upstream), u => !Covered(l, mapping, u) && !Ignored(rules, u, matches))
  }

  function PendingRemove(local: seq<string>, upstream: seq<string>, mapping: map<string, string>): seq<string> {
    var u := Normalize(upstream);
    Filter(Normalize(local), l => l !in mapping && l !in u)
  }

  /** collectPendingUpstreamModelChanges, stored as checkAndPersist does without auto-apply. */
  function Detect(s: Settings, upstream: seq<string>, mapping: map<string, string>, matches: Matcher): Settings {
    var local := Text.Decode(s.models, ',');
    s.(detected := PendingAdd(local, upstream, s.ignored, mapping, matches),
       removed := PendingRemove(local, upstream, mapping))
  }

  datatype Selection = Selection(add: seq<string>, ignore: seq<string>, remove: seq<string>)

  /** The requested names that are really pending; an addition wins over a removal. */
  function Select(s: Settings, addInput: seq<string>, ignoreInput: seq<string>, removeInput: seq<string>): Selection {
    var pendingAdd, pendingRemove := Normalize(s.detected), Normalize(s.removed);
    var add := Intersect(addInput, pendingAdd);
    Selection(add, Intersect(ignoreInput, pendingAdd), Subtract(Intersect(removeInput, pendingRemove), add))
  }

  function NextModels(s: Settings, sel: Selection): seq<string> {
    ApplySelected(LocalModels(s), sel.add, sel.remove)
  }

  function NextIgnored(s: Settings, sel: Selection): seq<string> {
    var merged := Merge(s.ignored, sel.ignore);
    if sel.add != [] then Subtract(merged, sel.add) else merged
  }

  /** applyChannelUpstreamModelUpdates */
  function Apply(s: Settings, sel: Selection): Settings {
    var next := NextModels(s, sel);
    Settings(
      models := if next != LocalModels(s) then Text.Join(next, ',') else s.models,
      ignored := NextIgnored(s, sel),
      detected := Subtract(Normalize(s.detected), sel.add + sel.ignore),
      removed := Subtract(Normalize(s.removed), sel.remove))
  }

  // ------------------------------------------------------------------ facts about one detection

  predicate CommaFree(names: seq<string>) {
    Text.SepFree(names, ',')
  }

  lemma {:induction false} NormalizeCommaFree(names: seq<string>)
    requires CommaFree(names)
    ensures CommaFree(Normalize(names))
  {
    if names == [] {
    } else {
      NormalizeCommaFree(names[..|names| - 1]);
      Text.TrimSpaceKeeps(names[|names| - 1], ',');
    }
  }

  lemma LocalCommaFree(s: Settings)
    ensures CommaFree(LocalModels(s)) && Clean(LocalModels(s))
  {
    Text.DecodeSepFree(s.models, ',');
    NormalizeCommaFree(Text.Decode(s.models, ','));
  }

  /** What is pending after a detection, name by name. */
  lemma Detected(s: Settings, upstream: seq<string>, mapping: map<string, string>, matches: Matcher)
    ensures var d := Detect(s, upstream, mapping, matches);
            && Clean(d.detected) && Clean(d.removed)
            && (forall x :: x in d.detected <==>
                  && x in Normalize(upstream) && !Covered(LocalModels(s), mapping, x)
                  && !Ignored(Normalize(s.ignored), x, matches))
            && (forall x :: x in d.removed <==>
                  x in LocalModels(s) && x !in mapping && x !in Normalize(upstream))
  {
    var l, rules := LocalModels(s), Normalize(s.ignored);
    var u := Normalize(upstream);
    FilterMembers(u, x => !Covered(l, mapping, x) && !Ignored(rules, x, matches));
    FilterClean(u, x => !Covered(l, mapping, x) && !Ignored(rules, x, matches));
    FilterMembers(l, x => x !in mapping && x !in u);
    FilterClean(l, x => x !in mapping && x !in u);
  }

  /** "regex:" introduces a pattern, which is trimmed; any other rule is a name. */
  predicate RuleCatches(rule: string, name: string, matches: Matcher) {
    if |rule| >= 6 && rule[..6] == "regex:" then matches(Text.TrimSpace(rule[6..]), name) else rule == name
  }

  /** A name is proposed iff it is upstream, no local model, no target of an alias, and no rule catches it. */
  lemma ProposedIff(s: Settings, upstream: seq<string>, mapping: map<string, string>, matches: Matcher, x: string)
    ensures x in Detect(s, upstream, mapping, matches).detected <==>
              && x in Normalize(upstream) && x !in LocalModels(s)
              && (forall alias | alias in mapping :: mapping[alias] != x)
              && (forall rule | rule in Normalize(s.ignored) :: !RuleCatches(rule, x, matches))
  {
    Detected(s, upstream, mapping, matches);
    var rules := Normalize(s.ignored);
    forall rule ensures RuleCatches(rule, x, matches) <==> RuleMatches(rule, x, matches) {
    }
    if rule :| rule in rules && RuleCatches(rule, x, matches) {
      var i :| 0 <= i < |rules| && rules[i] == rule;
      assert RuleMatches(rules[i], x, matches);
    }
    if i :| 0 <= i < |rules| && RuleMatches(rules[i], x, matches) {
      assert rules[i] in rules && RuleCatches(rules[i], x, matches);
    }
  }

  /** Pending lists that belong to the current models: additions are new, removals are present. */
  predicate PendingOk(s: Settings) {
    && Clean(s.detected) && Clean(s.removed)
    && (forall i | 0 <= i < |s.detected| :: s.detected[i] !in LocalModels(s))
    && (forall i | 0 <= i < |s.removed| :: s.removed[i] in LocalModels(s))
  }

  lemma DetectedOk(s: Settings, upstream: seq<string>, mapping: map<string, string>, matches: Matcher)
    ensures PendingOk(Detect(s, upstream, mapping, matches))
  {
    Detected(s, upstream, mapping, matches);
    var d := Detect(s, upstream, mapping, matches);
    forall i | 0 <= i < |d.detected| ensures d.detected[i] !in LocalModels(d) {
      assert d.detected[i] in d.detected;
    }
    forall i | 0 <= i < |d.removed| ensures d.removed[i] in LocalModels(d) {
      assert d.removed[i] in d.removed;
    }
  }

  // ------------------------------------------------------------------ facts about one application

  /** Whatever is requested, only pending names are selected. */
  lemma Selected(s: Settings, addInput: seq<string>, ignoreInput: seq<string>, removeInput: seq<string>)
    requires PendingOk(s)
    ensures var sel := Select(s, addInput, ignoreInput, removeInput);
            && Clean(sel.add) && Clean(sel.ignore) && Clean(sel.remove)
            && (forall x :: x in sel.add <==> x in Normalize(addInput) && x in s.detected)
            && (forall x :: x in sel.ignore <==> x in Normalize(ignoreInput) && x in s.detected)
            && (forall x :: x in sel.remove <==> x in Normalize(removeInput) && x in s.removed)
  {
    NormalizeClean(s.detected);
    NormalizeClean(s.removed);
    IntersectMembers(addInput, s.detected);
    IntersectMembers(ignoreInput, s.detected);
    IntersectMembers(removeInput, s.removed);
    SubtractClean(Intersect(removeInput, s.removed), Intersect(addInput, s.detected));
  }

  /** A selection of pending names. */
  predicate SelectionOk(s: Settings, sel: Selection) {
    && Clean(sel.add) && Clean(sel.ignore) && Clean(sel.remove)
    && (forall i | 0 <= i < |sel.add| :: sel.add[i] in s.detected)
    && (forall i | 0 <= i < |sel.ignore| :: sel.ignore[i] in s.detected)
    && (forall i | 0 <= i < |sel.remove| :: sel.remove[i] in s.removed)
  }

  lemma SelectOk(s: Settings, addInput: seq<string>, ignoreInput: seq<string>, removeInput: seq<string>)
    requires PendingOk(s)
    ensures SelectionOk(s, Select(s, addInput, ignoreInput, removeInput))
  {
    Selected(s, addInput, ignoreInput, removeInput);
    var sel := Select(s, addInput, ignoreInput, removeInput);
    forall i | 0 <= i < |sel.add| ensures sel.add[i] in s.detected {
      assert sel.add[i] in sel.add;
    }
    forall i | 0 <= i < |sel.ignore| ensures sel.ignore[i] in s.detected {
      assert sel.ignore[i] in sel.ignore;
    }
    forall i | 0 <= i < |sel.remove| ensures sel.remove[i] in s.removed {
      assert sel.remove[i] in sel.remove;
    }
  }

  /** Survivors in their old order, then the additions; nothing twice. */
  lemma NextModelsIs(s: Settings, sel: Selection)
    requires PendingOk(s) && SelectionOk(s, sel)
    ensures NextModels(s, sel) == Filter(LocalModels(s), x => x !in sel.remove) + sel.add
    ensures Clean(NextModels(s, sel))
    ensures forall x :: x in NextModels(s, sel) <==> (x in LocalModels(s) && x !in sel.remove) || x in sel.add
  {
    forall i | 0 <= i < |sel.add| ensures sel.add[i] !in LocalModels(s) {
      assert sel.add[i] in s.detected;
    }
    forall i | 0 <= i < |sel.remove| ensures sel.remove[i] in LocalModels(s) {
      assert sel.remove[i] in s.removed;
    }
    ApplySelectedIs(LocalModels(s), sel.add, sel.remove);
    FilterMembers(LocalModels(s), x => x !in sel.remove);
  }

  /** The model list changes exactly when something is selected for addition or removal. */
  lemma ChangedIff(s: Settings, sel: Selection)
    requires PendingOk(s) && SelectionOk(s, sel)
    ensures NextModels(s, sel) != LocalModels(s) <==> sel.add != [] || sel.remove != []
  {
    NextModelsIs(s, sel);
    var l := LocalModels(s);
    if sel.remove != [] {
      assert sel.remove[0] in s.removed;
      assert sel.remove[0] in l && sel.remove[0] !in s.detected;
      assert sel.remove[0] !in sel.add;
    } else {
      FilterAll(l, x => x !in sel.remove);
    }
    if sel.add != [] {
      assert sel.add[0] in s.detected;
      assert sel.add[0] in NextModels(s, sel);
    }
  }

  lemma NextCommaFree(s: Settings, sel: Selection)
    requires PendingOk(s) && SelectionOk(s, sel) && CommaFree(sel.add)
    ensures CommaFree(NextModels(s, sel))
  {
    NextModelsIs(s, sel);
    LocalCommaFree(s);
    var next := NextModels(s, sel);
    forall i | 0 <= i < |next| ensures ',' !in next[i] {
      assert next[i] in next;
    }
  }

  /** The stored text is read back as the new list when the additions have no comma. */
  lemma LocalAfter(s: Settings, sel: Selection)
    requires PendingOk(s) && SelectionOk(s, sel) && CommaFree(sel.add)
    ensures LocalModels(Apply(s, sel)) == NextModels(s, sel)
  {
    NextModelsIs(s, sel);
    NextCommaFree(s, sel);
    Text.DecodeJoin(NextModels(s, sel), ',');
    NormalizeClean(NextModels(s, sel));
  }

  /** The rules that remain after an application. */
  lemma RulesAfter(s: Settings, sel: Selection)
    requires Clean(sel.add) && Clean(sel.ignore)
    ensures Clean(NextIgnored(s, sel))
    ensures forall x :: x in NextIgnored(s, sel) <==>
              (x in Normalize(s.ignored) || x in sel.ignore) && x !in sel.add
  {
    MergeMembers(s.ignored, sel.ignore);
    NormalizeClean(sel.ignore);
    SubtractClean(Merge(s.ignored, sel.ignore), sel.add);
  }

  lemma IgnoredMonotone(a: seq<string>, b: seq<string>, name: string, matches: Matcher)
    requires forall x | x in a :: x in b
    requires Ignored(a, name, matches)
    ensures Ignored(b, name, matches)
  {
    var i :| 0 <= i < |a| && RuleMatches(a[i], name, matches);
    assert a[i] in a;
  }

  // ------------------------------------------------------------------ the fixpoint

  /** Detect, then apply everything that is pending. */
  function DetectAndApplyAll(s: Settings, upstream: seq<string>, mapping: map<string, string>, matches: Matcher)
    : Settings
  {
    var d := Detect(s, upstream, mapping, matches);
    Apply(d, Select(d, d.detected, [], d.removed))
  }

  predicate NothingPending(s: Settings) {
    s.detected == [] && s.removed == []
  }

  lemma IntersectSelf(names: seq<string>)
    requires Clean(names)
    ensures Intersect(names, names) == names
  {
    NormalizeClean(names);
    FilterAll(names, x => x in names);
  }

  lemma SubtractDisjoint(names: seq<string>, removed: seq<string>)
    requires Clean(names) && Clean(removed) && forall i | 0 <= i < |names| :: names[i] !in removed
    ensures Subtract(names, removed) == names
  {
    SubtractClean(names, removed);
    FilterAll(names, x => x !in removed);
  }

  lemma SelectAll(s: Settings)
    requires PendingOk(s)
    ensures Select(s, s.detected, [], s.removed) == Selection(s.detected, [], s.removed)
  {
    NormalizeClean(s.detected);
    NormalizeClean(s.removed);
    IntersectSelf(s.detected);
    IntersectSelf(s.removed);
    forall i | 0 <= i < |s.removed| ensures s.removed[i] !in s.detected {
      assert s.removed[i] in LocalModels(s);
    }
    SubtractDisjoint(s.removed, s.detected);
  }

  /**
    Every upstream name that only the ignore rules keep out is still kept out by the rules
    that are not themselves among the additions.
   */
  predicate RulesSuffice(s: Settings, upstream: seq<string>, mapping: map<string, string>, matches: Matcher,
                         add: seq<string>) {
    forall i | 0 <= i < |Normalize(upstream)| ::
      var u := Normalize(upstream)[i];
      !Covered(LocalModels(s), mapping, u) && Ignored(Normalize(s.ignored), u, matches) ==>
        Ignored(Subtract(s.ignored, add), u, matches)
  }

  lemma RulesAfterAll(s: Settings, add: seq<string>, remove: seq<string>, name: string, matches: Matcher)
    requires Clean(add)
    ensures Ignored(Normalize(NextIgnored(s, Selection(add, [], remove))), name, matches)
       <==> Ignored(Subtract(s.ignored, add), name, matches)
  {
    var sel := Selection(add, [], remove);
    RulesAfter(s, sel);
    var after := NextIgnored(s, sel);
    NormalizeClean(after);
    NormalizeClean(add);
    FilterMembers(Normalize(s.ignored), x => x !in add);
    assert forall x :: x in after <==> x in Subtract(s.ignored, add);
    if Ignored(after, name, matches) {
      IgnoredMonotone(after, Subtract(s.ignored, add), name, matches);
    }
    if Ignored(Subtract(s.ignored, add), name, matches) {
      IgnoredMonotone(Subtract(s.ignored, add), after, name, matches);
    }
  }

  lemma FixpointReached(s: Settings, upstream: seq<string>, mapping: map<string, string>, matches: Matcher)
    requires CommaFree(Detect(s, upstream, mapping, matches).detected)
    requires RulesSuffice(s, upstream, mapping, matches, Detect(s, upstream, mapping, matches).detected)
    ensures var again := Detect(DetectAndApplyAll(s, upstream, mapping, matches), upstream, mapping, matches);
            NothingPending(again)
  {
    var again := Detect(DetectAndApplyAll(s, upstream, mapping, matches), upstream, mapping, matches);
    StringOrder.EmptyOrInhabited(again.detected);
    StringOrder.EmptyOrInhabited(again.removed);
    forall x ensures x !in again.detected && x !in again.removed {
      NotPendingAgain(s, upstream, mapping, matches, x);
    }
  }

  lemma NotPendingAgain(s: Settings, upstream: seq<string>, mapping: map<string, string>, matches: Matcher, x: string)
    requires CommaFree(Detect(s, upstream, mapping, matches).detected)
    requires RulesSuffice(s, upstream, mapping, matches, Detect(s, upstream, mapping, matches).detected)
    ensures var again := Detect(DetectAndApplyAll(s, upstream, mapping, matches), upstream, mapping, matches);
            x !in again.detected && x !in again.removed
  {
    var d := Detect(s, upstream, mapping, matches);
    Detected(s, upstream, mapping, matches);
    DetectedOk(s, upstream, mapping, matches);
    SelectAll(d);
    var sel := Selection(d.detected, [], d.removed);
    SelectOk(d, d.detected, [], d.removed);
    NextModelsIs(d, sel);
    LocalAfter(d, sel);
    Detected(DetectAndApplyAll(s, upstream, mapping, matches), upstream, mapping, matches);
    RulesAfterAll(s, d.detected, d.removed, x, matches);
  }

  /**
    Detect, apply everything, detect again: nothing is pending if and only if no addition
    contains a comma and the surviving ignore rules suffice.
   */
  lemma FixpointIff(s: Settings, upstream: seq<string>, mapping: map<string, string>, matches: Matcher)
    ensures var add := Detect(s, upstream, mapping, matches).detected;
            var again := Detect(DetectAndApplyAll(s, upstream, mapping, matches), upstream, mapping, matches);
            NothingPending(again) <==> CommaFree(add) && RulesSuffice(s, upstream, mapping, matches, add)
  {
    var d := Detect(s, upstream, mapping, matches);
    if !CommaFree(d.detected) {
      var i :| 0 <= i < |d.detected| && ',' in d.detected[i];
      CommaNameComesBack(s, upstream, mapping, matches, d.detected[i]);
    } else if !RulesSuffice(s, upstream, mapping, matches, d.detected) {
      var i :| 0 <= i < |Normalize(upstream)| && LostBy(s, upstream, mapping, matches, Normalize(upstream)[i]);
      LostRuleShows(s, upstream, mapping, matches, Normalize(upstream)[i]);
    } else {
      FixpointReached(s, upstream, mapping, matches);
    }
  }

  /** A name with a comma is split when it is stored, so it is proposed again for ever. */
  lemma CommaNameComesBack(s: Settings, upstream: seq<string>, mapping: map<string, string>, matches: Matcher,
                           name: string)
    requires name in Detect(s, upstream, mapping, matches).detected && ',' in name
    ensures name in Detect(DetectAndApplyAll(s, upstream, mapping, matches), upstream, mapping, matches).detected
  {
    var d := Detect(s, upstream, mapping, matches);
    var s2 := DetectAndApplyAll(s, upstream, mapping, matches);
    Detected(s, upstream, mapping, matches);
    DetectedOk(s, upstream, mapping, matches);
    SelectAll(d);
    LocalCommaFree(s2);
    Detected(s2, upstream, mapping, matches);
    RulesAfterAll(s, d.detected, d.removed, name, matches);
    NormalizeClean(d.detected);
    FilterMembers(Normalize(s.ignored), x => x !in d.detected);
    if Ignored(Subtract(s.ignored, d.detected), name, matches) {
      IgnoredMonotone(Subtract(s.ignored, d.detected), Normalize(s.ignored), name, matches);
    }
  }

  /** Only an ignore rule that is itself among the additions keeps name out. */
  predicate LostBy(s: Settings, upstream: seq<string>, mapping: map<string, string>, matches: Matcher, name: string) {
    && !Covered(LocalModels(s), mapping, name) && Ignored(Normalize(s.ignored), name, matches)
    && !Ignored(Subtract(s.ignored, Detect(s, upstream, mapping, matches).detected), name, matches)
  }

  lemma LostRuleShows(s: Settings, upstream: seq<string>, mapping: map<string, string>, matches: Matcher, u: string)
    ensures CommaFree(Detect(s, upstream, mapping, matches).detected)
            && u in Normalize(upstream) && LostBy(s, upstream, mapping, matches, u) ==>
              u in Detect(DetectAndApplyAll(s, upstream, mapping, matches), upstream, mapping, matches).detected
  {
    if !CommaFree(Detect(s, upstream, mapping, matches).detected) {
      return;
    }
    var d := Detect(s, upstream, mapping, matches);
    var s2 := DetectAndApplyAll(s, upstream, mapping, matches);
    Detected(s, upstream, mapping, matches);
    DetectedOk(s, upstream, mapping, matches);
    SelectAll(d);
    SelectOk(d, d.detected, [], d.removed);
    var sel := Selection(d.detected, [], d.removed);
    NextModelsIs(d, sel);
    LocalAfter(d, sel);
    Detected(s2, upstream, mapping, matches);
    RulesAfterAll(s, d.detected, d.removed, u, matches);
  }

  /** Without additions that look like rules, the surviving rules always suffice. */
  lemma PlainNamesSuffice(s: Settings, upstream: seq<string>, mapping: map<string, string>, matches: Matcher)
    ensures var add := Detect(s, upstream, mapping, matches).detected;
            (forall i | 0 <= i < |add| :: !(REGEX_PREFIX <= add[i])) ==>
              RulesSuffice(s, upstream, mapping, matches, add)
  {
    var add := Detect(s, upstream, mapping, matches).detected;
    if forall i | 0 <= i < |add| :: !(REGEX_PREFIX <= add[i]) {
      Detected(s, upstream, mapping, matches);
      NormalizeClean(add);
      FilterMembers(Normalize(s.ignored), x => x !in add);
      forall i | 0 <= i < |Normalize(upstream)| && Ignored(Normalize(s.ignored), Normalize(upstream)[i], matches)
        ensures Ignored(Subtract(s.ignored, add), Normalize(upstream)[i], matches)
      {
        var u, rules := Normalize(upstream)[i], Normalize(s.ignored);
        var k :| 0 <= k < |rules| && RuleMatches(rules[k], u, matches);
        assert rules[k] in rules && rules[k] !in add;
        assert rules[k] in Subtract(s.ignored, add);
      }
    }
  }

  // ------------------------------------------------------------------ selections

  /** A model that is the source of an alias is never pending for removal nor removed. */
  lemma AliasSourcesStay(s: Settings, upstream: seq<string>, mapping: map<string, string>, matches: Matcher,
                         addInput: seq<string>, ignoreInput: seq<string>, removeInput: seq<string>, source: string)
    requires source in mapping && source in LocalModels(s)
    ensures var d := Detect(s, upstream, mapping, matches);
            && source !in d.removed
            && source in NextModels(d, Select(d, addInput, ignoreInput, removeInput))
  {
    var d := Detect(s, upstream, mapping, matches);
    Detected(s, upstream, mapping, matches);
    DetectedOk(s, upstream, mapping, matches);
    Selected(d, addInput, ignoreInput, removeInput);
    SelectOk(d, addInput, ignoreInput, removeInput);
    NextModelsIs(d, Select(d, addInput, ignoreInput, removeInput));
  }

  /** Where a pending addition can end up. */
  datatype Places = Places(served: bool, ignored: bool, pending: bool)

  function PlacesOf(s: Settings, sel: Selection, name: string): Places {
    var after := Apply(s, sel);
    Places(name in NextModels(s, sel), name in after.ignored, name in after.detected)
  }

  predicate ExactlyOne(p: Places) {
    || p == Places(true, false, false) || p == Places(false, true, false) || p == Places(false, false, true)
  }

  /**
    Every pending addition goes to the model list if it was asked to be added; else to the ignore
    list if it was asked to be ignored, or stays there if it is a rule; and stays pending if neither
    was asked. That is exactly one place unless it is a stored rule that was not selected.
   */
  lemma EachPendingGoesToOnePlace(s: Settings, addInput: seq<string>, ignoreInput: seq<string>,
                                  removeInput: seq<string>, name: string)
    requires PendingOk(s) && name in s.detected
    ensures var add, ignore, rule :=
              name in Normalize(addInput), name in Normalize(ignoreInput), name in Normalize(s.ignored);
            var p := PlacesOf(s, Select(s, addInput, ignoreInput, removeInput), name);
            && p == Places(add, (ignore || rule) && !add, !add && !ignore)
            && (ExactlyOne(p) <==> add || ignore || !rule)
  {
    var sel := Select(s, addInput, ignoreInput, removeInput);
    SelectedName(s, addInput, ignoreInput, removeInput, name);
    assert SelectionOk(s, sel) by {
      SelectOk(s, addInput, ignoreInput, removeInput);
    }
    SelectedPlaces(s, sel, name);
    OnePlace(name in sel.add, name in sel.ignore, name in Normalize(s.ignored));
  }

  lemma OnePlace(add: bool, ignore: bool, rule: bool)
    ensures ExactlyOne(Places(add, (ignore || rule) && !add, !add && !ignore)) <==> add || ignore || !rule
  {
  }

  lemma SelectedName(s: Settings, addInput: seq<string>, ignoreInput: seq<string>, removeInput: seq<string>,
                     name: string)
    requires PendingOk(s) && name in s.detected
    ensures var sel := Select(s, addInput, ignoreInput, removeInput);
            && (name in sel.add <==> name in Normalize(addInput))
            && (name in sel.ignore <==> name in Normalize(ignoreInput))
  {
    Selected(s, addInput, ignoreInput, removeInput);
  }

  lemma SelectedPlaces(s: Settings, sel: Selection, name: string)
    requires PendingOk(s) && SelectionOk(s, sel) && name in s.detected
    ensures PlacesOf(s, sel, name)
         == Places(name in sel.add, (name in sel.ignore || name in Normalize(s.ignored)) && name !in sel.add,
                   name !in sel.add && name !in sel.ignore)
  {
    NextModelsIs(s, sel);
    assert name !in LocalModels(s);
    RulesAfter(s, sel);
    NormalizeClean(s.detected);
    RemainingMembers(s.detected, sel.add, sel.ignore, name);
  }

  lemma RemainingMembers(pending: seq<string>, add: seq<string>, ignore: seq<string>, x: string)
    requires Clean(pending) && Clean(add) && Clean(ignore)
    ensures x in Subtract(pending, add + ignore) <==> x in pending && x !in add && x !in ignore
  {
    NormalizeClean(pending);
    NormalizeConcatMembers(add, ignore, x);
    var gone := Normalize(add + ignore);
    FilterMember(pending, y => y !in gone, x);
  }

  lemma {:induction false} NormalizeConcatMembers(a: seq<string>, b: seq<string>, x: string)
    requires Clean(a) && Clean(b)
    ensures x in Normalize(a + b) <==> x in a || x in b
  {
    if b == [] {
      assert a + b == a;
      NormalizeClean(a);
    } else {
      var front, last := b[..|b| - 1], b[|b| - 1];
      NormalizeConcatMembers(a, front, x);
      assert (a + b)[..|a + b| - 1] == a + front;
      assert (a + b)[|a + b| - 1] == last;
      assert b == front + [last];
    }
  }

  // ------------------------------------------------------------------ automatic additions

  /** checkAndPersist with auto-sync: merge the additions at once, keep the removals pending. */
  function AutoAdd(d: Settings): Settings {
    if d.detected == [] then d
    else
      var merged := Merge(LocalModels(d), d.detected);
      d.(models := if |merged| > |LocalModels(d)| then Text.Join(merged, ',') else d.models, detected := [])
  }

  /** Automatic additions give the models that applying all pending additions by hand gives. */
  lemma AutoAddIsManualAdd(d: Settings)
    requires PendingOk(d)
    ensures var byHand := Apply(d, Select(d, d.detected, [], []));
            && AutoAdd(d).models == byHand.models
            && AutoAdd(d).detected == byHand.detected
            && AutoAdd(d).removed == byHand.removed
  {
    var l, sel := LocalModels(d), Selection(d.detected, [], []);
    SelectAdditions(d);
    NextModelsIs(d, sel);
    FilterAll(l, x => x !in sel.remove);
    NewNamesGrow(l, d.detected);
    LeftAfterAdditions(d);
  }

  /** The models after automatic additions, as far as they are read back. */
  lemma AutoAddLocal(d: Settings)
    requires PendingOk(d) && CommaFree(d.detected)
    ensures LocalModels(AutoAdd(d)) == LocalModels(d) + d.detected && AutoAdd(d).ignored == d.ignored
  {
    var l := LocalModels(d);
    LocalCommaFree(d);
    NewNamesGrow(l, d.detected);
    if d.detected == [] {
      assert l + d.detected == l;
    } else {
      CleanConcat(l, d.detected);
      Text.DecodeJoin(l + d.detected, ',');
      NormalizeClean(l + d.detected);
    }
  }

  /**
    Detect, add automatically, detect again: no addition is pending if and only if none of them has a
    comma. The ignore rules play no part, because automatic additions keep them.
   */
  lemma AutoFixpointIff(s: Settings, upstream: seq<string>, mapping: map<string, string>, matches: Matcher)
    ensures var d := Detect(s, upstream, mapping, matches);
            Detect(AutoAdd(d), upstream, mapping, matches).detected == [] <==> CommaFree(d.detected)
  {
    var d := Detect(s, upstream, mapping, matches);
    var again := Detect(AutoAdd(d), upstream, mapping, matches);
    Detected(s, upstream, mapping, matches);
    DetectedOk(s, upstream, mapping, matches);
    Detected(AutoAdd(d), upstream, mapping, matches);
    if CommaFree(d.detected) {
      AutoAddLocal(d);
      StringOrder.EmptyOrInhabited(again.detected);
    } else {
      var i :| 0 <= i < |d.detected| && ',' in d.detected[i];
      LocalCommaFree(AutoAdd(d));
      assert d.detected[i] in d.detected;
      assert d.detected[i] in again.detected;
    }
  }

  lemma SelectAdditions(d: Settings)
    requires PendingOk(d)
    ensures Select(d, d.detected, [], []) == Selection(d.detected, [], [])
  {
    NormalizeClean(d.detected);
    NormalizeClean(d.removed);
    FilterAll(d.detected, x => x in d.detected);
  }

  lemma LeftAfterAdditions(d: Settings)
    requires PendingOk(d)
    ensures Subtract(Normalize(d.detected), d.detected + []) == []
    ensures Subtract(Normalize(d.removed), []) == d.removed
  {
    NormalizeClean(d.detected);
    NormalizeClean(d.removed);
    SubtractClean(d.removed, []);
    FilterAll(d.removed, x => x !in []);
    assert d.detected + [] == d.detected;
    SubtractClean(d.detected, d.detected);
    FilterNone(d.detected, x => x !in d.detected);
  }

  // ------------------------------------------------------------------ witnesses

  lemma NormalizeOne(name: string)
    requires IsName(name)
    ensures Normalize([name]) == [name]
  {
    NormalizeClean([name]);
  }

  lemma OneDetected(name: string, matches: Matcher)
    requires IsName(name)
    ensures name in Detect(Settings("", [], [], []), [name], map[], matches).detected
  {
    NormalizeOne(name);
    Detected(Settings("", [], [], []), [name], map[], matches);
  }

  /** A channel without models and an upstream that lists one name with a comma in it: it stays pending for ever. */
  lemma CommaNameStaysPending(name: string, matches: Matcher)
    requires IsName(name) && ',' in name
    ensures var s := Settings("", [], [], []);
            name in Detect(DetectAndApplyAll(s, [name], map[], matches), [name], map[], matches).detected
  {
    OneDetected(name, matches);
    CommaNameComesBack(Settings("", [], [], []), [name], map[], matches, name);
  }

  /** For instance "a,b". */
  lemma CommaWitness()
    ensures IsName("a,b") && ',' in "a,b"
  {
    assert "a,b"[1] == ',';
  }

  /** A channel without models whose only rule ignores name but not itself; the upstream lists both. */
  predicate RuleListedAsModel(rule: string, name: string, matches: Matcher) {
    && IsName(rule) && IsName(name) && rule != name && ',' !in rule
    && RuleMatches(rule, name, matches) && !RuleMatches(rule, rule, matches)
  }

  lemma OnlyRuleDetected(rule: string, name: string, matches: Matcher)
    requires RuleListedAsModel(rule, name, matches)
    ensures Normalize([name, rule]) == [name, rule] && Normalize([rule]) == [rule]
    ensures Detect(Settings("", [rule], [], []), [name, rule], map[], matches).detected == [rule]
  {
    var s := Settings("", [rule], [], []);
    var d := Detect(s, [name, rule], map[], matches);
    NormalizeClean([name, rule]);
    NormalizeOne(rule);
    forall x ensures x in d.detected <==> x == rule {
      OneRule(rule, x, matches);
      Detected(s, [name, rule], map[], matches);
    }
    assert Clean(d.detected) by {
      Detected(s, [name, rule], map[], matches);
    }
    OnlyMember(d.detected, rule);
  }

  lemma OneRule(rule: string, name: string, matches: Matcher)
    ensures Ignored([rule], name, matches) <==> RuleMatches(rule, name, matches)
  {
    assert [rule][0] == rule;
  }

  lemma OnlyMember(names: seq<string>, name: string)
    requires Clean(names) && forall x :: x in names <==> x == name
    ensures names == [name]
  {
    assert name in names;
    assert names[0] in names;
    assert names == [names[0]] + names[1..];
    RestDiffers(names);
    StringOrder.EmptyOrInhabited(names[1..]);
  }

  lemma RestDiffers(names: seq<string>)
    requires Clean(names) && names != []
    ensures forall x | x in names[1..] :: x in names && x != names[0]
  {
  }

  /** Adding such a rule as a model deletes it from the rules, and name, which was ignored, becomes pending. */
  lemma RuleListedShows(rule: string, name: string, matches: Matcher)
    requires RuleListedAsModel(rule, name, matches)
    ensures var s := Settings("", [rule], [], []);
            var again := Detect(DetectAndApplyAll(s, [name, rule], map[], matches), [name, rule], map[], matches);
            name !in Detect(s, [name, rule], map[], matches).detected && name in again.detected
  {
    var s, upstream := Settings("", [rule], [], []), [name, rule];
    OnlyRuleDetected(rule, name, matches);
    RuleIsLost(rule, name, matches);
    assert upstream[0] == name;
    assert CommaFree(Detect(s, upstream, map[], matches).detected);
    LostRuleShows(s, upstream, map[], matches, name);
  }

  lemma RuleIsLost(rule: string, name: string, matches: Matcher)
    requires RuleListedAsModel(rule, name, matches)
    ensures LostBy(Settings("", [rule], [], []), [name, rule], map[], matches, name)
  {
    OnlyRuleDetected(rule, name, matches);
    FilterNone([rule], x => x !in [rule]);
    assert Subtract([rule], [rule]) == [];
    assert RuleMatches([rule][0], name, matches);
  }

  /** For instance the rule "regex:^x$", listed as a model beside "x". */
  lemma RuleWitness(matches: Matcher)
    requires forall name :: matches("^x$", name) <==> name == "x"
    ensures RuleListedAsModel("regex:^x$", "x", matches)
  {
    var rule := "regex:^x$";
    assert rule[|REGEX_PREFIX|..] == "^x$" && REGEX_PREFIX <= rule;
    assert rule[0] == 'r' && rule[8] == '$' && "^x$"[0] == '^' && "^x$"[2] == '$' && "x"[0] == 'x';
    Text.TrimSpaceKeepsAll(rule);
    Text.TrimSpaceKeepsAll("^x$");
    Text.TrimSpaceKeepsAll("x");
    assert |rule| == 9 && |"x"| == 1;
  }
}
