/**
  The ordered-set algebra on model names of controller/channel_upstream_update.go. A list of
  names is clean when it is trimmed, free of blanks and free of duplicates.
 */
module ModelNames {
  import Text

  predicate IsName(s: string) {
    s != "" && Text.TrimSpace(s) == s
  }

  predicate Clean(names: seq<string>) {
    && (forall i | 0 <= i < |names| :: IsName(names[i]))
    && (forall i, j | 0 <= i < j < |names| :: names[i] != names[j])
  }

  /** normalizeModelNames: trim, drop blanks, keep the first of equal names. */
  function Normalize(names: seq<string>): (r: seq<string>)
    ensures Clean(r)
  {
    if names == [] then []
    else
      var before := Normalize(names[..|names| - 1]);
      var t := Text.TrimSpace(names[|names| - 1]);
      Text.TrimSpaceIdempotent(names[|names| - 1]);
      if t == "" || t in before then before else before + [t]
  }

  /** lo.Filter */
  function Filter(names: seq<string>, keep: string -> bool): seq<string> {
    if names == [] then []
    else
      var x := names[|names| - 1];
      Filter(names[..|names| - 1], keep) + (if keep(x) then [x] else [])
  }

  /** The names that are not in a list. */
  function NotIn(names: seq<string>): string -> bool {
    x => x !in names
  }

  function Merge(base: seq<string>, appended: seq<string>): seq<string> {
    var b := Normalize(base);
    b + Filter(Normalize(appended), NotIn(b))
  }

  function Subtract(base: seq<string>, removed: seq<string>): seq<string> {
    var r := Normalize(removed);
    Filter(Normalize(base), x => x !in r)
  }

  function Intersect(base: seq<string>, allowed: seq<string>): seq<string> {
    var a := Normalize(allowed);
    Filter(Normalize(base), x => x in a)
  }

  /** applySelectedModelChanges: an addition wins over a removal of the same name. */
  function ApplySelected(origin: seq<string>, add: seq<string>, remove: seq<string>): seq<string> {
    var a := Normalize(add);
    Subtract(Merge(origin, a), Subtract(Normalize(remove), a))
  }

  // ------------------------------------------------------------------ algebra

  lemma {:induction false} NormalizeClean(names: seq<string>)
    requires Clean(names)
    ensures Normalize(names) == names
  {
    if names == [] {
    } else {
      NormalizeClean(names[..|names| - 1]);
      assert names == names[..|names| - 1] + [names[|names| - 1]];
    }
  }

  /** Some element of the list has the trimmed form x. */
  predicate HasForm(names: seq<string>, x: string) {
    names != [] && (Text.TrimSpace(names[|names| - 1]) == x || HasForm(names[..|names| - 1], x))
  }

  /** Exactly the non-blank trimmed forms of the input survive normalisation. */
  lemma {:induction false} NormalizeMembers(names: seq<string>, x: string)
    ensures x in Normalize(names) <==> x != "" && HasForm(names, x)
  {
    if names == [] {
    } else {
      NormalizeMembers(names[..|names| - 1], x);
    }
  }

  lemma {:induction false} FilterMember(names: seq<string>, keep: string -> bool, x: string)
    ensures x in Filter(names, keep) <==> x in names && keep(x)
  {
    if names == [] {
    } else {
      var front := names[..|names| - 1];
      FilterMember(front, keep, x);
      assert names == front + [names[|names| - 1]];
    }
  }

  lemma FilterMembers(names: seq<string>, keep: string -> bool)
    ensures forall x :: x in Filter(names, keep) <==> x in names && keep(x)
  {
    forall x ensures x in Filter(names, keep) <==> x in names && keep(x) {
      FilterMember(names, keep, x);
    }
  }

  lemma {:induction false} FilterClean(names: seq<string>, keep: string -> bool)
    requires Clean(names)
    ensures Clean(Filter(names, keep))
  {
    if names == [] {
    } else {
      FilterClean(names[..|names| - 1], keep);
      FilterMember(names[..|names| - 1], keep, names[|names| - 1]);
    }
  }

  lemma {:induction false} FilterAll(names: seq<string>, keep: string -> bool)
    requires forall i | 0 <= i < |names| :: keep(names[i])
    ensures Filter(names, keep) == names
  {
    if names == [] {
    } else {
      FilterAll(names[..|names| - 1], keep);
      assert names == names[..|names| - 1] + [names[|names| - 1]];
    }
  }

  lemma {:induction false} FilterNone(names: seq<string>, keep: string -> bool)
    requires forall i | 0 <= i < |names| :: !keep(names[i])
    ensures Filter(names, keep) == []
  {
    if names == [] {
    } else {
      FilterNone(names[..|names| - 1], keep);
    }
  }

  lemma {:induction false} FilterSame(names: seq<string>, f: string -> bool, g: string -> bool)
    requires forall i | 0 <= i < |names| :: f(names[i]) == g(names[i])
    ensures Filter(names, f) == Filter(names, g)
  {
    if names == [] {
    } else {
      FilterSame(names[..|names| - 1], f, g);
    }
  }

  lemma {:induction false} FilterConcat(a: seq<string>, b: seq<string>, keep: string -> bool)
    ensures Filter(a + b, keep) == Filter(a, keep) + Filter(b, keep)
  {
    if b == [] {
      assert a + b == a;
    } else {
      FilterConcat(a, b[..|b| - 1], keep);
      assert (a + b)[..|a + b| - 1] == a + b[..|b| - 1];
      assert (a + b)[|a + b| - 1] == b[|b| - 1];
    }
  }

  lemma CleanConcat(a: seq<string>, b: seq<string>)
    requires Clean(a) && Clean(b) && forall i | 0 <= i < |b| :: b[i] !in a
    ensures Clean(a + b)
  {
  }

  /** Subtracting and intersecting clean lists filters the first by membership in the second. */
  lemma SubtractClean(base: seq<string>, removed: seq<string>)
    requires Clean(base) && Clean(removed)
    ensures Subtract(base, removed) == Filter(base, x => x !in removed)
    ensures Clean(Subtract(base, removed))
    ensures forall x :: x in Subtract(base, removed) <==> x in base && x !in removed
  {
    NormalizeClean(base);
    NormalizeClean(removed);
    FilterClean(base, x => x !in removed);
    FilterMembers(base, x => x !in removed);
  }

  lemma IntersectMembers(base: seq<string>, allowed: seq<string>)
    requires Clean(allowed)
    ensures Clean(Intersect(base, allowed))
    ensures forall x :: x in Intersect(base, allowed) <==> x in Normalize(base) && x in allowed
  {
    NormalizeClean(allowed);
    FilterClean(Normalize(base), x => x in allowed);
    FilterMembers(Normalize(base), x => x in allowed);
  }

  lemma MergeMembers(base: seq<string>, appended: seq<string>)
    ensures Clean(Merge(base, appended))
    ensures forall x :: x in Merge(base, appended) <==> x in Normalize(base) || x in Normalize(appended)
  {
    var b, n := Normalize(base), Normalize(appended);
    FilterClean(n, NotIn(b));
    FilterMembers(n, NotIn(b));
    var f := Filter(n, NotIn(b));
    forall i | 0 <= i < |f| ensures f[i] !in b {
      assert f[i] in f;
    }
    CleanConcat(b, f);
  }

  /** Merging names that are all new appends every one of them. */
  lemma NewNamesGrow(origin: seq<string>, add: seq<string>)
    requires Clean(origin) && Clean(add) && forall i | 0 <= i < |add| :: add[i] !in origin
    ensures Merge(origin, add) == origin + add
  {
    NormalizeClean(origin);
    NormalizeClean(add);
    FilterAll(add, NotIn(origin));
  }

  /**
    With additions that are new and removals that are present, the outcome is the surviving
    models in their old order followed by the additions in theirs.
   */
  lemma ApplySelectedIs(origin: seq<string>, add: seq<string>, remove: seq<string>)
    requires Clean(origin) && Clean(add) && Clean(remove)
    requires forall i | 0 <= i < |add| :: add[i] !in origin
    requires forall i | 0 <= i < |remove| :: remove[i] in origin
    ensures ApplySelected(origin, add, remove) == Filter(origin, x => x !in remove) + add
    ensures Clean(ApplySelected(origin, add, remove))
  {
    NormalizeClean(origin);
    NormalizeClean(add);
    NormalizeClean(remove);
    NewNamesGrow(origin, add);
    SubtractClean(remove, add);
    FilterAll(remove, x => x !in add);
    CleanConcat(origin, add);
    SubtractClean(origin + add, remove);
    FilterConcat(origin, add, x => x !in remove);
    FilterAll(add, x => x !in remove);
  }
}
