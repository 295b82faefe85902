/** The order of Go strings, and the one sorted listing of a set of strings. */
module StringOrder {

  /** Lexicographic, as the < of Go. */
  predicate Less(a: string, b: string) {
    if b == "" then false
    else if a == "" then true
    else a[0] < b[0] || (a[0] == b[0] && Less(a[1..], b[1..]))
  }

  /** a and b agree up to k, where a ends or has the smaller character. */
  predicate LessFrom(a: string, b: string, k: nat) {
    k <= |a| && k < |b| && a[..k] == b[..k] && (k == |a| || a[k] < b[k])
  }

  lemma {:induction false} LessIff(a: string, b: string)
    ensures Less(a, b) <==> exists k: nat :: LessFrom(a, b, k)
  {
    if a == "" || b == "" {
      assert b != "" ==> LessFrom(a, b, 0);
    } else {
      LessIff(a[1..], b[1..]);
      assert LessFrom(a, b, 0) <==> a[0] < b[0];
      if k: nat :| LessFrom(a, b, k) && k > 0 {
        LessFromShift(a, b, k - 1);
      }
      if k: nat :| LessFrom(a[1..], b[1..], k) {
        LessFromShift(a, b, k);
      }
    }
  }

  lemma LessFromShift(a: string, b: string, k: nat)
    requires a != "" && b != ""
    ensures LessFrom(a, b, k + 1) <==> a[0] == b[0] && LessFrom(a[1..], b[1..], k)
  {
    if k + 1 <= |a| && k + 1 < |b| {
      assert a[..k + 1] == [a[0]] + a[1..][..k] && b[..k + 1] == [b[0]] + b[1..][..k];
    }
  }

  lemma {:induction false} Irreflexive(a: string)
    ensures !Less(a, a)
  {
    if a == "" {
    } else {
      Irreflexive(a[1..]);
    }
  }

  lemma {:induction false} Transitive(a: string, b: string, c: string)
    requires Less(a, b) && Less(b, c)
    ensures Less(a, c)
  {
    if a != "" && b != "" && a[0] == b[0] && b[0] == c[0] {
      Transitive(a[1..], b[1..], c[1..]);
    }
  }

  lemma {:induction false} Total(a: string, b: string)
    ensures a == b || Less(a, b) || Less(b, a)
  {
    if a == "" || b == "" {
    } else {
      Total(a[1..], b[1..]);
      if a[0] == b[0] && a[1..] == b[1..] {
        assert a == [a[0]] + a[1..] == b;
      }
    }
  }

  lemma Asymmetric(a: string, b: string)
    requires Less(a, b)
    ensures !Less(b, a)
  {
    if Less(b, a) {
      Transitive(a, b, a);
      Irreflexive(a);
    }
  }

  predicate Increasing(s: seq<string>) {
    forall i, j | 0 <= i < j < |s| :: Less(s[i], s[j])
  }

  ghost predicate Lists(s: seq<string>, keys: set<string>) {
    Increasing(s) && forall x :: x in s <==> x in keys
  }

  /** The keys of a Go map come in any order; once sorted there is only one list. */
  lemma {:induction false} ListingUnique(a: seq<string>, b: seq<string>, keys: set<string>)
    requires Lists(a, keys) && Lists(b, keys)
    ensures a == b
    decreases |a|
  {
    EmptyOrInhabited(b);
    if a == [] {
    } else {
      assert a[0] in a;
      assert a[0] in b;
      assert b[0] in b;
      assert b[0] in a;
      FirstIsLeast(a, b[0]);
      FirstIsLeast(b, a[0]);
      if a[0] != b[0] {
        Asymmetric(a[0], b[0]);
      }
      TailLists(a, keys);
      TailLists(b, keys);
      ListingUnique(a[1..], b[1..], keys - {a[0]});
      assert a == [a[0]] + a[1..] && b == [b[0]] + b[1..];
    }
  }

  lemma EmptyOrInhabited(s: seq<string>)
    ensures s == [] || exists x :: x in s
  {
    if s != [] {
      assert s[0] in s;
    }
  }

  lemma FirstIsLeast(s: seq<string>, x: string)
    requires Increasing(s) && x in s
    ensures s[0] == x || Less(s[0], x)
  {
  }

  lemma TailLists(s: seq<string>, keys: set<string>)
    requires Lists(s, keys) && s != []
    ensures Lists(s[1..], keys - {s[0]})
  {
    forall x ensures x in s[1..] <==> x in keys - {s[0]} {
      Irreflexive(s[0]);
      assert s == [s[0]] + s[1..];
    }
  }

  /** Where x belongs in an increasing list. */
  method Position(s: seq<string>, x: string) returns (k: nat)
    requires Increasing(s) && x !in s
    ensures k <= |s|
    ensures forall i | 0 <= i < k :: Less(s[i], x)
    ensures forall i | k <= i < |s| :: Less(x, s[i])
  {
    k := 0;
    while k < |s| && Less(s[k], x)
      invariant k <= |s|
      invariant forall i | 0 <= i < k :: Less(s[i], x)
    {
      k := k + 1;
    }
    forall i | k <= i < |s| ensures Less(x, s[i]) {
      Total(x, s[k]);
      if i > k {
        Transitive(x, s[k], s[i]);
      }
    }
  }

  lemma Inserted(s: seq<string>, x: string, k: nat)
    requires Increasing(s) && k <= |s|
    requires forall i | 0 <= i < k :: Less(s[i], x)
    requires forall i | k <= i < |s| :: Less(x, s[i])
    ensures var next := s[..k] + [x] + s[k..];
            Increasing(next) && forall y :: y in next <==> y in s || y == x
  {
    assert s == s[..k] + s[k..];
  }

  /** Collecting the keys of a map and sort.Strings. */
  method SortedKeys(keys: set<string>) returns (s: seq<string>)
    ensures Lists(s, keys)
  {
    s := [];
    var todo := keys;
    while todo != {}
      invariant todo <= keys
      invariant Lists(s, keys - todo)
      decreases |todo|
    {
      var x :| x in todo;
      var k := Position(s, x);
      Inserted(s, x, k);
      s := s[..k] + [x] + s[k..];
      todo := todo - {x};
    }
  }
}
