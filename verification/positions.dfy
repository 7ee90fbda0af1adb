/** Facts about where the host's iterator moves inside the sorted key list, used by
    the index queries. */
module Positions {
  import opened Keys
  import opened Outcomes
  import opened Host

  /** The keys of `s` that satisfy `P`, in their order. */
  function Filter(s: seq<Key>, P: Key -> bool): (r: seq<Key>)
    ensures forall x :: x in r <==> x in s && P(x)
    ensures StrictlySorted(s) ==> StrictlySorted(r)
    decreases |s|
  {
    if s == [] then []
    else
      var rest := Filter(s[1..], P);
      assert forall x :: x in s[1..] ==> x in s;
      if P(s[0]) then
        assert StrictlySorted(s) ==> forall x :: x in rest ==> Lt(s[0], x) by {
          if StrictlySorted(s) {
            forall x | x in rest ensures Lt(s[0], x) {
              var j :| 0 <= j < |s[1..]| && s[1..][j] == x;
              assert s[j + 1] == x;
            }
          }
        }
        [s[0]] + rest
      else rest
  }

  /** The keys of index prefix `p` in `[lo, hi)`, ascending. */
  function KeysBetween(s: seq<Key>, p: Key, lo: Key, hi: Key): (r: seq<Key>)
    ensures forall x :: x in r <==> x in s && HasPrefix(x, p) && !Lt(x, lo) && Lt(x, hi)
    ensures StrictlySorted(s) ==> StrictlySorted(r)
  {
    Filter(s, x => HasPrefix(x, p) && !Lt(x, lo) && Lt(x, hi))
  }

  /** The keys of index prefix `p` from `lo` on, ascending. */
  function KeysFrom(s: seq<Key>, p: Key, lo: Key): (r: seq<Key>)
    ensures forall x :: x in r <==> x in s && HasPrefix(x, p) && !Lt(x, lo)
    ensures StrictlySorted(s) ==> StrictlySorted(r)
  {
    Filter(s, x => HasPrefix(x, p) && !Lt(x, lo))
  }

  /** A strictly sorted sequence is determined by its elements. */
  lemma {:induction false} SortedUnique(a: seq<Key>, b: seq<Key>)
    requires StrictlySorted(a) && StrictlySorted(b)
    requires forall x :: x in a <==> x in b
    ensures a == b
    decreases |a|
  {
    if a != [] { assert a[0] in a; }
    if b != [] { assert b[0] in b; }
    if a != [] && b != [] {
      assert a[0] in b;
      assert b[0] in a;
      if a[0] != b[0] {
        var i :| 0 <= i < |b| && b[i] == a[0];
        var j :| 0 <= j < |a| && a[j] == b[0];
        assert Lt(b[0], a[0]) && Lt(a[0], b[0]);
        LtAsymmetric(a[0], b[0]);
      }
      forall x ensures x in a[1..] <==> x in b[1..] {
        if x in a[1..] {
          var i :| 0 <= i < |a[1..]| && a[1..][i] == x;
          assert Lt(a[0], a[i + 1]);
          LtIrreflexive(x);
          assert x in b;
        }
        if x in b[1..] {
          var i :| 0 <= i < |b[1..]| && b[1..][i] == x;
          assert Lt(b[0], b[i + 1]);
          LtIrreflexive(x);
          assert x in a;
        }
      }
      SortedUnique(a[1..], b[1..]);
      assert a == [a[0]] + a[1..] && b == [b[0]] + b[1..];
    }
  }

  /** `lower_bound(k)` lands on `k` exactly when `k` is stored under the prefix. */
  lemma LowerBoundExact(s: seq<Key>, p: Key, k: Key)
    requires StrictlySorted(s)
    ensures LowerBoundIn(s, p, k) == Some(k) <==> k in s && HasPrefix(k, p)
  {
    if k in s && HasPrefix(k, p) {
      LtIrreflexive(k);
      var r := LowerBoundIn(s, p, k);
      LtTotal(r.value, k);
    }
  }

  /** When `lower_bound(k)` does not land on `k`, it lands where a step past `k` would. */
  lemma LowerBoundPastKey(s: seq<Key>, p: Key, k: Key)
    requires StrictlySorted(s)
    requires LowerBoundIn(s, p, k) != Some(k)
    ensures LowerBoundIn(s, p, k) == NextIn(s, p, k)
  {
    LowerBoundExact(s, p, k);
    var a := LowerBoundIn(s, p, k);
    var b := NextIn(s, p, k);
    if a.Some? {
      LtTotal(a.value, k);
      assert Lt(k, a.value);
    }
    if b.Some? {
      LtAsymmetric(k, b.value);
      assert !Lt(b.value, k);
    }
    if a.Some? && b.Some? {
      assert !Lt(b.value, a.value) && !Lt(a.value, b.value);
      LtTotal(a.value, b.value);
    }
  }

  /** `lower_bound("")` is the first key of the index. */
  lemma LowerBoundOfEmpty(s: seq<Key>, p: Key)
    requires StrictlySorted(s)
    ensures LowerBoundIn(s, p, []) == FirstIn(s, p)
  {
    var a := LowerBoundIn(s, p, []);
    var b := FirstIn(s, p);
    if a.Some? { EmptyIsLeast(a.value); }
    if b.Some? { EmptyIsLeast(b.value); }
    if a.Some? && b.Some? {
      LtTotal(a.value, b.value);
    }
  }

  /** `lower_bound(lo)` stands at the first of the index's keys from `lo` on. */
  lemma LowerBoundIsFirst(s: seq<Key>, p: Key, lo: Key, f: seq<Key>)
    requires StrictlySorted(s) && f == KeysFrom(s, p, lo)
    ensures LowerBoundIn(s, p, lo) == if |f| > 0 then Some(f[0]) else None
  {
    if |f| > 0 { assert f[0] in f; }
    var r := LowerBoundIn(s, p, lo);
    if r.Some? {
      assert r.value in f;
      var j :| 0 <= j < |f| && f[j] == r.value;
    }
  }

  /** From the `n`-th of the index's keys from `lo` on, `next` reaches the `n+1`-th. */
  lemma NextInFilter(s: seq<Key>, p: Key, lo: Key, f: seq<Key>, n: nat)
    requires StrictlySorted(s) && f == KeysFrom(s, p, lo)
    requires n < |f|
    ensures NextIn(s, p, f[n]) == if n + 1 < |f| then Some(f[n + 1]) else None
  {
    assert f[n] in f;
    if n + 1 < |f| { assert f[n + 1] in f; }
    var r := NextIn(s, p, f[n]);
    if r.Some? {
      var x := r.value;
      if Lt(x, lo) {
        LtTransitive(f[n], x, lo);
      }
      assert x in f;
      var j :| 0 <= j < |f| && f[j] == x;
      if j <= n {
        if j < n { LtAsymmetric(f[j], f[n]); } else { LtIrreflexive(x); }
      }
    }
  }
}
