/** A map as an index of a set of items. */
module Lookups {
  /** `m` is the set `s` looked up by `name`. */
  ghost predicate Lookup<K, T>(m: map<K, T>, s: set<T>, name: T -> K) {
    && (forall x <- s :: name(x) in m && m[name(x)] == x)
    && (forall k <- m :: m[k] in s && name(m[k]) == k)
  }

  lemma LookupAdd<K, T>(m: map<K, T>, s: set<T>, name: T -> K, x: T)
    requires Lookup(m, s, name) && name(x) !in m
    ensures Lookup(m[name(x) := x], s + {x}, name)
    ensures |m[name(x) := x]| == |m| + 1
  {
    assert m[name(x) := x].Keys == m.Keys + {name(x)};
  }

  lemma LookupRemove<K, T>(m: map<K, T>, s: set<T>, name: T -> K, x: T)
    requires Lookup(m, s, name) && x in s
    ensures Lookup(m - {name(x)}, s - {x}, name)
    ensures |m - {name(x)}| == |m| - 1
  {
    assert (m - {name(x)}).Keys == m.Keys - {name(x)};
  }

  lemma {:induction false} LookupSize<K, T>(m: map<K, T>, s: set<T>, name: T -> K)
    requires Lookup(m, s, name)
    ensures |m| == |s|
    decreases |s|
  {
    if s == {} {
      assert m == map[];
    } else {
      var x :| x in s;
      LookupRemove(m, s, name, x);
      LookupSize(m - {name(x)}, s - {x}, name);
    }
  }
}
