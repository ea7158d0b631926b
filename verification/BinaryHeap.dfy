/**
 The heap of Go's container/heap over a slice whose items know their own position.

 `rank` orders the items; `less` is the comparison the slice implements. It must agree with `rank`
 on items of different rank and may answer anything on a tie, so both the strict comparisons and
 the non-strict one of the transfer queue's max heap are covered.
 */
module BinaryHeap {
  ghost predicate Compatible<T(!new)>(less: (T, T) -> bool, rank: T -> int) {
    forall a, b :: (rank(a) < rank(b) ==> less(a, b)) && (rank(b) < rank(a) ==> !less(a, b))
  }

  function Parent(k: nat): (p: nat)
    ensures if k == 0 then p == 0 else k == 2 * p + 1 || k == 2 * p + 2
  {
    if k == 0 then 0 else (k - 1) / 2
  }

  /** Item k is not below its parent in the order. */
  predicate Edge<T>(s: seq<T>, rank: T -> int, k: nat)
    requires k < |s|
  {
    rank(s[Parent(k)]) <= rank(s[k])
  }

  /** The first n items are a heap. */
  ghost predicate HeapOn<T>(s: seq<T>, rank: T -> int, n: nat) {
    n <= |s| && forall k: nat | k < n :: Edge(s, rank, k)
  }

  /** The children of i are not below the parent of i. */
  ghost predicate Bridged<T>(s: seq<T>, rank: T -> int, n: nat, i: nat) {
    n <= |s| && i < n && forall c: nat | 0 < i && c < n && Parent(c) == i :: rank(s[Parent(i)]) <= rank(s[c])
  }

  /** A heap but for the edge above j. */
  ghost predicate HeapButUp<T>(s: seq<T>, rank: T -> int, n: nat, j: nat) {
    Bridged(s, rank, n, j) && forall k: nat | k < n && k != j :: Edge(s, rank, k)
  }

  /** A heap but for the edges around i. */
  ghost predicate HeapButAt<T>(s: seq<T>, rank: T -> int, n: nat, i: nat) {
    Bridged(s, rank, n, i) && forall k: nat | k < n && k != i && Parent(k) != i :: Edge(s, rank, k)
  }

  function Swapped<T>(s: seq<T>, i: nat, j: nat): seq<T>
    requires i < |s| && j < |s|
  {
    s[i := s[j]][j := s[i]]
  }

  function Members<T>(s: seq<T>): set<T> { set x | x in s }

  lemma SwapKeepsMembers<T>(s: seq<T>, i: nat, j: nat)
    requires i < |s| && j < |s|
    ensures Members(Swapped(s, i, j)) == Members(s)
  {
    forall x | x in s ensures x in Swapped(s, i, j) {
      var k :| 0 <= k < |s| && s[k] == x;
      assert Swapped(s, i, j)[if k == i then j else if k == j then i else k] == x;
    }
  }

  /** Nothing from position n on has moved. */
  ghost predicate SameFrom<T>(s: seq<T>, t: seq<T>, n: nat) {
    |s| == |t| && forall k | n <= k < |s| :: s[k] == t[k]
  }

  lemma {:induction false} RootIsLeast<T>(s: seq<T>, rank: T -> int, n: nat, k: nat)
    requires HeapOn(s, rank, n) && k < n
    ensures rank(s[0]) <= rank(s[k])
  {
    if k != 0 {
      RootIsLeast(s, rank, n, Parent(k));
      assert Edge(s, rank, k);
    }
  }

  lemma RootIsLeastMember<T>(s: seq<T>, rank: T -> int, x: T)
    requires HeapOn(s, rank, |s|) && x in s
    ensures rank(s[0]) <= rank(x)
  {
    var k :| 0 <= k < |s| && s[k] == x;
    RootIsLeast(s, rank, |s|, k);
  }

  lemma UpStep<T>(s: seq<T>, rank: T -> int, n: nat, j: nat)
    requires HeapButUp(s, rank, n, j) && 0 < j && rank(s[j]) <= rank(s[Parent(j)])
    ensures HeapButUp(Swapped(s, Parent(j), j), rank, n, Parent(j))
  {
    var p, t := Parent(j), Swapped(s, Parent(j), j);
    assert Edge(s, rank, p);
    forall k: nat | k < n && k != p ensures Edge(t, rank, k) {
      if k != j { assert Edge(s, rank, k); }
    }
    forall c: nat | 0 < p && c < n && Parent(c) == p ensures rank(t[Parent(p)]) <= rank(t[c]) {
      if c != j { assert Edge(s, rank, c); }
    }
  }

  lemma DownStep<T>(s: seq<T>, rank: T -> int, n: nat, i: nat, c: nat)
    requires HeapButAt(s, rank, n, i) && 0 < c < n && Parent(c) == i
    requires rank(s[c]) <= rank(s[i])
    requires forall d: nat | 0 < d < n && Parent(d) == i :: rank(s[c]) <= rank(s[d])
    ensures HeapButAt(Swapped(s, i, c), rank, n, c)
    ensures Edge(Swapped(s, i, c), rank, i) && Edge(Swapped(s, i, c), rank, c)
  {
    var t := Swapped(s, i, c);
    forall k: nat | k < n && k != c && Parent(k) != c ensures Edge(t, rank, k) {
      if k != i && Parent(k) != i { assert Edge(s, rank, k); }
    }
    forall d: nat | d < n && Parent(d) == c ensures rank(t[Parent(c)]) <= rank(t[d]) {
      assert Edge(s, rank, d);
    }
  }

  class Heap<T(==, !new)> {
    ghost const rank: T -> int
    const less: (T, T) -> bool
    var items: seq<T>
    // the position stored in each item
    var index: map<T, nat>

    ghost predicate IndexOk()
      reads this
    {
      forall k | 0 <= k < |items| :: items[k] in index && index[items[k]] == k
    }

    ghost predicate Valid()
      reads this
    {
      Compatible(less, rank) && IndexOk() && HeapOn(items, rank, |items|)
    }

    constructor (ghost rank: T -> int, less: (T, T) -> bool)
      requires Compatible(less, rank)
      ensures Valid() && items == [] && this.rank == rank && this.less == less
    {
      this.rank := rank;
      this.less := less;
      items, index := [], map[];
    }

    method Swap(i: nat, j: nat)
      requires i < |items| && j < |items| && IndexOk()
      modifies this
      ensures items == Swapped(old(items), i, j) && IndexOk()
      ensures Members(items) == Members(old(items))
    {
      ghost var before := items;
      var a, b := items[i], items[j];
      index := index[b := i][a := j];
      items := items[i := b][j := a];
      SwapKeepsMembers(before, i, j);
    }

    method Up(j0: nat, ghost n: nat)
      requires Compatible(less, rank) && IndexOk() && HeapButUp(items, rank, n, j0)
      modifies this
      ensures IndexOk() && HeapOn(items, rank, n) && SameFrom(items, old(items), n)
      ensures Members(items) == Members(old(items))
    {
      var j := j0;
      while true
        invariant IndexOk() && HeapButUp(items, rank, n, j)
        invariant SameFrom(items, old(items), n)
        invariant Members(items) == Members(old(items))
        decreases j
      {
        var i := Parent(j);
        if i == j || !less(items[j], items[i]) {
          break;
        }
        UpStep(items, rank, n, j);
        Swap(i, j);
        j := i;
      }
    }

    method Down(i0: nat, n: nat) returns (moved: bool)
      requires Compatible(less, rank) && IndexOk() && HeapButAt(items, rank, n, i0)
      modifies this
      ensures IndexOk() && SameFrom(items, old(items), n)
      ensures if moved then HeapOn(items, rank, n) else HeapButUp(items, rank, n, i0)
      ensures Members(items) == Members(old(items))
    {
      var i := i0;
      while true
        invariant i0 <= i < n && IndexOk() && HeapButAt(items, rank, n, i)
        invariant i0 < i ==> Edge(items, rank, i)
        invariant SameFrom(items, old(items), n)
        invariant Members(items) == Members(old(items))
        decreases n - i
      {
        DownIteration(items, rank, less, n, i);
        var j1 := 2 * i + 1;
        if n <= j1 {
          break;
        }
        var j := SmallerChild(items, less, n, i);
        if !less(items[j], items[i]) {
          break;
        }
        Swap(i, j);
        i := j;
      }
      moved := i0 < i;
    }

    /** Moves the item at i down, or up where it need not go down. */
    method Sift(i: nat, n: nat)
      requires Compatible(less, rank) && IndexOk() && HeapButAt(items, rank, n, i)
      modifies this
      ensures IndexOk() && HeapOn(items, rank, n) && SameFrom(items, old(items), n)
      ensures Members(items) == Members(old(items))
    {
      var moved := Down(i, n);
      if !moved {
        Up(i, n);
      }
    }

    method Push(x: T)
      requires Valid() && x !in items
      modifies this
      ensures Valid() && |items| == |old(items)| + 1
      ensures Members(items) == Members(old(items)) + {x}
    {
      PushIsHeap(items, rank, x);
      index := index[x := |items|];
      items := items + [x];
      Up(|items| - 1, |items|);
    }

    /** Takes out the last item. */
    method Pop() returns (x: T)
      requires items != [] && Compatible(less, rank) && IndexOk() && HeapOn(items, rank, |items| - 1)
      modifies this
      ensures Valid() && |items| == |old(items)| - 1 && x == old(items)[|items|]
      ensures Members(items) == Members(old(items)) - {x}
    {
      var n := |items| - 1;
      PopIsHeap(items, rank, n);
      LastIsUnique(items, index, n);
      x := items[n];
      items := items[..n];
    }

    /** Takes out the item at a position. */
    method Remove(i: nat) returns (x: T)
      requires Valid() && i < |items|
      modifies this
      ensures Valid() && x == old(items)[i] && |items| == |old(items)| - 1
      ensures Members(items) == Members(old(items)) - {x}
    {
      var n := |items| - 1;
      if n != i {
        SwapLast(items, rank, i);
        Swap(i, n);
        Sift(i, n);
      }
      x := Pop();
    }

    /** The item at i changes, and finds its new place: `Fix`. */
    method Update(i: nat, x: T)
      requires Valid() && i < |items| && (x == items[i] || x !in items)
      modifies this
      ensures Valid() && |items| == |old(items)|
      ensures Members(items) == Members(old(items)) - {old(items)[i]} + {x}
    {
      UpdateIsHeap(items, rank, i, x);
      UpdateMembers(items, index, i, x);
      index := index[x := i];
      items := items[i := x];
      Sift(i, |items|);
    }
  }

  lemma UpdateIsHeap<T>(s: seq<T>, rank: T -> int, i: nat, x: T)
    requires HeapOn(s, rank, |s|) && i < |s|
    ensures HeapButAt(s[i := x], rank, |s|, i)
  {
    var t := s[i := x];
    forall k: nat | k < |s| && k != i && Parent(k) != i ensures Edge(t, rank, k) {
      assert Edge(s, rank, k);
    }
    forall c: nat | 0 < i && c < |s| && Parent(c) == i ensures rank(t[Parent(i)]) <= rank(t[c]) {
      assert Edge(s, rank, c) && Edge(s, rank, i);
    }
  }

  lemma UpdateMembers<T>(s: seq<T>, index: map<T, nat>, i: nat, x: T)
    requires i < |s| && forall k | 0 <= k < |s| :: s[k] in index && index[s[k]] == k
    ensures Members(s[i := x]) == Members(s) - {s[i]} + {x}
  {
    var t := s[i := x];
    forall y | y in s && y != s[i] ensures y in t {
      var k :| 0 <= k < |s| && s[k] == y;
      assert t[k] == y;
    }
    assert t[i] == x;
  }

  lemma DownStops<T>(s: seq<T>, rank: T -> int, n: nat, i: nat)
    requires HeapButAt(s, rank, n, i)
    requires forall d: nat | 0 < d < n && Parent(d) == i :: rank(s[i]) <= rank(s[d])
    ensures HeapButUp(s, rank, n, i)
    ensures Edge(s, rank, i) ==> HeapOn(s, rank, n)
  {
  }

  /** The child that `Down` compares with its parent. */
  function SmallerChild<T>(s: seq<T>, less: (T, T) -> bool, n: nat, i: nat): (j: nat)
    requires n <= |s| && 2 * i + 1 < n
    ensures j < n && (j == 2 * i + 1 || j == 2 * i + 2)
  {
    if 2 * i + 2 < n && less(s[2 * i + 2], s[2 * i + 1]) then 2 * i + 2 else 2 * i + 1
  }

  /** One round of `Down`: it may stop, or the swap moves the defect to the child. */
  lemma DownIteration<T(!new)>(s: seq<T>, rank: T -> int, less: (T, T) -> bool, n: nat, i: nat)
    requires Compatible(less, rank) && HeapButAt(s, rank, n, i)
    ensures n <= 2 * i + 1 || !less(s[SmallerChild(s, less, n, i)], s[i]) ==>
              HeapButUp(s, rank, n, i) && (Edge(s, rank, i) ==> HeapOn(s, rank, n))
    ensures 2 * i + 1 < n && less(s[SmallerChild(s, less, n, i)], s[i]) ==>
              var j := SmallerChild(s, less, n, i);
              HeapButAt(Swapped(s, i, j), rank, n, j) && Edge(Swapped(s, i, j), rank, j)
  {
    forall d: nat | 0 < d < n && Parent(d) == i
      ensures rank(s[SmallerChild(s, less, n, i)]) <= rank(s[d])
    {
      assert d == 2 * i + 1 || d == 2 * i + 2;
    }
    if n <= 2 * i + 1 || !less(s[SmallerChild(s, less, n, i)], s[i]) {
      DownStops(s, rank, n, i);
    } else {
      DownStep(s, rank, n, i, SmallerChild(s, less, n, i));
    }
  }

  lemma PushIsHeap<T>(s: seq<T>, rank: T -> int, x: T)
    requires HeapOn(s, rank, |s|)
    ensures HeapButUp(s + [x], rank, |s| + 1, |s|)
  {
    forall k: nat | k < |s| ensures Edge(s + [x], rank, k) { assert Edge(s, rank, k); }
  }

  /** Replacing an inner item by the last one leaves a heap but for the edges around it. */
  lemma SwapLast<T>(s: seq<T>, rank: T -> int, i: nat)
    requires HeapOn(s, rank, |s|) && i < |s| - 1
    ensures HeapButAt(Swapped(s, i, |s| - 1), rank, |s| - 1, i)
  {
    var t, n := Swapped(s, i, |s| - 1), |s| - 1;
    forall k: nat | k < n && k != i && Parent(k) != i ensures Edge(t, rank, k) {
      assert Edge(s, rank, k);
    }
    forall c: nat | 0 < i && c < n && Parent(c) == i ensures rank(t[Parent(i)]) <= rank(t[c]) {
      assert Edge(s, rank, c) && Edge(s, rank, i);
    }
  }

  lemma PopIsHeap<T>(s: seq<T>, rank: T -> int, n: nat)
    requires HeapOn(s, rank, n)
    ensures HeapOn(s[..n], rank, n)
  {
    forall k: nat | k < n ensures Edge(s[..n], rank, k) { assert Edge(s, rank, k); }
  }

  lemma LastIsUnique<T>(s: seq<T>, index: map<T, nat>, n: nat)
    requires |s| == n + 1 && forall k | 0 <= k < |s| :: s[k] in index && index[s[k]] == k
    ensures Members(s[..n]) == Members(s) - {s[n]}
  {
    forall y | y in s && y != s[n] ensures y in s[..n] {
      var k :| 0 <= k < |s| && s[k] == y;
      assert s[..n][k] == y;
    }
  }

  /** Items that know their positions are distinct. */
  lemma {:induction false} DistinctCount<T>(s: seq<T>, index: map<T, nat>)
    requires forall k | 0 <= k < |s| :: s[k] in index && index[s[k]] == k
    ensures |Members(s)| == |s|
  {
    if s != [] {
      var n := |s| - 1;
      LastIsUnique(s, index, n);
      DistinctCount(s[..n], index);
      assert s[n] in Members(s);
    }
  }
}
