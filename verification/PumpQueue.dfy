/** The pump hosts waiting for an answer: one min heap by time, partitioned into one max heap per address. */
module PumpQueue {
  import opened Basics
  import opened BinaryHeap
  import opened Options

  /** `uid` is the identity of the item, a pointer in the program. */
  datatype PumpItem = PumpItem(uid: nat, addr: Addr, header: seq<bv8>, tld: seq<bv8>, updateTime: int)

  datatype Removed = Nothing | Item(item: PumpItem) | NilDereference

  ghost function At(s: set<PumpItem>, addr: Addr): set<PumpItem> { set x <- s | x.addr == addr }

  ghost predicate Newest(x: PumpItem, s: set<PumpItem>) {
    x in s && forall y <- s :: y.updateTime <= x.updateTime
  }

  /** Taking a newest item again and again from `from` gives `items` and leaves `left`. */
  ghost predicate NewestFirst(items: seq<PumpItem>, from: set<PumpItem>, left: set<PumpItem>)
    decreases |items|
  {
    if items == [] then left == from
    else
      var x := items[|items|-1];
      x !in left && Newest(x, left + {x}) && NewestFirst(items[..|items|-1], from, left + {x})
  }

  lemma NewestFirstSnoc(items: seq<PumpItem>, s: set<PumpItem>, left: set<PumpItem>, addr: Addr, x: PumpItem)
    requires NewestFirst(items, At(s, addr), At(left, addr)) && Newest(x, At(left, addr)) && left == s - Members(items)
    ensures NewestFirst(items + [x], At(s, addr), At(left - {x}, addr)) && left - {x} == s - Members(items + [x])
  {
    AtRemove(left, x);
    assert (items + [x])[..|items|] == items;
    assert At(left, addr) - {x} + {x} == At(left, addr);
    assert Members(items + [x]) == Members(items) + {x};
  }

  /** The items come newest first, and nothing left behind is newer than one of them. */
  lemma {:induction false} NewestFirstDescends(items: seq<PumpItem>, from: set<PumpItem>, left: set<PumpItem>, i: nat)
    requires NewestFirst(items, from, left) && i < |items|
    ensures items[i] in from && items[i] !in left && left <= from && |left| == |from| - |items|
    ensures forall j | i < j < |items| :: items[j].updateTime <= items[i].updateTime && items[j] != items[i]
    ensures forall y <- left :: y.updateTime <= items[i].updateTime
    decreases |items|
  {
    var n := |items| - 1;
    if i < n {
      NewestFirstDescends(items[..n], from, left + {items[n]}, i);
    } else {
      NewestFirstBounds(items[..n], from, left + {items[n]});
    }
  }

  lemma {:induction false} NewestFirstBounds(items: seq<PumpItem>, from: set<PumpItem>, left: set<PumpItem>)
    requires NewestFirst(items, from, left)
    ensures left <= from && |left| == |from| - |items|
    decreases |items|
  {
    if items != [] {
      var n := |items| - 1;
      NewestFirstBounds(items[..n], from, left + {items[n]});
    }
  }

  class PumpQueue {
    const maxHosts: int
    const maxHostsPerAddress: int
    const heap: Heap<PumpItem>
    var addrMaxHeap: map<Addr, Heap<PumpItem>>
    ghost var maxHeaps: set<Heap<PumpItem>>

    ghost function Contents(): set<PumpItem>
      reads heap
    {
      Members(heap.items)
    }

    /** h is the max heap of the items of s. */
    ghost predicate HeapOf(h: Heap<PumpItem>, s: set<PumpItem>)
      reads h
    {
      && h.Valid() && (forall x :: h.rank(x) == -x.updateTime) && Members(h.items) == s
      && (h.items == [] || |h.items| <= maxHostsPerAddress)
    }

    /** The max heaps are disjoint and divide the items of s by address. */
    ghost predicate Partition(s: set<PumpItem>)
      reads this, maxHeaps
    {
      && Separate()
      && (forall a <- addrMaxHeap :: HeapOf(addrMaxHeap[a], At(s, a)))
      && (forall x <- s :: x.addr in addrMaxHeap)
    }

    ghost predicate Separate()
      reads this
    {
      && heap !in maxHeaps && (forall a <- addrMaxHeap :: addrMaxHeap[a] in maxHeaps)
      && forall a <- addrMaxHeap, b <- addrMaxHeap :: a != b ==> addrMaxHeap[a] != addrMaxHeap[b]
    }

    ghost predicate Ordered()
      reads heap
    {
      heap.Valid() && (forall x :: heap.rank(x) == x.updateTime) && (heap.items == [] || |heap.items| <= maxHosts)
    }

    /** No address has an empty heap, which a positive limit rules out. */
    ghost predicate NoEmptyHeap(addrs: set<Addr>, s: set<PumpItem>) {
      0 < maxHostsPerAddress ==> forall a <- addrs :: At(s, a) != {}
    }

    ghost predicate Valid()
      reads this, heap, maxHeaps
    {
      Ordered() && Partition(Contents()) && NoEmptyHeap(addrMaxHeap.Keys, Contents())
    }

    constructor (maxHosts: int, maxHostsPerAddress: int)
      ensures Valid() && Contents() == {} && fresh(heap) && fresh(maxHeaps) && addrMaxHeap == map[]
      ensures this.maxHosts == maxHosts && this.maxHostsPerAddress == maxHostsPerAddress
    {
      this.maxHosts, this.maxHostsPerAddress := maxHosts, maxHostsPerAddress;
      heap := new Heap<PumpItem>((x: PumpItem) => x.updateTime, (a: PumpItem, b: PumpItem) => a.updateTime < b.updateTime);
      addrMaxHeap, maxHeaps := map[], {};
    }

    /** The max heap of the address, made when there is none. */
    method HeapFor(addr: Addr, ghost s: set<PumpItem>) returns (h: Heap<PumpItem>)
      requires Partition(s) && NoEmptyHeap(addrMaxHeap.Keys, s)
      modifies `addrMaxHeap, `maxHeaps
      ensures Partition(s) && addr in addrMaxHeap && h == addrMaxHeap[addr]
      ensures NoEmptyHeap(addrMaxHeap.Keys - {addr}, s)
      ensures |h.items| == |At(s, addr)|
      ensures fresh(maxHeaps - old(maxHeaps))
    {
      if addr !in addrMaxHeap {
        h := new Heap<PumpItem>(
          (x: PumpItem) => -x.updateTime, (a: PumpItem, b: PumpItem) => b.updateTime < a.updateTime);
        addrMaxHeap, maxHeaps := addrMaxHeap[addr := h], maxHeaps + {h};
      }
      h := addrMaxHeap[addr];
      DistinctCount(h.items, h.index);
    }

    /** Puts a new item into the max heap of its address. */
    method Place(item: PumpItem, ghost s: set<PumpItem>)
      requires Partition(s) && item !in s && item.addr in addrMaxHeap
      requires |addrMaxHeap[item.addr].items| < maxHostsPerAddress
      modifies addrMaxHeap[item.addr]
      ensures Partition(s + {item})
    {
      AtAdd(s, item);
      var h := addrMaxHeap[item.addr];
      h.Push(item);
    }

    method Insert(item: PumpItem, ghost s: set<PumpItem>)
      requires Ordered() && Contents() == s && Partition(s) && NoEmptyHeap(addrMaxHeap.Keys - {item.addr}, s)
      requires item !in s && item.addr in addrMaxHeap
      requires |heap.items| < maxHosts && |addrMaxHeap[item.addr].items| < maxHostsPerAddress
      modifies heap, addrMaxHeap[item.addr]
      ensures Valid() && Contents() == s + {item}
    {
      heap.Push(item);
      Place(item, s);
      AtAdd(s, item);
      assert item in At(s + {item}, item.addr);
    }

    lemma FullHeapKept(addr: Addr, s: set<PumpItem>)
      requires Ordered() && Contents() == s && Partition(s) && NoEmptyHeap(addrMaxHeap.Keys - {addr}, s)
      requires addr in addrMaxHeap && maxHostsPerAddress <= |addrMaxHeap[addr].items|
      ensures Valid()
    {
      if 0 < maxHostsPerAddress {
        assert addrMaxHeap[addr].items[0] in At(s, addr);
      }
    }

    /** Adds the item, stamped with the current time, unless a limit is reached. */
    method Add(item: PumpItem, now: int) returns (limit: bool)
      requires Valid() && forall x <- Contents() :: x.uid != item.uid
      modifies this, heap, maxHeaps
      ensures Valid() && fresh(maxHeaps - old(maxHeaps))
      ensures limit <==> maxHosts <= |old(Contents())| || maxHostsPerAddress <= |At(old(Contents()), item.addr)|
      ensures Contents() == if limit then old(Contents()) else old(Contents()) + {item.(updateTime := now)}
      ensures maxHosts <= |old(Contents())| ==> addrMaxHeap == old(addrMaxHeap)
      ensures limit && |old(Contents())| < maxHosts && maxHostsPerAddress <= 0 ==>
                item.addr in addrMaxHeap && addrMaxHeap[item.addr].items == []
    {
      DistinctCount(heap.items, heap.index);
      if maxHosts <= |heap.items| {
        return true;
      }
      limit := AddAt(item.(updateTime := now), Contents());
    }

    method AddAt(item: PumpItem, ghost s: set<PumpItem>) returns (limit: bool)
      requires Valid() && s == Contents() && item !in s && |heap.items| < maxHosts
      modifies this, heap, maxHeaps
      ensures Valid() && fresh(maxHeaps - old(maxHeaps))
      ensures limit <==> maxHostsPerAddress <= |At(s, item.addr)|
      ensures Contents() == if limit then s else s + {item}
      ensures item.addr in addrMaxHeap
    {
      var maxHeap := HeapFor(item.addr, s);
      limit := maxHostsPerAddress <= |maxHeap.items|;
      if limit {
        FullHeapKept(item.addr, s);
      } else {
        Insert(item, s);
      }
    }

    /** Takes an item out of the max heap of its address. */
    method Take(addr: Addr, i: nat, ghost s: set<PumpItem>) returns (x: PumpItem)
      requires Partition(s) && addr in addrMaxHeap && i < |addrMaxHeap[addr].items|
      modifies addrMaxHeap[addr]
      ensures x == old(addrMaxHeap[addr].items[i]) && x in At(s, addr) && Partition(s - {x})
    {
      var h := addrMaxHeap[addr];
      x := h.items[i];
      assert x in Members(h.items);
      AtRemove(s, x);
      x := h.Remove(i);
    }

    /** Forgets the max heap of the address once it is empty. */
    method DropIfEmpty(addr: Addr, ghost s: set<PumpItem>)
      requires Partition(s) && addr in addrMaxHeap && NoEmptyHeap(addrMaxHeap.Keys - {addr}, s)
      modifies `addrMaxHeap
      ensures Partition(s) && NoEmptyHeap(addrMaxHeap.Keys, s)
    {
      var h := addrMaxHeap[addr];
      if |h.items| == 0 {
        assert At(s, addr) == {};
        forall x | x in s ensures x.addr in addrMaxHeap.Keys - {addr} {
          assert x in At(s, x.addr);
        }
        addrMaxHeap := addrMaxHeap - {addr};
      } else {
        assert h.items[0] in At(s, addr);
      }
    }

    lemma NoEmptyHeapRemove(addrs: set<Addr>, s: set<PumpItem>, x: PumpItem)
      requires NoEmptyHeap(addrs, s)
      ensures NoEmptyHeap(addrs - {x.addr}, s - {x})
    {
      AtRemove(s, x);
    }

    /** The newest item of an address, out of both heaps; the empty heap dereferences nil. */
    method RemoveLast(addr: Addr) returns (r: Removed)
      requires Valid()
      modifies this, heap, maxHeaps
      ensures Valid() && maxHeaps == old(maxHeaps)
      ensures r.Item? <==> At(old(Contents()), addr) != {}
      ensures r.NilDereference? <==> addr in old(addrMaxHeap) && At(old(Contents()), addr) == {}
      ensures r.NilDereference? ==> maxHostsPerAddress <= 0
      ensures r.Item? ==> Newest(r.item, At(old(Contents()), addr))
      ensures Contents() == if r.Item? then old(Contents()) - {r.item} else old(Contents())
    {
      if addr !in addrMaxHeap {
        assert At(Contents(), addr) == {};
        return Nothing;
      }
      if |addrMaxHeap[addr].items| == 0 {
        return NilDereference;
      }
      var x := RemoveNewest(addr, Contents());
      r := Item(x);
    }

    method RemoveNewest(addr: Addr, ghost s: set<PumpItem>) returns (x: PumpItem)
      requires Valid() && s == Contents() && addr in addrMaxHeap && |addrMaxHeap[addr].items| > 0
      modifies `addrMaxHeap, heap, addrMaxHeap[addr]
      ensures Valid() && Contents() == s - {x} && Newest(x, At(s, addr))
    {
      FirstIsNewest(addr, s);
      x := Take(addr, 0, s);
      NoEmptyHeapRemove(addrMaxHeap.Keys, s, x);
      DropIfEmpty(addr, s - {x});
      RemoveCentral(x, s);
    }

    method RemoveCentral(x: PumpItem, ghost s: set<PumpItem>)
      requires Ordered() && Contents() == s && x in s
      requires Partition(s - {x}) && NoEmptyHeap(addrMaxHeap.Keys, s - {x})
      modifies heap
      ensures Valid() && Contents() == s - {x}
    {
      var removed := heap.Remove(heap.index[x]);
    }

    /** The n newest items of an address, newest first, or nothing when it has fewer. */
    method RemoveLastN(addr: Addr, n: nat) returns (r: Option<seq<PumpItem>>)
      requires Valid()
      modifies this, heap, maxHeaps
      ensures Valid() && maxHeaps == old(maxHeaps)
      ensures r.Some? <==> addr in old(addrMaxHeap) && n <= |At(old(Contents()), addr)|
      ensures r.None? ==> Contents() == old(Contents())
      ensures r.Some? ==> |r.value| == n && NewestFirst(r.value, At(old(Contents()), addr), At(Contents(), addr))
      ensures r.Some? ==> Contents() == old(Contents()) - Members(r.value)
    {
      if addr !in addrMaxHeap {
        return None;
      }
      DistinctCount(addrMaxHeap[addr].items, addrMaxHeap[addr].index);
      if |addrMaxHeap[addr].items| < n {
        return None;
      }
      var items := TakeNewest(addr, n, Contents());
      r := Some(items);
    }

    /** The items taken so far, newest first, are what is missing from s. */
    ghost predicate Taking(items: seq<PumpItem>, addr: Addr, s: set<PumpItem>)
      reads heap
    {
      NewestFirst(items, At(s, addr), At(Contents(), addr)) && Contents() == s - Members(items)
    }

    method TakeNewest(addr: Addr, n: nat, ghost s: set<PumpItem>) returns (items: seq<PumpItem>)
      requires Valid() && s == Contents() && n <= |At(s, addr)|
      modifies this, heap, maxHeaps
      ensures Valid() && maxHeaps == old(maxHeaps) && |items| == n && Taking(items, addr, s)
    {
      items := [];
      for i := 0 to n
        invariant Valid() && maxHeaps == old(maxHeaps) && |items| == i && Taking(items, addr, s)
      {
        items := TakeNext(addr, items, s);
      }
    }

    method TakeNext(addr: Addr, items: seq<PumpItem>, ghost s: set<PumpItem>) returns (next: seq<PumpItem>)
      requires Valid() && Taking(items, addr, s) && |items| < |At(s, addr)|
      modifies `addrMaxHeap, heap, maxHeaps
      ensures Valid() && |next| == |items| + 1 && Taking(next, addr, s)
    {
      ghost var before := Contents();
      NewestFirstBounds(items, At(s, addr), At(before, addr));
      AddrHasHeap(addr, before);
      var x := RemoveNewest(addr, before);
      NewestFirstSnoc(items, s, before, addr, x);
      next := items + [x];
    }

    lemma AddrHasHeap(addr: Addr, s: set<PumpItem>)
      requires Partition(s) && |At(s, addr)| > 0
      ensures addr in addrMaxHeap && |addrMaxHeap[addr].items| > 0
    {
      var x :| x in At(s, addr);
      assert x in s && Members(addrMaxHeap[addr].items) != {};
    }

    /** Removes everything older than a time. */
    method RemoveOlder(minUpdateTime: int)
      requires Valid()
      modifies this, heap, maxHeaps
      ensures Valid() && maxHeaps == old(maxHeaps)
      ensures Contents() == set x <- old(Contents()) | minUpdateTime <= x.updateTime
    {
      while 0 < |heap.items| && heap.items[0].updateTime < minUpdateTime
        invariant Valid() && maxHeaps == old(maxHeaps) && Contents() <= old(Contents())
        invariant forall x <- old(Contents()) :: x !in Contents() ==> x.updateTime < minUpdateTime
        decreases |heap.items|
      {
        RemoveOldest();
      }
      if heap.items != [] {
        forall x | x in Contents() ensures minUpdateTime <= x.updateTime {
          RootIsLeastMember(heap.items, heap.rank, x);
        }
      }
    }

    method RemoveOldest()
      requires Valid() && heap.items != []
      modifies `addrMaxHeap, heap, maxHeaps
      ensures Valid() && |heap.items| < |old(heap.items)|
      ensures old(heap.items[0]) in old(Contents()) && Contents() == old(Contents()) - {old(heap.items[0])}
    {
      ghost var s := Contents();
      var x := heap.items[0];
      HeapHolds(x, s);
      x := heap.Remove(0);
      if x.addr in addrMaxHeap {
        var y := Take(x.addr, addrMaxHeap[x.addr].index[x], s);
        NoEmptyHeapRemove(addrMaxHeap.Keys, s, x);
        DropIfEmpty(x.addr, s - {x});
      }
    }

    lemma HeapHolds(x: PumpItem, s: set<PumpItem>)
      requires Partition(s) && x in s
      ensures x.addr in addrMaxHeap
      ensures var h := addrMaxHeap[x.addr];
              x in h.index && h.index[x] < |h.items| && h.items[h.index[x]] == x
    {
      assert x in At(s, x.addr);
    }

    lemma FirstIsNewest(addr: Addr, s: set<PumpItem>)
      requires Partition(s) && addr in addrMaxHeap && addrMaxHeap[addr].items != []
      ensures Newest(addrMaxHeap[addr].items[0], At(s, addr))
    {
      var h := addrMaxHeap[addr];
      forall y | y in At(s, addr) ensures y.updateTime <= h.items[0].updateTime {
        assert y in Members(h.items);
        RootIsLeastMember(h.items, h.rank, y);
      }
      assert h.items[0] in Members(h.items);
    }
  }

  /** Asking for the host just added fails exactly when a queue with room refuses every host of an address. */
  method AddThenRemove(maxHosts: int, maxHostsPerAddress: int, item: PumpItem, now: int) returns (r: Removed)
    ensures r.NilDereference? <==> 0 < maxHosts && maxHostsPerAddress <= 0
    ensures r.Item? <==> 0 < maxHosts && 0 < maxHostsPerAddress
    ensures r.Item? ==> r.item == item.(updateTime := now)
  {
    var q := new PumpQueue(maxHosts, maxHostsPerAddress);
    var stamped := item.(updateTime := now);
    assert At({}, item.addr) == {} && At({stamped}, item.addr) == {stamped};
    var limit := q.Add(item, now);
    assert q.Contents() == if limit then {} else {stamped};
    r := q.RemoveLast(item.addr);
  }

  lemma AtAdd(s: set<PumpItem>, x: PumpItem)
    ensures forall a :: At(s + {x}, a) == if a == x.addr then At(s, a) + {x} else At(s, a)
  {
  }

  lemma AtRemove(s: set<PumpItem>, x: PumpItem)
    ensures forall a :: At(s - {x}, a) == if a == x.addr then At(s, a) - {x} else At(s, a)
  {
  }
}
