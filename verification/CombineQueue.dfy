/** The queue of partial packets: a heap by update time, a map by key and a count by address. */
module CombineQueue {
  import opened Basics
  import opened BinaryHeap
  import opened CombineModel
  import opened DnsCodec
  import opened Lookups
  import opened Options

  class CombineQueue {
    const maxCombine: int
    const maxCombinePerAddress: int
    const heap: Heap<Partial>
    var keyItems: map<Key, Partial>
    var addrItemCount: Counts

    ghost predicate Valid()
      reads this, heap
    {
      && heap.Valid() && (forall p :: heap.rank(p) == p.updateTime)
      && AllWellFormed(keyItems) && Lookup(keyItems, Members(heap.items), (p: Partial) => p.key)
    }

    /** A new key is refused when its address or the whole queue is full. */
    predicate Full(addr: Addr)
      reads this, heap
    {
      maxCombinePerAddress <= CountOf(addrItemCount, addr) || maxCombine <= |heap.items|
    }

    /** The queue and every address are within their limits. */
    ghost predicate WithinLimits()
      reads this
    {
      Bounded(keyItems, addrItemCount, maxCombine, maxCombinePerAddress)
    }

    /** The partial packet of the header has the fragment in its slot and the time of its arrival. */
    ghost predicate TakesFragment(addr: Addr, header: Header, data: seq<Byte>, now: int)
      reads this
    {
      KeyOf(header) in keyItems &&
      var p := keyItems[KeyOf(header)];
      && header[17] < |p.packets| && p.packets[header[17]] == Some(data)
      && p.updateTime == now && p.updateAddr == addr
    }

    /** The heap has as many items as the map. */
    lemma FullAtLimit(addr: Addr)
      requires Valid()
      ensures Full(addr) <==> AtLimit(keyItems, addrItemCount, addr, maxCombine, maxCombinePerAddress)
    {
      DistinctCount(heap.items, heap.index);
      LookupSize(keyItems, Members(heap.items), (p: Partial) => p.key);
    }

    constructor (maxCombine: int, maxCombinePerAddress: int)
      ensures Valid() && keyItems == map[] && addrItemCount == map[] && fresh(heap) && WithinLimits()
    {
      this.maxCombine, this.maxCombinePerAddress := maxCombine, maxCombinePerAddress;
      heap := new Heap<Partial>((p: Partial) => p.updateTime, (a: Partial, b: Partial) => a.updateTime < b.updateTime);
      keyItems, addrItemCount := map[], map[];
    }

    /**
     Adds a fragment; its packet comes out once all of them are there. A new key is refused exactly when its
     address or the queue is at its limit, so neither ever goes beyond it.
     */
    method Combine(addr: Addr, header: Header, data: seq<Byte>, now: int) returns (r: Outcome)
      requires Valid()
      modifies this, heap
      ensures Valid()
      ensures (keyItems, r) == Step(old(keyItems), Arrive(addr, header, data, now, old(Full(addr))))
      ensures CountsStep(old(keyItems), old(addrItemCount), Arrive(addr, header, data, now, old(Full(addr))), addrItemCount)
      ensures old(CountsMatch(keyItems, addrItemCount)) ==>
                (CountsMatch(keyItems, addrItemCount)
                 <==> !Miscounts(old(keyItems), Arrive(addr, header, data, now, old(Full(addr)))))
      ensures r == Limited <==>
                && header[17] < header[16] && KeyOf(header) !in old(keyItems)
                && (maxCombinePerAddress <= CountOf(old(addrItemCount), addr) || maxCombine <= |old(keyItems)|)
      ensures old(WithinLimits()) ==> WithinLimits()
      ensures r == Stored ==> TakesFragment(addr, header, data, now)
      ensures r.Output? ==> KeyOf(header) !in keyItems && r.addr == addr
    {
      ghost var e := Arrive(addr, header, data, now, Full(addr));
      FullAtLimit(addr);
      r := Place(addr, header, data, now);
      if old(WithinLimits()) {
        StepBounded(old(keyItems), old(addrItemCount), e, addrItemCount, maxCombine, maxCombinePerAddress);
      }
      if old(CountsMatch(keyItems, addrItemCount)) {
        StepCounts(old(keyItems), old(addrItemCount), e, addrItemCount);
      }
    }

    method Place(addr: Addr, header: Header, data: seq<Byte>, now: int) returns (r: Outcome)
      requires Valid()
      modifies this, heap
      ensures Valid()
      ensures (keyItems, r) == Step(old(keyItems), Arrive(addr, header, data, now, old(Full(addr))))
      ensures addrItemCount == ArriveCounts(old(keyItems), old(addrItemCount), KeyOf(header), addr, r)
    {
      if header[16] <= header[17] {
        return BadIndex;
      }
      var key := KeyOf(header);
      if key !in keyItems && Full(addr) {
        return Limited;
      }
      r := Merge(key, header[17], data, addr, now);
    }

    method Merge(key: Key, i: nat, data: seq<Byte>, addr: Addr, now: int) returns (r: Outcome)
      requires Valid() && |key| == 17 && i < key[16]
      modifies this, heap
      ensures Valid() && (keyItems, r) == Merged(old(keyItems), key, i, data, addr, now)
      ensures addrItemCount == ArriveCounts(old(keyItems), old(addrItemCount), key, addr, r)
    {
      var known := key in keyItems;
      var p := if known then keyItems[key] else NewPartial(key, addr);
      var q := WithFragment(p, i, data, addr, now);
      FilledUpdate(p.packets, i, data);
      r := Settle(known, p, q, addr);
    }

    /** Takes the packet out when it is complete and keeps it otherwise. */
    method Settle(known: bool, p: Partial, q: Partial, addr: Addr) returns (r: Outcome)
      requires Valid() && q.key == p.key && (WellFormed(q) || q.count == |q.packets|)
      requires known == (p.key in keyItems) && (known ==> keyItems[p.key] == p)
      modifies heap, `keyItems, `addrItemCount
      ensures Valid() && addrItemCount == ArriveCounts(old(keyItems), old(addrItemCount), q.key, addr, r)
      ensures r == if q.count == |q.packets| then Output(Joined(q.packets), addr) else Stored
      ensures keyItems == if r.Output? then old(keyItems) - {q.key} else old(keyItems)[q.key := q]
    {
      if q.count == |q.packets| {
        Complete(known, p, addr);
        r := Output(Joined(q.packets), addr);
      } else {
        Keep(known, p, q, addr);
        r := Stored;
      }
    }

    /** Takes the partial packet out when it was in the queue. */
    method Complete(known: bool, p: Partial, addr: Addr)
      requires Valid() && known == (p.key in keyItems) && (known ==> keyItems[p.key] == p)
      modifies heap, `keyItems, `addrItemCount
      ensures Valid() && keyItems == old(keyItems) - {p.key}
      ensures addrItemCount == if known then Down(old(addrItemCount), addr) else old(addrItemCount)
    {
      if known {
        Forget(p.key, p);
        addrItemCount := Down(addrItemCount, addr);
      }
    }

    /** Puts the partial packet into the queue, or back at its new place. */
    method Keep(known: bool, p: Partial, q: Partial, addr: Addr)
      requires Valid() && WellFormed(q) && q.key == p.key
      requires known == (p.key in keyItems) && (known ==> keyItems[p.key] == p)
      modifies heap, `keyItems, `addrItemCount
      ensures Valid() && keyItems == old(keyItems)[q.key := q]
      ensures addrItemCount == if known then old(addrItemCount) else Up(old(addrItemCount), addr)
    {
      if !known {
        Insert(q);
        addrItemCount := Up(addrItemCount, addr);
      } else {
        Replace(p, q);
      }
    }

    method Insert(q: Partial)
      requires Valid() && WellFormed(q) && q.key !in keyItems
      modifies heap, `keyItems
      ensures Valid() && keyItems == old(keyItems)[q.key := q]
    {
      LookupAdd(keyItems, Members(heap.items), (p: Partial) => p.key, q);
      heap.Push(q);
      keyItems := keyItems[q.key := q];
    }

    method Replace(p: Partial, q: Partial)
      requires Valid() && WellFormed(q) && q.key == p.key && p.key in keyItems && keyItems[p.key] == p
      modifies heap, `keyItems
      ensures Valid() && keyItems == old(keyItems)[q.key := q]
    {
      assert q in heap.items ==> q in Members(heap.items);
      heap.Update(heap.index[p], q);
      keyItems := keyItems[q.key := q];
    }

    method Forget(key: Key, p: Partial)
      requires Valid() && key in keyItems && keyItems[key] == p
      modifies heap, `keyItems
      ensures Valid() && keyItems == old(keyItems) - {key} && |heap.items| < |old(heap.items)|
    {
      LookupRemove(keyItems, Members(heap.items), (p: Partial) => p.key, p);
      var removed := heap.Remove(heap.index[p]);
      keyItems := keyItems - {key};
    }

    /** Forgets the partial packets that were not updated since a time. */
    method RemoveOlder(minUpdateTime: int)
      requires Valid()
      modifies this, heap
      ensures Valid()
      ensures keyItems == Step(old(keyItems), Expire(minUpdateTime)).0
      ensures forall k :: k in keyItems <==> k in old(keyItems) && minUpdateTime <= old(keyItems)[k].updateTime
      ensures CountsStep(old(keyItems), old(addrItemCount), Expire(minUpdateTime), addrItemCount)
      ensures old(CountsMatch(keyItems, addrItemCount)) ==> CountsMatch(keyItems, addrItemCount)
      ensures old(WithinLimits()) ==> WithinLimits()
    {
      ghost var order := [];
      while 0 < |heap.items| && heap.items[0].updateTime < minUpdateTime
        invariant Valid() && Pruned(old(keyItems), keyItems, minUpdateTime)
        invariant Forgotten(old(keyItems), old(addrItemCount), order) == (keyItems, addrItemCount)
        decreases |heap.items|
      {
        ForgottenMore(old(keyItems), old(addrItemCount), order, heap.items[0].key);
        order := order + [heap.items[0].key];
        RemoveOldest(minUpdateTime, old(keyItems));
      }
      NothingOlder(minUpdateTime);
      if old(CountsMatch(keyItems, addrItemCount)) {
        ForgottenMatch(old(keyItems), old(addrItemCount), order);
      }
      if old(WithinLimits()) {
        ForgottenBounded(old(keyItems), old(addrItemCount), order, maxCombine, maxCombinePerAddress);
      }
    }

    method RemoveOldest(minUpdateTime: int, ghost before: map<Key, Partial>)
      requires Valid() && heap.items != [] && heap.items[0].updateTime < minUpdateTime
      requires Pruned(before, keyItems, minUpdateTime)
      modifies heap, `keyItems, `addrItemCount
      ensures Valid() && |heap.items| < |old(heap.items)| && Pruned(before, keyItems, minUpdateTime)
      ensures var item := old(heap.items[0]);
              && item.key in old(keyItems) && old(keyItems)[item.key] == item
              && keyItems == old(keyItems) - {item.key} && addrItemCount == Down(old(addrItemCount), item.addr)
    {
      var item := heap.items[0];
      assert item in Members(heap.items);
      Forget(item.key, item);
      addrItemCount := Down(addrItemCount, item.addr);
    }

    lemma NothingOlder(minUpdateTime: int)
      requires Valid() && (heap.items == [] || minUpdateTime <= heap.items[0].updateTime)
      ensures forall k <- keyItems :: minUpdateTime <= keyItems[k].updateTime
    {
      forall k | k in keyItems ensures minUpdateTime <= keyItems[k].updateTime {
        assert keyItems[k] in Members(heap.items);
        RootIsLeastMember(heap.items, heap.rank, keyItems[k]);
      }
    }
  }

  /** Only items older than the time are missing. */
  ghost predicate Pruned(before: map<Key, Partial>, now: map<Key, Partial>, minUpdateTime: int) {
    && (forall k <- now :: k in before && now[k] == before[k])
    && (forall k <- before :: k in now || before[k].updateTime < minUpdateTime)
  }
}
