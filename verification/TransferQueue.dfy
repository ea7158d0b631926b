/** The queue of a send or a receive sequence: one set of items seen through two heaps, two maps and a byte total. */
module TransferQueue {
  import opened BinaryHeap
  import opened Lookups
  import opened MapSum
  import opened Options
  import opened TransferTypes

  /** `cmp` is a comparison: its sign is that of the difference of the keys. */
  ghost predicate IsComparison<T(!new)>(cmp: (T, T) -> int, key: T -> int) {
    forall a, b :: (cmp(a, b) < 0 <==> key(a) < key(b)) && (0 < cmp(a, b) <==> key(b) < key(a))
  }

  class TransferQueue<T(==, !new)> {
    const id: T -> Id
    const number: T -> nat
    const bytes: T -> nat
    const cmp: (T, T) -> int
    ghost const key: T -> int

    const minHeap: Heap<T>
    const maxHeap: Heap<T>
    var messageIdItems: map<Id, T>
    var sequenceNumberItems: map<nat, T>
    var byteCount: int

    ghost function Contents(): set<T>
      reads this, minHeap
    {
      Members(minHeap.items)
    }

    ghost predicate Ordered()
      reads minHeap, maxHeap
    {
      && IsComparison(cmp, key) && minHeap != maxHeap && minHeap.Valid() && maxHeap.Valid()
      && minHeap.rank == key && (forall x :: maxHeap.rank(x) == -key(x))
      && Members(maxHeap.items) == Members(minHeap.items)
      && |maxHeap.items| == |minHeap.items|
    }

    /** The two maps and the byte total describe the n items of s. */
    ghost predicate Indexed(s: set<T>, n: nat)
      reads this
    {
      && Lookup(messageIdItems, s, id) && Lookup(sequenceNumberItems, s, number)
      && |messageIdItems| == n
      && byteCount == Sum(messageIdItems, bytes)
    }

    ghost predicate Valid()
      reads this, minHeap, maxHeap
    {
      Ordered() && Indexed(Contents(), |minHeap.items|)
    }

    lemma FirstIsLeast()
      requires Ordered() && minHeap.items != []
      ensures minHeap.items[0] in Contents() && forall x <- Contents() :: cmp(minHeap.items[0], x) <= 0
    {
      forall x | x in Contents() ensures cmp(minHeap.items[0], x) <= 0 {
        RootIsLeastMember(minHeap.items, minHeap.rank, x);
      }
    }

    lemma LastIsGreatest()
      requires Ordered() && maxHeap.items != []
      ensures maxHeap.items[0] in Contents() && forall x <- Contents() :: 0 <= cmp(maxHeap.items[0], x)
    {
      assert maxHeap.items[0] in Members(maxHeap.items);
      forall x | x in Contents() ensures 0 <= cmp(maxHeap.items[0], x) {
        assert x in Members(maxHeap.items);
        RootIsLeastMember(maxHeap.items, maxHeap.rank, x);
      }
    }

    constructor (id: T -> Id, number: T -> nat, bytes: T -> nat, cmp: (T, T) -> int, ghost key: T -> int)
      requires IsComparison(cmp, key)
      ensures Valid() && Contents() == {} && fresh(minHeap) && fresh(maxHeap)
      ensures this.id == id && this.number == number && this.bytes == bytes && this.key == key
    {
      this.id, this.number, this.bytes, this.cmp, this.key := id, number, bytes, cmp, key;
      var low := new Heap<T>(key, (a, b) => cmp(a, b) < 0);
      var high := new Heap<T>(x => -key(x), (a, b) => 0 <= cmp(a, b));
      minHeap, maxHeap := low, high;
      messageIdItems, sequenceNumberItems, byteCount := map[], map[], 0;
    }

    method QueueSize() returns (count: nat, total: int)
      requires Valid()
      ensures count == |messageIdItems| && total == Sum(messageIdItems, bytes)
    {
      count, total := |minHeap.items|, byteCount;
    }

    method Add(item: T)
      requires Valid() && id(item) !in messageIdItems && number(item) !in sequenceNumberItems
      modifies this, minHeap, maxHeap
      ensures Valid() && Contents() == old(Contents()) + {item}
      ensures messageIdItems == old(messageIdItems)[id(item) := item]
      ensures sequenceNumberItems == old(sequenceNumberItems)[number(item) := item]
      ensures byteCount == old(byteCount) + bytes(item)
    {
      Learn(item, Contents(), |minHeap.items|);
      minHeap.Push(item);
      maxHeap.Push(item);
    }

    method Learn(item: T, ghost s: set<T>, ghost n: nat)
      requires Indexed(s, n) && id(item) !in messageIdItems && number(item) !in sequenceNumberItems
      modifies `messageIdItems, `sequenceNumberItems, `byteCount
      ensures Indexed(s + {item}, n + 1) && byteCount == old(byteCount) + bytes(item)
      ensures messageIdItems == old(messageIdItems)[id(item) := item]
      ensures sequenceNumberItems == old(sequenceNumberItems)[number(item) := item]
    {
      LookupAdd(messageIdItems, s, id, item);
      LookupAdd(sequenceNumberItems, s, number, item);
      SumAdd(messageIdItems, bytes, id(item), item);
      messageIdItems := messageIdItems[id(item) := item];
      sequenceNumberItems := sequenceNumberItems[number(item) := item];
      byteCount := byteCount + bytes(item);
    }

    method Forget(item: T, ghost s: set<T>, ghost n: nat)
      requires Indexed(s, n + 1) && item in s
      modifies `messageIdItems, `sequenceNumberItems, `byteCount
      ensures Indexed(s - {item}, n) && byteCount == old(byteCount) - bytes(item)
      ensures messageIdItems == old(messageIdItems) - {id(item)}
      ensures sequenceNumberItems == old(sequenceNumberItems) - {number(item)}
    {
      LookupRemove(messageIdItems, s, id, item);
      LookupRemove(sequenceNumberItems, s, number, item);
      SumRemove(messageIdItems, bytes, id(item));
      messageIdItems := messageIdItems - {id(item)};
      sequenceNumberItems := sequenceNumberItems - {number(item)};
      byteCount := byteCount - bytes(item);
    }

    method RemoveByMessageId(messageId: Id) returns (item: Option<T>)
      requires Valid()
      modifies this, minHeap, maxHeap
      ensures Valid()
      ensures item.Some? <==> exists x <- old(Contents()) :: id(x) == messageId
      ensures item.Some? ==> item.value in old(Contents()) && id(item.value) == messageId
      ensures item == if messageId in old(messageIdItems) then Some(old(messageIdItems)[messageId]) else None
      ensures messageIdItems == if item.Some? then old(messageIdItems) - {messageId} else old(messageIdItems)
      ensures item.Some? ==> sequenceNumberItems == old(sequenceNumberItems) - {number(item.value)}
      ensures Contents() == if item.Some? then old(Contents()) - {item.value} else old(Contents())
      ensures byteCount == old(byteCount) - if item.Some? then bytes(item.value) else 0
    {
      if messageId !in messageIdItems {
        return None;
      }
      item := Some(messageIdItems[messageId]);
      RemoveItem(item.value);
    }

    method RemoveBySequenceNumber(sequenceNumber: nat) returns (item: Option<T>)
      requires Valid()
      modifies this, minHeap, maxHeap
      ensures Valid()
      ensures item.Some? <==> exists x <- old(Contents()) :: number(x) == sequenceNumber
      ensures item.Some? ==> item.value in old(Contents()) && number(item.value) == sequenceNumber
      ensures messageIdItems == if item.Some? then old(messageIdItems) - {id(item.value)} else old(messageIdItems)
      ensures Contents() == if item.Some? then old(Contents()) - {item.value} else old(Contents())
      ensures byteCount == old(byteCount) - if item.Some? then bytes(item.value) else 0
    {
      if sequenceNumber !in sequenceNumberItems {
        return None;
      }
      item := Some(sequenceNumberItems[sequenceNumber]);
      RemoveItem(item.value);
    }

    method RemoveItem(item: T)
      requires Valid() && item in Contents()
      modifies this, minHeap, maxHeap
      ensures Valid() && Contents() == old(Contents()) - {item}
      ensures messageIdItems == old(messageIdItems) - {id(item)}
      ensures sequenceNumberItems == old(sequenceNumberItems) - {number(item)}
      ensures byteCount == old(byteCount) - bytes(item)
    {
      Forget(item, Contents(), |minHeap.items| - 1);
      var removed := minHeap.Remove(minHeap.index[item]);
      assert removed == item;  // otherwise the "Heap invariant broken" panic
      removed := maxHeap.Remove(maxHeap.index[item]);
    }

    method RemoveFirst() returns (item: Option<T>)
      requires Valid()
      modifies this, minHeap, maxHeap
      ensures Valid() && (item.None? <==> old(Contents()) == {})
      ensures item.Some? ==> item.value in old(Contents()) && forall x <- old(Contents()) :: cmp(item.value, x) <= 0
      ensures Contents() == if item.Some? then old(Contents()) - {item.value} else old(Contents())
      ensures byteCount == old(byteCount) - if item.Some? then bytes(item.value) else 0
    {
      if |minHeap.items| == 0 {
        return None;
      }
      FirstIsLeast();
      var first := RemoveRoot();
      item := Some(first);
    }

    method RemoveRoot() returns (first: T)
      requires Valid() && minHeap.items != []
      modifies this, minHeap, maxHeap
      ensures Valid() && first == old(minHeap.items[0]) && Contents() == old(Contents()) - {first}
      ensures messageIdItems == old(messageIdItems) - {id(first)}
      ensures byteCount == old(byteCount) - bytes(first)
    {
      Forget(minHeap.items[0], Contents(), |minHeap.items| - 1);
      first := minHeap.Remove(0);
      var removed := maxHeap.Remove(maxHeap.index[first]);
    }

    method PeekFirst() returns (item: Option<T>)
      requires Valid()
      ensures item.None? <==> Contents() == {}
      ensures item.Some? ==> item.value in Contents() && forall x <- Contents() :: cmp(item.value, x) <= 0
    {
      if |minHeap.items| == 0 {
        return None;
      }
      FirstIsLeast();
      item := Some(minHeap.items[0]);
    }

    method PeekLast() returns (item: Option<T>)
      requires Valid()
      ensures item.None? <==> Contents() == {}
      ensures item.Some? ==> item.value in Contents() && forall x <- Contents() :: 0 <= cmp(item.value, x)
    {
      if |maxHeap.items| == 0 {
        return None;
      }
      LastIsGreatest();
      item := Some(maxHeap.items[0]);
    }
  }
}
