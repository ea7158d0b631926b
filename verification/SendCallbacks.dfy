/**
 Ack callbacks are conserved: every pack accepted by a send sequence waits in the channel, is
 pending, was called back, or was lost in the "too large" panic.
 */
module SendCallbacks {
  import opened Options
  import opened SendModel
  import opened SendSafety
  import opened TransferTypes

  function UserCount(callback: AckCallback, u: nat): nat {
    if callback == UserCallback(u) then 1 else 0
  }

  function ItemCount(items: seq<SendItem>, u: nat): nat {
    if items == [] then 0 else UserCount(items[0].callback, u) + ItemCount(items[1..], u)
  }

  function PackCount(packs: seq<SendPack>, u: nat): nat {
    if packs == [] then 0 else UserCount(UserCallback(packs[0].callback), u) + PackCount(packs[1..], u)
  }

  function EventCount(events: seq<CallbackEvent>, u: nat): nat {
    if events == [] then 0 else UserCount(events[0].callback, u) + EventCount(events[1..], u)
  }

  /** Where the accepted packs with callback u are. */
  ghost predicate Conserved(s: SendState, u: nat) {
    PackCount(s.accepted, u)
    == PackCount(s.packs, u) + ItemCount(s.flight.sendItems, u) + EventCount(s.callbacks, u) + s.lost[u]
  }

  lemma {:induction false} EventConcat(a: seq<CallbackEvent>, b: seq<CallbackEvent>, u: nat)
    ensures EventCount(a + b, u) == EventCount(a, u) + EventCount(b, u)
  {
    if a == [] {
      assert a + b == b;
    } else {
      EventConcat(a[1..], b, u);
      assert (a + b)[1..] == a[1..] + b;
    }
  }

  lemma EventAppend(a: seq<CallbackEvent>, e: CallbackEvent, u: nat)
    ensures EventCount(a + [e], u) == EventCount(a, u) + UserCount(e.callback, u)
  {
    EventConcat(a, [e], u);
    assert [e][1..] == [];
  }

  lemma {:induction false} ItemConcat(a: seq<SendItem>, b: seq<SendItem>, u: nat)
    ensures ItemCount(a + b, u) == ItemCount(a, u) + ItemCount(b, u)
  {
    if a == [] {
      assert a + b == b;
    } else {
      ItemConcat(a[1..], b, u);
      assert (a + b)[1..] == a[1..] + b;
    }
  }

  lemma {:induction false} PackAppend(packs: seq<SendPack>, p: SendPack, u: nat)
    ensures PackCount(packs + [p], u) == PackCount(packs, u) + UserCount(UserCallback(p.callback), u)
  {
    if packs == [] {
      assert [p][1..] == [];
    } else {
      PackAppend(packs[1..], p, u);
      assert (packs + [p])[1..] == packs[1..] + [p];
    }
  }

  lemma {:induction false} FailItemsCount(items: seq<SendItem>, u: nat)
    ensures EventCount(FailItems(items), u) == ItemCount(items, u)
  {
    if items != [] {
      FailItemsCount(items[1..], u);
      assert FailItems(items)[1..] == FailItems(items[1..]);
    }
  }

  lemma {:induction false} FailPacksCount(packs: seq<SendPack>, u: nat)
    ensures EventCount(FailPacks(packs), u) == PackCount(packs, u)
  {
    if packs != [] {
      FailPacksCount(packs[1..], u);
      assert FailPacks(packs)[1..] == FailPacks(packs[1..]);
    }
  }

  lemma RemoveAt(b: seq<SendItem>, i: nat, u: nat)
    requires i < |b|
    ensures ItemCount(b, u) == UserCount(b[i].callback, u) + ItemCount(b[..i] + b[i+1..], u)
    ensures multiset(b) == multiset(b[..i] + b[i+1..]) + multiset{b[i]}
  {
    assert b == b[..i] + [b[i]] + b[i+1..];
    ItemConcat(b[..i], b[i+1..], u);
    ItemConcat(b[..i] + [b[i]], b[i+1..], u);
    ItemConcat(b[..i], [b[i]], u);
    assert [b[i]][1..] == [];
  }

  /** The order in which the items are failed does not matter. */
  lemma {:induction false} ItemPermute(a: seq<SendItem>, b: seq<SendItem>, u: nat)
    requires multiset(a) == multiset(b)
    ensures ItemCount(a, u) == ItemCount(b, u)
  {
    if a == [] {
      assert |multiset(b)| == 0;
    } else {
      assert a[0] in multiset(b);
      var i :| 0 <= i < |b| && b[i] == a[0];
      RemoveAt(b, i, u);
      var rest := b[..i] + b[i+1..];
      assert a == [a[0]] + a[1..];
      assert multiset(a[1..]) == multiset(a) - multiset{a[0]};
      assert multiset(rest) == multiset(b) - multiset{b[i]};
      ItemPermute(a[1..], rest, u);
    }
  }

  lemma AcceptConserves(s: SendState, p: SendPack, u: nat)
    requires Conserved(s, u)
    ensures Conserved(AcceptPack(s, p), u)
  {
    PackAppend(s.packs, p, u);
    PackAppend(s.accepted, p, u);
  }

  lemma AckOldestConserves(s: SendState, u: nat)
    requires Conserved(s, u) && s.flight.sendItems != [] && SettleItem(s.books, s.flight.sendItems[0]).Some?
    ensures Conserved(AckOldest(s), u)
  {
    var item := s.flight.sendItems[0];
    EventAppend(s.callbacks, Acked(item.callback, item.sequenceNumber), u);
  }

  lemma {:induction false} AckThroughConserves(s: SendState, n: nat, min: nat, delivered: set<nat>, u: nat)
    requires 1 <= min && Inv(s, min, 0, delivered) && Below(n + 1, delivered) && Conserved(s, u)
    ensures Conserved(AckThrough(s, n), u)
    ensures AckThrough(s, n).fault.None? && AckThrough(s, n).status == s.status && AckThrough(s, n).lost == s.lost
    decreases |s.flight.sendItems|
  {
    var f := s.flight;
    if f.sendItems != [] && f.sendItems[0].sequenceNumber <= n {
      PendingIsQueued(f, s.books.contracts, delivered);
      SettleBooks(s.books, min, f.sendItems, f.log);
      AckOldestConserves(s, u);
      AckOldestKeeps(s, min, delivered);
      AckThroughConserves(AckOldest(s), n, min, delivered, u);
    }
  }

  lemma EnqueueConserves(f: Flight, b: Books, pack: Pack, callback: AckCallback, setContract: bool, time: int,
                          u: nat)
    ensures ItemCount(Enqueue(f, b, pack, callback, setContract, time).sendItems, u)
         == ItemCount(f.sendItems, u) + UserCount(callback, u)
  {
    var item := NewItem(b, pack, callback);
    ItemConcat(f.sendItems, [item], u);
    assert [item][1..] == [];
  }

  lemma SendConserves(s: SendState, frame: Option<Frame>, callback: AckCallback, ack: bool, write: Write,
                      u: nat)
    requires SendWithSetContract(s, frame, callback, ack, false, write).fault.None?
    requires PackCount(s.accepted, u)
             == PackCount(s.packs, u) + ItemCount(s.flight.sendItems, u) + EventCount(s.callbacks, u)
                + s.lost[u] + UserCount(callback, u)
    ensures Conserved(SendWithSetContract(s, frame, callback, ack, false, write), u)
  {
    var pack := NewPack(s, frame, SendsAck(s.books, ack), false, write.messageId);
    if pack.nack {
      EventAppend(s.callbacks, Sent(callback), u);
      EventAppend(s.callbacks, Failed(callback), u);
    } else {
      EnqueueConserves(s.flight, s.books, pack, callback, false, write.resendTime, u);
    }
  }

  /** Taking contracts touches no caller's callback: their packs carry callbacks of their own. */
  lemma {:induction false} TakeConserves(s: SendState, settings: SendSettings, byteCount: nat, offers: seq<Offer>,
                                         u: nat)
    requires settings.Valid()
    ensures var t := TakeContracts(s, settings, byteCount, offers).0;
            && t.packs == s.packs && t.callbacks == s.callbacks && t.accepted == s.accepted && t.lost == s.lost
            && t.status == s.status && t.fault == s.fault
            && ItemCount(t.flight.sendItems, u) == ItemCount(s.flight.sendItems, u)
    decreases |offers|
  {
    if offers != [] {
      var r := SetNextContract(s, settings, byteCount, offers[0]);
      if r.1 {
        var id := offers[0].contract.contractId;
        var item := r.0.flight.sendItems[|s.flight.sendItems|];
        ItemConcat(s.flight.sendItems, [item], u);
        assert [item][1..] == [];
      } else {
        TakeConserves(r.0, settings, byteCount, offers[1..], u);
      }
    }
  }

  lemma SendNextConserves(s: SendState, settings: SendSettings, offers: seq<Offer>, write: Write, u: nat)
    requires settings.Valid() && s.packs != [] && Conserved(s, u) && s.fault.None? && s.lost == multiset{}
    requires var t := SendNext(s, settings, offers, write); t.fault.None? || t.fault.value.MessageTooLarge?
    ensures var t := SendNext(s, settings, offers, write);
            && Conserved(t, u) && (t.lost == multiset{} <==> t.fault.None?)
  {
    var p, s0 := s.packs[0], s.(packs := s.packs[1..]);
    var byteCount := |p.frame.messageBytes|;
    if DebitCurrent(s.books, byteCount).None? && !TooLarge(settings, byteCount) {
      TakeConserves(s0, settings, byteCount, offers, u);
    }
    var (s1, ok) := UpdateContract(s0, settings, byteCount, offers);
    EventAppend(s1.callbacks, Failed(UserCallback(p.callback)), u);
    if ok {
      NoFaultAfterSend(s1, Some(p.frame), UserCallback(p.callback), p.ack, write);
      SendConserves(s1, Some(p.frame), UserCallback(p.callback), p.ack, write, u);
    }
  }

  lemma NoFaultAfterSend(s: SendState, frame: Option<Frame>, callback: AckCallback, ack: bool, write: Write)
    requires s.fault.None?
    ensures var t := SendWithSetContract(s, frame, callback, ack, false, write);
            && (t.fault.None? || t.fault.value.BadAccounting?) && t.lost == s.lost
  {
  }

  /**
   The callback of a pack is lost exactly when the pack needs a new contract and is too large for a
   standard one: the run loop panics between taking the pack and calling it back.
   */
  lemma LostExactlyWhenTooLarge(s: SendState, settings: SendSettings, offers: seq<Offer>, write: Write)
    requires settings.Valid() && s.packs != [] && s.fault.None?
    ensures var p := s.packs[0];
            SendNext(s, settings, offers, write).lost != s.lost
            <==> DebitCurrent(s.books, |p.frame.messageBytes|).None? && TooLarge(settings, |p.frame.messageBytes|)
  {
    var p, s0 := s.packs[0], s.(packs := s.packs[1..]);
    var byteCount := |p.frame.messageBytes|;
    if DebitCurrent(s.books, byteCount).None? && !TooLarge(settings, byteCount) {
      TakeConserves(s0, settings, byteCount, offers, p.callback);
    }
    assert (s.lost + multiset{p.callback})[p.callback] != s.lost[p.callback];
  }

  /** A concrete pack that is accepted and never called back. */
  lemma TooLargeIsLost()
    ensures var settings := SendSettings(1, 1, 2, 4);
            var p := SendPack(Frame(0, [0, 0]), 7, true);
            var s := Close(Exit(SendNext(AcceptPack(INITIAL, p), settings, [], Write(0, 0, true)), []));
            s.accepted == [p] && s.callbacks == []
  {
    var settings := SendSettings(1, 1, 2, 4);
    var p := SendPack(Frame(0, [0, 0]), 7, true);
    assert TooLarge(settings, 2);
    var t := SendNext(AcceptPack(INITIAL, p), settings, [], Write(0, 0, true));
    assert t.packs == [] && t.callbacks == [];
    assert FailItems([]) == [] && FailPacks([]) == [];
  }

  /** `drained` lists every item of the resend queue once, in any order. */
  ghost predicate Enumerates(drained: seq<SendItem>, queue: map<Id, ResendItem>) {
    && (forall i, j | 0 <= i < j < |drained| :: drained[i].messageId != drained[j].messageId)
    && (forall x | x in drained :: x.messageId in queue && queue[x.messageId].item == x)
    && (forall id | id in queue :: queue[id].item in drained)
  }

  lemma {:induction false} DistinctCount<T>(a: seq<T>, x: T)
    requires forall i, j | 0 <= i < j < |a| :: a[i] != a[j]
    ensures multiset(a)[x] == if x in a then 1 else 0
  {
    if a != [] {
      DistinctCount(a[1..], x);
      assert a == [a[0]] + a[1..];
    }
  }

  lemma PendingDistinct(items: seq<SendItem>, log: seq<Entry>)
    requires ItemsInv(items, log)
    ensures forall i, j | 0 <= i < j < |items| :: items[i] != items[j]
  {
    forall i, j | 0 <= i < j < |items| ensures items[i] != items[j] {
      assert ItemMatches(items[i], log, |log| - |items| + i);
      assert ItemMatches(items[j], log, |log| - |items| + j);
    }
  }

  lemma PendingIsDrained(items: seq<SendItem>, queue: map<Id, ResendItem>, written: set<Pack>, drained: seq<SendItem>)
    requires QueueInv(items, queue, written) && Enumerates(drained, queue)
    ensures forall x | x in items :: x in drained
  {
    forall x | x in items ensures x in drained {
      var i :| 0 <= i < |items| && items[i] == x;
      assert ResendMatches(queue[x.messageId], items[i], written);
    }
  }

  lemma DrainedIsPending(f: Flight, contracts: map<Id, Contract>, delivered: set<nat>, drained: seq<SendItem>)
    requires FlightInv(f, contracts, delivered) && Enumerates(drained, f.resendQueue)
    ensures multiset(drained) == multiset(f.sendItems)
  {
    PendingIsQueued(f, contracts, delivered);
    PendingIsDrained(f.sendItems, f.resendQueue, f.written, drained);
    PendingDistinct(f.sendItems, f.log);
    SameMultiset(drained, f.sendItems);
  }

  lemma SameMultiset<T>(a: seq<T>, b: seq<T>)
    requires forall i, j | 0 <= i < j < |a| :: a[i] != a[j]
    requires forall i, j | 0 <= i < j < |b| :: b[i] != b[j]
    requires forall x | x in a :: x in b
    requires forall x | x in b :: x in a
    ensures multiset(a) == multiset(b)
  {
    forall x | x in multiset(a) || x in multiset(b) ensures multiset(a)[x] == multiset(b)[x] {
      DistinctCount(a, x);
      DistinctCount(b, x);
    }
  }

  lemma ExitConserves(s: SendState, drained: seq<SendItem>, u: nat)
    requires Conserved(s, u) && multiset(drained) == multiset(s.flight.sendItems)
    ensures Conserved(Exit(s, drained), u)
    ensures Exit(s, drained).status.Exited? && Exit(s, drained).flight.sendItems == []
  {
    EventConcat(s.callbacks, FailItems(drained), u);
    FailItemsCount(drained, u);
    ItemPermute(drained, s.flight.sendItems, u);
  }

  lemma CloseConserves(s: SendState, u: nat)
    requires Conserved(s, u)
    ensures Conserved(Close(s), u)
    ensures Close(s).status.Closed? && Close(s).packs == []
  {
    EventConcat(s.callbacks, FailPacks(s.packs), u);
    FailPacksCount(s.packs, u);
  }
}
