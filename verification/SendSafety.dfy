/**
 The invariant of a send sequence and the proof that each of its steps keeps it.

 `delivered` is the set of sequence numbers whose frames some receive sequence has handed on. The
 sender does not know it; the invariant says how its fields and its packs relate to it.
 */
module SendSafety {
  import opened Options
  import opened SendModel
  import opened TransferTypes

  ghost predicate Below(n: int, delivered: set<nat>) {
    forall k: nat :: k < n ==> k in delivered
  }

  // ---- sums

  function ItemCharge(min: nat, item: SendItem, c: Id): nat {
    if item.contractId == Some(c) then Charge(min, item.messageByteCount) else 0
  }

  function PendingCharge(min: nat, items: seq<SendItem>, c: Id): nat {
    if items == [] then 0 else ItemCharge(min, items[0], c) + PendingCharge(min, items[1..], c)
  }

  function DroppedCharge(min: nat, dropped: seq<(Id, nat)>, c: Id): nat {
    if dropped == [] then 0
    else (if dropped[0].0 == c then Charge(min, dropped[0].1) else 0) + DroppedCharge(min, dropped[1..], c)
  }

  function EntryCharge(min: nat, e: Entry, c: Id): nat {
    if e.contract.Some? && e.contract.value.contractId == c then Charge(min, MessageByteCount(e.frames)) else 0
  }

  /** What the packs numbered below n were debited from contract c. */
  function LogCharge(min: nat, log: seq<Entry>, c: Id, n: nat): nat
    requires n <= |log|
  {
    if n == 0 then 0 else LogCharge(min, log, c, n - 1) + EntryCharge(min, log[n-1], c)
  }

  lemma {:induction false} PendingAppend(min: nat, items: seq<SendItem>, item: SendItem, c: Id)
    ensures PendingCharge(min, items + [item], c) == PendingCharge(min, items, c) + ItemCharge(min, item, c)
  {
    if items == [] {
      assert [item][1..] == [];
    } else {
      PendingAppend(min, items[1..], item, c);
      assert (items + [item])[1..] == items[1..] + [item];
    }
  }

  lemma {:induction false} PendingZero(min: nat, items: seq<SendItem>, c: Id)
    requires 1 <= min && PendingCharge(min, items, c) == 0
    ensures forall i | 0 <= i < |items| :: items[i].contractId != Some(c)
  {
    if items != [] {
      PendingZero(min, items[1..], c);
      forall i | 0 <= i < |items| ensures items[i].contractId != Some(c) {
        if 0 < i { assert items[i] == items[1..][i-1]; }
      }
    }
  }

  lemma {:induction false} DroppedAppend(min: nat, dropped: seq<(Id, nat)>, d: (Id, nat), c: Id)
    ensures DroppedCharge(min, dropped + [d], c)
         == DroppedCharge(min, dropped, c) + if d.0 == c then Charge(min, d.1) else 0
  {
    if dropped == [] {
      assert [d][1..] == [];
    } else {
      DroppedAppend(min, dropped[1..], d, c);
      assert (dropped + [d])[1..] == dropped[1..] + [d];
    }
  }

  lemma {:induction false} LogPrefix(min: nat, log: seq<Entry>, log': seq<Entry>, c: Id, n: nat)
    requires n <= |log| && log <= log'
    ensures LogCharge(min, log', c, n) == LogCharge(min, log, c, n)
  {
    if n != 0 { LogPrefix(min, log, log', c, n - 1); }
  }

  lemma {:induction false} LogUncharged(min: nat, log: seq<Entry>, c: Id, n: nat)
    requires n <= |log|
    requires forall i | 0 <= i < |log| :: log[i].contract.Some? && log[i].contract.value.contractId != c
    ensures LogCharge(min, log, c, n) == 0
  {
    if n != 0 { LogUncharged(min, log, c, n - 1); }
  }

  // ---- the invariant

  /** No pack numbered below n was debited to the contract. */
  ghost predicate Unseen(log: seq<Entry>, n: nat, c: Id)
    requires n <= |log|
  {
    forall m | 0 <= m < n :: log[m].contract.Some? ==> log[m].contract.value.contractId != c
  }

  ghost predicate EntryOk(log: seq<Entry>, contracts: map<Id, Contract>, usedIds: set<Id>, n: nat)
    requires n < |log|
  {
    var e := log[n];
    && e.messageId in usedIds
    && e.contract.Some?
    && e.contract.value.contractId in contracts
    && contracts[e.contract.value.contractId] == e.contract.value
    && (e.introduces <==> e.callback == ContractCallback(e.contract.value.contractId))
    && (!e.introduces ==> e.callback.UserCallback?)
    // only the pack that introduces a contract switches to it
    && (if e.introduces then Unseen(log, n, e.contract.value.contractId)
        else 0 < n && e.contract == log[n-1].contract)
  }

  ghost predicate LogInv(log: seq<Entry>, contracts: map<Id, Contract>, usedIds: set<Id>) {
    && (forall n | 0 <= n < |log| :: EntryOk(log, contracts, usedIds, n))
    && DistinctIds(log)
  }

  ghost predicate DistinctIds(log: seq<Entry>) {
    forall m, n | 0 <= m < n < |log| :: log[m].messageId != log[n].messageId
  }

  ghost predicate Introduced(log: seq<Entry>, n: nat, c: Id) {
    n < |log| && log[n].introduces && log[n].contract.Some? && log[n].contract.value.contractId == c
  }

  ghost predicate IntroducedBelow(log: seq<Entry>, base: int, c: Id) {
    exists n: nat :: n < base && Introduced(log, n, c)
  }

  ghost predicate IntroducedIn(log: seq<Entry>, delivered: set<nat>, c: Id) {
    exists n: nat :: n in delivered && Introduced(log, n, c)
  }

  /** What every pack on the wire says about the log and about what was delivered. */
  ghost predicate WirePack(p: Pack, log: seq<Entry>, delivered: set<nat>) {
    if p.nack then
      p.contractId.Some? && p.contractFrame.None? && !p.head && IntroducedIn(log, delivered, p.contractId.value)
    else
      var n := p.sequenceNumber;
      && n < |log|
      && p.messageId == log[n].messageId && p.frames == log[n].frames && p.contractId.None?
      && (p.contractFrame.Some? ==> p.contractFrame == log[n].contract)
      && (log[n].introduces ==> p.contractFrame.Some?)
      && (p.head ==> p.contractFrame.Some? && Below(n, delivered))
  }

  ghost predicate WireInv(written: set<Pack>, log: seq<Entry>, delivered: set<nat>) {
    forall p | p in written :: WirePack(p, log, delivered)
  }

  ghost predicate ItemMatches(item: SendItem, log: seq<Entry>, n: int) {
    && 0 <= n < |log|
    && item.sequenceNumber == n
    && item.messageId == log[n].messageId
    && item.messageByteCount == MessageByteCount(log[n].frames)
    && log[n].contract.Some?
    && item.contractId == Some(log[n].contract.value.contractId)
    && item.callback == log[n].callback
  }

  /** The pending items are the contiguous run of numbers that ends at the last one given out. */
  ghost predicate ItemsInv(items: seq<SendItem>, log: seq<Entry>) {
    && |items| <= |log|
    && forall i | 0 <= i < |items| :: ItemMatches(items[i], log, |log| - |items| + i)
  }

  ghost predicate ResendMatches(r: ResendItem, item: SendItem, written: set<Pack>) {
    && r.item == item
    && r.pack in written && !r.pack.nack && r.pack.sequenceNumber == item.sequenceNumber
    && r.head == r.pack.head
    && (r.hasContractFrame ==> r.pack.contractFrame.Some?)
  }

  ghost predicate HasId(items: seq<SendItem>, id: Id) {
    exists i :: 0 <= i < |items| && items[i].messageId == id
  }

  /** The resend queue and the pending items are the same items. */
  ghost predicate QueueInv(items: seq<SendItem>, queue: map<Id, ResendItem>, written: set<Pack>) {
    && (forall i | 0 <= i < |items| ::
          items[i].messageId in queue && ResendMatches(queue[items[i].messageId], items[i], written))
    && (forall id | id in queue :: HasId(items, id))
  }

  /** A nil callback after a cumulative ack belongs to a delivered pack. */
  ghost predicate EventOk(e: CallbackEvent, log: seq<Entry>, delivered: set<nat>) {
    e.Acked? ==> e.sequenceNumber < |log| && log[e.sequenceNumber].callback == e.callback
                 && e.sequenceNumber in delivered
  }

  ghost predicate EventsInv(callbacks: seq<CallbackEvent>, log: seq<Entry>, delivered: set<nat>) {
    forall i | 0 <= i < |callbacks| :: EventOk(callbacks[i], log, delivered)
  }

  /** `r` is what was debited for a message that is not sent yet. */
  ghost predicate OpenOk(k: SequenceContract, min: nat, items: seq<SendItem>, dropped: seq<(Id, nat)>,
                         log: seq<Entry>, r: nat)
  {
    var c := k.contract.contractId;
    && k.minUpdateByteCount == min
    && k.Used() <= k.effectiveByteCount <= k.contract.transferByteCount
    && k.unackedByteCount == PendingCharge(min, items, c) + DroppedCharge(min, dropped, c) + r
    && LogCharge(min, log, c, |log|) + r <= k.Used()
  }

  function ReservedFor(sendContract: Option<Id>, reserved: nat, c: Id): nat {
    if sendContract == Some(c) then reserved else 0
  }

  ghost predicate OpenInv(b: Books, min: nat, items: seq<SendItem>, log: seq<Entry>, reserved: nat) {
    forall c | c in b.openSendContracts ::
      && c in b.contracts && b.contracts[c] == b.openSendContracts[c].contract && b.contracts[c].contractId == c
      && OpenOk(b.openSendContracts[c], min, items, b.dropped, log, ReservedFor(b.sendContract, reserved, c))
  }

  ghost predicate ItemsOpen(items: seq<SendItem>, open: map<Id, SequenceContract>) {
    forall i | 0 <= i < |items| :: items[i].contractId.Some? && items[i].contractId.value in open
  }

  /** No contract is ever debited beyond its full size. */
  ghost predicate ContractsCover(min: nat, contracts: map<Id, Contract>, log: seq<Entry>) {
    forall c | c in contracts ::
      contracts[c].contractId == c && LogCharge(min, log, c, |log|) <= contracts[c].transferByteCount
  }

  ghost predicate CurrentInv(b: Books, log: seq<Entry>, base: int) {
    && (b.sendContract.Some? ==> b.sendContract.value in b.openSendContracts)
    && (b.sendContract.None? ==> log == [])
    && (b.sendContractAcked ==> b.sendContract.Some? && IntroducedBelow(log, base, b.sendContract.value))
  }

  /** Each contract ever accepted is either open or was closed exactly once. */
  ghost predicate ClosedOnce(closed: multiset<Id>, open: map<Id, SequenceContract>, contracts: map<Id, Contract>) {
    && open.Keys <= contracts.Keys
    && forall c: Id :: closed[c] == if c in contracts && c !in open then 1 else 0
  }

  ghost predicate DroppedKnown(dropped: seq<(Id, nat)>, contracts: map<Id, Contract>) {
    forall i | 0 <= i < |dropped| :: dropped[i].0 in contracts
  }

  /** The last pack given out was debited to the current contract. */
  ghost predicate LastIsCurrent(b: Books, log: seq<Entry>) {
    if log == [] then b.sendContract.None? else log[|log|-1].contract == b.CurrentContract()
  }

  ghost predicate BooksInv(b: Books, min: nat, items: seq<SendItem>, log: seq<Entry>, reserved: nat) {
    && OpenInv(b, min, items, log, reserved)
    && ItemsOpen(items, b.openSendContracts)
    && CurrentInv(b, log, |log| - |items|)
    && ContractsCover(min, b.contracts, log)
    && ClosedOnce(b.closedContracts, b.openSendContracts, b.contracts)
    && DroppedKnown(b.dropped, b.contracts)
  }

  ghost predicate FlightInv(f: Flight, contracts: map<Id, Contract>, delivered: set<nat>) {
    && |f.log| == f.nextSequenceNumber
    && LogInv(f.log, contracts, f.usedIds)
    && ItemsInv(f.sendItems, f.log)
    && QueueInv(f.sendItems, f.resendQueue, f.written)
    && WireInv(f.written, f.log, delivered)
    && Below(f.Base(), delivered)
  }

  ghost predicate Inv(s: SendState, min: nat, reserved: nat, delivered: set<nat>) {
    && s.fault.None?
    && FlightInv(s.flight, s.books.contracts, delivered)
    && BooksInv(s.books, min, s.flight.sendItems, s.flight.log, reserved)
    && LastIsCurrent(s.books, s.flight.log)
    && EventsInv(s.callbacks, s.flight.log, delivered)
  }

  // ---- acknowledging

  lemma PopItems(items: seq<SendItem>, log: seq<Entry>)
    requires ItemsInv(items, log) && items != []
    ensures ItemsInv(items[1..], log)
  {
    forall i | 0 <= i < |items| - 1
      ensures ItemMatches(items[1..][i], log, |log| - |items[1..]| + i)
    {
      assert ItemMatches(items[i+1], log, |log| - |items| + (i + 1));
    }
  }

  lemma PopQueue(f: Flight)
    requires ItemsInv(f.sendItems, f.log) && QueueInv(f.sendItems, f.resendQueue, f.written) && f.sendItems != []
    requires DistinctIds(f.log)
    ensures QueueInv(Pop(f).sendItems, Pop(f).resendQueue, f.written)
  {
    var items, t := f.sendItems, Pop(f);
    forall i | 0 <= i < |t.sendItems|
      ensures t.sendItems[i].messageId in t.resendQueue
      ensures ResendMatches(t.resendQueue[t.sendItems[i].messageId], t.sendItems[i], f.written)
    {
      assert t.sendItems[i] == items[i+1];
      assert ItemMatches(items[i+1], f.log, |f.log| - |items| + (i + 1));
      assert ItemMatches(items[0], f.log, |f.log| - |items|);
    }
    forall id | id in t.resendQueue ensures HasId(t.sendItems, id) {
      assert HasId(items, id);
      var i :| 0 <= i < |items| && items[i].messageId == id;
      assert t.sendItems[i-1].messageId == id;
    }
  }

  lemma PopFlight(f: Flight, contracts: map<Id, Contract>, delivered: set<nat>)
    requires FlightInv(f, contracts, delivered) && f.sendItems != [] && f.sendItems[0].sequenceNumber in delivered
    ensures FlightInv(Pop(f), contracts, delivered)
  {
    assert Below(Pop(f).Base(), delivered) by {
      assert ItemMatches(f.sendItems[0], f.log, f.Base());
    }
    PopItems(f.sendItems, f.log);
    PopQueue(f);
  }

  lemma IntroducedMonotone(log: seq<Entry>, log': seq<Entry>, base: int, base': int, c: Id)
    requires log <= log' && base <= base' && IntroducedBelow(log, base, c)
    ensures IntroducedBelow(log', base', c)
  {
    var n: nat :| n < base && Introduced(log, n, c);
    assert n < base' && Introduced(log', n, c);
  }

  /** The other open contracts do not notice that the oldest item was settled. */
  lemma SettleOpen(b: Books, min: nat, items: seq<SendItem>, log: seq<Entry>)
    requires items != [] && OpenInv(b, min, items, log, 0) && ItemsOpen(items, b.openSendContracts)
    ensures SettleItem(b, items[0]).Some?
    ensures OpenInv(SettleItem(b, items[0]).value, min, items[1..], log, 0)
  {
    SettleOne(b.openSendContracts[items[0].contractId.value], min, items, b.dropped, log);
    var t := SettleItem(b, items[0]).value;
    forall d | d in t.openSendContracts
      ensures d in t.contracts && t.contracts[d] == t.openSendContracts[d].contract && t.contracts[d].contractId == d
      ensures OpenOk(t.openSendContracts[d], min, items[1..], t.dropped, log, 0)
    {
      assert OpenOk(b.openSendContracts[d], min, items, b.dropped, log, 0);
    }
  }

  lemma SettleOne(k: SequenceContract, min: nat, items: seq<SendItem>, dropped: seq<(Id, nat)>, log: seq<Entry>)
    requires items != [] && OpenOk(k, min, items, dropped, log, 0)
    requires items[0].contractId == Some(k.contract.contractId)
    ensures k.Acked(items[0].messageByteCount).Some?
    ensures OpenOk(k.Acked(items[0].messageByteCount).value, min, items[1..], dropped, log, 0)
  {
  }

  /** A contract that is closed with an ack has no pending item left. */
  lemma SettleItemsOpen(b: Books, min: nat, items: seq<SendItem>, log: seq<Entry>)
    requires 1 <= min && items != [] && OpenInv(b, min, items, log, 0) && ItemsOpen(items, b.openSendContracts)
    requires SettleItem(b, items[0]).Some?
    ensures ItemsOpen(items[1..], SettleItem(b, items[0]).value.openSendContracts)
  {
    var c := items[0].contractId.value;
    var t := SettleItem(b, items[0]).value;
    if c !in t.openSendContracts {
      assert OpenOk(b.openSendContracts[c], min, items, b.dropped, log, 0);
      PendingZero(min, items[1..], c);
    }
    forall i | 0 <= i < |items| - 1
      ensures items[1..][i].contractId.Some? && items[1..][i].contractId.value in t.openSendContracts
    {
      assert items[1..][i] == items[i+1];
    }
  }

  /**
   A pending item's contract is open with room for the ack, so "Bad accounting" cannot happen.
   */
  lemma SettleBooks(b: Books, min: nat, items: seq<SendItem>, log: seq<Entry>)
    requires 1 <= min && items != [] && |items| <= |log| && BooksInv(b, min, items, log, 0)
    ensures SettleItem(b, items[0]).Some?
    ensures BooksInv(SettleItem(b, items[0]).value, min, items[1..], log, 0)
    ensures SettleItem(b, items[0]).value.CurrentContract() == b.CurrentContract()
    ensures SettleItem(b, items[0]).value.contracts == b.contracts
  {
    SettleOpen(b, min, items, log);
    SettleItemsOpen(b, min, items, log);
    var t := SettleItem(b, items[0]).value;
    if t.sendContractAcked {
      IntroducedMonotone(log, log, |log| - |items|, |log| - |items[1..]|, t.sendContract.value);
    }
  }

  lemma MarkKeeps(b: Books, callback: AckCallback, min: nat, items: seq<SendItem>, log: seq<Entry>, reserved: nat)
    requires BooksInv(b, min, items, log, reserved)
    requires callback.ContractCallback? ==> IntroducedBelow(log, |log| - |items|, callback.contractId)
    ensures BooksInv(MarkAcked(b, callback), min, items, log, reserved)
  {
    assert OpenInv(MarkAcked(b, callback), min, items, log, reserved);
  }

  lemma OldestCallback(f: Flight, contracts: map<Id, Contract>, delivered: set<nat>)
    requires FlightInv(f, contracts, delivered) && f.sendItems != [] && f.sendItems[0].sequenceNumber in delivered
    ensures var item := f.sendItems[0];
            && EventOk(Acked(item.callback, item.sequenceNumber), f.log, delivered)
            && (item.callback.ContractCallback? ==>
                  IntroducedBelow(f.log, |f.log| - |f.sendItems[1..]|, item.callback.contractId))
  {
    var item := f.sendItems[0];
    assert ItemMatches(item, f.log, f.Base());
    assert EntryOk(f.log, contracts, f.usedIds, f.Base());
    if item.callback.ContractCallback? {
      assert f.Base() < |f.log| - |f.sendItems[1..]| && Introduced(f.log, f.Base(), item.callback.contractId);
    }
  }

  lemma EventsAppend(callbacks: seq<CallbackEvent>, event: CallbackEvent, log: seq<Entry>, delivered: set<nat>)
    requires EventsInv(callbacks, log, delivered) && EventOk(event, log, delivered)
    ensures EventsInv(callbacks + [event], log, delivered)
  {
  }

  lemma AckOldestKeeps(s: SendState, min: nat, delivered: set<nat>)
    requires 1 <= min && Inv(s, min, 0, delivered)
    requires s.flight.sendItems != [] && s.flight.sendItems[0].sequenceNumber in delivered
    ensures Inv(AckOldest(s), min, 0, delivered)
    ensures AckOldest(s).flight == Pop(s.flight) && AckOldest(s).books.contracts == s.books.contracts
  {
    var f, item := s.flight, s.flight.sendItems[0];
    PopFlight(f, s.books.contracts, delivered);
    SettleBooks(s.books, min, f.sendItems, f.log);
    OldestCallback(f, s.books.contracts, delivered);
    MarkKeeps(SettleItem(s.books, item).value, item.callback, min, f.sendItems[1..], f.log, 0);
    EventsAppend(s.callbacks, Acked(item.callback, item.sequenceNumber), f.log, delivered);
  }

  /** Both "Missing item" panics are unreachable: what is pending is queued, and conversely. */
  lemma PendingIsQueued(f: Flight, contracts: map<Id, Contract>, delivered: set<nat>)
    requires FlightInv(f, contracts, delivered)
    ensures forall i | 0 <= i < |f.sendItems| :: f.sendItems[i].messageId in f.resendQueue
    ensures forall id | id in f.resendQueue :: f.resendQueue[id].item in f.sendItems
    ensures f.resendQueue != map[] ==> f.sendItems != []
  {
    forall id | id in f.resendQueue ensures f.resendQueue[id].item in f.sendItems {
      assert HasId(f.sendItems, id);
    }
    if f.resendQueue != map[] {
      var id :| id in f.resendQueue;
    }
  }

  /** A cumulative ack of delivered numbers keeps the invariant and empties the list up to it. */
  lemma {:induction false} AckThroughKeeps(s: SendState, n: nat, min: nat, delivered: set<nat>)
    requires 1 <= min && Inv(s, min, 0, delivered) && Below(n + 1, delivered)
    ensures Inv(AckThrough(s, n), min, 0, delivered)
    ensures var t := AckThrough(s, n);
            && t.flight.log == s.flight.log && t.books.contracts == s.books.contracts
            && t.flight.Base() >= s.flight.Base()
    decreases |s.flight.sendItems|
  {
    var f := s.flight;
    if f.sendItems != [] && f.sendItems[0].sequenceNumber <= n {
      PendingIsQueued(f, s.books.contracts, delivered);
      AckOldestKeeps(s, min, delivered);
      AckThroughKeeps(AckOldest(s), n, min, delivered);
    }
  }

  lemma TouchQueue(f: Flight, id: Id, time: int, contracts: map<Id, Contract>, delivered: set<nat>)
    requires FlightInv(f, contracts, delivered) && id in f.resendQueue
    ensures FlightInv(f.(resendQueue := f.resendQueue[id := f.resendQueue[id].(resendTime := time)]),
                      contracts, delivered)
  {
    RequeueKeeps(f.sendItems, f.resendQueue, f.written, f.written, id, f.resendQueue[id].(resendTime := time));
  }

  lemma RequeueKeeps(items: seq<SendItem>, queue: map<Id, ResendItem>, written: set<Pack>, written': set<Pack>,
                     id: Id, r: ResendItem)
    requires QueueInv(items, queue, written) && id in queue && written <= written'
    requires r.item == queue[id].item && (r == queue[id].(resendTime := r.resendTime)
                                          || ResendMatches(r, r.item, written'))
    ensures QueueInv(items, queue[id := r], written')
  {
    forall i | 0 <= i < |items|
      ensures items[i].messageId in queue[id := r]
      ensures ResendMatches(queue[id := r][items[i].messageId], items[i], written')
    {
      assert ResendMatches(queue[items[i].messageId], items[i], written);
    }
  }

  lemma ReceiveAckKeeps(s: SendState, id: Id, selective: bool, time: int, n: nat, min: nat, delivered: set<nat>)
    requires 1 <= min && Inv(s, min, 0, delivered)
    requires !selective ==> Below(n + 1, delivered) && n < |s.flight.log| && s.flight.log[n].messageId == id
    ensures var t := ReceiveAck(s, id, selective, time);
            Inv(t, min, 0, delivered) && t.flight.log == s.flight.log && t.books.contracts == s.books.contracts
  {
    var f := s.flight;
    if id in f.resendQueue {
      if selective {
        TouchQueue(f, id, time, s.books.contracts, delivered);
      } else {
        QueuedNumber(f, id, n);
        AckThroughKeeps(s, n, min, delivered);
      }
    }
  }

  lemma QueuedNumber(f: Flight, id: Id, n: nat)
    requires ItemsInv(f.sendItems, f.log) && DistinctIds(f.log)
    requires QueueInv(f.sendItems, f.resendQueue, f.written) && id in f.resendQueue
    requires n < |f.log| && f.log[n].messageId == id
    ensures f.resendQueue[id].item.sequenceNumber == n
  {
    assert HasId(f.sendItems, id);
    var i :| 0 <= i < |f.sendItems| && f.sendItems[i].messageId == id;
    assert ItemMatches(f.sendItems[i], f.log, |f.log| - |f.sendItems| + i);
    assert ResendMatches(f.resendQueue[id], f.sendItems[i], f.written);
  }

  // ---- resending

  /** Everything known about an item in the resend queue. */
  lemma QueuedItem(f: Flight, contracts: map<Id, Contract>, delivered: set<nat>, id: Id) returns (i: nat)
    requires FlightInv(f, contracts, delivered) && id in f.resendQueue
    ensures i < |f.sendItems| && f.sendItems[i].messageId == id
    ensures ResendMatches(f.resendQueue[id], f.sendItems[i], f.written)
    ensures ItemMatches(f.sendItems[i], f.log, f.Base() + i)
    ensures WirePack(f.resendQueue[id].pack, f.log, delivered)
    ensures EntryOk(f.log, contracts, f.usedIds, f.Base() + i)
  {
    assert HasId(f.sendItems, id);
    i :| 0 <= i < |f.sendItems| && f.sendItems[i].messageId == id;
    assert ResendMatches(f.resendQueue[id], f.sendItems[i], f.written);
    assert ItemMatches(f.sendItems[i], f.log, f.Base() + i);
  }

  /** Writing a pack for a queued item: an old one again, or the same one as the head. */
  lemma RewriteKeeps(f: Flight, contracts: map<Id, Contract>, delivered: set<nat>, id: Id, r: ResendItem)
    requires FlightInv(f, contracts, delivered) && id in f.resendQueue
    requires r.item == f.resendQueue[id].item
    requires ResendMatches(r, r.item, f.written + {r.pack}) && WirePack(r.pack, f.log, delivered)
    ensures FlightInv(Rewrite(f, id, r), contracts, delivered)
  {
    RequeueKeeps(f.sendItems, f.resendQueue, f.written, f.written + {r.pack}, id, r);
    assert WireInv(f.written + {r.pack}, f.log, delivered);
  }

  /** The contract of a pending item is still open when it becomes the head. */
  lemma HeadHasContract(b: Books, min: nat, items: seq<SendItem>, log: seq<Entry>, reserved: nat, r: ResendItem)
    requires BooksInv(b, min, items, log, reserved) && r.item in items
    requires r.item.sequenceNumber < |log| && log[r.item.sequenceNumber].contract.Some?
    requires var k := log[r.item.sequenceNumber].contract.value;
             k.contractId in b.contracts && b.contracts[k.contractId] == k && r.item.contractId == Some(k.contractId)
    requires r.hasContractFrame ==> r.pack.contractFrame.Some?
    requires r.pack.contractFrame.Some? ==> r.pack.contractFrame == log[r.item.sequenceNumber].contract
    ensures SetHead(b, r).Some?
    ensures SetHead(b, r).value == r.pack.(head := true, contractFrame := SetHead(b, r).value.contractFrame)
    ensures r.item.contractId.Some? ==> SetHead(b, r).value.contractFrame == log[r.item.sequenceNumber].contract
  {
  }

  lemma ResendKeeps(s: SendState, id: Id, time: int, min: nat, delivered: set<nat>)
    requires Inv(s, min, 0, delivered) && id in s.flight.resendQueue
    ensures Inv(Resend(s, id, time), min, 0, delivered)
    ensures var t := Resend(s, id, time);
            && t == s.(flight := t.flight) && t.flight.log == s.flight.log && t.flight.sendItems == s.flight.sendItems
  {
    var f, r := s.flight, s.flight.resendQueue[id];
    var i := QueuedItem(f, s.books.contracts, delivered, id);
    if f.sendItems[0].sequenceNumber == r.item.sequenceNumber && !r.head {
      HeadHasContract(s.books, min, f.sendItems, f.log, 0, r);
      var r' := r.(head := true, pack := SetHead(s.books, r).value, resendTime := time);
      assert ItemMatches(f.sendItems[0], f.log, f.Base());
      RewriteKeeps(f, s.books.contracts, delivered, id, r');
    } else {
      assert f.written + {r.pack} == f.written;
      RewriteKeeps(f, s.books.contracts, delivered, id, r.(resendTime := time));
    }
  }

  // ---- sending with ack

  ghost predicate LogContracts(log: seq<Entry>, contracts: map<Id, Contract>) {
    forall n | 0 <= n < |log| :: log[n].contract.Some? && log[n].contract.value.contractId in contracts
  }

  lemma LogKnown(log: seq<Entry>, contracts: map<Id, Contract>, usedIds: set<Id>)
    requires LogInv(log, contracts, usedIds)
    ensures LogContracts(log, contracts)
  {
    forall n | 0 <= n < |log|
      ensures log[n].contract.Some? && log[n].contract.value.contractId in contracts
    {
      assert EntryOk(log, contracts, usedIds, n);
    }
  }

  /** What is known of a new entry and its pack before they are sent. */
  ghost predicate NewEntryOk(f: Flight, e: Entry, pack: Pack, contracts: map<Id, Contract>, delivered: set<nat>) {
    && e.messageId == pack.messageId && e.messageId !in f.usedIds
    && pack.sequenceNumber == |f.log| && pack.frames == e.frames && !pack.nack && pack.contractId.None?
    && EntryOk(f.log + [e], contracts, f.usedIds + {e.messageId}, |f.log|)
    && WirePack(pack, f.log + [e], delivered)
  }

  lemma WireExtend(p: Pack, log: seq<Entry>, log': seq<Entry>, delivered: set<nat>, delivered': set<nat>)
    requires WirePack(p, log, delivered) && log <= log' && delivered <= delivered'
    ensures WirePack(p, log', delivered')
  {
    if p.nack {
      var n: nat :| n in delivered && Introduced(log, n, p.contractId.value);
      assert n in delivered' && Introduced(log', n, p.contractId.value);
    }
  }

  lemma WireInvExtend(w: set<Pack>, log: seq<Entry>, log': seq<Entry>, delivered: set<nat>, delivered': set<nat>)
    requires WireInv(w, log, delivered) && log <= log' && delivered <= delivered'
    ensures WireInv(w, log', delivered')
  {
    forall p | p in w ensures WirePack(p, log', delivered') { WireExtend(p, log, log', delivered, delivered'); }
  }

  lemma LogAppend(log: seq<Entry>, e: Entry, contracts: map<Id, Contract>, usedIds: set<Id>)
    requires LogInv(log, contracts, usedIds) && e.messageId !in usedIds
    requires EntryOk(log + [e], contracts, usedIds + {e.messageId}, |log|)
    ensures LogInv(log + [e], contracts, usedIds + {e.messageId})
  {
    var log' := log + [e];
    forall n | 0 <= n < |log'| ensures EntryOk(log', contracts, usedIds + {e.messageId}, n) {
      if n < |log| { assert EntryOk(log, contracts, usedIds, n); }
    }
    forall m, n | 0 <= m < n < |log'| ensures log'[m].messageId != log'[n].messageId {
      assert EntryOk(log, contracts, usedIds, m);
    }
  }

  lemma ItemsAppend(items: seq<SendItem>, item: SendItem, log: seq<Entry>, e: Entry)
    requires ItemsInv(items, log) && ItemMatches(item, log + [e], |log|)
    ensures ItemsInv(items + [item], log + [e])
  {
    forall i | 0 <= i < |items + [item]|
      ensures ItemMatches((items + [item])[i], log + [e], |log + [e]| - |items + [item]| + i)
    {
      if i < |items| { assert ItemMatches(items[i], log, |log| - |items| + i); }
    }
  }

  lemma QueueAppend(f: Flight, item: SendItem, r: ResendItem, contracts: map<Id, Contract>)
    requires LogInv(f.log, contracts, f.usedIds) && ItemsInv(f.sendItems, f.log)
    requires QueueInv(f.sendItems, f.resendQueue, f.written)
    requires item.messageId !in f.usedIds && ResendMatches(r, item, f.written + {r.pack})
    ensures QueueInv(f.sendItems + [item], f.resendQueue[item.messageId := r], f.written + {r.pack})
  {
    var items, queue := f.sendItems + [item], f.resendQueue[item.messageId := r];
    forall i | 0 <= i < |items|
      ensures items[i].messageId in queue
      ensures ResendMatches(queue[items[i].messageId], items[i], f.written + {r.pack})
    {
      if i < |f.sendItems| {
        assert ItemMatches(f.sendItems[i], f.log, |f.log| - |f.sendItems| + i);
        assert EntryOk(f.log, contracts, f.usedIds, |f.log| - |f.sendItems| + i);
        assert ResendMatches(f.resendQueue[items[i].messageId], items[i], f.written);
      }
    }
    forall id | id in queue ensures HasId(items, id) {
      if id == item.messageId {
        assert items[|f.sendItems|].messageId == id;
      } else {
        assert HasId(f.sendItems, id);
        var i :| 0 <= i < |f.sendItems| && f.sendItems[i].messageId == id;
        assert items[i].messageId == id;
      }
    }
  }

  lemma EnqueueFlight(f: Flight, b: Books, pack: Pack, callback: AckCallback, setContract: bool, time: int,
                      delivered: set<nat>)
    requires FlightInv(f, b.contracts, delivered) && b.CurrentContract().Some?
    requires b.sendContract == Some(b.CurrentContract().value.contractId)
    requires NewEntryOk(f, Entry(pack.messageId, pack.frames, b.CurrentContract(), callback, setContract), pack,
                        b.contracts, delivered)
    ensures FlightInv(Enqueue(f, b, pack, callback, setContract, time), b.contracts, delivered)
  {
    var e := Entry(pack.messageId, pack.frames, b.CurrentContract(), callback, setContract);
    var item := NewItem(b, pack, callback);
    var r := ResendItem(item, pack.head, pack.contractFrame.Some?, time, pack);
    LogAppend(f.log, e, b.contracts, f.usedIds);
    ItemsAppend(f.sendItems, item, f.log, e);
    QueueAppend(f, item, r, b.contracts);
    WireInvExtend(f.written, f.log, f.log + [e], delivered, delivered);
  }

  lemma EnqueueOpen(b: Books, min: nat, items: seq<SendItem>, log: seq<Entry>, item: SendItem, e: Entry, rest: nat)
    requires OpenInv(b, min, items, log, rest + Charge(min, item.messageByteCount))
    requires b.sendContract.Some? && item.contractId == b.sendContract
    requires e.contract.Some? && Some(e.contract.value.contractId) == b.sendContract
    requires item.messageByteCount == MessageByteCount(e.frames)
    ensures OpenInv(b, min, items + [item], log + [e], rest)
  {
    var reserved := rest + Charge(min, item.messageByteCount);
    forall c | c in b.openSendContracts
      ensures OpenOk(b.openSendContracts[c], min, items + [item], b.dropped, log + [e],
                     ReservedFor(b.sendContract, rest, c))
    {
      assert OpenOk(b.openSendContracts[c], min, items, b.dropped, log, ReservedFor(b.sendContract, reserved, c));
      PendingAppend(min, items, item, c);
      LogPrefix(min, log, log + [e], c, |log|);
    }
  }

  lemma EnqueueBooks(b: Books, min: nat, items: seq<SendItem>, log: seq<Entry>, item: SendItem, e: Entry, rest: nat)
    requires |items| <= |log|
    requires BooksInv(b, min, items, log, rest + Charge(min, item.messageByteCount))
    requires b.sendContract.Some? && item.contractId == b.sendContract && e.contract == b.CurrentContract()
    requires item.messageByteCount == MessageByteCount(e.frames)
    ensures BooksInv(b, min, items + [item], log + [e], rest)
    ensures LastIsCurrent(b, log + [e])
  {
    EnqueueOpen(b, min, items, log, item, e, rest);
    if b.sendContractAcked {
      IntroducedMonotone(log, log + [e], |log| - |items|, |log + [e]| - |items + [item]|, b.sendContract.value);
    }
    EnqueueCover(b, min, items, log, item, e, rest);
  }

  /** The current contract has room, and the others are not debited. */
  lemma EnqueueCover(b: Books, min: nat, items: seq<SendItem>, log: seq<Entry>, item: SendItem, e: Entry, rest: nat)
    requires OpenInv(b, min, items + [item], log + [e], rest) && ContractsCover(min, b.contracts, log)
    requires b.sendContract.Some? && b.sendContract.value in b.openSendContracts && e.contract == b.CurrentContract()
    ensures ContractsCover(min, b.contracts, log + [e])
  {
    var current := b.sendContract.value;
    forall c | c in b.contracts
      ensures b.contracts[c].contractId == c
      ensures LogCharge(min, log + [e], c, |log + [e]|) <= b.contracts[c].transferByteCount
    {
      LogPrefix(min, log, log + [e], c, |log|);
      assert OpenOk(b.openSendContracts[current], min, items + [item], b.dropped, log + [e],
                    ReservedFor(b.sendContract, rest, current));
    }
  }
}
