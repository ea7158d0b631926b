/**
 The invariant of one receive sequence and the proof that each of its steps keeps it, given what the
 sender's side guarantees about every pack on the wire. The sequence may be the first one or one
 that was recreated with no state.
 */
module ReceiveSafety {
  import opened AckWindow
  import opened Options
  import opened ReceiveModel
  import SendModel
  import opened SendSafety
  import opened TransferTypes

  type Log = seq<SendModel.Entry>

  // ---- the invariant

  /** A cumulative ack stands for the delivery of everything up to its number. */
  ghost predicate AckOk(messageId: Id, n: nat, log: Log, delivered: set<nat>) {
    n < |log| && log[n].messageId == messageId && Below(n + 1, delivered)
  }

  ghost predicate WindowInv(w: Window, log: Log, delivered: set<nat>) {
    && WellFormed(w)
    && (w.headAck.Some? ==> AckOk(w.headAck.value.messageId, w.headAck.value.sequenceNumber, log, delivered))
  }

  ghost predicate QueuedOk(item: ReceiveItem, log: Log) {
    var n := item.sequenceNumber;
    && n < |log|
    && item.messageId == log[n].messageId && item.frames == log[n].frames
    && item.messageByteCount == MessageByteCount(item.frames)
    && (item.contractFrame.Some? ==> item.contractFrame == log[n].contract)
    && (log[n].introduces ==> item.contractFrame.Some?)
    && (item.head ==> item.contractFrame.Some?)
  }

  ghost predicate QueueInv(queue: map<Id, ReceiveItem>, log: Log) {
    forall id | id in queue :: queue[id].messageId == id && QueuedOk(queue[id], log)
  }

  ghost predicate DeliveryOk(d: Delivery, log: Log) {
    var n := d.sequenceNumber;
    n < |log| && d.frames == log[n].frames && log[n].contract.Some? && d.contractId == log[n].contract.value.contractId
  }

  /** In one receive sequence the numbers increase by one, except at a head pack. */
  ghost predicate Follows(d: Delivery, previous: int) {
    d.sequenceNumber == previous + 1 || (d.head && previous < d.sequenceNumber)
  }

  ghost predicate InOrder(deliveries: seq<Delivery>) {
    deliveries == [] ||
    (InOrder(deliveries[..|deliveries|-1])
     && Follows(deliveries[|deliveries|-1], LastNumber(deliveries[..|deliveries|-1])))
  }

  ghost predicate DeliveriesInv(deliveries: seq<Delivery>, log: Log) {
    (forall k | 0 <= k < |deliveries| :: DeliveryOk(deliveries[k], log)) && InOrder(deliveries)
  }

  function LastNumber(deliveries: seq<Delivery>): int {
    if deliveries == [] then -1 else deliveries[|deliveries|-1].sequenceNumber
  }

  function NoAckCharge(b: ReceiveBooks, c: Id): nat {
    if c in b.noAckCharged then b.noAckCharged[c] else 0
  }

  ghost predicate OpenOk(k: SequenceContract, min: nat, contracts: map<Id, Contract>, c: Id) {
    && c in contracts && k.contract == contracts[c] && contracts[c].contractId == c
    && k.effectiveByteCount == k.contract.transferByteCount
    && k.minUpdateByteCount == min && k.unackedByteCount == 0
    && k.Used() <= k.effectiveByteCount
  }

  /** The debits of a contract are the acked packs below `next`, at most, plus the no-ack packs. */
  ghost predicate BooksInv(b: ReceiveBooks, min: nat, contracts: map<Id, Contract>, log: Log, next: nat) {
    && next <= |log|
    && (forall c | c in b.openReceiveContracts ::
          && OpenOk(b.openReceiveContracts[c], min, contracts, c)
          && b.openReceiveContracts[c].Used() <= LogCharge(min, log, c, next) + NoAckCharge(b, c))
    && (b.receiveContract.Some? ==> b.receiveContract.value in b.openReceiveContracts)
  }

  /** The current contract is the one the last consumed pack was debited to. */
  ghost predicate CurrentInv(b: ReceiveBooks, log: Log, next: nat) {
    if next == 0 then b == NO_CONTRACTS
    else next <= |log| && log[next-1].contract.Some?
         && b.receiveContract == Some(log[next-1].contract.value.contractId)
  }

  ghost predicate Inv(s: ReceiveState, min: nat, contracts: map<Id, Contract>, log: Log, delivered: set<nat>) {
    && !s.badAccounting
    && WindowInv(s.window, log, delivered)
    && DeliveriesInv(s.deliveries, log)
    && (s.alive ==>
          && QueueInv(s.receiveQueue, log)
          && BooksInv(s.books, min, contracts, log, s.nextSequenceNumber)
          && CurrentInv(s.books, log, s.nextSequenceNumber)
          && Below(s.nextSequenceNumber, delivered)
          && LastNumber(s.deliveries) == s.nextSequenceNumber - 1)
  }

  /** What the sender's side guarantees about its log: the facts used here. */
  ghost predicate LogOk(log: Log, contracts: map<Id, Contract>, min: nat) {
    && (forall n | 0 <= n < |log| ::
          && log[n].contract.Some?
          && log[n].contract.value.contractId in contracts
          && contracts[log[n].contract.value.contractId] == log[n].contract.value
          && (log[n].introduces ==> Unseen(log, n, log[n].contract.value.contractId))
          && (log[n].introduces || (0 < n && log[n].contract == log[n-1].contract)))
    && DistinctIds(log)
    && ContractsCover(min, contracts, log)
  }

  // ---- contracts

  lemma {:induction false} CloseKeeps(b: ReceiveBooks, victims: seq<Id>, min: nat, contracts: map<Id, Contract>,
                                      log: Log, next: nat)
    requires BooksInv(b, min, contracts, log, next)
    ensures var t := CloseContracts(b, victims);
            && BooksInv(t, min, contracts, log, next)
            && t.receiveContract == b.receiveContract && t.noAckCharged == b.noAckCharged
            && (b.receiveContract.Some? ==>
                  t.openReceiveContracts[b.receiveContract.value] == b.openReceiveContracts[b.receiveContract.value])
    decreases |victims|
  {
    if victims != [] {
      var b1 := if Some(victims[0]) == b.receiveContract then b
                else b.(openReceiveContracts := b.openReceiveContracts - {victims[0]},
                        order := Without(b.order, victims[0]));
      forall c | c in b1.openReceiveContracts
        ensures OpenOk(b1.openReceiveContracts[c], min, contracts, c)
        ensures b1.openReceiveContracts[c].Used() <= LogCharge(min, log, c, next) + NoAckCharge(b1, c)
      {
        assert OpenOk(b.openReceiveContracts[c], min, contracts, c);
      }
      CloseKeeps(b1, victims[1..], min, contracts, log, next);
    }
  }

  lemma OpenKeeps(b: ReceiveBooks, settings: ReceiveSettings, contract: Contract, contracts: map<Id, Contract>,
                  log: Log, next: nat)
    requires BooksInv(b, settings.minMessageByteCount, contracts, log, next)
    requires contract.contractId in contracts && contracts[contract.contractId] == contract
    ensures BooksInv(OpenContract(b, FreshContract(settings, contract)), settings.minMessageByteCount, contracts, log, next)
  {
    var min := settings.minMessageByteCount;
    var t := OpenContract(b, FreshContract(settings, contract));
    forall c | c in t.openReceiveContracts
      ensures OpenOk(t.openReceiveContracts[c], min, contracts, c)
      ensures t.openReceiveContracts[c].Used() <= LogCharge(min, log, c, next) + NoAckCharge(t, c)
    {
      if c != contract.contractId {
        assert OpenOk(b.openReceiveContracts[c], min, contracts, c);
      }
    }
  }

  /** Registering a contract frame makes its contract the current one. */
  lemma RegisterKeeps(b: ReceiveBooks, frame: Option<Contract>, settings: ReceiveSettings,
                      contracts: map<Id, Contract>, log: Log, next: nat)
    requires BooksInv(b, settings.minMessageByteCount, contracts, log, next)
    requires frame.Some? ==> frame.value.contractId in contracts && contracts[frame.value.contractId] == frame.value
    ensures var t := RegisterContracts(b, frame, settings);
            && BooksInv(t, settings.minMessageByteCount, contracts, log, next)
            && (if frame.Some? then t.receiveContract == Some(frame.value.contractId) else t == b)
            && (forall c :: NoAckCharge(t, c) <= NoAckCharge(b, c))
  {
    if frame.Some? {
      var b1 := OpenContract(b, FreshContract(settings, frame.value));
      OpenKeeps(b, settings, frame.value, contracts, log, next);
      var max := settings.maxOpenReceiveContract;
      if max < |b1.order| {
        CloseKeeps(b1, b1.order[..|b1.order| - max], settings.minMessageByteCount, contracts, log, next);
      }
    }
  }

  /** The debit and its ack, as one change of the books. */
  ghost function Debited(b: ReceiveBooks, id: Id, charge: nat): ReceiveBooks
    requires id in b.openReceiveContracts
  {
    var k := b.openReceiveContracts[id];
    b.(openReceiveContracts := b.openReceiveContracts[id := k.(ackedByteCount := k.ackedByteCount + charge)])
  }

  /** "Bad accounting" cannot happen on the receiver: an ack follows its own debit. */
  lemma DebitIsAcked(b: ReceiveBooks, id: Id, byteCount: nat, min: nat)
    requires id in b.openReceiveContracts && b.openReceiveContracts[id].minUpdateByteCount == min
    requires b.openReceiveContracts[id].unackedByteCount == 0
    requires UpdateContract(b, Some(id), byteCount).Some?
    ensures var b1 := UpdateContract(b, Some(id), byteCount).value;
            && b1.receiveContract == b.receiveContract
            && AckContract(b1, id, byteCount) == Some(Debited(b, id, Charge(min, byteCount)))
  {
    var b1 := UpdateContract(b, Some(id), byteCount).value;
    var b2 := AckContract(b1, id, byteCount).value;
    assert b2.openReceiveContracts == Debited(b, id, Charge(min, byteCount)).openReceiveContracts;
  }

  lemma DebitKeeps(b: ReceiveBooks, id: Id, charge: nat, min: nat, contracts: map<Id, Contract>, log: Log,
                   next: nat, b': ReceiveBooks, next': nat)
    requires BooksInv(b, min, contracts, log, next) && id in b.openReceiveContracts
    requires b.openReceiveContracts[id].Used() + charge <= b.openReceiveContracts[id].effectiveByteCount
    requires next <= next' <= |log|
    requires b'.openReceiveContracts == Debited(b, id, charge).openReceiveContracts
    requires b'.receiveContract == b.receiveContract
    requires forall c :: LogCharge(min, log, c, next) + NoAckCharge(b, c) + (if c == id then charge else 0)
                         <= LogCharge(min, log, c, next') + NoAckCharge(b', c)
    ensures BooksInv(b', min, contracts, log, next')
  {
    forall c | c in b'.openReceiveContracts
      ensures OpenOk(b'.openReceiveContracts[c], min, contracts, c)
      ensures b'.openReceiveContracts[c].Used() <= LogCharge(min, log, c, next') + NoAckCharge(b', c)
    {
      assert OpenOk(b.openReceiveContracts[c], min, contracts, c);
    }
  }

  // ---- consuming a pack

  /** The contract the sender debited for a pack is current once its frame is registered. */
  lemma SameContract(b: ReceiveBooks, item: ReceiveItem, settings: ReceiveSettings, contracts: map<Id, Contract>,
                     log: Log, next: nat)
    requires LogOk(log, contracts, settings.minMessageByteCount) && QueuedOk(item, log)
    requires BooksInv(b, settings.minMessageByteCount, contracts, log, next)
    requires CurrentInv(b, log, next)
    requires item.sequenceNumber == next || item.head
    ensures var t := RegisterContracts(b, item.contractFrame, settings);
            t.receiveContract == Some(log[item.sequenceNumber].contract.value.contractId)
  {
    RegisterKeeps(b, item.contractFrame, settings, contracts, log, next);
  }

  lemma {:induction false} LogChargeMonotone(min: nat, log: Log, c: Id, m: nat, n: nat)
    requires m <= n <= |log|
    ensures LogCharge(min, log, c, m) <= LogCharge(min, log, c, n)
  {
    if m < n { LogChargeMonotone(min, log, c, m, n - 1); }
  }

  /**
   Without no-ack traffic on the contract, its room is enough: what was consumed and this pack are
   part of what the sender debited.
   */
  lemma CheckPasses(b: ReceiveBooks, item: ReceiveItem, settings: ReceiveSettings, contracts: map<Id, Contract>,
                    log: Log, next: nat)
    requires LogOk(log, contracts, settings.minMessageByteCount) && QueuedOk(item, log)
    requires BooksInv(b, settings.minMessageByteCount, contracts, log, next) && next <= item.sequenceNumber
    requires b.receiveContract == Some(log[item.sequenceNumber].contract.value.contractId)
    requires NoAckCharge(b, b.receiveContract.value) == 0
    ensures UpdateContract(b, b.receiveContract, item.messageByteCount).Some?
  {
    var min, n, c := settings.minMessageByteCount, item.sequenceNumber, b.receiveContract.value;
    assert OpenOk(b.openReceiveContracts[c], min, contracts, c);
    LogChargeMonotone(min, log, c, next, n);
    LogChargeMonotone(min, log, c, n + 1, |log|);
  }

  /** The books after a pack was consumed. */
  lemma ConsumeBooks(b: ReceiveBooks, item: ReceiveItem, settings: ReceiveSettings, contracts: map<Id, Contract>,
                     log: Log, next: nat)
    requires LogOk(log, contracts, settings.minMessageByteCount) && QueuedOk(item, log)
    requires BooksInv(b, settings.minMessageByteCount, contracts, log, next) && next <= item.sequenceNumber
    requires b.receiveContract == Some(log[item.sequenceNumber].contract.value.contractId)
    requires UpdateContract(b, b.receiveContract, item.messageByteCount).Some?
    ensures var b1 := UpdateContract(b, b.receiveContract, item.messageByteCount).value;
            var r := AckContract(b1, b.receiveContract.value, item.messageByteCount);
            && r.Some? && BooksInv(r.value, settings.minMessageByteCount, contracts, log, item.sequenceNumber + 1)
            && r.value.receiveContract == b.receiveContract && b1.receiveContract == b.receiveContract
  {
    var min, n, c := settings.minMessageByteCount, item.sequenceNumber, b.receiveContract.value;
    var charge := Charge(min, item.messageByteCount);
    assert OpenOk(b.openReceiveContracts[c], min, contracts, c);
    DebitIsAcked(b, c, item.messageByteCount, min);
    forall d
      ensures LogCharge(min, log, d, next) + NoAckCharge(b, d) + (if d == c then charge else 0)
           <= LogCharge(min, log, d, n + 1) + NoAckCharge(Debited(b, c, charge), d)
    {
      LogChargeMonotone(min, log, d, next, n);
    }
    DebitKeeps(b, c, charge, min, contracts, log, next, Debited(b, c, charge), n + 1);
  }

  /** How a consumed pack ends: delivered as the sender meant it, or the sequence exits. */
  ghost predicate Consumed(s: ReceiveState, t: ReceiveState, item: ReceiveItem, log: Log) {
    var n := item.sequenceNumber;
    n < |log| && log[n].contract.Some? &&
    if t.alive then
      t.deliveries == s.deliveries + [Delivery(n, log[n].frames, item.head, log[n].contract.value.contractId)]
    else
      t.deliveries == s.deliveries
  }

  /** An item about to be consumed: the next one, or a head ahead of the sequence. */
  ghost predicate Ready(s: ReceiveState, item: ReceiveItem, next: nat) {
    && next <= item.sequenceNumber && (next < item.sequenceNumber ==> item.head)
    && LastNumber(s.deliveries) == next - 1
  }

  lemma DeliverInOrder(deliveries: seq<Delivery>, d: Delivery, log: Log)
    requires DeliveriesInv(deliveries, log) && DeliveryOk(d, log) && Follows(d, LastNumber(deliveries))
    ensures DeliveriesInv(deliveries + [d], log)
  {
    assert (deliveries + [d])[..|deliveries|] == deliveries;
  }

  lemma {:induction false} InOrderAt(deliveries: seq<Delivery>, k: nat)
    requires InOrder(deliveries) && k < |deliveries|
    ensures Follows(deliveries[k], if k == 0 then -1 else deliveries[k-1].sequenceNumber)
  {
    if k + 1 < |deliveries| { InOrderAt(deliveries[..|deliveries|-1], k); }
  }

  lemma {:induction false} NumbersIncrease(deliveries: seq<Delivery>, j: nat, k: nat)
    requires InOrder(deliveries) && j < k < |deliveries|
    ensures deliveries[j].sequenceNumber < deliveries[k].sequenceNumber
  {
    if j + 1 < k { NumbersIncrease(deliveries, j, k - 1); }
    InOrderAt(deliveries, k);
  }

  lemma WindowExtend(w: Window, log: Log, log': Log, delivered: set<nat>, delivered': set<nat>)
    requires WindowInv(w, log, delivered) && log <= log' && delivered <= delivered'
    ensures WindowInv(w, log', delivered')
  {
  }

  lemma WindowAcks(w: Window, ack: SequenceAck, log: Log, delivered: set<nat>)
    requires WindowInv(w, log, delivered)
    requires !ack.selective ==> AckOk(ack.messageId, ack.sequenceNumber, log, delivered)
    ensures WindowInv(WithAck(w, ack), log, delivered)
  {
  }

  /** The books part of consuming, with the contract the pack was debited to. */
  lemma ConsumeContracts(s: ReceiveState, item: ReceiveItem, settings: ReceiveSettings, contracts: map<Id, Contract>,
                         log: Log, next: nat)
    requires LogOk(log, contracts, settings.minMessageByteCount) && QueuedOk(item, log)
    requires next <= item.sequenceNumber && (next < item.sequenceNumber ==> item.head)
    requires BooksInv(s.books, settings.minMessageByteCount, contracts, log, next) && CurrentInv(s.books, log, next)
    ensures var b := RegisterContracts(s.books, item.contractFrame, settings);
            var c := log[item.sequenceNumber].contract.value.contractId;
            var r := UpdateContract(b, b.receiveContract, item.messageByteCount);
            && b.receiveContract == Some(c)
            && (r.Some? ==>
                  var r1 := AckContract(r.value, c, item.messageByteCount);
                  && r1.Some? && r.value.receiveContract == Some(c) && r1.value.receiveContract == Some(c)
                  && BooksInv(r1.value, settings.minMessageByteCount, contracts, log, item.sequenceNumber + 1))
  {
    RegisterKeeps(s.books, item.contractFrame, settings, contracts, log, next);
    SameContract(s.books, item, settings, contracts, log, next);
    var b := RegisterContracts(s.books, item.contractFrame, settings);
    if UpdateContract(b, b.receiveContract, item.messageByteCount).Some? {
      ConsumeBooks(b, item, settings, contracts, log, next);
    }
  }

  lemma ConsumeKeeps(s: ReceiveState, item: ReceiveItem, settings: ReceiveSettings, contracts: map<Id, Contract>,
                     log: Log, next: nat, delivered: set<nat>)
    requires LogOk(log, contracts, settings.minMessageByteCount) && QueuedOk(item, log)
    requires s.alive && !s.badAccounting && Ready(s, item, next)
    requires BooksInv(s.books, settings.minMessageByteCount, contracts, log, next) && CurrentInv(s.books, log, next)
    requires WindowInv(s.window, log, delivered) && DeliveriesInv(s.deliveries, log)
    requires Below(item.sequenceNumber, delivered)
    ensures var t := Consume(s, item, settings);
            && Consumed(s, t, item, log) && !t.badAccounting
            && DeliveriesInv(t.deliveries, log)
            && WindowInv(t.window, log, delivered + {item.sequenceNumber})
            && t.receiveQueue == s.receiveQueue && t.nextSequenceNumber == s.nextSequenceNumber
            && (!t.alive ==> t.window == s.window)
            && (t.alive ==> BooksInv(t.books, settings.minMessageByteCount, contracts, log, item.sequenceNumber + 1)
                            && CurrentInv(t.books, log, item.sequenceNumber + 1)
                            && LastNumber(t.deliveries) == item.sequenceNumber)
  {
    var n := item.sequenceNumber;
    ConsumeContracts(s, item, settings, contracts, log, next);
    DeliverInOrder(s.deliveries, Delivery(n, item.frames, item.head, log[n].contract.value.contractId), log);
    WindowExtend(s.window, log, log, delivered, delivered + {n});
    assert Below(n + 1, delivered + {n});
    WindowAcks(s.window, NonSelective(item), log, delivered + {n});
  }

  /** The sequence exits on a pack only if a no-ack pack was charged to its contract before. */
  lemma ConsumeFailsOnlyOnNoAck(s: ReceiveState, item: ReceiveItem, settings: ReceiveSettings,
                                contracts: map<Id, Contract>, log: Log, next: nat, delivered: set<nat>)
    requires LogOk(log, contracts, settings.minMessageByteCount) && QueuedOk(item, log)
    requires s.alive && !s.badAccounting && Ready(s, item, next)
    requires BooksInv(s.books, settings.minMessageByteCount, contracts, log, next) && CurrentInv(s.books, log, next)
    requires !Consume(s, item, settings).alive
    ensures 0 < NoAckCharge(s.books, log[item.sequenceNumber].contract.value.contractId)
  {
    RegisterKeeps(s.books, item.contractFrame, settings, contracts, log, next);
    SameContract(s.books, item, settings, contracts, log, next);
    var b := RegisterContracts(s.books, item.contractFrame, settings);
    var c := b.receiveContract.value;
    if NoAckCharge(b, c) == 0 {
      CheckPasses(b, item, settings, contracts, log, next);
      ConsumeBooks(b, item, settings, contracts, log, next);
    }
  }
}
