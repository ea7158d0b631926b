/**
 What a receive sequence has charged to an open contract is exactly what it delivered under it, and it keeps
 the contracts it opened last.
 */
module ReceiveCharges {
  import opened Options
  import opened ReceiveAnswers
  import opened ReceiveModel
  import opened ReceiveSafety
  import ReceiveSteps
  import opened SendSafety
  import opened TransferTypes

  // ---- sums

  function DeliveryCharge(min: nat, d: Delivery, c: Id): nat {
    if d.contractId == c then Charge(min, MessageByteCount(d.frames)) else 0
  }

  /** What the packs that were delivered under contract c are charged. */
  function DeliveredCharge(min: nat, deliveries: seq<Delivery>, c: Id): nat {
    if deliveries == [] then 0
    else DeliveredCharge(min, deliveries[..|deliveries|-1], c) + DeliveryCharge(min, deliveries[|deliveries|-1], c)
  }

  /** The bytes that were handed on under contract c. */
  function DeliveredBytes(deliveries: seq<Delivery>, c: Id): nat {
    if deliveries == [] then 0
    else DeliveredBytes(deliveries[..|deliveries|-1], c)
         + if deliveries[|deliveries|-1].contractId == c then MessageByteCount(deliveries[|deliveries|-1].frames) else 0
  }

  lemma {:induction false} BytesAreCharged(min: nat, deliveries: seq<Delivery>, c: Id)
    ensures DeliveredBytes(deliveries, c) <= DeliveredCharge(min, deliveries, c)
  {
    if deliveries != [] { BytesAreCharged(min, deliveries[..|deliveries|-1], c); }
  }

  lemma {:induction false} NoneDelivered(min: nat, deliveries: seq<Delivery>, c: Id)
    requires forall k | 0 <= k < |deliveries| :: deliveries[k].contractId != c
    ensures DeliveredCharge(min, deliveries, c) == 0
  {
    if deliveries != [] { NoneDelivered(min, deliveries[..|deliveries|-1], c); }
  }

  lemma DeliveredAppend(min: nat, deliveries: seq<Delivery>, d: Delivery, c: Id)
    ensures DeliveredCharge(min, deliveries + [d], c)
            == DeliveredCharge(min, deliveries, c) + DeliveryCharge(min, d, c)
  {
    assert (deliveries + [d])[..|deliveries|] == deliveries;
  }

  // ---- the invariant

  /** The used bytes of an open contract are the packs delivered under it, with or without an ack. */
  ghost predicate ExactCharges(b: ReceiveBooks, deliveries: seq<Delivery>, min: nat) {
    forall c | c in b.openReceiveContracts ::
      b.openReceiveContracts[c].Used() == DeliveredCharge(min, deliveries, c) + NoAckCharge(b, c)
  }

  function Limit(maxOpen: nat): nat { if maxOpen == 0 then 1 else maxOpen }

  ghost predicate Distinct(ids: seq<Id>) {
    forall i, j | 0 <= i < j < |ids| :: ids[i] != ids[j]
  }

  // ---- contracts that are closed

  lemma {:induction false} WithoutOther(ids: seq<Id>, id: Id)
    requires id !in ids
    ensures Without(ids, id) == ids
  {
    if ids != [] { WithoutOther(ids[1..], id); }
  }

  lemma WithoutFirst(ids: seq<Id>)
    requires ids != [] && Distinct(ids)
    ensures Without(ids, ids[0]) == ids[1..] && Distinct(ids[1..])
  {
    WithoutOther(ids[1..], ids[0]);
  }

  /** The current contract as a list, if it is the last of the victims. */
  function Spared(victims: seq<Id>, current: Option<Id>): seq<Id> {
    if victims != [] && Some(victims[|victims|-1]) == current then [victims[|victims|-1]] else []
  }

  /** The order lists the open contracts once each. */
  ghost predicate Listed(b: ReceiveBooks) {
    Distinct(b.order) && forall c :: c in b.order <==> c in b.openReceiveContracts
  }

  /** Only contracts are closed, and those that are left are as they were. */
  ghost predicate OnlyCloses(b: ReceiveBooks, t: ReceiveBooks) {
    && t == b.(order := t.order, openReceiveContracts := t.openReceiveContracts)
    && forall c | c in t.openReceiveContracts ::
         c in b.openReceiveContracts && t.openReceiveContracts[c] == b.openReceiveContracts[c]
  }

  lemma ClosesOne(b: ReceiveBooks)
    requires Listed(b) && b.order != []
    ensures var t := b.(openReceiveContracts := b.openReceiveContracts - {b.order[0]},
                        order := Without(b.order, b.order[0]));
            Listed(t) && OnlyCloses(b, t) && t.order == b.order[1..]
  {
    WithoutFirst(b.order);
    assert b.order == [b.order[0]] + b.order[1..];
  }

  /** The contracts opened first are closed. */
  lemma {:induction false} ClosesTheOldest(b: ReceiveBooks, victims: seq<Id>, rest: seq<Id>)
    requires Listed(b) && b.order == victims + rest
    requires forall i | 0 <= i < |victims| - 1 :: Some(victims[i]) != b.receiveContract
    ensures var t := CloseContracts(b, victims);
            Listed(t) && OnlyCloses(b, t) && t.order == Spared(victims, b.receiveContract) + rest
    decreases |victims|
  {
    if victims == [] {
      assert b.order == rest;
    } else if |victims| == 1 && Some(victims[0]) == b.receiveContract {
      assert CloseContracts(b, victims) == CloseContracts(b, victims[1..]) == b;
      assert victims == [victims[0]];
    } else {
      var b1 := b.(openReceiveContracts := b.openReceiveContracts - {victims[0]}, order := Without(b.order, victims[0]));
      VictimsRest(b.order, victims, rest);
      ClosesOne(b);
      ClosesTheOldest(b1, victims[1..], rest);
      SparedRest(victims, b.receiveContract);
    }
  }

  lemma SparedRest(victims: seq<Id>, current: Option<Id>)
    requires victims != [] && (Some(victims[0]) != current || 1 < |victims|)
    ensures Spared(victims, current) == Spared(victims[1..], current)
  {
  }

  lemma VictimsRest(order: seq<Id>, victims: seq<Id>, rest: seq<Id>)
    requires order == victims + rest && victims != []
    ensures order != [] && victims[0] == order[0] && order[1..] == victims[1..] + rest
  {
  }

  ghost predicate OrderOk(b: ReceiveBooks, maxOpen: nat) {
    Listed(b) && |b.order| <= Limit(maxOpen)
  }

  /** The last of the contracts, up to the limit. */
  function Latest(all: seq<Id>, maxOpen: nat): seq<Id> {
    if |all| <= Limit(maxOpen) then all else all[|all| - Limit(maxOpen)..]
  }

  lemma OpensLast(b: ReceiveBooks, next: SequenceContract)
    requires Listed(b) && next.contract.contractId !in b.openReceiveContracts
    ensures Listed(OpenContract(b, next))
  {
    var id := next.contract.contractId;
    forall c ensures c in b.order + [id] <==> c in b.openReceiveContracts[id := next] {
    }
  }

  /** A contract that is opened joins the last ones; the contracts opened first go. */
  lemma OpensAtTheEnd(b: ReceiveBooks, next: SequenceContract, maxOpen: nat)
    requires OrderOk(b, maxOpen) && next.contract.contractId !in b.openReceiveContracts
    requires b.receiveContract.Some? ==> b.receiveContract.value in b.openReceiveContracts
    ensures var t := SetContract(b, next, maxOpen);
            && OrderOk(t, maxOpen) && OnlyCloses(OpenContract(b, next), t)
            && t.order == Latest(b.order + [next.contract.contractId], maxOpen)
  {
    var id, b1, all := next.contract.contractId, OpenContract(b, next), b.order + [next.contract.contractId];
    OpensLast(b, next);
    if maxOpen < |all| {
      var victims, rest := all[..|all| - maxOpen], all[|all| - maxOpen..];
      assert all == victims + rest;
      VictimsAreNotCurrent(b.order, id, maxOpen);
      ClosesTheOldest(b1, victims, rest);
      SparesTheLast(all, maxOpen);
    }
  }

  lemma VictimsAreNotCurrent(order: seq<Id>, id: Id, maxOpen: nat)
    requires id !in order && maxOpen < |order + [id]|
    ensures var victims := (order + [id])[..|order + [id]| - maxOpen];
            forall i | 0 <= i < |victims| - 1 :: Some(victims[i]) != Some(id)
  {
  }

  /** Without room for any contract the new one is spared. */
  lemma SparesTheLast(all: seq<Id>, maxOpen: nat)
    requires maxOpen < |all| <= Limit(maxOpen) + 1 && Distinct(all)
    ensures Spared(all[..|all| - maxOpen], Some(all[|all|-1])) + all[|all| - maxOpen..] == Latest(all, maxOpen)
  {
    if maxOpen != 0 {
      assert all[|all| - maxOpen - 1] != all[|all| - 1];
    }
  }

  // ---- charges

  lemma NotIntroducedTwice(log: Log, m: nat, n: nat)
    requires m < n < |log| && log[m].contract.Some? && log[n].contract.Some?
    requires log[n].contract.value.contractId == log[m].contract.value.contractId
    requires log[n].introduces ==> Unseen(log, n, log[n].contract.value.contractId)
    ensures !log[n].introduces
  {
  }

  /** Packs under one contract have numbers without a gap. */
  lemma {:induction false} Contiguous(log: Log, contracts: map<Id, Contract>, min: nat, m: nat, k: nat, n: nat)
    requires LogOk(log, contracts, min) && m <= k <= n < |log|
    requires log[m].contract.value.contractId == log[n].contract.value.contractId
    ensures log[k].contract.value.contractId == log[n].contract.value.contractId
    decreases n
  {
    if k < n {
      NotIntroducedTwice(log, m, n);
      Contiguous(log, contracts, min, m, k, n - 1);
    }
  }

  /** A contract that is not open when its pack is in turn had no delivery in this sequence. */
  lemma NothingDeliveredYet(s: ReceiveState, item: ReceiveItem, contracts: map<Id, Contract>, log: Log, min: nat,
                            delivered: set<nat>)
    requires LogOk(log, contracts, min) && ReceiveSafety.Inv(s, min, contracts, log, delivered) && s.alive
    requires QueuedOk(item, log) && s.nextSequenceNumber <= item.sequenceNumber
    requires log[item.sequenceNumber].contract.value.contractId !in s.books.openReceiveContracts
    ensures forall k | 0 <= k < |s.deliveries| ::
              s.deliveries[k].contractId != log[item.sequenceNumber].contract.value.contractId
  {
    var n, next := item.sequenceNumber, s.nextSequenceNumber;
    forall k | 0 <= k < |s.deliveries| ensures s.deliveries[k].contractId != log[n].contract.value.contractId {
      var d := s.deliveries[k];
      assert DeliveryOk(d, log);
      if k < |s.deliveries| - 1 { NumbersIncrease(s.deliveries, k, |s.deliveries| - 1); }
      if d.contractId == log[n].contract.value.contractId {
        Contiguous(log, contracts, min, d.sequenceNumber, next - 1, n);
      }
    }
  }

  /** Opening a contract without deliveries. */
  lemma RegisterCharges(b: ReceiveBooks, frame: Option<Contract>, settings: ReceiveSettings, deliveries: seq<Delivery>)
    requires ExactCharges(b, deliveries, settings.minMessageByteCount)
    requires OrderOk(b, settings.maxOpenReceiveContract)
    requires b.receiveContract.Some? ==> b.receiveContract.value in b.openReceiveContracts
    requires frame.Some? && frame.value.contractId !in b.openReceiveContracts ==>
               DeliveredCharge(settings.minMessageByteCount, deliveries, frame.value.contractId) == 0
    ensures var t := RegisterContracts(b, frame, settings);
            ExactCharges(t, deliveries, settings.minMessageByteCount) && OrderOk(t, settings.maxOpenReceiveContract)
  {
    if frame.Some? && frame.value.contractId !in b.openReceiveContracts {
      OpensAtTheEnd(b, FreshContract(settings, frame.value), settings.maxOpenReceiveContract);
    }
  }

  /** A debit and its ack, with the delivery or the no-ack charge that it is for. */
  lemma DebitCharges(b: ReceiveBooks, c: Id, charge: nat, b': ReceiveBooks, deliveries: seq<Delivery>,
                     deliveries': seq<Delivery>, min: nat, maxOpen: nat)
    requires ExactCharges(b, deliveries, min) && OrderOk(b, maxOpen) && c in b.openReceiveContracts
    requires b'.openReceiveContracts == Debited(b, c, charge).openReceiveContracts && b'.order == b.order
    requires forall i :: DeliveredCharge(min, deliveries', i) + NoAckCharge(b', i)
                         == DeliveredCharge(min, deliveries, i) + NoAckCharge(b, i) + if i == c then charge else 0
    ensures ExactCharges(b', deliveries', min) && OrderOk(b', maxOpen)
  {
  }

  ghost predicate ChargesOk(s: ReceiveState, settings: ReceiveSettings) {
    ExactCharges(s.books, s.deliveries, settings.minMessageByteCount) && OrderOk(s.books, settings.maxOpenReceiveContract)
  }

  /** Consuming a pack charges what it delivers. */
  lemma ConsumeCharges(s: ReceiveState, s1: ReceiveState, item: ReceiveItem, settings: ReceiveSettings,
                       contracts: map<Id, Contract>, log: Log, delivered: set<nat>)
    requires LogOk(log, contracts, settings.minMessageByteCount) && QueuedOk(item, log)
    requires ReceiveSafety.Inv(s, settings.minMessageByteCount, contracts, log, delivered) && s.alive
    requires s.nextSequenceNumber <= item.sequenceNumber
    requires s.nextSequenceNumber < item.sequenceNumber ==> item.head
    requires s1.books == s.books && s1.deliveries == s.deliveries && s1.alive
    requires ChargesOk(s, settings)
    ensures var t := Consume(s1, item, settings); t.alive ==> ChargesOk(t, settings)
  {
    var min, n, c := settings.minMessageByteCount, item.sequenceNumber, log[item.sequenceNumber].contract.value.contractId;
    var b := RegisterContracts(s.books, item.contractFrame, settings);
    if c !in s.books.openReceiveContracts {
      NothingDeliveredYet(s, item, contracts, log, min, delivered);
      NoneDelivered(min, s.deliveries, c);
    }
    RegisterCharges(s.books, item.contractFrame, settings, s.deliveries);
    SameContract(s.books, item, settings, contracts, log, s.nextSequenceNumber);
    RegisterKeeps(s.books, item.contractFrame, settings, contracts, log, s.nextSequenceNumber);
    if UpdateContract(b, b.receiveContract, item.messageByteCount).Some? {
      ConsumedCharges(b, item, c, s.deliveries, settings, contracts);
    }
  }

  lemma ConsumedCharges(b: ReceiveBooks, item: ReceiveItem, c: Id, deliveries: seq<Delivery>, settings: ReceiveSettings,
                        contracts: map<Id, Contract>)
    requires ExactCharges(b, deliveries, settings.minMessageByteCount) && OrderOk(b, settings.maxOpenReceiveContract)
    requires b.receiveContract == Some(c) && c in b.openReceiveContracts
    requires ReceiveSafety.OpenOk(b.openReceiveContracts[c], settings.minMessageByteCount, contracts, c)
    requires item.messageByteCount == MessageByteCount(item.frames)
    requires UpdateContract(b, Some(c), item.messageByteCount).Some?
    ensures var b1 := UpdateContract(b, Some(c), item.messageByteCount).value;
            var r := AckContract(b1, c, item.messageByteCount);
            && r.Some? && b1.receiveContract == Some(c)
            && ExactCharges(r.value, deliveries + [Delivery(item.sequenceNumber, item.frames, item.head, c)],
                            settings.minMessageByteCount)
            && OrderOk(r.value, settings.maxOpenReceiveContract)
  {
    var min, charge := settings.minMessageByteCount, Charge(settings.minMessageByteCount, item.messageByteCount);
    var d := Delivery(item.sequenceNumber, item.frames, item.head, c);
    DebitIsAcked(b, c, item.messageByteCount, min);
    forall i
      ensures DeliveredCharge(min, deliveries + [d], i)
              == DeliveredCharge(min, deliveries, i) + if i == c then charge else 0
    {
      DeliveredAppend(min, deliveries, d, i);
    }
    DebitCharges(b, c, charge, Debited(b, c, charge), deliveries, deliveries + [d], min, settings.maxOpenReceiveContract);
  }

  lemma ReceiveKeepsCharges(s: ReceiveState, pack: Pack, settings: ReceiveSettings, contracts: map<Id, Contract>,
                            log: Log, delivered: set<nat>)
    requires LogOk(log, contracts, settings.minMessageByteCount) && WirePack(pack, log, delivered) && !pack.nack
    requires ReceiveSafety.Inv(s, settings.minMessageByteCount, contracts, log, delivered) && s.alive
    requires ChargesOk(s, settings)
    ensures var t := Receive(s, pack, settings); t.alive ==> ChargesOk(t, settings)
  {
    var item, n := ItemOf(pack), pack.sequenceNumber;
    ReceiveSteps.ReplacedOk(s.receiveQueue, pack, log, delivered);
    if n == Jumped(s, item) {
      var s1 := s.(nextSequenceNumber := n + 1, receiveQueue := Replaced(s.receiveQueue, item));
      ReceiveSteps.ReceiveIsConsume(s, pack, settings);
      ConsumeCharges(s, s1, item, settings, contracts, log, delivered);
    }
  }

  lemma DrainKeepsCharges(s: ReceiveState, id: Id, settings: ReceiveSettings, contracts: map<Id, Contract>,
                          log: Log, delivered: set<nat>)
    requires LogOk(log, contracts, settings.minMessageByteCount) && id in s.receiveQueue
    requires ReceiveSafety.Inv(s, settings.minMessageByteCount, contracts, log, delivered) && s.alive
    requires ChargesOk(s, settings)
    ensures var t := Drain(s, id, settings); t.alive ==> ChargesOk(t, settings)
  {
    var item := s.receiveQueue[id];
    assert ReceiveSafety.QueuedOk(item, log);
    if item.sequenceNumber == s.nextSequenceNumber {
      ConsumeCharges(s, s.(receiveQueue := s.receiveQueue - {id}), item, settings, contracts, log, delivered);
    }
  }

  lemma NackKeepsCharges(s: ReceiveState, pack: Pack, settings: ReceiveSettings, contracts: map<Id, Contract>,
                         log: Log, delivered: set<nat>)
    requires WirePack(pack, log, delivered) && pack.nack
    requires ReceiveSafety.Inv(s, settings.minMessageByteCount, contracts, log, delivered) && s.alive
    requires ChargesOk(s, settings)
    ensures ChargesOk(ReceiveNack(s, pack, settings), settings)
  {
    var byteCount := MessageByteCount(pack.frames);
    NoAckIsDelivered(s, pack, settings, contracts, log, delivered);
    if HasRoom(s.books, pack.contractId, byteCount) {
      var charge := Charge(settings.minMessageByteCount, byteCount);
      DebitCharges(s.books, pack.contractId.value, charge, ReceiveNack(s, pack, settings).books, s.deliveries,
                   s.deliveries, settings.minMessageByteCount, settings.maxOpenReceiveContract);
    }
  }
}
