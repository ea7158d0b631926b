/**
 What a receive sequence answers to a pack: it delivers the pack and acknowledges it, acknowledges it again,
 or queues it and acknowledges it selectively; a no-ack pack is delivered on arrival or dropped.
 */
module ReceiveAnswers {
  import opened AckWindow
  import opened MapSum
  import opened Options
  import opened ReceiveModel
  import opened ReceiveSafety
  import opened ReceiveSteps
  import opened SendSafety
  import opened TransferTypes

  // ---- the window answers

  /** The next snapshot puts the ack on the wire, or a head that covers it. */
  ghost predicate Answers(w: Window, ack: SequenceAck) {
    EmitsCover(w, ack.sequenceNumber) || (ack.selective && Ack(ack.messageId, true) in Emitted(w))
  }

  lemma AckIsAnswered(w: Window, ack: SequenceAck)
    requires WellFormed(w)
    ensures WellFormed(WithAck(w, ack)) && Answers(WithAck(w, ack), ack)
  {
    HeadIsEmitted(WithAck(w, ack));
    var t := WithAck(w, ack);
    if ack.selective && (w.headAck.None? || w.headAck.value.sequenceNumber < ack.sequenceNumber) {
      assert ack.messageId in SnapshotOf(t).selectiveAcks;
    }
  }

  lemma HeadIsEmitted(w: Window)
    ensures 0 < w.ackUpdateCount && w.headAck.Some? ==> EmitsCover(w, w.headAck.value.sequenceNumber)
  {
  }

  // ---- packs that are acknowledged

  /** The pack is the next one, or the head of a sequence that has lost its state. */
  ghost predicate InTurn(s: ReceiveState, item: ReceiveItem) {
    item.sequenceNumber == s.nextSequenceNumber || (item.head && s.nextSequenceNumber < item.sequenceNumber)
  }

  /** It is delivered with the frames and the contract it was sent with, and the number is acknowledged. */
  ghost predicate DeliversAndAcks(s: ReceiveState, t: ReceiveState, item: ReceiveItem, log: Log) {
    var n := item.sequenceNumber;
    && n < |log| && log[n].contract.Some?
    && t.nextSequenceNumber == n + 1
    && t.deliveries == s.deliveries + [Delivery(n, log[n].frames, item.head, log[n].contract.value.contractId)]
    && EmitsCover(t.window, n)
  }

  /** Nothing is queued under the number any more, and the rest of the queue stays. */
  ghost predicate LeavesQueue(queue: map<Id, ReceiveItem>, queue': map<Id, ReceiveItem>, id: Id, n: nat) {
    && (forall i | i in queue' :: i in queue && queue'[i] == queue[i] && queue[i].sequenceNumber != n)
    && (forall i | i in queue && queue[i].sequenceNumber != n && i != id :: i in queue')
  }

  /** A pack that was consumed before is acknowledged again, and nothing is delivered. */
  ghost predicate AcksAgain(s: ReceiveState, t: ReceiveState, n: nat) {
    && t.alive == s.alive && t.deliveries == s.deliveries && t.noAckDeliveries == s.noAckDeliveries
    && t.nextSequenceNumber == s.nextSequenceNumber && t.books == s.books && EmitsCover(t.window, n)
  }

  lemma LeavesQueueOk(queue: map<Id, ReceiveItem>, item: ReceiveItem)
    ensures LeavesQueue(queue, Replaced(queue, item), item.messageId, item.sequenceNumber)
  {
  }

  lemma PastIsAcked(s: ReceiveState, pack: Pack, settings: ReceiveSettings)
    requires WellFormed(s.window) && pack.sequenceNumber < s.nextSequenceNumber
    ensures var t := Receive(s, pack, settings);
            AcksAgain(s, t, pack.sequenceNumber)
            && LeavesQueue(s.receiveQueue, t.receiveQueue, pack.messageId, pack.sequenceNumber)
  {
    AckIsAnswered(s.window, NonSelective(ItemOf(pack)));
    LeavesQueueOk(s.receiveQueue, ItemOf(pack));
  }

  /** What consuming does to the window and to the no-ack deliveries. */
  lemma ConsumeAcks(s: ReceiveState, item: ReceiveItem, settings: ReceiveSettings)
    requires WellFormed(s.window)
    ensures var t := Consume(s, item, settings);
            && t.noAckDeliveries == s.noAckDeliveries
            && (t.alive && s.alive ==> EmitsCover(t.window, item.sequenceNumber))
  {
    AckIsAnswered(s.window, NonSelective(item));
  }

  lemma InTurnIsDelivered(s: ReceiveState, pack: Pack, settings: ReceiveSettings, contracts: map<Id, Contract>,
                          log: Log, delivered: set<nat>)
    requires LogOk(log, contracts, settings.minMessageByteCount) && WirePack(pack, log, delivered) && !pack.nack
    requires ReceiveSafety.Inv(s, settings.minMessageByteCount, contracts, log, delivered) && s.alive
    requires InTurn(s, ItemOf(pack))
    ensures var t := Receive(s, pack, settings);
            && (t.alive ==> DeliversAndAcks(s, t, ItemOf(pack), log))
            && (!t.alive ==> t.deliveries == s.deliveries)
            && t.noAckDeliveries == s.noAckDeliveries
            && LeavesQueue(s.receiveQueue, t.receiveQueue, pack.messageId, pack.sequenceNumber)
  {
    var item, n := ItemOf(pack), pack.sequenceNumber;
    ReplacedOk(s.receiveQueue, pack, log, delivered);
    var s1 := s.(nextSequenceNumber := n + 1, receiveQueue := Replaced(s.receiveQueue, item));
    ReceiveIsConsume(s, pack, settings);
    assert Below(n, delivered);
    ConsumeKeeps(s1, item, settings, contracts, log, s.nextSequenceNumber, delivered);
    ConsumeAcks(s1, item, settings);
    LeavesQueueOk(s.receiveQueue, item);
  }

  /** A drained item is treated as if it had just arrived in turn, or as one from the past. */
  lemma DrainAnswers(s: ReceiveState, id: Id, settings: ReceiveSettings, contracts: map<Id, Contract>,
                     log: Log, delivered: set<nat>)
    requires LogOk(log, contracts, settings.minMessageByteCount) && id in s.receiveQueue
    requires ReceiveSafety.Inv(s, settings.minMessageByteCount, contracts, log, delivered) && s.alive
    ensures var t, item := Drain(s, id, settings), s.receiveQueue[id];
            if s.nextSequenceNumber < item.sequenceNumber then t == s
            else
              && t.receiveQueue == s.receiveQueue - {id} && t.noAckDeliveries == s.noAckDeliveries
              && (if item.sequenceNumber < s.nextSequenceNumber then AcksAgain(s, t, item.sequenceNumber)
                  else if t.alive then DeliversAndAcks(s, t, item, log)
                  else t.deliveries == s.deliveries)
  {
    var item := s.receiveQueue[id];
    var s1 := s.(receiveQueue := s.receiveQueue - {id});
    assert ReceiveSafety.QueuedOk(item, log);
    AckIsAnswered(s.window, NonSelective(item));
    if item.sequenceNumber == s.nextSequenceNumber {
      PartQueueOk(s.receiveQueue, s1.receiveQueue, log);
      ConsumeKeeps(s1, item, settings, contracts, log, s.nextSequenceNumber, delivered);
      ConsumeAcks(s1, item, settings);
    }
  }

  // ---- packs that are ahead

  /** The queued items before a number. */
  function Earlier(queue: map<Id, ReceiveItem>, n: nat): map<Id, ReceiveItem> {
    map id | id in queue && queue[id].sequenceNumber < n :: queue[id]
  }

  lemma FewerFit(queue: map<Id, ReceiveItem>, part: map<Id, ReceiveItem>, byteCount: nat, max: nat)
    requires part.Keys <= queue.Keys && forall id | id in part :: part[id] == queue[id]
    requires CanQueue(queue, byteCount, max)
    ensures CanQueue(part, byteCount, max)
  {
    if queue != map[] { SumSubset(queue, part, ItemBytes); }
  }

  /** There is room for an item if and only if it fits beside the earlier ones. */
  lemma RoomIsExact(queue: map<Id, ReceiveItem>, byteCount: nat, n: nat, max: nat)
    requires forall id | id in queue :: queue[id].sequenceNumber != n
    ensures CanQueue(EvictLater(queue, byteCount, n, max), byteCount, max)
            <==> CanQueue(Earlier(queue, n), byteCount, max)
  {
    var t := EvictLater(queue, byteCount, n, max);
    EvictKeeps(queue, byteCount, n, max);
    if CanQueue(t, byteCount, max) {
      FewerFit(t, Earlier(queue, n), byteCount, max);
    } else {
      assert t == Earlier(queue, n);
    }
  }

  /** The latest items have left, and not all of those that left could have stayed. */
  ghost predicate EvictedLatest(queue: map<Id, ReceiveItem>, t: map<Id, ReceiveItem>, byteCount: nat, max: nat) {
    && (forall i, j | i in t && i in queue && j in queue && j !in t ::
          queue[i].sequenceNumber <= queue[j].sequenceNumber)
    && (t != queue ==> OneTooMany(queue, t, byteCount, max))
  }

  lemma {:induction false} EvictsTheLatest(queue: map<Id, ReceiveItem>, byteCount: nat, n: nat, max: nat)
    ensures EvictedLatest(queue, EvictLater(queue, byteCount, n, max), byteCount, max)
    decreases |queue.Keys|
  {
    if !CanQueue(queue, byteCount, max) {
      LastExists(queue);
      var last :| IsLast(queue, last) && EvictLater(queue, byteCount, n, max)
                  == if n < queue[last].sequenceNumber then EvictLater(queue - {last}, byteCount, n, max) else queue;
      var rest := queue - {last};
      assert rest.Keys == queue.Keys - {last};
      if n < queue[last].sequenceNumber {
        EvictsTheLatest(rest, byteCount, n, max);
        EvictKeeps(rest, byteCount, n, max);
        LastGoesFirst(queue, last, EvictLater(rest, byteCount, n, max), byteCount, max);
      }
    }
  }

  /** One of the items that left had no room beside t. */
  ghost predicate OneTooMany(queue: map<Id, ReceiveItem>, t: map<Id, ReceiveItem>, byteCount: nat, max: nat) {
    exists j :: j in queue && j !in t && !CanQueue(t[j := queue[j]], byteCount, max)
  }

  lemma LastGoesFirst(queue: map<Id, ReceiveItem>, last: Id, t: map<Id, ReceiveItem>, byteCount: nat, max: nat)
    requires IsLast(queue, last) && !CanQueue(queue, byteCount, max)
    requires t.Keys <= (queue - {last}).Keys && forall id | id in t :: t[id] == queue[id]
    requires t != queue - {last} ==> OneTooMany(queue - {last}, t, byteCount, max)
    ensures OneTooMany(queue, t, byteCount, max)
  {
    if t == queue - {last} {
      assert t[last := queue[last]] == queue;
    } else {
      var rest := queue - {last};
      var j :| j in rest && j !in t && !CanQueue(t[j := rest[j]], byteCount, max);
      assert t[j := queue[j]] == t[j := rest[j]];
    }
  }

  /**
   An item ahead of the sequence is queued and acknowledged if it fits beside the earlier ones, in place of the
   latest, and otherwise it is dropped with all later ones.
   */
  ghost predicate QueuesAndAcks(s: ReceiveState, t: ReceiveState, item: ReceiveItem, max: nat) {
    var queue := Replaced(s.receiveQueue, item);
    && t == s.(receiveQueue := t.receiveQueue, window := t.window)
    && (if CanQueue(Earlier(queue, item.sequenceNumber), item.messageByteCount, max) then
          && item.messageId in t.receiveQueue && t.receiveQueue[item.messageId] == item
          && EvictedLatest(queue, t.receiveQueue - {item.messageId}, item.messageByteCount, max)
          && Answers(t.window, SequenceAck(item.sequenceNumber, item.messageId, true))
        else
          && t.receiveQueue == Earlier(queue, item.sequenceNumber) && t.window == s.window)
    && (forall id | id in t.receiveQueue && id != item.messageId ::
          id in queue && t.receiveQueue[id] == queue[id])
    && (forall id | id in queue && queue[id].sequenceNumber < item.sequenceNumber :: id in t.receiveQueue)
  }

  lemma AheadIsQueued(s: ReceiveState, pack: Pack, settings: ReceiveSettings)
    requires WellFormed(s.window) && s.nextSequenceNumber < pack.sequenceNumber && !pack.head
    ensures QueuesAndAcks(s, Receive(s, pack, settings), ItemOf(pack), settings.receiveQueueMaxByteCount)
  {
    var item, max := ItemOf(pack), settings.receiveQueueMaxByteCount;
    var queue := Replaced(s.receiveQueue, item);
    ReplacedPart(s.receiveQueue, item);
    RoomIsExact(queue, item.messageByteCount, item.sequenceNumber, max);
    EvictKeeps(queue, item.messageByteCount, item.sequenceNumber, max);
    EvictsTheLatest(queue, item.messageByteCount, item.sequenceNumber, max);
    AckIsAnswered(s.window, SequenceAck(item.sequenceNumber, item.messageId, true));
    var rest := EvictLater(queue, item.messageByteCount, item.sequenceNumber, max);
    if CanQueue(rest, item.messageByteCount, max) {
      assert rest[item.messageId := item] - {item.messageId} == rest;
    } else {
      assert rest == Earlier(queue, item.sequenceNumber);
    }
  }

  // ---- no-ack packs

  /** The contract that a no-ack pack names is open and has room for it. */
  predicate HasRoom(b: ReceiveBooks, contractId: Option<Id>, byteCount: nat) {
    contractId.Some? && contractId.value in b.openReceiveContracts
    && b.openReceiveContracts[contractId.value].Used()
       + Charge(b.openReceiveContracts[contractId.value].minUpdateByteCount, byteCount)
       <= b.openReceiveContracts[contractId.value].effectiveByteCount
  }

  /** It is charged and handed on as it is, or nothing at all happens. */
  lemma NoAckIsDelivered(s: ReceiveState, pack: Pack, settings: ReceiveSettings, contracts: map<Id, Contract>,
                         log: Log, delivered: set<nat>)
    requires WirePack(pack, log, delivered) && pack.nack
    requires ReceiveSafety.Inv(s, settings.minMessageByteCount, contracts, log, delivered) && s.alive
    ensures var t, byteCount := ReceiveNack(s, pack, settings), MessageByteCount(pack.frames);
            if HasRoom(s.books, pack.contractId, byteCount) then
              && t == s.(books := t.books, noAckDeliveries := s.noAckDeliveries + [pack.frames])
              && (var c, charge := pack.contractId.value, Charge(settings.minMessageByteCount, byteCount);
                  t.books == Debited(s.books, c, charge).(
                               noAckCharged := s.books.noAckCharged[c := NoAckCharge(s.books, c) + charge]))
            else t == s
  {
    var min, b, byteCount := settings.minMessageByteCount, s.books, MessageByteCount(pack.frames);
    if HasRoom(b, pack.contractId, byteCount) {
      var id := pack.contractId.value;
      assert ReceiveSafety.OpenOk(b.openReceiveContracts[id], min, contracts, id);
      DebitIsAcked(b, id, byteCount, min);
    }
  }

  /** A no-ack pack that names no contract is dropped unless the receiver allows such packs. */
  lemma UnnamedNoAck(s: ReceiveState, pack: Pack, settings: ReceiveSettings)
    requires pack.contractId.None? && pack.contractFrame.None?
    requires forall c | c in s.books.openReceiveContracts :: s.books.openReceiveContracts[c].unackedByteCount == 0
    ensures ReceiveNack(s, pack, settings).noAckDeliveries
            == s.noAckDeliveries + if settings.allowLegacyNack
                                      && HasRoom(s.books, s.books.receiveContract, MessageByteCount(pack.frames))
                                   then [pack.frames] else []
  {
  }
}
