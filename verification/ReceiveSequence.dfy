/**
 A receive sequence as the object that the program runs; every method computes its function of
 ReceiveModel. The receive queue is its map by message id and its byte total, which module
 TransferQueue proves to be all of it.
 */
module ReceiveSequence {
  import opened AckWindow
  import opened MapSum
  import opened Options
  import opened ReceiveModel
  import opened TransferTypes

  /** One item for each sequence number. */
  ghost predicate DistinctNumbers(queue: map<Id, ReceiveItem>) {
    forall i <- queue, j <- queue :: queue[i].sequenceNumber == queue[j].sequenceNumber ==> i == j
  }

  /** The item that is evicted is the only last one. */
  lemma EvictStep(queue: map<Id, ReceiveItem>, last: Id, byteCount: nat, sequenceNumber: nat, max: nat)
    requires DistinctNumbers(queue) && IsLast(queue, last) && !CanQueue(queue, byteCount, max)
    ensures EvictLater(queue, byteCount, sequenceNumber, max) ==
              if sequenceNumber < queue[last].sequenceNumber
              then EvictLater(queue - {last}, byteCount, sequenceNumber, max) else queue
  {
    assert forall l | IsLast(queue, l) :: l == last;
  }

  class ReceiveSequence {
    const settings: ReceiveSettings
    const ackWindow: SequenceAckWindow
    var openReceiveContracts: map<Id, SequenceContract>
    /** The open contracts by age. */
    var order: seq<Id>
    var receiveContract: Option<Id>
    var receiveQueue: map<Id, ReceiveItem>
    var queueByteCount: int
    var nextSequenceNumber: nat
    var alive: bool
    var badAccounting: bool
    // effects
    var deliveries: seq<Delivery>
    var noAckDeliveries: seq<seq<Frame>>
    // history
    ghost var noAckCharged: map<Id, nat>

    ghost function BooksNow(): ReceiveBooks
      reads this
    {
      ReceiveBooks(openReceiveContracts, order, receiveContract, noAckCharged)
    }

    ghost function State(): ReceiveState
      reads this, ackWindow
    {
      ReceiveState(alive, badAccounting, BooksNow(), receiveQueue, nextSequenceNumber, ackWindow.State(),
                   deliveries, noAckDeliveries)
    }

    ghost predicate Valid()
      reads this
    {
      DistinctNumbers(receiveQueue) && queueByteCount == Sum(receiveQueue, ItemBytes)
    }

    constructor (settings: ReceiveSettings)
      ensures Valid() && State() == INITIAL && this.settings == settings && fresh(ackWindow)
    {
      this.settings := settings;
      ackWindow := new SequenceAckWindow();
      openReceiveContracts, order, receiveContract, noAckCharged := map[], [], None, map[];
      receiveQueue, queueByteCount, nextSequenceNumber, alive, badAccounting := map[], 0, 0, true, false;
      deliveries, noAckDeliveries := [], [];
    }

    // ---- contracts

    method SetContract(next: SequenceContract)
      modifies `openReceiveContracts, `order, `receiveContract, `noAckCharged
      ensures BooksNow() == ReceiveModel.SetContract(old(BooksNow()), next, settings.maxOpenReceiveContract)
    {
      var id := next.contract.contractId;
      if receiveContract == Some(id) {
        return;
      }
      if id in openReceiveContracts {
        receiveContract := Some(id);
        return;
      }
      openReceiveContracts, receiveContract := openReceiveContracts[id := next], Some(id);
      order, noAckCharged := order + [id], noAckCharged[id := 0];
      if settings.maxOpenReceiveContract < |order| {
        CloseOldest(order[..|order| - settings.maxOpenReceiveContract]);
      }
    }

    /** Closes the given contracts, except the current one. */
    method CloseOldest(victims: seq<Id>)
      modifies `openReceiveContracts, `order
      ensures BooksNow() == CloseContracts(old(BooksNow()), victims)
    {
      ghost var all := CloseContracts(BooksNow(), victims);
      for i := 0 to |victims|
        invariant CloseContracts(BooksNow(), victims[i..]) == all
      {
        assert victims[i..][1..] == victims[i + 1..];
        if Some(victims[i]) != receiveContract {
          openReceiveContracts := openReceiveContracts - {victims[i]};
          order := Without(order, victims[i]);
        }
      }
    }

    method RegisterContracts(contractFrame: Option<Contract>)
      modifies `openReceiveContracts, `order, `receiveContract, `noAckCharged
      ensures BooksNow() == ReceiveModel.RegisterContracts(old(BooksNow()), contractFrame, settings)
    {
      if contractFrame.Some? {
        SetContract(FreshContract(settings, contractFrame.value));
      }
    }

    method UpdateContract(contractId: Option<Id>, byteCount: nat) returns (ok: bool)
      modifies `openReceiveContracts
      ensures ok <==> ReceiveModel.UpdateContract(old(BooksNow()), contractId, byteCount).Some?
      ensures BooksNow() == if ok then ReceiveModel.UpdateContract(old(BooksNow()), contractId, byteCount).value
                            else old(BooksNow())
    {
      ok := false;
      if contractId.Some? && contractId.value in openReceiveContracts {
        var updated := openReceiveContracts[contractId.value].Update(byteCount);
        if updated.Some? {
          openReceiveContracts := openReceiveContracts[contractId.value := updated.value];
          ok := true;
        }
      }
    }

    /** false is a panic: the contract is not open or has fewer bytes in flight. */
    method AckContract(contractId: Id, byteCount: nat) returns (ok: bool)
      modifies `openReceiveContracts
      ensures ok <==> ReceiveModel.AckContract(old(BooksNow()), contractId, byteCount).Some?
      ensures BooksNow() == if ok then ReceiveModel.AckContract(old(BooksNow()), contractId, byteCount).value
                            else old(BooksNow())
    {
      ok := false;
      if contractId in openReceiveContracts {
        var acked := openReceiveContracts[contractId].Acked(byteCount);
        if acked.Some? {
          openReceiveContracts := openReceiveContracts[contractId := acked.value];
          ok := true;
        }
      }
    }

    // ---- packs that are acknowledged

    method ReceiveHead(item: ReceiveItem, contractId: Id)
      modifies `openReceiveContracts, `deliveries, `badAccounting, `alive, ackWindow
      ensures State() == ReceiveModel.ReceiveHead(old(State()), item, contractId)
    {
      var ok := AckContract(contractId, item.messageByteCount);
      if !ok {
        badAccounting, alive := true, false;
        return;
      }
      deliveries := deliveries + [Delivery(item.sequenceNumber, item.frames, item.head, contractId)];
      ackWindow.Update(NonSelective(item));
    }

    /** The item at the head of the sequence; without a valid contract the sequence exits. */
    method Consume(item: ReceiveItem)
      modifies `openReceiveContracts, `order, `receiveContract, `noAckCharged, `deliveries, `badAccounting, `alive, ackWindow
      ensures State() == ReceiveModel.Consume(old(State()), item, settings)
    {
      RegisterContracts(item.contractFrame);
      var ok := UpdateContract(receiveContract, item.messageByteCount);
      if ok {
        ReceiveHead(item, receiveContract.value);
      } else {
        alive := false;
      }
    }

    method RemoveFromQueue(id: Id)
      requires Valid() && id in receiveQueue
      modifies `receiveQueue, `queueByteCount
      ensures Valid() && receiveQueue == old(receiveQueue) - {id}
    {
      SumRemove(receiveQueue, ItemBytes, id);
      queueByteCount := queueByteCount - receiveQueue[id].messageByteCount;
      receiveQueue := receiveQueue - {id};
    }

    method RemoveBySequenceNumber(sequenceNumber: nat)
      requires Valid()
      modifies `receiveQueue, `queueByteCount
      ensures Valid() && receiveQueue == RemoveNumber(old(receiveQueue), sequenceNumber)
    {
      if id :| id in receiveQueue && receiveQueue[id].sequenceNumber == sequenceNumber {
        assert RemoveNumber(receiveQueue, sequenceNumber) == receiveQueue - {id};
        RemoveFromQueue(id);
      } else {
        assert RemoveNumber(receiveQueue, sequenceNumber) == receiveQueue;
      }
    }

    /** The latest version of an item replaces the older ones. */
    method Replace(item: ReceiveItem)
      requires Valid()
      modifies `receiveQueue, `queueByteCount
      ensures Valid() && receiveQueue == Replaced(old(receiveQueue), item)
    {
      RemoveBySequenceNumber(item.sequenceNumber);
      if item.messageId in receiveQueue {
        RemoveFromQueue(item.messageId);
      } else {
        assert receiveQueue - {item.messageId} == receiveQueue;
      }
    }

    predicate Fits(byteCount: nat)
      reads this
    {
      |receiveQueue| == 0 || queueByteCount + byteCount < settings.receiveQueueMaxByteCount
    }

    /** Removes later items until the new one fits or no item is later. */
    method EvictForSpace(byteCount: nat, sequenceNumber: nat)
      requires Valid()
      modifies `receiveQueue, `queueByteCount
      ensures Valid()
      ensures receiveQueue ==
                EvictLater(old(receiveQueue), byteCount, sequenceNumber, settings.receiveQueueMaxByteCount)
    {
      ghost var max := settings.receiveQueueMaxByteCount;
      ghost var all := EvictLater(receiveQueue, byteCount, sequenceNumber, max);
      while !Fits(byteCount)
        invariant Valid() && EvictLater(receiveQueue, byteCount, sequenceNumber, max) == all
        decreases |receiveQueue|
      {
        LastExists(receiveQueue);
        var last :| last in receiveQueue
          && forall j <- receiveQueue :: receiveQueue[j].sequenceNumber <= receiveQueue[last].sequenceNumber;
        EvictStep(receiveQueue, last, byteCount, sequenceNumber, max);
        if receiveQueue[last].sequenceNumber <= sequenceNumber {
          return;
        }
        RemoveFromQueue(last);
      }
    }

    method AddToQueue(item: ReceiveItem)
      requires Valid() && forall id <- receiveQueue :: receiveQueue[id].sequenceNumber != item.sequenceNumber
      requires item.messageId !in receiveQueue
      modifies `receiveQueue, `queueByteCount
      ensures Valid() && receiveQueue == old(receiveQueue)[item.messageId := item]
    {
      SumAdd(receiveQueue, ItemBytes, item.messageId, item);
      receiveQueue := receiveQueue[item.messageId := item];
      queueByteCount := queueByteCount + item.messageByteCount;
    }

    /** Queues an item that is ahead of the sequence and acks it selectively, or drops it. */
    method Enqueue(item: ReceiveItem)
      requires Valid() && forall id <- receiveQueue :: receiveQueue[id].sequenceNumber != item.sequenceNumber
      requires item.messageId !in receiveQueue
      modifies `receiveQueue, `queueByteCount, ackWindow
      ensures Valid() && State() == ReceiveModel.Enqueue(old(State()), item, settings)
    {
      var max := settings.receiveQueueMaxByteCount;
      EvictIsPart(receiveQueue, item.messageByteCount, item.sequenceNumber, max);
      EvictForSpace(item.messageByteCount, item.sequenceNumber);
      if Fits(item.messageByteCount) {
        AddToQueue(item);
        ackWindow.Update(SequenceAck(item.sequenceNumber, item.messageId, true));
      }
    }

    /** Moves to a future head and removes older versions of the item. */
    method Prepare(item: ReceiveItem)
      requires Valid()
      modifies `nextSequenceNumber, `receiveQueue, `queueByteCount
      ensures Valid()
      ensures State() == old(State()).(nextSequenceNumber := Jumped(old(State()), item),
                                       receiveQueue := Replaced(old(receiveQueue), item))
    {
      if item.head && nextSequenceNumber < item.sequenceNumber {
        nextSequenceNumber := item.sequenceNumber;
      }
      Replace(item);
    }

    method Receive(pack: Pack)
      requires Valid()
      modifies this, ackWindow
      ensures Valid() && State() == ReceiveModel.Receive(old(State()), pack, settings)
    {
      var item := ItemOf(pack);
      Prepare(item);
      if item.sequenceNumber == nextSequenceNumber {
        nextSequenceNumber := nextSequenceNumber + 1;
        Consume(item);
      } else if item.sequenceNumber < nextSequenceNumber {
        ackWindow.Update(NonSelective(item));
      } else {
        Enqueue(item);
      }
    }

    /** Takes the first queued item once it is not ahead of the sequence. */
    method DrainFirst(id: Id)
      requires Valid() && id in receiveQueue
      modifies this, ackWindow
      ensures Valid() && State() == Drain(old(State()), id, settings)
    {
      var item := receiveQueue[id];
      if nextSequenceNumber < item.sequenceNumber {
        return;
      }
      RemoveFromQueue(id);
      if nextSequenceNumber == item.sequenceNumber {
        Consume(item);
        if alive {
          nextSequenceNumber := nextSequenceNumber + 1;
        }
      } else {
        ackWindow.Update(NonSelective(item));
      }
    }

    // ---- no-ack packs

    /** A no-ack pack is delivered on arrival if its contract is open and has room, and dropped if not. */
    method ReceiveNack(pack: Pack)
      modifies `openReceiveContracts, `order, `receiveContract, `noAckCharged, `badAccounting, `alive, `noAckDeliveries
      ensures State() == ReceiveModel.ReceiveNack(old(State()), pack, settings)
    {
      if pack.contractId.None? && !settings.allowLegacyNack {
        return;
      }
      RegisterContracts(pack.contractFrame);
      var contractId := if pack.contractId.Some? then pack.contractId else receiveContract;
      var byteCount := MessageByteCount(pack.frames);
      var ok := UpdateContract(contractId, byteCount);
      if !ok {
        return;
      }
      DeliverNoAck(contractId.value, pack.frames, byteCount);
    }

    method DeliverNoAck(contractId: Id, frames: seq<Frame>, byteCount: nat)
      modifies `openReceiveContracts, `noAckCharged, `badAccounting, `alive, `noAckDeliveries
      ensures State() ==
                match ReceiveModel.AckContract(old(BooksNow()), contractId, byteCount)
                case None => old(State()).(badAccounting := true, alive := false)
                case Some(b) =>
                  old(State()).(
                    books := b.(noAckCharged := Charged(b.noAckCharged, contractId,
                                                        Charge(settings.minMessageByteCount, byteCount))),
                    noAckDeliveries := old(noAckDeliveries) + [frames])
    {
      var ok := AckContract(contractId, byteCount);
      if !ok {
        badAccounting, alive := true, false;
        return;
      }
      noAckDeliveries := noAckDeliveries + [frames];
      noAckCharged := Charged(noAckCharged, contractId, Charge(settings.minMessageByteCount, byteCount));
    }
  }

  function Charged(charged: map<Id, nat>, contractId: Id, n: nat): map<Id, nat> {
    charged[contractId := (if contractId in charged then charged[contractId] else 0) + n]
  }

  ghost predicate IsPart(part: map<Id, ReceiveItem>, queue: map<Id, ReceiveItem>) {
    part.Keys <= queue.Keys && forall id <- part :: part[id] == queue[id]
  }

  /** Eviction only removes. */
  lemma {:induction false} EvictIsPart(queue: map<Id, ReceiveItem>, byteCount: nat, sequenceNumber: nat, max: nat)
    ensures IsPart(EvictLater(queue, byteCount, sequenceNumber, max), queue)
    decreases |queue.Keys|
  {
    if !CanQueue(queue, byteCount, max) {
      LastExists(queue);
      forall last | IsLast(queue, last)
        ensures IsPart(EvictLater(queue - {last}, byteCount, sequenceNumber, max), queue)
      {
        assert (queue - {last}).Keys == queue.Keys - {last};
        EvictIsPart(queue - {last}, byteCount, sequenceNumber, max);
      }
    }
  }
}
