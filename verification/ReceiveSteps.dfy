/** Every step of a receive sequence keeps its invariant, and the reorder buffer stays bounded. */
module ReceiveSteps {
  import opened AckWindow
  import opened MapSum
  import opened ReceiveModel
  import opened ReceiveSafety
  import opened SendSafety
  import opened TransferTypes

  /** The numbers a receive sequence delivered. */
  ghost predicate AllIn(deliveries: seq<Delivery>, delivered: set<nat>) {
    forall k | 0 <= k < |deliveries| :: deliveries[k].sequenceNumber in delivered
  }

  lemma PackIsQueuedOk(pack: Pack, log: Log, delivered: set<nat>)
    requires WirePack(pack, log, delivered) && !pack.nack
    ensures ReceiveSafety.QueuedOk(ItemOf(pack), log)
  {
  }

  // ---- the reorder buffer

  lemma {:induction false} EvictKeeps(queue: map<Id, ReceiveItem>, byteCount: nat, n: nat, max: nat)
    ensures var t := EvictLater(queue, byteCount, n, max);
            && t.Keys <= queue.Keys && (forall id | id in t :: t[id] == queue[id])
            // only later items are removed, and only to make room
            && (forall id | id in queue && id !in t :: n < queue[id].sequenceNumber)
            && (t != queue ==> !CanQueue(queue, byteCount, max))
            // what is left has room, or nothing later is left to remove
            && (CanQueue(t, byteCount, max) || forall id | id in t :: t[id].sequenceNumber <= n)
    decreases |queue.Keys|
  {
    if !CanQueue(queue, byteCount, max) {
      LastExists(queue);
      var last :| IsLast(queue, last) && EvictLater(queue, byteCount, n, max)
                  == if n < queue[last].sequenceNumber then EvictLater(queue - {last}, byteCount, n, max) else queue;
      var rest := queue - {last};
      assert rest.Keys == queue.Keys - {last};
      if n < queue[last].sequenceNumber {
        EvictKeeps(rest, byteCount, n, max);
      }
    }
  }

  /** At most one item, or a byte total below the bound. */
  ghost predicate Bounded(queue: map<Id, ReceiveItem>, max: nat) {
    |queue.Keys| <= 1 || Sum(queue, ItemBytes) < max
  }

  lemma PartBounded(queue: map<Id, ReceiveItem>, part: map<Id, ReceiveItem>, max: nat)
    requires Bounded(queue, max) && part.Keys <= queue.Keys && forall id | id in part :: part[id] == queue[id]
    ensures Bounded(part, max)
  {
    SumSubset(queue, part, ItemBytes);
    CardinalityMonotone(part.Keys, queue.Keys);
  }

  lemma {:induction false} CardinalityMonotone<T>(a: set<T>, b: set<T>)
    requires a <= b
    ensures |a| <= |b|
  {
    if a != {} {
      var x :| x in a;
      CardinalityMonotone(a - {x}, b - {x});
    }
  }

  lemma ReplacedPart(queue: map<Id, ReceiveItem>, item: ReceiveItem)
    ensures Replaced(queue, item).Keys <= queue.Keys
    ensures forall id | id in Replaced(queue, item) :: Replaced(queue, item)[id] == queue[id]
    ensures item.messageId !in Replaced(queue, item)
    ensures forall id | id in Replaced(queue, item) :: queue[id].sequenceNumber != item.sequenceNumber
  {
  }

  lemma EnqueueBounded(queue: map<Id, ReceiveItem>, item: ReceiveItem, max: nat)
    requires Bounded(queue, max) && item.messageId !in queue
    ensures var t := EvictLater(queue, item.messageByteCount, item.sequenceNumber, max);
            && Bounded(t, max)
            && (CanQueue(t, item.messageByteCount, max) ==> Bounded(t[item.messageId := item], max))
  {
    var t := EvictLater(queue, item.messageByteCount, item.sequenceNumber, max);
    EvictKeeps(queue, item.messageByteCount, item.sequenceNumber, max);
    PartBounded(queue, t, max);
    if CanQueue(t, item.messageByteCount, max) {
      if t == map[] {
        assert t[item.messageId := item].Keys == {item.messageId};
      } else {
        SumAdd(t, ItemBytes, item.messageId, item);
      }
    }
  }

  /** The queue that a pack leaves behind. */
  ghost function QueueAfter(s: ReceiveState, pack: Pack, max: nat): map<Id, ReceiveItem> {
    var item := ItemOf(pack);
    var queue := Replaced(s.receiveQueue, item);
    if item.sequenceNumber <= Jumped(s, item) then queue
    else
      var rest := EvictLater(queue, item.messageByteCount, item.sequenceNumber, max);
      if CanQueue(rest, item.messageByteCount, max) then rest[item.messageId := item] else rest
  }

  lemma ReceiveQueueAfter(s: ReceiveState, pack: Pack, settings: ReceiveSettings)
    ensures Receive(s, pack, settings).receiveQueue == QueueAfter(s, pack, settings.receiveQueueMaxByteCount)
  {
    var item := ItemOf(pack);
    var next := Jumped(s, item);
    QueueUntouched(s.(nextSequenceNumber := next + 1, receiveQueue := Replaced(s.receiveQueue, item)), item, settings);
  }

  /**
   After every pack the queue is bounded. An item leaves it only for a newer version of itself or
   because it is later than the pack that displaced it.
   */
  lemma ReceiveBounded(s: ReceiveState, pack: Pack, settings: ReceiveSettings)
    requires Bounded(s.receiveQueue, settings.receiveQueueMaxByteCount)
    ensures Bounded(Receive(s, pack, settings).receiveQueue, settings.receiveQueueMaxByteCount)
    ensures forall id | id in s.receiveQueue && id !in Receive(s, pack, settings).receiveQueue ::
              pack.sequenceNumber <= s.receiveQueue[id].sequenceNumber || id == pack.messageId
  {
    var item, max := ItemOf(pack), settings.receiveQueueMaxByteCount;
    var queue := Replaced(s.receiveQueue, item);
    ReceiveQueueAfter(s, pack, settings);
    ReplacedPart(s.receiveQueue, item);
    PartBounded(s.receiveQueue, queue, max);
    EvictKeeps(queue, item.messageByteCount, item.sequenceNumber, max);
    EnqueueBounded(queue, item, max);
  }

  lemma QueueUntouched(s: ReceiveState, item: ReceiveItem, settings: ReceiveSettings)
    ensures Consume(s, item, settings).receiveQueue == s.receiveQueue
    ensures Consume(s, item, settings).nextSequenceNumber == s.nextSequenceNumber
  {
  }

  // ---- the steps

  /** What consuming an item leaves, but for the next number. */
  ghost predicate ConsumedWell(s: ReceiveState, t: ReceiveState, n: nat, min: nat, contracts: map<Id, Contract>, log: Log,
                               delivered: set<nat>)
  {
    && !t.badAccounting && DeliveriesInv(t.deliveries, log) && s.deliveries <= t.deliveries
    && (if t.alive then
          && |t.deliveries| == |s.deliveries| + 1 && LastNumber(t.deliveries) == n
          && WindowInv(t.window, log, delivered + {n})
          && ReceiveSafety.BooksInv(t.books, min, contracts, log, n + 1)
          && ReceiveSafety.CurrentInv(t.books, log, n + 1)
        else WindowInv(t.window, log, delivered))
  }

  lemma ConsumeWell(s: ReceiveState, s1: ReceiveState, item: ReceiveItem, settings: ReceiveSettings,
                    contracts: map<Id, Contract>, log: Log, delivered: set<nat>)
    requires LogOk(log, contracts, settings.minMessageByteCount) && ReceiveSafety.QueuedOk(item, log)
    requires ReceiveSafety.Inv(s, settings.minMessageByteCount, contracts, log, delivered) && s.alive
    requires s.nextSequenceNumber <= item.sequenceNumber
    requires s.nextSequenceNumber < item.sequenceNumber ==> item.head
    requires Below(item.sequenceNumber, delivered)
    requires s1 == s.(nextSequenceNumber := s1.nextSequenceNumber, receiveQueue := s1.receiveQueue)
    ensures var t := Consume(s1, item, settings);
            && ConsumedWell(s, t, item.sequenceNumber, settings.minMessageByteCount, contracts, log, delivered)
            && t.receiveQueue == s1.receiveQueue && t.nextSequenceNumber == s1.nextSequenceNumber
  {
    ConsumeKeeps(s1, item, settings, contracts, log, s.nextSequenceNumber, delivered);
  }

  /** Whatever the item is, it is the next one or a head when it is consumed. */
  lemma ConsumeStep(s: ReceiveState, s1: ReceiveState, item: ReceiveItem, settings: ReceiveSettings,
                    contracts: map<Id, Contract>, log: Log, delivered: set<nat>, delivered': set<nat>)
    requires LogOk(log, contracts, settings.minMessageByteCount) && ReceiveSafety.QueuedOk(item, log)
    requires ReceiveSafety.Inv(s, settings.minMessageByteCount, contracts, log, delivered) && s.alive
    requires s.nextSequenceNumber <= item.sequenceNumber
    requires s.nextSequenceNumber < item.sequenceNumber ==> item.head
    requires Below(item.sequenceNumber, delivered) && delivered <= delivered'
    requires s1 == s.(nextSequenceNumber := s1.nextSequenceNumber, receiveQueue := s1.receiveQueue)
    requires ReceiveSafety.QueueInv(s1.receiveQueue, log)
    requires AllIn(Consume(s1, item, settings).deliveries, delivered')
    ensures var t := Consume(s1, item, settings);
            && s.deliveries <= t.deliveries && t.nextSequenceNumber == s1.nextSequenceNumber
            && ReceiveSafety.Inv(t.(nextSequenceNumber := item.sequenceNumber + 1), settings.minMessageByteCount,
                                 contracts, log, delivered')
  {
    var n, t := item.sequenceNumber, Consume(s1, item, settings);
    ConsumeWell(s, s1, item, settings, contracts, log, delivered);
    if t.alive {
      AliveInv(s, t, n, settings.minMessageByteCount, contracts, log, delivered, delivered');
    } else {
      DeadInv(t.(nextSequenceNumber := n + 1), settings.minMessageByteCount, contracts, log, delivered, delivered');
    }
  }

  lemma AliveInv(s: ReceiveState, t: ReceiveState, n: nat, min: nat, contracts: map<Id, Contract>, log: Log,
                 delivered: set<nat>, delivered': set<nat>)
    requires |t.deliveries| == |s.deliveries| + 1 && LastNumber(t.deliveries) == n
    requires !t.badAccounting && DeliveriesInv(t.deliveries, log) && WindowInv(t.window, log, delivered + {n})
    requires ReceiveSafety.QueueInv(t.receiveQueue, log)
    requires ReceiveSafety.BooksInv(t.books, min, contracts, log, n + 1)
    requires ReceiveSafety.CurrentInv(t.books, log, n + 1)
    requires Below(n, delivered) && delivered <= delivered' && AllIn(t.deliveries, delivered')
    ensures ReceiveSafety.Inv(t.(nextSequenceNumber := n + 1), min, contracts, log, delivered')
  {
    NewDelivered(s.deliveries, t.deliveries, n, delivered, delivered');
    WindowExtend(t.window, log, log, delivered + {n}, delivered');
    Assemble(t.(nextSequenceNumber := n + 1), min, contracts, log, delivered');
  }

  lemma DeadInv(t: ReceiveState, min: nat, contracts: map<Id, Contract>, log: Log,
                delivered: set<nat>, delivered': set<nat>)
    requires !t.alive && !t.badAccounting && delivered <= delivered'
    requires WindowInv(t.window, log, delivered) && DeliveriesInv(t.deliveries, log)
    ensures ReceiveSafety.Inv(t, min, contracts, log, delivered')
  {
    WindowExtend(t.window, log, log, delivered, delivered');
  }

  lemma Assemble(t: ReceiveState, min: nat, contracts: map<Id, Contract>, log: Log, delivered: set<nat>)
    requires !t.badAccounting && WindowInv(t.window, log, delivered) && DeliveriesInv(t.deliveries, log)
    requires ReceiveSafety.QueueInv(t.receiveQueue, log)
    requires ReceiveSafety.BooksInv(t.books, min, contracts, log, t.nextSequenceNumber)
    requires ReceiveSafety.CurrentInv(t.books, log, t.nextSequenceNumber)
    requires Below(t.nextSequenceNumber, delivered) && LastNumber(t.deliveries) == t.nextSequenceNumber - 1
    ensures ReceiveSafety.Inv(t, min, contracts, log, delivered)
  {
  }

  lemma NewDelivered(before: seq<Delivery>, after: seq<Delivery>, n: nat, delivered: set<nat>, delivered': set<nat>)
    requires |after| == |before| + 1 && after[|before|].sequenceNumber == n
    requires delivered <= delivered' && AllIn(after, delivered') && Below(n, delivered)
    ensures Below(n + 1, delivered') && delivered + {n} <= delivered'
  {
  }

  lemma PartQueueOk(queue: map<Id, ReceiveItem>, part: map<Id, ReceiveItem>, log: Log)
    requires ReceiveSafety.QueueInv(queue, log)
    requires part.Keys <= queue.Keys && forall id | id in part :: part[id] == queue[id]
    ensures ReceiveSafety.QueueInv(part, log)
  {
  }

  lemma EnqueueStep(s: ReceiveState, item: ReceiveItem, settings: ReceiveSettings,
                    contracts: map<Id, Contract>, log: Log, delivered: set<nat>)
    requires ReceiveSafety.Inv(s, settings.minMessageByteCount, contracts, log, delivered)
    requires ReceiveSafety.QueuedOk(item, log)
    ensures ReceiveSafety.Inv(Enqueue(s, item, settings), settings.minMessageByteCount, contracts, log, delivered)
    ensures Enqueue(s, item, settings).deliveries == s.deliveries
  {
    var max := settings.receiveQueueMaxByteCount;
    var queue := EvictLater(s.receiveQueue, item.messageByteCount, item.sequenceNumber, max);
    EvictKeeps(s.receiveQueue, item.messageByteCount, item.sequenceNumber, max);
    if s.alive { PartQueueOk(s.receiveQueue, queue, log); }
    WindowAcks(s.window, SequenceAck(item.sequenceNumber, item.messageId, true), log, delivered);
  }

  /** A number below the next one was delivered by some sequence, so it is acked again. */
  lemma PastStep(s: ReceiveState, item: ReceiveItem, min: nat, contracts: map<Id, Contract>, log: Log, delivered: set<nat>)
    requires ReceiveSafety.Inv(s, min, contracts, log, delivered) && s.alive
    requires ReceiveSafety.QueuedOk(item, log) && item.sequenceNumber < s.nextSequenceNumber
    ensures ReceiveSafety.Inv(s.(window := WithAck(s.window, NonSelective(item))), min, contracts, log, delivered)
  {
    WindowAcks(s.window, NonSelective(item), log, delivered);
  }

  lemma InvExtend(s: ReceiveState, min: nat, contracts: map<Id, Contract>, contracts': map<Id, Contract>,
                  log: Log, log': Log, delivered: set<nat>, delivered': set<nat>)
    requires ReceiveSafety.Inv(s, min, contracts, log, delivered)
    requires log <= log' && delivered <= delivered'
    requires forall c | c in contracts :: c in contracts' && contracts'[c] == contracts[c]
    ensures ReceiveSafety.Inv(s, min, contracts', log', delivered')
  {
    WindowExtend(s.window, log, log', delivered, delivered');
    forall k | 0 <= k < |s.deliveries| ensures DeliveryOk(s.deliveries[k], log') {
      assert DeliveryOk(s.deliveries[k], log);
    }
    if s.alive {
      BooksExtend(s.books, min, contracts, contracts', log, log', s.nextSequenceNumber);
    }
  }

  lemma BooksExtend(b: ReceiveBooks, min: nat, contracts: map<Id, Contract>, contracts': map<Id, Contract>,
                    log: Log, log': Log, next: nat)
    requires ReceiveSafety.BooksInv(b, min, contracts, log, next) && log <= log'
    requires forall c | c in contracts :: c in contracts' && contracts'[c] == contracts[c]
    ensures ReceiveSafety.BooksInv(b, min, contracts', log', next)
  {
    forall c | c in b.openReceiveContracts
      ensures ReceiveSafety.OpenOk(b.openReceiveContracts[c], min, contracts', c)
      ensures b.openReceiveContracts[c].Used() <= LogCharge(min, log', c, next) + NoAckCharge(b, c)
    {
      assert ReceiveSafety.OpenOk(b.openReceiveContracts[c], min, contracts, c);
      LogPrefix(min, log, log', c, next);
    }
  }

  /** What is known once the older versions of a pack have left the queue. */
  lemma ReplacedOk(queue: map<Id, ReceiveItem>, pack: Pack, log: Log, delivered: set<nat>)
    requires ReceiveSafety.QueueInv(queue, log) && WirePack(pack, log, delivered) && !pack.nack
    ensures ReceiveSafety.QueuedOk(ItemOf(pack), log)
    ensures ReceiveSafety.QueueInv(Replaced(queue, ItemOf(pack)), log)
  {
    PackIsQueuedOk(pack, log, delivered);
    ReplacedPart(queue, ItemOf(pack));
    PartQueueOk(queue, Replaced(queue, ItemOf(pack)), log);
  }

  /** A pack in turn is consumed with its older versions out of the queue. */
  lemma ReceiveIsConsume(s: ReceiveState, pack: Pack, settings: ReceiveSettings)
    requires pack.sequenceNumber == Jumped(s, ItemOf(pack))
    ensures var s1 := s.(nextSequenceNumber := pack.sequenceNumber + 1,
                         receiveQueue := Replaced(s.receiveQueue, ItemOf(pack)));
            Receive(s, pack, settings) == Consume(s1, ItemOf(pack), settings)
  {
  }

  lemma OnlyConsumingEnds(s: ReceiveState, pack: Pack, settings: ReceiveSettings)
    requires s.alive && !Receive(s, pack, settings).alive
    ensures pack.sequenceNumber == Jumped(s, ItemOf(pack))
  {
  }

  lemma ReceiveNextKeeps(s: ReceiveState, pack: Pack, settings: ReceiveSettings, contracts: map<Id, Contract>,
                         log: Log, delivered: set<nat>, delivered': set<nat>)
    requires LogOk(log, contracts, settings.minMessageByteCount) && WirePack(pack, log, delivered) && !pack.nack
    requires ReceiveSafety.Inv(s, settings.minMessageByteCount, contracts, log, delivered) && s.alive
    requires pack.sequenceNumber == Jumped(s, ItemOf(pack))
    requires delivered <= delivered' && AllIn(Receive(s, pack, settings).deliveries, delivered')
    ensures ReceiveSafety.Inv(Receive(s, pack, settings), settings.minMessageByteCount, contracts, log, delivered')
    ensures s.deliveries <= Receive(s, pack, settings).deliveries
  {
    var item, n := ItemOf(pack), pack.sequenceNumber;
    ReplacedOk(s.receiveQueue, pack, log, delivered);
    var s1 := s.(nextSequenceNumber := n + 1, receiveQueue := Replaced(s.receiveQueue, item));
    ReceiveIsConsume(s, pack, settings);
    assert Below(n, delivered);
    ConsumeStep(s, s1, item, settings, contracts, log, delivered, delivered');
  }

  lemma ReceiveKeeps(s: ReceiveState, pack: Pack, settings: ReceiveSettings, contracts: map<Id, Contract>,
                     log: Log, delivered: set<nat>, delivered': set<nat>)
    requires LogOk(log, contracts, settings.minMessageByteCount) && WirePack(pack, log, delivered) && !pack.nack
    requires ReceiveSafety.Inv(s, settings.minMessageByteCount, contracts, log, delivered) && s.alive
    requires delivered <= delivered' && AllIn(Receive(s, pack, settings).deliveries, delivered')
    ensures ReceiveSafety.Inv(Receive(s, pack, settings), settings.minMessageByteCount, contracts, log, delivered')
    ensures s.deliveries <= Receive(s, pack, settings).deliveries
  {
    var item, min := ItemOf(pack), settings.minMessageByteCount;
    if item.sequenceNumber == Jumped(s, item) {
      ReceiveNextKeeps(s, pack, settings, contracts, log, delivered, delivered');
    } else {
      ReplacedOk(s.receiveQueue, pack, log, delivered);
      var s1 := s.(receiveQueue := Replaced(s.receiveQueue, item));
      InvExtend(s1, min, contracts, contracts, log, log, delivered, delivered');
      if item.sequenceNumber < s.nextSequenceNumber {
        PastStep(s1, item, min, contracts, log, delivered');
      } else {
        EnqueueStep(s1, item, settings, contracts, log, delivered');
      }
    }
  }

  lemma DrainNextKeeps(s: ReceiveState, id: Id, settings: ReceiveSettings, contracts: map<Id, Contract>,
                       log: Log, delivered: set<nat>, delivered': set<nat>)
    requires LogOk(log, contracts, settings.minMessageByteCount) && id in s.receiveQueue
    requires ReceiveSafety.Inv(s, settings.minMessageByteCount, contracts, log, delivered) && s.alive
    requires s.receiveQueue[id].sequenceNumber == s.nextSequenceNumber
    requires delivered <= delivered' && AllIn(Drain(s, id, settings).deliveries, delivered')
    ensures ReceiveSafety.Inv(Drain(s, id, settings), settings.minMessageByteCount, contracts, log, delivered')
    ensures s.deliveries <= Drain(s, id, settings).deliveries
  {
    var item, min := s.receiveQueue[id], settings.minMessageByteCount;
    var s1 := s.(receiveQueue := s.receiveQueue - {id});
    PartQueueOk(s.receiveQueue, s1.receiveQueue, log);
    ConsumeStep(s, s1, item, settings, contracts, log, delivered, delivered');
    var t := Consume(s1, item, settings);
    if !t.alive { DeadIsTimeless(t, t.(nextSequenceNumber := item.sequenceNumber + 1), min, contracts, log, delivered'); }
  }

  lemma DrainKeeps(s: ReceiveState, id: Id, settings: ReceiveSettings, contracts: map<Id, Contract>,
                   log: Log, delivered: set<nat>, delivered': set<nat>)
    requires LogOk(log, contracts, settings.minMessageByteCount) && id in s.receiveQueue
    requires ReceiveSafety.Inv(s, settings.minMessageByteCount, contracts, log, delivered) && s.alive
    requires delivered <= delivered' && AllIn(Drain(s, id, settings).deliveries, delivered')
    ensures ReceiveSafety.Inv(Drain(s, id, settings), settings.minMessageByteCount, contracts, log, delivered')
    ensures s.deliveries <= Drain(s, id, settings).deliveries
  {
    var item, min := s.receiveQueue[id], settings.minMessageByteCount;
    var s1 := s.(receiveQueue := s.receiveQueue - {id});
    PartQueueOk(s.receiveQueue, s1.receiveQueue, log);
    if item.sequenceNumber == s.nextSequenceNumber {
      DrainNextKeeps(s, id, settings, contracts, log, delivered, delivered');
    } else {
      InvExtend(s, min, contracts, contracts, log, log, delivered, delivered');
      InvExtend(s1, min, contracts, contracts, log, log, delivered, delivered');
      if item.sequenceNumber < s.nextSequenceNumber {
        PastStep(s1, item, min, contracts, log, delivered');
      }
    }
  }

  lemma DrainPart(s: ReceiveState, id: Id, settings: ReceiveSettings)
    requires id in s.receiveQueue
    ensures var t := Drain(s, id, settings);
            && (t.receiveQueue == s.receiveQueue || t.receiveQueue == s.receiveQueue - {id})
            && s.deliveries <= t.deliveries
  {
    QueueUntouched(s.(receiveQueue := s.receiveQueue - {id}), s.receiveQueue[id], settings);
  }

  lemma DrainBounded(s: ReceiveState, id: Id, settings: ReceiveSettings)
    requires id in s.receiveQueue && Bounded(s.receiveQueue, settings.receiveQueueMaxByteCount)
    ensures Bounded(Drain(s, id, settings).receiveQueue, settings.receiveQueueMaxByteCount)
  {
    DrainPart(s, id, settings);
    PartBounded(s.receiveQueue, s.receiveQueue - {id}, settings.receiveQueueMaxByteCount);
  }

  /** Nothing depends on the next number of a sequence that has exited. */
  lemma DeadIsTimeless(t: ReceiveState, u: ReceiveState, min: nat, contracts: map<Id, Contract>, log: Log, delivered: set<nat>)
    requires !t.alive && u == t.(nextSequenceNumber := u.nextSequenceNumber)
    requires ReceiveSafety.Inv(u, min, contracts, log, delivered)
    ensures ReceiveSafety.Inv(t, min, contracts, log, delivered)
  {
  }

  lemma NackKeeps(s: ReceiveState, pack: Pack, settings: ReceiveSettings, contracts: map<Id, Contract>,
                  log: Log, delivered: set<nat>)
    requires WirePack(pack, log, delivered) && pack.nack
    requires ReceiveSafety.Inv(s, settings.minMessageByteCount, contracts, log, delivered) && s.alive
    ensures ReceiveSafety.Inv(ReceiveNack(s, pack, settings), settings.minMessageByteCount, contracts, log, delivered)
    ensures var t := ReceiveNack(s, pack, settings);
            t.deliveries == s.deliveries && t.receiveQueue == s.receiveQueue
  {
    var min, b, byteCount := settings.minMessageByteCount, s.books, MessageByteCount(pack.frames);
    var r := UpdateContract(b, pack.contractId, byteCount);
    if r.Some? {
      var id, charge, t := pack.contractId.value, Charge(min, byteCount), ReceiveNack(s, pack, settings);
      assert ReceiveSafety.OpenOk(b.openReceiveContracts[id], min, contracts, id);
      DebitIsAcked(b, id, byteCount, min);
      NackBooks(b, id, charge, t.books, min, contracts, log, s.nextSequenceNumber);
    }
  }

  lemma NackBooks(b: ReceiveBooks, id: Id, charge: nat, b': ReceiveBooks, min: nat, contracts: map<Id, Contract>,
                  log: Log, next: nat)
    requires ReceiveSafety.BooksInv(b, min, contracts, log, next) && ReceiveSafety.CurrentInv(b, log, next)
    requires id in b.openReceiveContracts
    requires b.openReceiveContracts[id].Used() + charge <= b.openReceiveContracts[id].effectiveByteCount
    requires b' == Debited(b, id, charge).(noAckCharged := b.noAckCharged[id := NoAckCharge(b, id) + charge])
    ensures ReceiveSafety.BooksInv(b', min, contracts, log, next) && ReceiveSafety.CurrentInv(b', log, next)
  {
    DebitKeeps(b, id, charge, min, contracts, log, next, b', next);
  }

  // ---- when a pack ends the sequence

  lemma ReceiveFailsOnlyOnNoAck(s: ReceiveState, pack: Pack, settings: ReceiveSettings, contracts: map<Id, Contract>,
                                log: Log, delivered: set<nat>)
    requires LogOk(log, contracts, settings.minMessageByteCount) && WirePack(pack, log, delivered) && !pack.nack
    requires ReceiveSafety.Inv(s, settings.minMessageByteCount, contracts, log, delivered) && s.alive
    requires !Receive(s, pack, settings).alive
    ensures pack.sequenceNumber < |log| && log[pack.sequenceNumber].contract.Some?
    ensures 0 < NoAckCharge(s.books, log[pack.sequenceNumber].contract.value.contractId)
  {
    var item, n := ItemOf(pack), pack.sequenceNumber;
    OnlyConsumingEnds(s, pack, settings);
    ReplacedOk(s.receiveQueue, pack, log, delivered);
    var s1 := s.(nextSequenceNumber := n + 1, receiveQueue := Replaced(s.receiveQueue, item));
    ReceiveIsConsume(s, pack, settings);
    ConsumeFailsOnlyOnNoAck(s1, item, settings, contracts, log, s.nextSequenceNumber, delivered);
  }

  lemma DrainFailsOnlyOnNoAck(s: ReceiveState, id: Id, settings: ReceiveSettings, contracts: map<Id, Contract>,
                              log: Log, delivered: set<nat>)
    requires LogOk(log, contracts, settings.minMessageByteCount) && id in s.receiveQueue
    requires ReceiveSafety.Inv(s, settings.minMessageByteCount, contracts, log, delivered) && s.alive
    requires !Drain(s, id, settings).alive
    ensures var n := s.receiveQueue[id].sequenceNumber;
            n < |log| && log[n].contract.Some? && 0 < NoAckCharge(s.books, log[n].contract.value.contractId)
  {
    var s1 := s.(receiveQueue := s.receiveQueue - {id});
    ConsumeFailsOnlyOnNoAck(s1, s.receiveQueue[id], settings, contracts, log, s.nextSequenceNumber, delivered);
  }

  lemma NackNeverFails(s: ReceiveState, pack: Pack, settings: ReceiveSettings, contracts: map<Id, Contract>,
                       log: Log, delivered: set<nat>)
    requires WirePack(pack, log, delivered) && pack.nack
    requires ReceiveSafety.Inv(s, settings.minMessageByteCount, contracts, log, delivered) && s.alive
    ensures ReceiveNack(s, pack, settings).alive
  {
    NackKeeps(s, pack, settings, contracts, log, delivered);
  }

  // ---- acks leave through the window

  lemma EmittedOk(w: Window, log: Log, delivered: set<nat>)
    requires ReceiveSafety.WindowInv(w, log, delivered)
    ensures forall a | a in Emitted(w) && !a.selective ::
              w.headAck.Some? && a.messageId == w.headAck.value.messageId
              && AckOk(a.messageId, w.headAck.value.sequenceNumber, log, delivered)
    ensures ReceiveSafety.WindowInv(Reset(w), log, delivered)
  {
  }

  lemma InitialOk(min: nat, contracts: map<Id, Contract>, log: Log, delivered: set<nat>)
    ensures ReceiveSafety.Inv(ReceiveModel.INITIAL, min, contracts, log, delivered)
  {
  }
}
