/** What holds in every world of every run of the transfer protocol. */
module TransferTheorems {
  import opened AckWindow
  import opened Options
  import PayloadBytes
  import ReceiveModel
  import ReceiveSafety
  import ReceiveSteps
  import SendCallbacks
  import SendHistory
  import SendModel
  import SendSafety
  import opened TransferSystem
  import opened TransferTypes

  /** A world reached by some run. */
  ghost predicate Reached(worlds: seq<World>, events: seq<Event>, settings: Settings, w: World) {
    settings.Valid() && IsRun(worlds, events, settings) && w in worlds
  }

  lemma ReachedInv(worlds: seq<World>, events: seq<Event>, settings: Settings, w: World)
    requires Reached(worlds, events, settings, w)
    ensures Inv(w, settings)
  {
    var k :| 0 <= k < |worlds| && worlds[k] == w;
    RunKeeps(worlds, events, settings, k);
  }

  // ---- acknowledged means delivered

  lemma DeliveredAsLogged(w: World, settings: Settings, n: nat)
    requires Inv(w, settings) && n in Delivered(w.receivers)
    ensures n < |w.send.flight.log| && w.send.flight.log[n].contract.Some?
    ensures DeliveredAs(w.receivers, n, w.send.flight.log[n].frames, w.send.flight.log[n].contract.value.contractId)
  {
    var i, k :| 0 <= i < |w.receivers| && 0 <= k < |w.receivers[i].deliveries|
                && w.receivers[i].deliveries[k].sequenceNumber == n;
    assert ReceiveSafety.DeliveryOk(w.receivers[i].deliveries[k], w.send.flight.log);
  }

  /**
   A caller is told that a pack was acknowledged only after some receive sequence handed exactly the
   frames sent under that number to its callback, whatever the network and the receivers do. For a
   caller's pack these are the frame that came with the callback.
   */
  lemma AcknowledgedMeansDelivered(worlds: seq<World>, events: seq<Event>, settings: Settings, w: World,
                                   e: SendModel.CallbackEvent)
    requires Reached(worlds, events, settings, w) && e in w.send.callbacks && e.Acked?
    ensures e.sequenceNumber < |w.send.flight.log|
    ensures var entry := w.send.flight.log[e.sequenceNumber];
            && entry.callback == e.callback && entry.contract.Some?
            && DeliveredAs(w.receivers, e.sequenceNumber, entry.frames, entry.contract.value.contractId)
            && (e.callback.UserCallback? ==>
                  exists p <- w.send.accepted ::
                    && p.callback == e.callback.pack
                    && DeliveredAs(w.receivers, e.sequenceNumber, [p.frame], entry.contract.value.contractId))
  {
    ReachedInv(worlds, events, settings, w);
    ReachedHistory(worlds, events, settings, w);
    var i :| 0 <= i < |w.send.callbacks| && w.send.callbacks[i] == e;
    assert SendSafety.EventOk(w.send.callbacks[i], w.send.flight.log, Delivered(w.receivers));
    DeliveredAsLogged(w, settings, e.sequenceNumber);
    SendHistory.OrderedIsFrom(w.send);
    assert SendHistory.EntryFrom(w.send.flight.log[e.sequenceNumber], w.send.accepted);
  }

  // ---- what the history records

  ghost predicate HistoryInv(s: SendModel.SendState) {
    && SendHistory.FromAccepted(s) && SendHistory.NoAcksFollow(s.flight.written, s.flight.log, s.callbacks)
    && (Active(s) ==> SendHistory.AckedBelow(s.callbacks, s.flight.Base()))
  }

  lemma HeadAckHistory(s: SendModel.SendState, id: Id, n: nat, time: int, min: nat, delivered: set<nat>)
    requires 1 <= min && SendSafety.Inv(s, min, 0, delivered) && s.status.Running? && HistoryInv(s)
    requires SendSafety.Below(n + 1, delivered) && n < |s.flight.log| && s.flight.log[n].messageId == id
    requires SendModel.ReceiveAck(s, id, false, time).status == s.status
    ensures HistoryInv(SendModel.ReceiveAck(s, id, false, time))
  {
    if id in s.flight.resendQueue {
      var t := SendModel.ReceiveAck(s, id, false, time);
      SendSafety.QueuedNumber(s.flight, id, n);
      SendHistory.AckThroughHistory(s, n, min, delivered);
      SendHistory.NoAcksStay(s.flight.written, t.flight.written, s.flight.log, t.flight.log, s.callbacks, t.callbacks);
    }
  }

  lemma AppliedHistory(w: World, selective: seq<Id>, time: int, settings: Settings)
    requires settings.Valid() && Inv(w, settings) && Enabled(w, AcksApplied(selective, time), settings)
    requires HistoryInv(w.send)
    ensures HistoryInv(ApplyAcks(w, selective, time).send)
  {
    var min, d, snapshot := settings.send.minMessageByteCount, Delivered(w.receivers), SnapshotOf(w.sendWindow);
    var s := w.send;
    assert w.send.(fault := None) == w.send;
    if 0 < snapshot.ackUpdateCount && snapshot.headAck.Some? {
      var h := w.sendWindow.headAck.value;
      HeadAckKeeps(w.send, w.sendWindow, time, min, d);
      HeadAckHistory(w.send, h.messageId, h.sequenceNumber, time, min, d);
      s := SendModel.ReceiveAck(w.send, h.messageId, false, time);
    }
    SelectiveKeeps(s, selective, time, min, d);
    RequeuedHistory(s, ApplyAcks(w, selective, time).send.flight.resendQueue);
  }

  /** Timers are no part of the history. */
  lemma RequeuedHistory(s: SendModel.SendState, queue: map<Id, SendModel.ResendItem>)
    requires HistoryInv(s)
    ensures HistoryInv(s.(flight := s.flight.(resendQueue := queue)))
  {
    var t := s.(flight := s.flight.(resendQueue := queue));
    SendHistory.SameHistory(s, t);
  }

  lemma StepHistory(w: World, e: Event, settings: Settings)
    requires settings.Valid() && Inv(w, settings) && Enabled(w, e, settings) && HistoryInv(w.send)
    ensures HistoryInv(Step(w, e, settings).send)
  {
    match e
    case PackAccepted(p) => SendHistory.AcceptHistory(w.send, p);
    case PackSent(offers, write) =>
      SendHistory.SendNextHistory(w.send, settings.send, offers, write);
      SendHistory.SendNextFollows(w.send, settings.send, offers, write);
    case PackResent(id, time) =>
      var i := SendSafety.QueuedItem(w.send.flight, w.send.books.contracts, Delivered(w.receivers), id);
      SendHistory.ResendHistory(w.send, id, time);
    case AcksApplied(selective, time) => AppliedHistory(w, selective, time, settings);
    case SenderExits(drained) => SendHistory.EndHistory(w.send, drained);
    case SenderCloses => SendHistory.EndHistory(w.send, []);
    case _ => assert Step(w, e, settings).send == w.send;
  }

  lemma {:induction false} RunHistory(worlds: seq<World>, events: seq<Event>, settings: Settings, k: nat)
    requires settings.Valid() && IsRun(worlds, events, settings) && k < |worlds|
    ensures HistoryInv(worlds[k].send)
  {
    if k == 0 {
      assert SendHistory.Ordered([], [], 0, []);
    } else {
      RunHistory(worlds, events, settings, k - 1);
      RunKeeps(worlds, events, settings, k - 1);
      StepHistory(worlds[k-1], events[k-1], settings);
    }
  }

  lemma ReachedHistory(worlds: seq<World>, events: seq<Event>, settings: Settings, w: World)
    requires Reached(worlds, events, settings, w)
    ensures HistoryInv(w.send)
  {
    var k :| 0 <= k < |worlds| && worlds[k] == w;
    RunHistory(worlds, events, settings, k);
  }

  /** Every cumulative ack on the wire and every head pack prove that all earlier packs were delivered. */
  lemma WireProvesDelivery(worlds: seq<World>, events: seq<Event>, settings: Settings, w: World)
    requires Reached(worlds, events, settings, w)
    ensures forall a, n: nat | a in w.acks && !a.selective && n < |w.send.flight.log|
                               && w.send.flight.log[n].messageId == a.messageId ::
              SendSafety.Below(n + 1, Delivered(w.receivers))
    ensures forall p | p in w.send.flight.written && p.head ::
              SendSafety.Below(p.sequenceNumber, Delivered(w.receivers)) && p.contractFrame.Some?
  {
    ReachedInv(worlds, events, settings, w);
    var d, log := Delivered(w.receivers), w.send.flight.log;
    SenderPromises(w.send, settings.send.minMessageByteCount, d);
    forall a, n: nat | a in w.acks && !a.selective && n < |log| && log[n].messageId == a.messageId
      ensures SendSafety.Below(n + 1, d)
    {
      assert AckOnWire(a, log, d);
      var m: nat :| ReceiveSafety.AckOk(a.messageId, m, log, d);
      assert m == n;
    }
    forall p | p in w.send.flight.written && p.head
      ensures SendSafety.Below(p.sequenceNumber, d) && p.contractFrame.Some?
    {
      assert SendSafety.WirePack(p, log, d);
    }
  }

  // ---- in order and gap-free

  /** One receive sequence delivers increasing numbers, each at most once, and skips only to a head. */
  lemma DeliveredInOrder(worlds: seq<World>, events: seq<Event>, settings: Settings, w: World, i: nat)
    requires Reached(worlds, events, settings, w) && i < |w.receivers|
    ensures var ds := w.receivers[i].deliveries;
            && (forall j, k | 0 <= j < k < |ds| :: ds[j].sequenceNumber < ds[k].sequenceNumber)
            && (forall k | 0 < k < |ds| :: ds[k].sequenceNumber != ds[k-1].sequenceNumber + 1 ==> ds[k].head)
            && (ds != [] && ds[0].sequenceNumber != 0 ==> ds[0].head)
  {
    ReachedInv(worlds, events, settings, w);
    var ds := w.receivers[i].deliveries;
    forall j, k | 0 <= j < k < |ds| ensures ds[j].sequenceNumber < ds[k].sequenceNumber {
      ReceiveSafety.NumbersIncrease(ds, j, k);
    }
    if ds != [] { ReceiveSafety.InOrderAt(ds, 0); }
    forall k | 0 < k < |ds| ensures ReceiveSafety.Follows(ds[k], ds[k-1].sequenceNumber) {
      ReceiveSafety.InOrderAt(ds, k);
    }
  }

  ghost predicate OfCaller(d: ReceiveModel.Delivery, log: ReceiveSafety.Log) {
    d.sequenceNumber < |log| && log[d.sequenceNumber].callback.UserCallback?
  }

  /** The callers' frames in the deliveries are those of accepted packs at ascending positions. */
  ghost predicate InOrderOf(ds: seq<ReceiveModel.Delivery>, log: ReceiveSafety.Log, accepted: seq<SendModel.SendPack>,
                            positions: seq<nat>)
  {
    && |positions| == |log|
    && (forall k | 0 <= k < |ds| && OfCaller(ds[k], log) ::
          positions[ds[k].sequenceNumber] < |accepted|
          && ds[k].frames == [accepted[positions[ds[k].sequenceNumber]].frame])
    && (forall j, k | 0 <= j < k < |ds| && OfCaller(ds[j], log) && OfCaller(ds[k], log) ::
          positions[ds[j].sequenceNumber] < positions[ds[k].sequenceNumber])
  }

  ghost predicate AllInOrderOf(receivers: seq<ReceiveModel.ReceiveState>, log: ReceiveSafety.Log,
                               accepted: seq<SendModel.SendPack>, positions: seq<nat>)
  {
    forall i | 0 <= i < |receivers| :: InOrderOf(receivers[i].deliveries, log, accepted, positions)
  }

  /**
   The packs in the channel are the ones accepted last, in order. The packs that were taken are numbered in
   the order in which they were accepted, and every receive sequence delivers the callers' frames in that order.
   */
  lemma DeliveredInOrderOfAcceptance(worlds: seq<World>, events: seq<Event>, settings: Settings, w: World)
    requires Reached(worlds, events, settings, w)
    ensures var s := w.send;
            && |s.packs| <= |s.accepted| && s.packs == s.accepted[|s.accepted| - |s.packs|..]
            && exists positions ::
                 && SendHistory.Ordered(s.flight.log, s.accepted, |s.accepted| - |s.packs|, positions)
                 && AllInOrderOf(w.receivers, s.flight.log, s.accepted, positions)
  {
    ReachedInv(worlds, events, settings, w);
    ReachedHistory(worlds, events, settings, w);
    var s := w.send;
    var positions :| SendHistory.Ordered(s.flight.log, s.accepted, SendHistory.Taken(s), positions);
    forall i | 0 <= i < |w.receivers|
      ensures InOrderOf(w.receivers[i].deliveries, s.flight.log, s.accepted, positions)
    {
      PositionsFollow(w.receivers[i].deliveries, s.flight.log, s.accepted, SendHistory.Taken(s), positions);
    }
    assert AllInOrderOf(w.receivers, s.flight.log, s.accepted, positions);
  }

  lemma PositionsFollow(ds: seq<ReceiveModel.Delivery>, log: ReceiveSafety.Log, accepted: seq<SendModel.SendPack>,
                        taken: int, positions: seq<nat>)
    requires ReceiveSafety.DeliveriesInv(ds, log) && SendHistory.Ordered(log, accepted, taken, positions)
    ensures InOrderOf(ds, log, accepted, positions)
  {
    forall k | 0 <= k < |ds| && OfCaller(ds[k], log)
      ensures positions[ds[k].sequenceNumber] < |accepted|
      ensures ds[k].frames == [accepted[positions[ds[k].sequenceNumber]].frame]
    {
      assert ReceiveSafety.DeliveryOk(ds[k], log);
      assert SendHistory.AtPosition(log[ds[k].sequenceNumber], accepted, taken, positions[ds[k].sequenceNumber]);
    }
    forall j, k | 0 <= j < k < |ds| && OfCaller(ds[j], log) && OfCaller(ds[k], log)
      ensures positions[ds[j].sequenceNumber] < positions[ds[k].sequenceNumber]
    {
      ReceiveSafety.NumbersIncrease(ds, j, k);
    }
  }

  /** The numbers are exactly 0, 1, 2, ... */
  ghost predicate Gapless(deliveries: seq<ReceiveModel.Delivery>) {
    forall j | 0 <= j < |deliveries| :: deliveries[j].sequenceNumber == j
  }

  ghost predicate OnlyOne(w: World) {
    |w.receivers| <= 1 ==> forall i | 0 <= i < |w.receivers| :: Gapless(w.receivers[i].deliveries)
  }

  /** With one gapless sequence, "delivered" is a prefix of the numbers. */
  lemma PrefixDelivered(r: ReceiveModel.ReceiveState, n: nat)
    requires Gapless(r.deliveries) && SendSafety.Below(n, Delivered([r]))
    ensures n <= |r.deliveries|
  {
    if |r.deliveries| < n { NotDelivered(r, |r.deliveries|); }
  }

  /** What a step of one receiver adds to its deliveries. */
  lemma AtMostOneMore(s: ReceiveModel.ReceiveState, item: ReceiveModel.ReceiveItem, settings: ReceiveModel.ReceiveSettings)
    ensures var t := ReceiveModel.Consume(s, item, settings);
            || t.deliveries == s.deliveries
            || (|t.deliveries| == |s.deliveries| + 1 && s.deliveries <= t.deliveries
                && t.deliveries[|s.deliveries|].sequenceNumber == item.sequenceNumber)
  {
  }

  /** A gapless sequence stays gapless as long as no head is ahead of it. */
  lemma ReceiveGapless(s: ReceiveModel.ReceiveState, pack: Pack, settings: ReceiveModel.ReceiveSettings)
    requires Gapless(s.deliveries) && s.nextSequenceNumber == |s.deliveries|
    requires pack.head ==> pack.sequenceNumber <= |s.deliveries|
    ensures ReceiveModel.Jumped(s, ReceiveModel.ItemOf(pack)) == s.nextSequenceNumber
    ensures Gapless(ReceiveModel.Receive(s, pack, settings).deliveries)
  {
    var item := ReceiveModel.ItemOf(pack);
    AtMostOneMore(s.(nextSequenceNumber := s.nextSequenceNumber + 1,
                     receiveQueue := ReceiveModel.Replaced(s.receiveQueue, item)), item, settings);
  }

  lemma DrainGapless(s: ReceiveModel.ReceiveState, id: Id, settings: ReceiveModel.ReceiveSettings)
    requires Gapless(s.deliveries) && s.nextSequenceNumber == |s.deliveries| && id in s.receiveQueue
    ensures Gapless(ReceiveModel.Drain(s, id, settings).deliveries)
  {
    AtMostOneMore(s.(receiveQueue := s.receiveQueue - {id}), s.receiveQueue[id], settings);
  }

  lemma NackGapless(s: ReceiveModel.ReceiveState, pack: Pack, settings: ReceiveModel.ReceiveSettings)
    ensures ReceiveModel.ReceiveNack(s, pack, settings).deliveries == s.deliveries
  {
  }

  /** What is known of the only receiver, if it is alive. */
  lemma OnlyReceiver(w: World, settings: Settings, r: ReceiveModel.ReceiveState)
    requires Inv(w, settings) && w.receivers == [r] && Gapless(r.deliveries) && r.alive
    ensures r.nextSequenceNumber == |r.deliveries|
    ensures forall p | p in w.send.flight.written && p.head :: p.sequenceNumber <= |r.deliveries|
  {
    assert w.receivers[0] == r;
    SenderPromises(w.send, settings.send.minMessageByteCount, Delivered([r]));
    forall p | p in w.send.flight.written && p.head ensures p.sequenceNumber <= |r.deliveries| {
      assert SendSafety.WirePack(p, w.send.flight.log, Delivered([r]));
      PrefixDelivered(r, p.sequenceNumber);
    }
  }

  lemma SingleStep(w: World, e: Event, settings: Settings)
    requires settings.Valid() && Inv(w, settings) && Enabled(w, e, settings) && OnlyOne(w)
    ensures OnlyOne(Step(w, e, settings))
  {
    if |w.receivers| == 1 && (e.PackArrives? || e.QueueDrained?) {
      var s := w.receivers[0];
      assert w.receivers == [s] && e.i == 0;
      OnlyReceiver(w, settings, s);
      if e.QueueDrained? {
        DrainGapless(s, e.messageId, settings.receive);
      } else if e.pack.nack {
        NackGapless(s, e.pack, settings.receive);
      } else {
        ReceiveGapless(s, e.pack, settings.receive);
      }
    }
  }

  lemma {:induction false} SingleRun(worlds: seq<World>, events: seq<Event>, settings: Settings, k: nat)
    requires settings.Valid() && IsRun(worlds, events, settings) && k < |worlds|
    ensures OnlyOne(worlds[k])
  {
    if k != 0 {
      SingleRun(worlds, events, settings, k - 1);
      RunKeeps(worlds, events, settings, k - 1);
      SingleStep(worlds[k-1], events[k-1], settings);
    }
  }

  /** A receiver that was never recreated delivers 0, 1, 2, ... without a gap. */
  lemma NeverRecreatedIsGapless(worlds: seq<World>, events: seq<Event>, settings: Settings, w: World)
    requires Reached(worlds, events, settings, w) && |w.receivers| == 1
    ensures Gapless(w.receivers[0].deliveries)
    ensures w.receivers[0].alive ==> |w.receivers[0].deliveries| == w.receivers[0].nextSequenceNumber
  {
    var k :| 0 <= k < |worlds| && worlds[k] == w;
    SingleRun(worlds, events, settings, k);
    ReachedInv(worlds, events, settings, w);
  }

  /** With one receive sequence, never recreated, no pack that can arrive makes it jump. */
  lemma HeadNeverJumps(worlds: seq<World>, events: seq<Event>, settings: Settings, w: World, p: Pack)
    requires Reached(worlds, events, settings, w) && |w.receivers| == 1
    requires Enabled(w, PackArrives(0, p), settings) && !p.nack
    ensures ReceiveModel.Jumped(w.receivers[0], ReceiveModel.ItemOf(p)) == w.receivers[0].nextSequenceNumber
  {
    NeverRecreatedIsGapless(worlds, events, settings, w);
    ReachedInv(worlds, events, settings, w);
    assert w.receivers == [w.receivers[0]];
    OnlyReceiver(w, settings, w.receivers[0]);
  }

  // ---- contracts on both ends

  /**
   Every acked pack is charged by the receiver to the contract the sender debited for it. In a live
   sequence the debits of a contract are covered by the sender's plus the no-ack charges.
   */
  lemma BothEndsCharge(worlds: seq<World>, events: seq<Event>, settings: Settings, w: World, i: nat)
    requires Reached(worlds, events, settings, w) && i < |w.receivers|
    ensures var r, log := w.receivers[i], w.send.flight.log;
            && (forall k | 0 <= k < |r.deliveries| ::
                  && r.deliveries[k].sequenceNumber < |log| && log[r.deliveries[k].sequenceNumber].contract.Some?
                  && r.deliveries[k].contractId == log[r.deliveries[k].sequenceNumber].contract.value.contractId)
            && !r.badAccounting
    ensures var r, min := w.receivers[i], settings.send.minMessageByteCount;
            r.alive ==>
              forall c | c in r.books.openReceiveContracts ::
                && r.books.openReceiveContracts[c].Used()
                   <= SendSafety.LogCharge(min, w.send.flight.log, c, |w.send.flight.log|)
                      + ReceiveSafety.NoAckCharge(r.books, c)
                && (Active(w.send) && c in w.send.books.openSendContracts ==>
                      r.books.openReceiveContracts[c].Used()
                      <= w.send.books.openSendContracts[c].Used() + ReceiveSafety.NoAckCharge(r.books, c))
  {
    ReachedInv(worlds, events, settings, w);
    var r, log, min := w.receivers[i], w.send.flight.log, settings.send.minMessageByteCount;
    forall k | 0 <= k < |r.deliveries| ensures ReceiveSafety.DeliveryOk(r.deliveries[k], log) {
    }
    if r.alive {
      forall c | c in r.books.openReceiveContracts
        ensures r.books.openReceiveContracts[c].Used()
             <= SendSafety.LogCharge(min, log, c, |log|) + ReceiveSafety.NoAckCharge(r.books, c)
        ensures Active(w.send) && c in w.send.books.openSendContracts ==>
                  SendSafety.LogCharge(min, log, c, |log|) <= w.send.books.openSendContracts[c].Used()
      {
        ReceiveSafety.LogChargeMonotone(min, log, c, r.nextSequenceNumber, |log|);
        if Active(w.send) && c in w.send.books.openSendContracts {
          assert SendSafety.OpenOk(w.send.books.openSendContracts[c], min, w.send.flight.sendItems,
                                   w.send.books.dropped, log, 0);
        }
      }
    }
  }

  /** The number of the pack that a receiver event can consume. */
  ghost function Consumes(w: World, e: Event): nat
    requires e.PackArrives? || (e.QueueDrained? && e.i < |w.receivers| && e.messageId in w.receivers[e.i].receiveQueue)
  {
    if e.PackArrives? then e.pack.sequenceNumber else w.receivers[e.i].receiveQueue[e.messageId].sequenceNumber
  }

  /**
   The receiver's contract check never fails on acked traffic: a pack ends a receive sequence only
   if a no-ack pack had been charged to that pack's contract before.
   */
  lemma CheckFailsOnlyOnNoAck(worlds: seq<World>, events: seq<Event>, settings: Settings, w: World, e: Event)
    requires Reached(worlds, events, settings, w) && Enabled(w, e, settings)
    requires e.PackArrives? || e.QueueDrained?
    requires w.receivers[e.i].alive && !Step(w, e, settings).receivers[e.i].alive
    ensures var n, log := Consumes(w, e), w.send.flight.log;
            && n < |log| && log[n].contract.Some?
            && 0 < ReceiveSafety.NoAckCharge(w.receivers[e.i].books, log[n].contract.value.contractId)
  {
    ReachedInv(worlds, events, settings, w);
    var s, d, log := w.receivers[e.i], Delivered(w.receivers), w.send.flight.log;
    SenderPromises(w.send, settings.send.minMessageByteCount, d);
    var contracts := w.send.books.contracts;
    if e.QueueDrained? {
      ReceiveSteps.DrainFailsOnlyOnNoAck(s, e.messageId, settings.receive, contracts, log, d);
    } else if e.pack.nack {
      ReceiveSteps.NackNeverFails(s, e.pack, settings.receive, contracts, log, d);
    } else {
      ReceiveSteps.ReceiveFailsOnlyOnNoAck(s, e.pack, settings.receive, contracts, log, d);
    }
  }

  /**
   The sender's books: no panic but the one for a pack that is too large, no contract used beyond
   its effective size, unacked bytes are exactly the pending and the failed no-ack packs and cover the
   pending message bytes, no contract carries more message bytes than it has, the contract of every pending
   item is open, and each accepted contract is closed exactly once.
   */
  lemma SenderConserves(worlds: seq<World>, events: seq<Event>, settings: Settings, w: World)
    requires Reached(worlds, events, settings, w)
    ensures w.send.fault.Some? ==> w.send.fault.value.MessageTooLarge? && !w.send.status.Running?
    ensures Active(w.send) ==>
              var b, f, min := w.send.books, w.send.flight, settings.send.minMessageByteCount;
              && (forall c | c in b.openSendContracts ::
                    var k := b.openSendContracts[c];
                    && k.Used() <= k.effectiveByteCount <= k.contract.transferByteCount
                    && k.unackedByteCount == SendSafety.PendingCharge(min, f.sendItems, c)
                                             + SendSafety.DroppedCharge(min, b.dropped, c)
                    && PayloadBytes.PendingBytes(f.sendItems, c) <= k.unackedByteCount)
              && (forall x | x in f.sendItems :: x.contractId.Some? && x.contractId.value in b.openSendContracts)
    ensures forall c | c in w.send.books.contracts ::
              && w.send.books.contracts[c].contractId == c
              && PayloadBytes.LogBytes(w.send.flight.log, c, |w.send.flight.log|)
                 <= w.send.books.contracts[c].transferByteCount
    ensures forall c :: w.send.books.closedContracts[c]
              == if c in w.send.books.contracts && c !in w.send.books.openSendContracts then 1 else 0
    ensures !Active(w.send) ==> forall c | c in w.send.books.contracts :: w.send.books.closedContracts[c] == 1
  {
    ReachedInv(worlds, events, settings, w);
    var b, f, min := w.send.books, w.send.flight, settings.send.minMessageByteCount;
    if Active(w.send) {
      forall c | c in b.openSendContracts
        ensures SendSafety.OpenOk(b.openSendContracts[c], min, f.sendItems, b.dropped, f.log, 0)
        ensures b.openSendContracts[c].contract.contractId == c
      {
        assert SendSafety.ReservedFor(b.sendContract, 0, c) == 0;
      }
      forall c | c in b.openSendContracts
        ensures PayloadBytes.PendingBytes(f.sendItems, c) <= b.openSendContracts[c].unackedByteCount
      {
        PayloadBytes.PendingIsCharged(min, f.sendItems, c);
      }
    }
    forall c | c in b.contracts ensures PayloadBytes.LogBytes(f.log, c, |f.log|) <= b.contracts[c].transferByteCount {
      PayloadBytes.LogIsCharged(min, f.log, c, |f.log|);
    }
  }

  // ---- the sender's two lists, and its callbacks

  /**
   While the sender runs, the resend queue and the pending items are the same items, and the pending
   items are the contiguous run of numbers that ends at the last one given out. Everything not yet
   delivered by anyone is pending: a selective ack and an eviction lose nothing.
   */
  lemma PendingIsWhatIsMissing(worlds: seq<World>, events: seq<Event>, settings: Settings, w: World)
    requires Reached(worlds, events, settings, w) && Active(w.send)
    ensures var f := w.send.flight;
            && (forall i | 0 <= i < |f.sendItems| ::
                  && f.sendItems[i].sequenceNumber == f.nextSequenceNumber - |f.sendItems| + i
                  && f.sendItems[i].messageId in f.resendQueue
                  && f.resendQueue[f.sendItems[i].messageId].item == f.sendItems[i])
            && (forall id | id in f.resendQueue :: f.resendQueue[id].item in f.sendItems)
            && (forall n: nat | n < f.nextSequenceNumber && n !in Delivered(w.receivers) ::
                  f.Base() <= n && f.sendItems[n - f.Base()].sequenceNumber == n)
  {
    ReachedInv(worlds, events, settings, w);
    var f := w.send.flight;
    SendSafety.PendingIsQueued(f, w.send.books.contracts, Delivered(w.receivers));
    forall n: nat | n < f.nextSequenceNumber && n !in Delivered(w.receivers)
      ensures f.Base() <= n && f.sendItems[n - f.Base()].sequenceNumber == n
    {
      PendingAt(f, w.send.books.contracts, Delivered(w.receivers), n);
    }
    PendingRun(f, w.send.books.contracts, Delivered(w.receivers));
  }

  lemma PendingRun(f: SendModel.Flight, contracts: map<Id, Contract>, delivered: set<nat>)
    requires SendSafety.FlightInv(f, contracts, delivered)
    ensures forall i | 0 <= i < |f.sendItems| ::
              && f.sendItems[i].sequenceNumber == f.nextSequenceNumber - |f.sendItems| + i
              && f.sendItems[i].messageId in f.resendQueue
              && f.resendQueue[f.sendItems[i].messageId].item == f.sendItems[i]
  {
    forall i | 0 <= i < |f.sendItems|
      ensures SendSafety.ItemMatches(f.sendItems[i], f.log, |f.log| - |f.sendItems| + i)
      ensures SendSafety.ResendMatches(f.resendQueue[f.sendItems[i].messageId], f.sendItems[i], f.written)
    {
    }
  }

  lemma NotDelivered(r: ReceiveModel.ReceiveState, n: nat)
    requires Gapless(r.deliveries) && |r.deliveries| <= n
    ensures n !in Delivered([r])
  {
  }

  /** The pending item with a given number, and its place in the queue. */
  lemma PendingAt(f: SendModel.Flight, contracts: map<Id, Contract>, delivered: set<nat>, n: nat)
    requires SendSafety.FlightInv(f, contracts, delivered) && n < f.nextSequenceNumber && n !in delivered
    ensures f.Base() <= n && f.sendItems[n - f.Base()].sequenceNumber == n
    ensures f.log[n].messageId in f.resendQueue
    ensures f.resendQueue[f.log[n].messageId].item == f.sendItems[n - f.Base()]
  {
    var j := n - f.Base();
    assert SendSafety.ItemMatches(f.sendItems[j], f.log, |f.log| - |f.sendItems| + j);
    assert SendSafety.ResendMatches(f.resendQueue[f.sendItems[j].messageId], f.sendItems[j], f.written);
  }

  /** A receiver that was never recreated queues, and so evicts, only items the sender still holds. */
  lemma QueuedIsPending(worlds: seq<World>, events: seq<Event>, settings: Settings, w: World, id: Id)
    requires Reached(worlds, events, settings, w) && Active(w.send) && |w.receivers| == 1 && w.receivers[0].alive
    requires id in w.receivers[0].receiveQueue
    requires w.receivers[0].nextSequenceNumber <= w.receivers[0].receiveQueue[id].sequenceNumber
    ensures id in w.send.flight.resendQueue
    ensures w.send.flight.resendQueue[id].item.sequenceNumber == w.receivers[0].receiveQueue[id].sequenceNumber
  {
    var f, r := w.send.flight, w.receivers[0];
    var n := r.receiveQueue[id].sequenceNumber;
    ReachedInv(worlds, events, settings, w);
    NeverRecreatedIsGapless(worlds, events, settings, w);
    NotDelivered(r, n);
    assert w.receivers == [r];
    assert ReceiveSafety.QueuedOk(r.receiveQueue[id], f.log);
    PendingAt(f, w.send.books.contracts, Delivered(w.receivers), n);
  }

  /**
   What any receiver queues, and so may evict, is still held by the sender if and only if its callback
   was not called after an ack, and it is held in any case while nobody has delivered it. A recreated
   receiver can queue a late copy of a pack that an earlier one delivered.
   */
  lemma QueuedIsHeldUnlessAcked(worlds: seq<World>, events: seq<Event>, settings: Settings, w: World, i: nat, id: Id)
    requires Reached(worlds, events, settings, w) && Active(w.send) && i < |w.receivers| && w.receivers[i].alive
    requires id in w.receivers[i].receiveQueue
    ensures var n := w.receivers[i].receiveQueue[id].sequenceNumber;
            && (id in w.send.flight.resendQueue <==> !SendHistory.IsAcked(w.send.callbacks, n))
            && (n !in Delivered(w.receivers) ==> id in w.send.flight.resendQueue)
  {
    ReachedInv(worlds, events, settings, w);
    ReachedHistory(worlds, events, settings, w);
    var n := w.receivers[i].receiveQueue[id].sequenceNumber;
    assert ReceiveSafety.QueuedOk(w.receivers[i].receiveQueue[id], w.send.flight.log);
    HeldFromBase(w.send.flight, w.send.books.contracts, Delivered(w.receivers), id, n);
  }

  lemma HeldFromBase(f: SendModel.Flight, contracts: map<Id, Contract>, delivered: set<nat>, id: Id, n: nat)
    requires SendSafety.FlightInv(f, contracts, delivered) && n < |f.log| && f.log[n].messageId == id
    ensures id in f.resendQueue <==> f.Base() <= n
    ensures n !in delivered ==> id in f.resendQueue
  {
    if id in f.resendQueue {
      var j := SendSafety.QueuedItem(f, contracts, delivered, id);
      assert f.log[f.Base() + j].messageId == f.log[n].messageId;
    }
    if f.Base() <= n {
      assert SendSafety.ItemMatches(f.sendItems[n - f.Base()], f.log, |f.log| - |f.sendItems| + (n - f.Base()));
      PendingRun(f, contracts, delivered);
    }
    if n !in delivered {
      PendingAt(f, contracts, delivered, n);
    }
  }

  /**
   The queue of a receiver has one first and one last item, so the model takes out the item at the root of
   the program's heap, whichever way the heap breaks ties.
   */
  lemma QueueEndsAreUnique(worlds: seq<World>, events: seq<Event>, settings: Settings, w: World, i: nat, a: Id, b: Id)
    requires Reached(worlds, events, settings, w) && i < |w.receivers| && w.receivers[i].alive
    ensures var queue := w.receivers[i].receiveQueue;
            && (ReceiveModel.IsFirst(queue, a) && ReceiveModel.IsFirst(queue, b) ==> a == b)
            && (ReceiveModel.IsLast(queue, a) && ReceiveModel.IsLast(queue, b) ==> a == b)
  {
    ReachedInv(worlds, events, settings, w);
    var queue, log := w.receivers[i].receiveQueue, w.send.flight.log;
    forall id | id in queue ensures log[queue[id].sequenceNumber].messageId == id {
      assert ReceiveSafety.QueuedOk(queue[id], log);
    }
  }

  /** The reorder buffer of every receiver is bounded in every world. */
  lemma BufferBounded(worlds: seq<World>, events: seq<Event>, settings: Settings, w: World, i: nat)
    requires Reached(worlds, events, settings, w) && i < |w.receivers|
    ensures ReceiveSteps.Bounded(w.receivers[i].receiveQueue, settings.receive.receiveQueueMaxByteCount)
  {
    ReachedInv(worlds, events, settings, w);
  }

  /**
   Once the sequence has closed, every accepted pack was called back exactly as often as it was
   accepted, except the one that was lost if the run loop panicked on a pack that is too large.
   */
  lemma CalledBackOnce(worlds: seq<World>, events: seq<Event>, settings: Settings, w: World)
    requires Reached(worlds, events, settings, w) && w.send.status.Closed?
    ensures forall u: nat :: SendCallbacks.EventCount(w.send.callbacks, u) + w.send.lost[u]
                             == SendCallbacks.PackCount(w.send.accepted, u)
    ensures w.send.lost == multiset{} <==> w.send.fault.None?
  {
    ReachedInv(worlds, events, settings, w);
    forall u: nat
      ensures SendCallbacks.EventCount(w.send.callbacks, u) + w.send.lost[u]
           == SendCallbacks.PackCount(w.send.accepted, u)
    {
      assert SendCallbacks.Conserved(w.send, u);
    }
  }

  /**
   A no-ack pack that names a contract is written only after the pack that introduced the contract was
   cumulatively acknowledged, hence delivered, so some receive sequence has registered it.
   */
  lemma NoAckAfterContract(worlds: seq<World>, events: seq<Event>, settings: Settings, w: World, p: Pack)
    requires Reached(worlds, events, settings, w) && p in w.send.flight.written && p.nack
    ensures p.contractId.Some?
    ensures exists n: nat ::
              && SendSafety.Introduced(w.send.flight.log, n, p.contractId.value)
              && SendHistory.IsAcked(w.send.callbacks, n)
              && DeliveredAs(w.receivers, n, w.send.flight.log[n].frames, p.contractId.value)
  {
    ReachedInv(worlds, events, settings, w);
    ReachedHistory(worlds, events, settings, w);
    assert SendHistory.ContractAcked(p, w.send.flight.log, w.send.callbacks);
    var n: nat :| SendHistory.IsAcked(w.send.callbacks, n)
                  && SendSafety.Introduced(w.send.flight.log, n, p.contractId.value);
    var e :| e in w.send.callbacks && e.Acked? && e.sequenceNumber == n;
    AcknowledgedMeansDelivered(worlds, events, settings, w, e);
  }
}
