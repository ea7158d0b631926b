/**
 What the steps of the transfer protocol achieve in every world of every run: a pack that arrives is answered,
 an answer takes the pack off the sender, and the oldest pack can always be delivered and acknowledged.
 */
module TransferProgress {
  import opened AckWindow
  import opened Options
  import PayloadBytes
  import ReceiveAnswers
  import ReceiveCharges
  import ReceiveModel
  import ReceiveSafety
  import ReceiveSteps
  import SendContracts
  import SendHistory
  import SendModel
  import SendProgress
  import SendSafety
  import SendSteps
  import opened TransferSystem
  import opened TransferTheorems
  import opened TransferTypes

  // ---- what also holds in every world

  /** No contract is open for nothing, and the current one is marked as soon as it is acked. */
  ghost predicate FlagsInv(s: SendModel.SendState) {
    && SendContracts.NoIdle(s.books)
    && (Active(s) ==> SendContracts.Marked(s.books, s.flight.log, s.flight.Base()))
  }

  ghost predicate ChargesInv(receivers: seq<ReceiveModel.ReceiveState>, settings: ReceiveModel.ReceiveSettings) {
    forall i | 0 <= i < |receivers| && receivers[i].alive :: ReceiveCharges.ChargesOk(receivers[i], settings)
  }

  ghost predicate NoAcksOk(r: ReceiveModel.ReceiveState, accepted: seq<SendModel.SendPack>) {
    forall k | 0 <= k < |r.noAckDeliveries| :: SendHistory.NoAckFrom(r.noAckDeliveries[k], accepted)
  }

  ghost predicate NoAcksInv(receivers: seq<ReceiveModel.ReceiveState>, accepted: seq<SendModel.SendPack>) {
    forall i | 0 <= i < |receivers| :: NoAcksOk(receivers[i], accepted)
  }

  ghost predicate MoreInv(w: World, settings: Settings) {
    FlagsInv(w.send) && ChargesInv(w.receivers, settings.receive) && NoAcksInv(w.receivers, w.send.accepted)
  }

  lemma AppliedFlags(w: World, selective: seq<Id>, time: int, settings: Settings)
    requires settings.Valid() && Inv(w, settings) && Enabled(w, AcksApplied(selective, time), settings)
    requires FlagsInv(w.send)
    ensures FlagsInv(ApplyAcks(w, selective, time).send)
    ensures ApplyAcks(w, selective, time).send.accepted == w.send.accepted
  {
    var min, d, snapshot := settings.send.minMessageByteCount, Delivered(w.receivers), SnapshotOf(w.sendWindow);
    var s := w.send;
    assert w.send.(fault := None) == w.send;
    if 0 < snapshot.ackUpdateCount && snapshot.headAck.Some? {
      var h := w.sendWindow.headAck.value;
      HeadAckKeeps(w.send, w.sendWindow, time, min, d);
      HeadFlags(w.send, h.messageId, h.sequenceNumber, time, min, d);
      s := SendModel.ReceiveAck(w.send, h.messageId, false, time);
    }
    SelectiveKeeps(s, selective, time, min, d);
  }

  lemma HeadFlags(s: SendModel.SendState, id: Id, n: nat, time: int, min: nat, delivered: set<nat>)
    requires 1 <= min && SendSafety.Inv(s, min, 0, delivered) && FlagsInv(s) && Active(s)
    requires SendSafety.Below(n + 1, delivered) && n < |s.flight.log| && s.flight.log[n].messageId == id
    ensures var t := SendModel.ReceiveAck(s, id, false, time);
            SendContracts.NoIdle(t.books) && SendContracts.Marked(t.books, t.flight.log, t.flight.Base())
            && t.accepted == s.accepted
  {
    if id in s.flight.resendQueue {
      SendSafety.QueuedNumber(s.flight, id, n);
      SendContracts.AckThroughNoIdle(s, n);
      SendContracts.AckThroughMarks(s, n, min, delivered);
      SameAccepted(s, n);
    }
  }

  lemma {:induction false} SameAccepted(s: SendModel.SendState, n: nat)
    ensures SendModel.AckThrough(s, n).accepted == s.accepted
    decreases |s.flight.sendItems|
  {
    var f := s.flight;
    if s.fault.None? && f.sendItems != [] && f.sendItems[0].sequenceNumber <= n
       && f.sendItems[0].messageId in f.resendQueue {
      SameAccepted(SendModel.AckOldest(s), n);
    }
  }

  lemma SentFlags(s: SendModel.SendState, settings: SendModel.SendSettings, offers: seq<SendModel.Offer>,
                  write: SendModel.Write, delivered: set<nat>)
    requires settings.Valid() && s.packs != [] && FlagsInv(s) && Active(s)
    requires SendSafety.Inv(s, settings.minMessageByteCount, 0, delivered) && SendSteps.FreshOffers(s, offers)
    ensures var t := SendModel.SendNext(s, settings, offers, write); FlagsInv(t) && t.accepted == s.accepted
  {
    var p, s0 := s.packs[0], s.(packs := s.packs[1..]);
    SendHistory.UpdateQuiet(s0, settings, |p.frame.messageBytes|, offers);
    SendContracts.SendNextNoIdle(s, settings, offers, write);
    SendContracts.SendNextMarks(s, settings, offers, write, delivered);
  }

  lemma ResentFlags(s: SendModel.SendState, id: Id, time: int)
    requires id in s.flight.resendQueue && FlagsInv(s)
    ensures var t := SendModel.Resend(s, id, time); FlagsInv(t) && t.accepted == s.accepted
  {
  }

  lemma EndFlags(s: SendModel.SendState, drained: seq<SendModel.SendItem>)
    requires FlagsInv(s)
    ensures FlagsInv(SendModel.Exit(s, drained)) && SendModel.Exit(s, drained).accepted == s.accepted
    ensures FlagsInv(SendModel.Close(s)) && SendModel.Close(s).accepted == s.accepted
  {
  }

  lemma AcceptFlags(s: SendModel.SendState, p: SendModel.SendPack)
    requires FlagsInv(s)
    ensures FlagsInv(SendModel.AcceptPack(s, p)) && s.accepted <= SendModel.AcceptPack(s, p).accepted
  {
  }

  /** Accepted packs stay accepted. */
  lemma StepFlags(w: World, e: Event, settings: Settings)
    requires settings.Valid() && Inv(w, settings) && Enabled(w, e, settings) && FlagsInv(w.send)
    ensures FlagsInv(Step(w, e, settings).send) && w.send.accepted <= Step(w, e, settings).send.accepted
  {
    match e
    case PackAccepted(p) => AcceptFlags(w.send, p);
    case PackSent(offers, write) =>
      assert w.send.(fault := None) == w.send;
      SentFlags(w.send, settings.send, offers, write, Delivered(w.receivers));
    case PackResent(id, time) => ResentFlags(w.send, id, time);
    case AcksApplied(selective, time) => AppliedFlags(w, selective, time, settings);
    case SenderExits(drained) => EndFlags(w.send, drained);
    case SenderCloses => EndFlags(w.send, []);
    case _ => assert Step(w, e, settings).send == w.send;
  }

  /** A receiver's step keeps its charges exact, and what it hands on without an ack was accepted that way. */
  lemma ReceiverMore(w: World, i: nat, r: ReceiveModel.ReceiveState, settings: Settings)
    requires MoreInv(w, settings) && i < |w.receivers|
    requires r.alive ==> ReceiveCharges.ChargesOk(r, settings.receive)
    requires NoAcksOk(r, w.send.accepted)
    ensures MoreInv(w.(receivers := w.receivers[i := r]), settings)
  {
  }

  lemma NoAcksAppend(r: ReceiveModel.ReceiveState, t: ReceiveModel.ReceiveState, frames: seq<Frame>,
                     accepted: seq<SendModel.SendPack>)
    requires NoAcksOk(r, accepted) && SendHistory.NoAckFrom(frames, accepted)
    requires t.noAckDeliveries == r.noAckDeliveries || t.noAckDeliveries == r.noAckDeliveries + [frames]
    ensures NoAcksOk(t, accepted)
  {
  }

  lemma NackArrivesMore(w: World, i: nat, pack: Pack, settings: Settings)
    requires settings.Valid() && Inv(w, settings) && Enabled(w, PackArrives(i, pack), settings) && MoreInv(w, settings)
    requires HistoryInv(w.send) && pack.nack
    ensures MoreInv(Step(w, PackArrives(i, pack), settings), settings)
  {
    var s, d, log := w.receivers[i], Delivered(w.receivers), w.send.flight.log;
    SenderPromises(w.send, settings.send.minMessageByteCount, d);
    ReceiveCharges.NackKeepsCharges(s, pack, settings.receive, w.send.books.contracts, log, d);
    ReceiveAnswers.NoAckIsDelivered(s, pack, settings.receive, w.send.books.contracts, log, d);
    NoAcksAppend(s, ReceiveModel.ReceiveNack(s, pack, settings.receive), pack.frames, w.send.accepted);
    ReceiverMore(w, i, ReceiveModel.ReceiveNack(s, pack, settings.receive), settings);
  }

  lemma ArrivesMore(w: World, i: nat, pack: Pack, settings: Settings)
    requires settings.Valid() && Inv(w, settings) && Enabled(w, PackArrives(i, pack), settings) && MoreInv(w, settings)
    requires !pack.nack
    ensures MoreInv(Step(w, PackArrives(i, pack), settings), settings)
  {
    var s, d, log := w.receivers[i], Delivered(w.receivers), w.send.flight.log;
    SenderPromises(w.send, settings.send.minMessageByteCount, d);
    ReceiveCharges.ReceiveKeepsCharges(s, pack, settings.receive, w.send.books.contracts, log, d);
    SameNoAcks(s, pack, settings.receive);
    ReceiverMore(w, i, ReceiveModel.Receive(s, pack, settings.receive), settings);
  }

  lemma SameNoAcks(s: ReceiveModel.ReceiveState, pack: Pack, settings: ReceiveModel.ReceiveSettings)
    ensures ReceiveModel.Receive(s, pack, settings).noAckDeliveries == s.noAckDeliveries
  {
  }

  lemma DrainedMore(w: World, i: nat, id: Id, settings: Settings)
    requires settings.Valid() && Inv(w, settings) && Enabled(w, QueueDrained(i, id), settings) && MoreInv(w, settings)
    ensures MoreInv(Step(w, QueueDrained(i, id), settings), settings)
  {
    var s, d, log := w.receivers[i], Delivered(w.receivers), w.send.flight.log;
    SenderPromises(w.send, settings.send.minMessageByteCount, d);
    ReceiveCharges.DrainKeepsCharges(s, id, settings.receive, w.send.books.contracts, log, d);
    ReceiveAnswers.DrainAnswers(s, id, settings.receive, w.send.books.contracts, log, d);
    ReceiverMore(w, i, ReceiveModel.Drain(s, id, settings.receive), settings);
  }

  lemma NoAcksMore(receivers: seq<ReceiveModel.ReceiveState>, accepted: seq<SendModel.SendPack>,
                   more: seq<SendModel.SendPack>)
    requires NoAcksInv(receivers, accepted) && accepted <= more
    ensures NoAcksInv(receivers, more)
  {
    forall i, k | 0 <= i < |receivers| && 0 <= k < |receivers[i].noAckDeliveries|
      ensures SendHistory.NoAckFrom(receivers[i].noAckDeliveries[k], more)
    {
      assert NoAcksOk(receivers[i], accepted);
      SendHistory.NoAckFromMore(receivers[i].noAckDeliveries[k], accepted, more);
    }
  }

  lemma StepMore(w: World, e: Event, settings: Settings)
    requires settings.Valid() && Inv(w, settings) && Enabled(w, e, settings)
    requires HistoryInv(w.send) && MoreInv(w, settings)
    ensures MoreInv(Step(w, e, settings), settings)
  {
    StepFlags(w, e, settings);
    match e
    case PackArrives(i, pack) =>
      if pack.nack { NackArrivesMore(w, i, pack, settings); } else { ArrivesMore(w, i, pack, settings); }
    case QueueDrained(i, id) => DrainedMore(w, i, id, settings);
    case ReceiverExits(i) => ReceiverMore(w, i, w.receivers[i].(alive := false), settings);
    case AcksWritten(i) => ReceiverMore(w, i, w.receivers[i].(window := Reset(w.receivers[i].window)), settings);
    case ReceiverCreated =>
    case _ =>
      NoAcksMore(w.receivers, w.send.accepted, Step(w, e, settings).send.accepted);
  }

  lemma {:induction false} RunMore(worlds: seq<World>, events: seq<Event>, settings: Settings, k: nat)
    requires settings.Valid() && IsRun(worlds, events, settings) && k < |worlds|
    ensures MoreInv(worlds[k], settings)
  {
    if k != 0 {
      RunMore(worlds, events, settings, k - 1);
      RunKeeps(worlds, events, settings, k - 1);
      RunHistory(worlds, events, settings, k - 1);
      StepMore(worlds[k-1], events[k-1], settings);
    }
  }

  lemma ReachedMore(worlds: seq<World>, events: seq<Event>, settings: Settings, w: World)
    requires Reached(worlds, events, settings, w)
    ensures MoreInv(w, settings)
  {
    var k :| 0 <= k < |worlds| && worlds[k] == w;
    RunMore(worlds, events, settings, k);
  }

  // ---- a pack that arrives

  /** What a receiver makes of a pack that is acknowledged. */
  ghost predicate Answered(s: ReceiveModel.ReceiveState, t: ReceiveModel.ReceiveState, p: Pack, log: ReceiveSafety.Log,
                           max: nat)
  {
    var item, n := ReceiveModel.ItemOf(p), p.sequenceNumber;
    && t.noAckDeliveries == s.noAckDeliveries
    && (if n < s.nextSequenceNumber then
          ReceiveAnswers.AcksAgain(s, t, n)
          && ReceiveAnswers.LeavesQueue(s.receiveQueue, t.receiveQueue, p.messageId, n)
        else if ReceiveAnswers.InTurn(s, item) then
          && n < |log| && log[n].contract.Some?
          && ReceiveAnswers.LeavesQueue(s.receiveQueue, t.receiveQueue, p.messageId, n)
          && (if t.alive then ReceiveAnswers.DeliversAndAcks(s, t, item, log)
              else t.deliveries == s.deliveries
                   && 0 < ReceiveSafety.NoAckCharge(s.books, log[n].contract.value.contractId))
        else
          ReceiveAnswers.QueuesAndAcks(s, t, item, max))
  }

  lemma ArrivalAnswer(w: World, i: nat, p: Pack, settings: Settings)
    requires settings.Valid() && Inv(w, settings) && Enabled(w, PackArrives(i, p), settings) && !p.nack
    ensures Answered(w.receivers[i], Step(w, PackArrives(i, p), settings).receivers[i], p, w.send.flight.log,
                     settings.receive.receiveQueueMaxByteCount)
  {
    var s, d, log := w.receivers[i], Delivered(w.receivers), w.send.flight.log;
    var contracts := w.send.books.contracts;
    SenderPromises(w.send, settings.send.minMessageByteCount, d);
    if p.sequenceNumber < s.nextSequenceNumber {
      ReceiveAnswers.PastIsAcked(s, p, settings.receive);
    } else if ReceiveAnswers.InTurn(s, ReceiveModel.ItemOf(p)) {
      ReceiveAnswers.InTurnIsDelivered(s, p, settings.receive, contracts, log, d);
      if !ReceiveModel.Receive(s, p, settings.receive).alive {
        ReceiveSteps.ReceiveFailsOnlyOnNoAck(s, p, settings.receive, contracts, log, d);
      }
    } else {
      ReceiveAnswers.AheadIsQueued(s, p, settings.receive);
    }
  }

  /**
   Every pack that arrives is answered. One from the past is acknowledged again; one in turn is delivered and
   acknowledged, unless a no-ack pack had used up its contract; one that is ahead is queued and acknowledged
   selectively if it fits beside the earlier ones.
   */
  lemma ArrivalIsAnswered(worlds: seq<World>, events: seq<Event>, settings: Settings, w: World, i: nat, p: Pack)
    requires Reached(worlds, events, settings, w) && Enabled(w, PackArrives(i, p), settings) && !p.nack
    ensures Answered(w.receivers[i], Step(w, PackArrives(i, p), settings).receivers[i], p, w.send.flight.log,
                     settings.receive.receiveQueueMaxByteCount)
  {
    ReachedInv(worlds, events, settings, w);
    ArrivalAnswer(w, i, p, settings);
  }

  /** The first queued item waits for its turn; then it is delivered and acknowledged like one that arrives. */
  lemma DrainedIsAnswered(worlds: seq<World>, events: seq<Event>, settings: Settings, w: World, i: nat, id: Id)
    requires Reached(worlds, events, settings, w) && Enabled(w, QueueDrained(i, id), settings)
    ensures var s, t, log := w.receivers[i], Step(w, QueueDrained(i, id), settings).receivers[i], w.send.flight.log;
            var item := s.receiveQueue[id];
            if s.nextSequenceNumber < item.sequenceNumber then t == s
            else
              && t.receiveQueue == s.receiveQueue - {id} && t.noAckDeliveries == s.noAckDeliveries
              && (if item.sequenceNumber < s.nextSequenceNumber then ReceiveAnswers.AcksAgain(s, t, item.sequenceNumber)
                  else if t.alive then ReceiveAnswers.DeliversAndAcks(s, t, item, log)
                  else t.deliveries == s.deliveries)
  {
    ReachedInv(worlds, events, settings, w);
    SenderPromises(w.send, settings.send.minMessageByteCount, Delivered(w.receivers));
    ReceiveAnswers.DrainAnswers(w.receivers[i], id, settings.receive, w.send.books.contracts, w.send.flight.log,
                                Delivered(w.receivers));
  }

  // ---- no-ack packs

  /** A no-ack pack hands on its frames if its contract is open with room, and otherwise changes nothing. */
  lemma NoAckArrives(worlds: seq<World>, events: seq<Event>, settings: Settings, w: World, i: nat, p: Pack)
    requires Reached(worlds, events, settings, w) && Enabled(w, PackArrives(i, p), settings) && p.nack
    ensures var s, t := w.receivers[i], Step(w, PackArrives(i, p), settings).receivers[i];
            if ReceiveAnswers.HasRoom(s.books, p.contractId, MessageByteCount(p.frames)) then
              t == s.(books := t.books, noAckDeliveries := s.noAckDeliveries + [p.frames])
            else t == s
    ensures SendHistory.NoAckFrom(p.frames, w.send.accepted)
  {
    ReachedInv(worlds, events, settings, w);
    ReachedHistory(worlds, events, settings, w);
    SenderPromises(w.send, settings.send.minMessageByteCount, Delivered(w.receivers));
    ReceiveAnswers.NoAckIsDelivered(w.receivers[i], p, settings.receive, w.send.books.contracts, w.send.flight.log,
                                    Delivered(w.receivers));
  }

  /** What is handed on without an ack is the frame of a pack that was accepted to be sent that way. */
  lemma NoAckDeliveriesWereAccepted(worlds: seq<World>, events: seq<Event>, settings: Settings, w: World, i: nat)
    requires Reached(worlds, events, settings, w) && i < |w.receivers|
    ensures forall k | 0 <= k < |w.receivers[i].noAckDeliveries| ::
              SendHistory.NoAckFrom(w.receivers[i].noAckDeliveries[k], w.send.accepted)
  {
    ReachedMore(worlds, events, settings, w);
    assert NoAcksOk(w.receivers[i], w.send.accepted);
  }

  // ---- contracts

  /**
   The used bytes of a contract that a receiver has open are exactly the charges of what it delivered under it,
   with and without an ack, so they cover the bytes handed on. A receiver never has more contracts open than
   its limit.
   */
  lemma ReceiverChargesAreExact(worlds: seq<World>, events: seq<Event>, settings: Settings, w: World, i: nat)
    requires Reached(worlds, events, settings, w) && i < |w.receivers| && w.receivers[i].alive
    ensures var b, ds, min := w.receivers[i].books, w.receivers[i].deliveries, settings.send.minMessageByteCount;
            forall c | c in b.openReceiveContracts ::
              && b.openReceiveContracts[c].Used()
                 == ReceiveCharges.DeliveredCharge(min, ds, c) + ReceiveSafety.NoAckCharge(b, c)
              && ReceiveCharges.DeliveredBytes(ds, c) <= b.openReceiveContracts[c].Used()
    ensures ReceiveCharges.OrderOk(w.receivers[i].books, settings.receive.maxOpenReceiveContract)
  {
    ReachedMore(worlds, events, settings, w);
    var b, ds, min := w.receivers[i].books, w.receivers[i].deliveries, settings.send.minMessageByteCount;
    assert ReceiveCharges.ChargesOk(w.receivers[i], settings.receive);
    forall c | c in b.openReceiveContracts
      ensures ReceiveCharges.DeliveredBytes(ds, c) <= ReceiveCharges.DeliveredCharge(min, ds, c)
    {
      ReceiveCharges.BytesAreCharged(min, ds, c);
    }
  }

  /**
   While the sender runs, its current contract is marked if and only if the pack that introduced it is
   acknowledged, and any other contract is open only while it has unacked bytes.
   */
  lemma ContractFlagsAreExact(worlds: seq<World>, events: seq<Event>, settings: Settings, w: World)
    requires Reached(worlds, events, settings, w) && Active(w.send)
    ensures var b := w.send.books;
            && (b.sendContractAcked <==>
                  b.sendContract.Some? && exists n: nat :: SendHistory.IsAcked(w.send.callbacks, n)
                                             && SendSafety.Introduced(w.send.flight.log, n, b.sendContract.value))
            && (forall c | c in b.openSendContracts && b.sendContract != Some(c) ::
                  0 < b.openSendContracts[c].unackedByteCount)
  {
    ReachedInv(worlds, events, settings, w);
    ReachedHistory(worlds, events, settings, w);
    ReachedMore(worlds, events, settings, w);
    var b, f := w.send.books, w.send.flight;
    if b.sendContractAcked {
      var n: nat :| n < f.Base() && SendSafety.Introduced(f.log, n, b.sendContract.value);
      assert SendHistory.IsAcked(w.send.callbacks, n);
    }
    if n: nat :| b.sendContract.Some? && SendHistory.IsAcked(w.send.callbacks, n)
                 && SendSafety.Introduced(f.log, n, b.sendContract.value) {
      assert n < f.Base();
      assert SendSafety.IntroducedBelow(f.log, f.Base(), b.sendContract.value);
    }
  }

  // ---- sending and resending

  /** A pack is sent if it fits the current contract or an offered one, and otherwise the sequence ends. */
  lemma PackIsSentExactlyWhenItFits(worlds: seq<World>, events: seq<Event>, settings: Settings, w: World,
                                    offers: seq<SendModel.Offer>, write: SendModel.Write)
    requires Reached(worlds, events, settings, w) && Enabled(w, PackSent(offers, write), settings)
    ensures var s, t := w.send, Step(w, PackSent(offers, write), settings).send;
            var p := s.packs[0];
            var byteCount := |p.frame.messageBytes|;
            && t.packs == s.packs[1..]
            && (if SendProgress.FitsSome(s, settings.send, byteCount, offers) then
                  t.status.Running? && t.lost == s.lost
                  && if SendProgress.GoesUnacked(s, byteCount, p.ack) then SendProgress.Unnumbered(s, t, p, write)
                     else SendProgress.Numbered(s, t, p, write)
                else
                  SendProgress.NotSent(s, t, p, SendModel.TooLarge(settings.send, byteCount)))
  {
    ReachedInv(worlds, events, settings, w);
    assert w.send.(fault := None) == w.send;
    SendProgress.SentExactlyWhenItFits(w.send, settings.send, offers, write, Delivered(w.receivers));
  }

  /** The oldest pending pack is resent as the head with its contract, and any other pack as it was. */
  lemma OldestIsResentAsHead(worlds: seq<World>, events: seq<Event>, settings: Settings, w: World, id: Id, time: int)
    requires Reached(worlds, events, settings, w) && Enabled(w, PackResent(id, time), settings)
    ensures var f := w.send.flight;
            && f.sendItems != [] && 0 <= f.Base() < |f.log|
            && SendProgress.ResentAs(f, Step(w, PackResent(id, time), settings).send.flight, id, time)
  {
    ReachedInv(worlds, events, settings, w);
    assert w.send.(fault := None) == w.send;
    SendProgress.OldestGoesOutAsHead(w.send, id, time, settings.send.minMessageByteCount, Delivered(w.receivers));
  }

  // ---- acks

  /** An ack of a pending item is kept until it is applied: itself, or a cumulative one that covers it. */
  lemma AckIsKept(worlds: seq<World>, events: seq<Event>, settings: Settings, w: World, a: Ack)
    requires Reached(worlds, events, settings, w) && Enabled(w, AckArrives(a), settings)
    ensures var f, w' := w.send.flight, Step(w, AckArrives(a), settings);
            && w' == w.(sendWindow := w'.sendWindow)
            && (if a.messageId in f.resendQueue then
                  ReceiveAnswers.Answers(w'.sendWindow,
                    SequenceAck(f.resendQueue[a.messageId].item.sequenceNumber, a.messageId, a.selective))
                else w' == w)
  {
    ReachedInv(worlds, events, settings, w);
    if a.messageId in w.send.flight.resendQueue {
      ReceiveAnswers.AckIsAnswered(w.sendWindow,
        SequenceAck(w.send.flight.resendQueue[a.messageId].item.sequenceNumber, a.messageId, a.selective));
    }
  }

  function Timed(queue: map<Id, SendModel.ResendItem>, ids: seq<Id>, time: int): map<Id, SendModel.ResendItem> {
    map id | id in queue :: if id in ids then queue[id].(resendTime := time) else queue[id]
  }

  /** Selective acks move the timers of the pending items they name. */
  lemma {:induction false} SelectiveIsTimed(s: SendModel.SendState, ids: seq<Id>, time: int)
    ensures ReceiveSelective(s, ids, time)
            == s.(flight := s.flight.(resendQueue := Timed(s.flight.resendQueue, ids, time)))
    decreases |ids|
  {
    if ids == [] {
      assert Timed(s.flight.resendQueue, [], time) == s.flight.resendQueue;
    } else {
      var s1 := SendModel.ReceiveAck(s, ids[0], true, time);
      SelectiveIsTimed(s1, ids[1..], time);
      TimedFirst(s.flight.resendQueue, s1.flight.resendQueue, ids, time);
    }
  }

  lemma TimedFirst(queue: map<Id, SendModel.ResendItem>, queue': map<Id, SendModel.ResendItem>, ids: seq<Id>, time: int)
    requires ids != []
    requires queue' == if ids[0] in queue then queue[ids[0] := queue[ids[0]].(resendTime := time)] else queue
    ensures Timed(queue', ids[1..], time) == Timed(queue, ids, time)
  {
    assert ids == [ids[0]] + ids[1..];
  }

  /** How many pending items the head of the sender's window covers. */
  ghost function Covered(w: World): nat {
    if 0 < w.sendWindow.ackUpdateCount && w.sendWindow.headAck.Some?
       && w.send.flight.Base() <= w.sendWindow.headAck.value.sequenceNumber
    then w.sendWindow.headAck.value.sequenceNumber + 1 - w.send.flight.Base() else 0
  }

  /** The items covered by the head are acknowledged oldest first, and the selective acks move their timers. */
  ghost predicate AppliedExactly(w: World, w': World, selective: seq<Id>, time: int) {
    var f, t, k := w.send.flight, w'.send.flight, Covered(w);
    && k <= |f.sendItems|
    && t == f.(sendItems := f.sendItems[k..],
               resendQueue := Timed(f.resendQueue - SendProgress.IdsOf(f.sendItems[..k]), selective, time))
    && w'.send.callbacks == w.send.callbacks + SendProgress.AckedEvents(f.sendItems[..k])
    && w' == w.(send := w'.send, sendWindow := Reset(w.sendWindow))
  }

  lemma AppliedIsExact(w: World, selective: seq<Id>, time: int, settings: Settings)
    requires settings.Valid() && Inv(w, settings) && Enabled(w, AcksApplied(selective, time), settings)
    ensures AppliedExactly(w, ApplyAcks(w, selective, time), selective, time)
  {
    assert w.send.(fault := None) == w.send;
    var s := w.send;
    if 0 < w.sendWindow.ackUpdateCount && w.sendWindow.headAck.Some? {
      HeadIsExact(w, time, settings);
      s := SendModel.ReceiveAck(w.send, w.sendWindow.headAck.value.messageId, false, time);
    } else {
      SendProgress.TookOffNone(w.send);
    }
    SelectiveIsTimed(s, selective, time);
  }

  /** The head of the window takes off what it covers; one that is not pending covers nothing. */
  lemma HeadIsExact(w: World, time: int, settings: Settings)
    requires settings.Valid() && Inv(w, settings) && Active(w.send) && w.send.fault.None?
    requires 0 < w.sendWindow.ackUpdateCount && w.sendWindow.headAck.Some?
    ensures var t := SendModel.ReceiveAck(w.send, w.sendWindow.headAck.value.messageId, false, time);
            SendProgress.TookOff(w.send, t, Covered(w))
  {
    var h, f, d := w.sendWindow.headAck.value, w.send.flight, Delivered(w.receivers);
    assert w.send.(fault := None) == w.send;
    SendProgress.AckIsExact(w.send, h.messageId, false, time, h.sequenceNumber, settings.send.minMessageByteCount, d);
    HeldFromBase(f, w.send.books.contracts, d, h.messageId, h.sequenceNumber);
    SendProgress.TookOffNone(w.send);
  }

  /** Applying the acks takes exactly the covered items off the pending ones. */
  lemma AcksAreApplied(worlds: seq<World>, events: seq<Event>, settings: Settings, w: World, selective: seq<Id>,
                       time: int)
    requires Reached(worlds, events, settings, w) && Enabled(w, AcksApplied(selective, time), settings)
    ensures AppliedExactly(w, Step(w, AcksApplied(selective, time), settings), selective, time)
  {
    ReachedInv(worlds, events, settings, w);
    AppliedIsExact(w, selective, time, settings);
  }

  // ---- progress

  /** A receiver with no state delivers and acknowledges whatever head it gets. */
  lemma NewReceiverDelivers(w: World, p: Pack, settings: Settings)
    requires settings.Valid() && Inv(w, settings) && p in w.send.flight.written && p.head && !p.nack
    requires 0 < |w.receivers| && w.receivers[|w.receivers|-1] == ReceiveModel.INITIAL
    ensures var r := Step(w, PackArrives(|w.receivers|-1, p), settings).receivers[|w.receivers|-1];
            r.alive && ReceiveAnswers.DeliversAndAcks(ReceiveModel.INITIAL, r, ReceiveModel.ItemOf(p), w.send.flight.log)
  {
    ArrivalAnswer(w, |w.receivers|-1, p, settings);
  }

  /** What an exchange of acks consists of. */
  function Exchange(i: nat, a: Ack, selective: seq<Id>, time: int): seq<Event> {
    [AcksWritten(i), AckArrives(a), AcksApplied(selective, time)]
  }

  lemma {:induction false} Listing(ids: set<Id>) returns (list: seq<Id>)
    ensures forall id :: id in list <==> id in ids
  {
    list := [];
    if ids != {} {
      var id :| id in ids;
      var rest := Listing(ids - {id});
      list := [id] + rest;
    }
  }

  /** The events are enabled one after another and lead to the world. */
  ghost predicate Leads(w: World, events: seq<Event>, settings: Settings, w': World)
    requires settings.Valid()
    decreases |events|
  {
    if events == [] then w' == w
    else Enabled(w, events[0], settings) && Leads(Step(w, events[0], settings), events[1..], settings, w')
  }

  lemma {:induction false} LeadsOn(w: World, events: seq<Event>, settings: Settings, w1: World, more: seq<Event>, w2: World)
    requires settings.Valid() && Leads(w, events, settings, w1) && Leads(w1, more, settings, w2)
    ensures Leads(w, events + more, settings, w2)
    decreases |events|
  {
    if events == [] {
      assert events + more == more;
    } else {
      LeadsOn(Step(w, events[0], settings), events[1..], settings, w1, more, w2);
      assert (events + more)[1..] == events[1..] + more;
    }
  }

  lemma LeadsThree(w: World, a: Event, b: Event, c: Event, settings: Settings)
    requires settings.Valid() && Enabled(w, a, settings) && Enabled(Step(w, a, settings), b, settings)
    requires Enabled(Step(Step(w, a, settings), b, settings), c, settings)
    ensures Leads(w, [a, b, c], settings, Step(Step(Step(w, a, settings), b, settings), c, settings))
  {
    var end := Step(Step(Step(w, a, settings), b, settings), c, settings);
    assert Leads(end, [], settings, end);
    assert [c][1..] == [] && Leads(Step(Step(w, a, settings), b, settings), [c], settings, end);
    assert [b, c][1..] == [c] && Leads(Step(w, a, settings), [b, c], settings, end);
    assert [a, b, c][1..] == [b, c];
  }

  /** What a receiver has to acknowledge takes one exchange to leave the pending items. */
  lemma ExchangeAcks(w: World, i: nat, n: nat, time: int, settings: Settings)
    returns (a: Ack, selective: seq<Id>, w': World)
    requires settings.Valid() && Inv(w, settings) && w.send.status.Running? && i < |w.receivers|
    requires EmitsCover(w.receivers[i].window, n)
    ensures Leads(w, Exchange(i, a, selective, time), settings, w') && n < w'.send.flight.Base()
    ensures |w'.receivers| == |w.receivers| && w'.receivers[i].deliveries == w.receivers[i].deliveries
  {
    var m := w.receivers[i].window.headAck.value.sequenceNumber;
    a := Ack(w.receivers[i].window.headAck.value.messageId, false);
    var w1 := Step(w, AcksWritten(i), settings);
    StepKeeps(w, AcksWritten(i), settings);
    var w2 := Step(w1, AckArrives(a), settings);
    StepKeeps(w1, AckArrives(a), settings);
    CoversAfter(w1, a, m, settings);
    selective := Listing(SnapshotOf(w2.sendWindow).selectiveAcks.Keys);
    w' := Step(w2, AcksApplied(selective, time), settings);
    AppliedIsExact(w2, selective, time, settings);
    LeadsThree(w, AcksWritten(i), AckArrives(a), AcksApplied(selective, time), settings);
  }

  /** The ack of m is in the window, or m is not pending any more. */
  lemma CoversAfter(w: World, a: Ack, m: nat, settings: Settings)
    requires settings.Valid() && Inv(w, settings) && Active(w.send) && Enabled(w, AckArrives(a), settings) && !a.selective
    requires m < |w.send.flight.log| && w.send.flight.log[m].messageId == a.messageId
    ensures var w' := Step(w, AckArrives(a), settings); m < w'.send.flight.Base() + Covered(w')
  {
    var f, d := w.send.flight, Delivered(w.receivers);
    HeldFromBase(f, w.send.books.contracts, d, a.messageId, m);
    if a.messageId in f.resendQueue {
      SendSafety.QueuedNumber(f, a.messageId, m);
      ReceiveAnswers.AckIsAnswered(w.sendWindow, SequenceAck(m, a.messageId, false));
    }
  }

  /** What brings the oldest pending pack to a receiver that has just been created. */
  function Recovery(id: Id, i: nat, p: Pack, time: int): seq<Event> {
    [PackResent(id, time), ReceiverCreated, PackArrives(i, p)]
  }

  lemma OldestIsWritten(w: World, time: int, settings: Settings) returns (p: Pack)
    requires settings.Valid() && Inv(w, settings) && w.send.status.Running? && w.send.flight.sendItems != []
    ensures var f, id := w.send.flight, w.send.flight.sendItems[0].messageId;
            && 0 <= f.Base() < |f.log| && Enabled(w, PackResent(id, time), settings)
            && var w' := Step(w, PackResent(id, time), settings);
               && Inv(w', settings) && p in w'.send.flight.written
               && p == Pack(id, f.Base(), true, f.log[f.Base()].frames, f.log[f.Base()].contract, false, None)
               && w' == w.(send := w.send.(flight := w'.send.flight))
               && w'.send.flight.log == f.log && w'.send.flight.Base() == f.Base()
  {
    var f, id := w.send.flight, w.send.flight.sendItems[0].messageId;
    SendSafety.PendingIsQueued(f, w.send.books.contracts, Delivered(w.receivers));
    assert w.send.(fault := None) == w.send;
    SendProgress.OldestGoesOutAsHead(w.send, id, time, settings.send.minMessageByteCount, Delivered(w.receivers));
    SendSafety.ResendKeeps(w.send, id, time, settings.send.minMessageByteCount, Delivered(w.receivers));
    StepKeeps(w, PackResent(id, time), settings);
    p := Step(w, PackResent(id, time), settings).send.flight.resendQueue[id].pack;
  }

  /** A receiver is created and gets the head. */
  lemma NewReceiverGets(w: World, p: Pack, settings: Settings)
    requires settings.Valid() && Inv(w, settings) && p in w.send.flight.written && p.head && !p.nack
    ensures var w1, e := Step(w, ReceiverCreated, settings), PackArrives(|w.receivers|, p);
            && Enabled(w1, e, settings)
            && var w2 := Step(w1, e, settings);
               && Inv(w2, settings) && w2.send == w.send && |w2.receivers| == |w.receivers| + 1
               && ReceiveAnswers.DeliversAndAcks(ReceiveModel.INITIAL, w2.receivers[|w.receivers|],
                                                 ReceiveModel.ItemOf(p), w.send.flight.log)
  {
    StepKeeps(w, ReceiverCreated, settings);
    var w1 := Step(w, ReceiverCreated, settings);
    NewReceiverDelivers(w1, p, settings);
    StepKeeps(w1, PackArrives(|w.receivers|, p), settings);
  }

  lemma OldestReachesNewReceiver(w: World, time: int, settings: Settings) returns (p: Pack, w': World)
    requires settings.Valid() && Inv(w, settings) && w.send.status.Running? && w.send.flight.sendItems != []
    ensures Inv(w', settings)
    ensures Leads(w, Recovery(w.send.flight.sendItems[0].messageId, |w.receivers|, p, time), settings, w')
    ensures w'.send.status.Running? && w'.send.flight.Base() == w.send.flight.Base()
    ensures |w'.receivers| == |w.receivers| + 1
    ensures var n, r, log := w.send.flight.Base(), w'.receivers[|w.receivers|], w.send.flight.log;
            && 0 <= n < |log| && log[n].contract.Some? && EmitsCover(r.window, n)
            && r.deliveries == [ReceiveModel.Delivery(n, log[n].frames, true, log[n].contract.value.contractId)]
  {
    var id, i := w.send.flight.sendItems[0].messageId, |w.receivers|;
    p := OldestIsWritten(w, time, settings);
    var w1 := Step(w, PackResent(id, time), settings);
    NewReceiverGets(w1, p, settings);
    w' := Step(Step(w1, ReceiverCreated, settings), PackArrives(i, p), settings);
    LeadsThree(w, PackResent(id, time), ReceiverCreated, PackArrives(i, p), settings);
  }

  /**
   In every world in which the sender runs and a pack is pending, six events lead on to one in which the oldest
   is delivered by a receiver without state and acknowledged: whatever was lost, the sequence is not stuck.
   */
  lemma OldestCanBeAcknowledged(worlds: seq<World>, events: seq<Event>, settings: Settings, w: World, time: int)
    requires Reached(worlds, events, settings, w) && w.send.status.Running? && w.send.flight.sendItems != []
    ensures var f, i := w.send.flight, |w.receivers|;
            0 <= f.Base() < |f.log| &&
            exists p, a, selective, w' ::
              && Leads(w, Recovery(f.sendItems[0].messageId, i, p, time) + Exchange(i, a, selective, time), settings, w')
              && f.Base() < w'.send.flight.Base()
              && |w'.receivers| == i + 1 && |w'.receivers[i].deliveries| == 1
              && w'.receivers[i].deliveries[0].sequenceNumber == f.Base()
              && w'.receivers[i].deliveries[0].frames == f.log[f.Base()].frames
  {
    ReachedInv(worlds, events, settings, w);
    var f, i := w.send.flight, |w.receivers|;
    var p, w1 := OldestReachesNewReceiver(w, time, settings);
    var a, selective, w' := ExchangeAcks(w1, i, f.Base(), time, settings);
    LeadsOn(w, Recovery(f.sendItems[0].messageId, i, p, time), settings, w1, Exchange(i, a, selective, time), w');
  }
}
