/**
 One send sequence, the network, and any number of receive sequences for it.

 The network only grows: every pack and ack ever written may arrive at any later time, any number
 of times, or never. A receive sequence may exit at any moment and a new one with no state may
 start while the old one is still running. Timers are the free choice of the next event.
 */
module TransferSystem {
  import opened AckWindow
  import opened Options
  import ReceiveModel
  import ReceiveSafety
  import ReceiveSteps
  import SendCallbacks
  import SendModel
  import SendSafety
  import SendSteps
  import opened TransferTypes

  datatype Settings = Settings(send: SendModel.SendSettings, receive: ReceiveModel.ReceiveSettings) {
    /** Both sides charge the same minimum, and it is at least one byte. */
    predicate Valid() {
      send.Valid() && send.minMessageByteCount == receive.minMessageByteCount
    }
  }

  datatype World = World(
    send: SendModel.SendState,
    sendWindow: Window,
    receivers: seq<ReceiveModel.ReceiveState>,
    acks: set<Ack>)

  const INITIAL := World(SendModel.INITIAL, EMPTY_WINDOW, [], {})

  datatype Event =
    | PackAccepted(p: SendModel.SendPack)
    | PackSent(offers: seq<SendModel.Offer>, write: SendModel.Write)
    | PackResent(messageId: Id, resendTime: int)
    | AckArrives(ack: Ack)
    | AcksApplied(selective: seq<Id>, resendTime: int)
    | SenderExits(drained: seq<SendModel.SendItem>)
    | SenderCloses
    | ReceiverCreated
    | ReceiverExits(i: nat)
    | PackArrives(i: nat, pack: Pack)
    | QueueDrained(i: nat, messageId: Id)
    | AcksWritten(i: nat)

  // ---- steps

  function ReceiveSelective(s: SendModel.SendState, ids: seq<Id>, resendTime: int): SendModel.SendState
    decreases |ids|
  {
    if ids == [] then s
    else ReceiveSelective(SendModel.ReceiveAck(s, ids[0], true, resendTime), ids[1..], resendTime)
  }

  /** The ack loop: the head of the window, then the selective acks after it, in any order. */
  function ApplyAcks(w: World, selective: seq<Id>, resendTime: int): World {
    var snapshot := SnapshotOf(w.sendWindow);
    var s := if 0 < snapshot.ackUpdateCount && snapshot.headAck.Some?
             then SendModel.ReceiveAck(w.send, snapshot.headAck.value.messageId, false, resendTime) else w.send;
    w.(send := ReceiveSelective(s, selective, resendTime), sendWindow := Reset(w.sendWindow))
  }

  /** An ack for a message that is not pending is dropped. */
  function TakeAck(w: World, ack: Ack): World {
    if ack.messageId in w.send.flight.resendQueue then
      var n := w.send.flight.resendQueue[ack.messageId].item.sequenceNumber;
      w.(sendWindow := WithAck(w.sendWindow, SequenceAck(n, ack.messageId, ack.selective)))
    else w
  }

  ghost predicate Enabled(w: World, e: Event, settings: Settings) {
    match e
    case PackAccepted(_) => true
    case PackSent(offers, write) =>
      && w.send.status.Running? && w.send.packs != []
      && SendSteps.FreshOffers(w.send, offers)
      && write.messageId !in w.send.flight.usedIds && write.messageId !in SendSteps.OfferIds(offers)
    case PackResent(id, _) => w.send.status.Running? && id in w.send.flight.resendQueue
    case AckArrives(ack) => ack in w.acks
    case AcksApplied(selective, _) =>
      && w.send.status.Running?
      && forall id :: id in selective <==> id in SnapshotOf(w.sendWindow).selectiveAcks
    case SenderExits(drained) =>
      && (w.send.status.Running? || w.send.status.Unwinding?)
      && SendCallbacks.Enumerates(drained, w.send.flight.resendQueue)
    case SenderCloses => w.send.status.Exited?
    case ReceiverCreated => true
    case ReceiverExits(i) => i < |w.receivers|
    case PackArrives(i, pack) => i < |w.receivers| && w.receivers[i].alive && pack in w.send.flight.written
    case QueueDrained(i, id) =>
      i < |w.receivers| && w.receivers[i].alive && ReceiveModel.IsFirst(w.receivers[i].receiveQueue, id)
    case AcksWritten(i) => i < |w.receivers|
  }

  ghost function Step(w: World, e: Event, settings: Settings): World
    requires settings.Valid() && Enabled(w, e, settings)
  {
    match e
    case PackAccepted(p) => w.(send := SendModel.AcceptPack(w.send, p))
    case PackSent(offers, write) => w.(send := SendModel.SendNext(w.send, settings.send, offers, write))
    case PackResent(id, time) => w.(send := SendModel.Resend(w.send, id, time))
    case AckArrives(ack) => TakeAck(w, ack)
    case AcksApplied(selective, time) => ApplyAcks(w, selective, time)
    case SenderExits(drained) => w.(send := SendModel.Exit(w.send, drained))
    case SenderCloses => w.(send := SendModel.Close(w.send))
    case ReceiverCreated => w.(receivers := w.receivers + [ReceiveModel.INITIAL])
    case ReceiverExits(i) => w.(receivers := w.receivers[i := w.receivers[i].(alive := false)])
    case PackArrives(i, pack) =>
      w.(receivers := w.receivers[i := ReceiveModel.ReceivePack(w.receivers[i], pack, settings.receive)])
    case QueueDrained(i, id) =>
      w.(receivers := w.receivers[i := ReceiveModel.Drain(w.receivers[i], id, settings.receive)])
    case AcksWritten(i) =>
      w.(acks := w.acks + Emitted(w.receivers[i].window),
         receivers := w.receivers[i := w.receivers[i].(window := Reset(w.receivers[i].window))])
  }

  /** A finite run: enabled events, and the worlds between them. */
  ghost predicate IsRun(worlds: seq<World>, events: seq<Event>, settings: Settings)
    requires settings.Valid()
  {
    && |worlds| == |events| + 1 && worlds[0] == INITIAL
    && forall k | 0 <= k < |events| ::
         Enabled(worlds[k], events[k], settings) && worlds[k+1] == Step(worlds[k], events[k], settings)
  }

  // ---- what was delivered

  /** The sequence numbers whose frames some receive sequence has handed on. */
  ghost function Delivered(receivers: seq<ReceiveModel.ReceiveState>): set<nat> {
    set i, k | 0 <= i < |receivers| && 0 <= k < |receivers[i].deliveries| :: receivers[i].deliveries[k].sequenceNumber
  }

  ghost predicate DeliveredAs(receivers: seq<ReceiveModel.ReceiveState>, n: nat, frames: seq<Frame>, contractId: Id) {
    exists i, k :: 0 <= i < |receivers| && 0 <= k < |receivers[i].deliveries|
                   && receivers[i].deliveries[k].sequenceNumber == n && receivers[i].deliveries[k].frames == frames
                   && receivers[i].deliveries[k].contractId == contractId
  }

  lemma DeliveredGrows(receivers: seq<ReceiveModel.ReceiveState>, i: nat, r: ReceiveModel.ReceiveState)
    requires i < |receivers| && receivers[i].deliveries <= r.deliveries
    ensures Delivered(receivers) <= Delivered(receivers[i := r])
    ensures ReceiveSteps.AllIn(r.deliveries, Delivered(receivers[i := r]))
  {
    var after := receivers[i := r];
    forall n | n in Delivered(receivers) ensures n in Delivered(after) {
      var j, k :| 0 <= j < |receivers| && 0 <= k < |receivers[j].deliveries|
                  && receivers[j].deliveries[k].sequenceNumber == n;
      assert after[j].deliveries[k].sequenceNumber == n;
    }
    forall k | 0 <= k < |r.deliveries| ensures r.deliveries[k].sequenceNumber in Delivered(after) {
      assert after[i].deliveries[k] == r.deliveries[k];
    }
  }

  // ---- the invariant

  ghost predicate Active(s: SendModel.SendState) { s.status.Running? || s.status.Unwinding? }

  /** What stays true of the sender after it has exited. */
  ghost predicate PostInv(s: SendModel.SendState, min: nat, delivered: set<nat>) {
    && |s.flight.log| == s.flight.nextSequenceNumber
    && SendSafety.LogInv(s.flight.log, s.books.contracts, s.flight.usedIds)
    && SendSafety.WireInv(s.flight.written, s.flight.log, delivered)
    && SendSafety.ContractsCover(min, s.books.contracts, s.flight.log)
    && SendSafety.EventsInv(s.callbacks, s.flight.log, delivered)
    && SendSafety.ClosedOnce(s.books.closedContracts, s.books.openSendContracts, s.books.contracts)
    && s.books.openSendContracts == map[] && s.flight.sendItems == [] && s.flight.resendQueue == map[]
    && (s.status.Closed? ==> s.packs == [])
  }

  ghost predicate FaultInv(s: SendModel.SendState) {
    && (s.fault.Some? ==> s.fault.value.MessageTooLarge? && !s.status.Running?)
    && (s.lost == multiset{} <==> s.fault.None?)
    && forall u: nat :: SendCallbacks.Conserved(s, u)
  }

  ghost predicate SendInv(s: SendModel.SendState, min: nat, delivered: set<nat>) {
    && FaultInv(s)
    && (if Active(s) then SendSafety.Inv(s.(fault := None), min, 0, delivered) else PostInv(s, min, delivered))
  }

  ghost predicate AckOnWire(a: Ack, log: ReceiveSafety.Log, delivered: set<nat>) {
    !a.selective ==> exists n: nat :: ReceiveSafety.AckOk(a.messageId, n, log, delivered)
  }

  ghost predicate ReceiversInv(w: World, settings: Settings, delivered: set<nat>) {
    forall i | 0 <= i < |w.receivers| ::
      && ReceiveSafety.Inv(w.receivers[i], settings.send.minMessageByteCount, w.send.books.contracts,
                           w.send.flight.log, delivered)
      && ReceiveSteps.Bounded(w.receivers[i].receiveQueue, settings.receive.receiveQueueMaxByteCount)
  }

  ghost predicate AcksInv(acks: set<Ack>, log: ReceiveSafety.Log, delivered: set<nat>) {
    forall a | a in acks :: AckOnWire(a, log, delivered)
  }

  ghost predicate Inv(w: World, settings: Settings) {
    var delivered := Delivered(w.receivers);
    && SendInv(w.send, settings.send.minMessageByteCount, delivered)
    && ReceiveSafety.WindowInv(w.sendWindow, w.send.flight.log, delivered)
    && ReceiversInv(w, settings, delivered)
    && AcksInv(w.acks, w.send.flight.log, delivered)
  }

  /** The log and the wire, as the receivers rely on them. */
  lemma SenderPromises(s: SendModel.SendState, min: nat, delivered: set<nat>)
    requires SendInv(s, min, delivered)
    ensures ReceiveSafety.LogOk(s.flight.log, s.books.contracts, min)
    ensures SendSafety.WireInv(s.flight.written, s.flight.log, delivered)
  {
    LogPromises(s.flight.log, s.books.contracts, s.flight.usedIds, min);
  }

  lemma LogPromises(log: ReceiveSafety.Log, contracts: map<Id, Contract>, usedIds: set<Id>, min: nat)
    requires SendSafety.LogInv(log, contracts, usedIds) && SendSafety.ContractsCover(min, contracts, log)
    ensures ReceiveSafety.LogOk(log, contracts, min)
  {
    forall n | 0 <= n < |log|
      ensures log[n].contract.Some? && log[n].contract.value.contractId in contracts
      ensures contracts[log[n].contract.value.contractId] == log[n].contract.value
      ensures log[n].introduces ==> SendSafety.Unseen(log, n, log[n].contract.value.contractId)
      ensures log[n].introduces || (0 < n && log[n].contract == log[n-1].contract)
    {
      assert SendSafety.EntryOk(log, contracts, usedIds, n);
    }
  }

  // ---- more deliveries and a longer log keep everything

  lemma SendInvExtend(s: SendModel.SendState, min: nat, delivered: set<nat>, delivered': set<nat>)
    requires SendInv(s, min, delivered) && delivered <= delivered'
    ensures SendInv(s, min, delivered')
  {
    SendSafety.WireInvExtend(s.flight.written, s.flight.log, s.flight.log, delivered, delivered');
    SendSteps.EventsExtend(s.callbacks, s.flight.log, s.flight.log, delivered, delivered');
  }

  lemma AcksExtend(acks: set<Ack>, log: ReceiveSafety.Log, log': ReceiveSafety.Log, delivered: set<nat>, delivered': set<nat>)
    requires AcksInv(acks, log, delivered) && log <= log' && delivered <= delivered'
    ensures AcksInv(acks, log', delivered')
  {
    forall a | a in acks ensures AckOnWire(a, log', delivered') {
      assert AckOnWire(a, log, delivered);
      if !a.selective {
        var n: nat :| ReceiveSafety.AckOk(a.messageId, n, log, delivered);
        assert ReceiveSafety.AckOk(a.messageId, n, log', delivered');
      }
    }
  }

  lemma ReceiversExtend(w: World, w': World, settings: Settings, delivered: set<nat>, delivered': set<nat>)
    requires ReceiversInv(w, settings, delivered) && delivered <= delivered'
    requires w'.receivers == w.receivers && w.send.flight.log <= w'.send.flight.log
    requires forall c | c in w.send.books.contracts ::
               c in w'.send.books.contracts && w'.send.books.contracts[c] == w.send.books.contracts[c]
    ensures ReceiversInv(w', settings, delivered')
  {
    forall i | 0 <= i < |w'.receivers|
      ensures ReceiveSafety.Inv(w'.receivers[i], settings.send.minMessageByteCount, w'.send.books.contracts,
                                w'.send.flight.log, delivered')
    {
      ReceiveSteps.InvExtend(w.receivers[i], settings.send.minMessageByteCount, w.send.books.contracts,
                             w'.send.books.contracts, w.send.flight.log, w'.send.flight.log, delivered, delivered');
    }
  }

  /** A step of the sender alone. */
  lemma SenderStep(w: World, w': World, settings: Settings)
    requires Inv(w, settings)
    requires w'.receivers == w.receivers && w'.acks == w.acks && w.send.flight.log <= w'.send.flight.log
    requires w'.sendWindow == w.sendWindow || w'.sendWindow == Reset(w.sendWindow)
    requires forall c | c in w.send.books.contracts ::
               c in w'.send.books.contracts && w'.send.books.contracts[c] == w.send.books.contracts[c]
    requires SendInv(w'.send, settings.send.minMessageByteCount, Delivered(w.receivers))
    ensures Inv(w', settings)
  {
    var d := Delivered(w.receivers);
    ReceiversExtend(w, w', settings, d, d);
    AcksExtend(w.acks, w.send.flight.log, w'.send.flight.log, d, d);
    ReceiveSafety.WindowExtend(w.sendWindow, w.send.flight.log, w'.send.flight.log, d, d);
  }

  // ---- the events of the sender

  lemma AcceptedStep(w: World, p: SendModel.SendPack, settings: Settings)
    requires settings.Valid() && Inv(w, settings)
    ensures Inv(Step(w, PackAccepted(p), settings), settings)
  {
    var w' := Step(w, PackAccepted(p), settings);
    forall u: nat ensures SendCallbacks.Conserved(w'.send, u) { SendCallbacks.AcceptConserves(w.send, p, u); }
    SenderStep(w, w', settings);
  }

  lemma SentStep(w: World, offers: seq<SendModel.Offer>, write: SendModel.Write, settings: Settings)
    requires settings.Valid() && Inv(w, settings) && Enabled(w, PackSent(offers, write), settings)
    ensures Inv(Step(w, PackSent(offers, write), settings), settings)
  {
    var w', d := Step(w, PackSent(offers, write), settings), Delivered(w.receivers);
    assert w.send.(fault := None) == w.send;
    SendSteps.SendNextKeeps(w.send, settings.send, offers, write, d);
    forall u: nat ensures SendCallbacks.Conserved(w'.send, u) {
      SendCallbacks.SendNextConserves(w.send, settings.send, offers, write, u);
    }
    SendCallbacks.SendNextConserves(w.send, settings.send, offers, write, 0);
    SentStatus(w.send, settings.send, offers, write);
    SenderStep(w, w', settings);
  }

  lemma SentStatus(s: SendModel.SendState, settings: SendModel.SendSettings, offers: seq<SendModel.Offer>,
                   write: SendModel.Write)
    requires settings.Valid() && s.packs != [] && Active(s) && s.fault.None?
    ensures Active(SendModel.SendNext(s, settings, offers, write))
  {
    var s0 := s.(packs := s.packs[1..]);
    SendCallbacks.TakeConserves(s0, settings, |s.packs[0].frame.messageBytes|, offers, 0);
  }

  lemma ResentStep(w: World, id: Id, time: int, settings: Settings)
    requires settings.Valid() && Inv(w, settings) && Enabled(w, PackResent(id, time), settings)
    ensures Inv(Step(w, PackResent(id, time), settings), settings)
  {
    var w' := Step(w, PackResent(id, time), settings);
    assert w.send.(fault := None) == w.send;
    SendSafety.ResendKeeps(w.send, id, time, settings.send.minMessageByteCount, Delivered(w.receivers));
    assert w'.send.(fault := None) == w'.send;
    forall u: nat ensures SendCallbacks.Conserved(w'.send, u) { assert SendCallbacks.Conserved(w.send, u); }
    SenderStep(w, w', settings);
  }

  lemma ExitStep(w: World, drained: seq<SendModel.SendItem>, settings: Settings)
    requires settings.Valid() && Inv(w, settings) && Enabled(w, SenderExits(drained), settings)
    ensures Inv(Step(w, SenderExits(drained), settings), settings)
  {
    var w', s, d := Step(w, SenderExits(drained), settings), w.send, Delivered(w.receivers);
    SendCallbacks.DrainedIsPending(s.flight, s.books.contracts, d, drained);
    ExitFaults(s, drained);
    FailedEvents(s.callbacks, SendModel.FailItems(drained), s.flight.log, d);
    ExitClosed(s, drained);
    SenderStep(w, w', settings);
  }

  lemma ExitFaults(s: SendModel.SendState, drained: seq<SendModel.SendItem>)
    requires FaultInv(s) && multiset(drained) == multiset(s.flight.sendItems)
    ensures FaultInv(SendModel.Exit(s, drained))
  {
    forall u: nat ensures SendCallbacks.Conserved(SendModel.Exit(s, drained), u) {
      assert SendCallbacks.Conserved(s, u);
      SendCallbacks.ExitConserves(s, drained, u);
    }
  }

  /** Every contract that is still open at the end is closed then. */
  lemma ExitClosed(s: SendModel.SendState, drained: seq<SendModel.SendItem>)
    requires SendSafety.ClosedOnce(s.books.closedContracts, s.books.openSendContracts, s.books.contracts)
    ensures var b := SendModel.Exit(s, drained).books;
            SendSafety.ClosedOnce(b.closedContracts, b.openSendContracts, b.contracts)
  {
  }

  lemma FailedEvents(a: seq<SendModel.CallbackEvent>, b: seq<SendModel.CallbackEvent>, log: ReceiveSafety.Log,
                     delivered: set<nat>)
    requires SendSafety.EventsInv(a, log, delivered) && forall i | 0 <= i < |b| :: b[i].Failed?
    ensures SendSafety.EventsInv(a + b, log, delivered)
  {
  }

  lemma CloseStep(w: World, settings: Settings)
    requires settings.Valid() && Inv(w, settings) && Enabled(w, SenderCloses, settings)
    ensures Inv(Step(w, SenderCloses, settings), settings)
  {
    var w' := Step(w, SenderCloses, settings);
    forall u: nat ensures SendCallbacks.Conserved(w'.send, u) {
      assert SendCallbacks.Conserved(w.send, u);
      SendCallbacks.CloseConserves(w.send, u);
    }
    FailedEvents(w.send.callbacks, SendModel.FailPacks(w.send.packs), w.send.flight.log, Delivered(w.receivers));
    SenderStep(w, w', settings);
  }

  // ---- acks come back

  lemma AckArrivesStep(w: World, ack: Ack, settings: Settings)
    requires settings.Valid() && Inv(w, settings) && Enabled(w, AckArrives(ack), settings)
    ensures Inv(Step(w, AckArrives(ack), settings), settings)
  {
    var f, d := w.send.flight, Delivered(w.receivers);
    var w' := Step(w, AckArrives(ack), settings);
    if ack.messageId in f.resendQueue {
      var item := f.resendQueue[ack.messageId].item;
      assert AckOnWire(ack, f.log, d);
      if !ack.selective {
        var n: nat :| ReceiveSafety.AckOk(ack.messageId, n, f.log, d);
        SendSafety.QueuedNumber(f, ack.messageId, n);
      }
      ReceiveSafety.WindowAcks(w.sendWindow, SequenceAck(item.sequenceNumber, ack.messageId, ack.selective), f.log, d);
    }
    assert ReceiversInv(w', settings, d);
  }

  lemma {:induction false} SelectiveKeeps(s: SendModel.SendState, ids: seq<Id>, time: int, min: nat, delivered: set<nat>)
    requires 1 <= min && SendSafety.Inv(s, min, 0, delivered)
    ensures var t := ReceiveSelective(s, ids, time);
            && SendSafety.Inv(t, min, 0, delivered)
            && t == s.(flight := s.flight.(resendQueue := t.flight.resendQueue))
    decreases |ids|
  {
    if ids != [] {
      var s1 := SendModel.ReceiveAck(s, ids[0], true, time);
      SendSafety.ReceiveAckKeeps(s, ids[0], true, time, 0, min, delivered);
      SelectiveKeeps(s1, ids[1..], time, min, delivered);
    }
  }

  /** The head of the sender's window acknowledges only what was delivered. */
  lemma HeadAckKeeps(s: SendModel.SendState, w: Window, time: int, min: nat, delivered: set<nat>)
    requires 1 <= min && SendSafety.Inv(s, min, 0, delivered) && s.status.Running?
    requires ReceiveSafety.WindowInv(w, s.flight.log, delivered) && w.headAck.Some?
    requires forall u: nat :: SendCallbacks.Conserved(s, u)
    ensures var t := SendModel.ReceiveAck(s, w.headAck.value.messageId, false, time);
            && SendSafety.Inv(t, min, 0, delivered)
            && t.flight.log == s.flight.log && t.books.contracts == s.books.contracts
            && t.status == s.status && t.lost == s.lost
            && forall u: nat :: SendCallbacks.Conserved(t, u)
  {
    var h := w.headAck.value;
    SendSafety.ReceiveAckKeeps(s, h.messageId, false, time, h.sequenceNumber, min, delivered);
    if h.messageId in s.flight.resendQueue {
      SendSafety.QueuedNumber(s.flight, h.messageId, h.sequenceNumber);
      forall u: nat ensures SendCallbacks.Conserved(SendModel.AckThrough(s, h.sequenceNumber), u) {
        SendCallbacks.AckThroughConserves(s, h.sequenceNumber, min, delivered, u);
      }
      SendCallbacks.AckThroughConserves(s, h.sequenceNumber, min, delivered, 0);
    }
  }

  lemma AppliedStep(w: World, selective: seq<Id>, time: int, settings: Settings)
    requires settings.Valid() && Inv(w, settings) && Enabled(w, AcksApplied(selective, time), settings)
    ensures Inv(Step(w, AcksApplied(selective, time), settings), settings)
  {
    var min, d, w' := settings.send.minMessageByteCount, Delivered(w.receivers), ApplyAcks(w, selective, time);
    assert w.send.(fault := None) == w.send;
    var snapshot := SnapshotOf(w.sendWindow);
    var s := w.send;
    if 0 < snapshot.ackUpdateCount && snapshot.headAck.Some? {
      HeadAckKeeps(w.send, w.sendWindow, time, min, d);
      s := SendModel.ReceiveAck(w.send, snapshot.headAck.value.messageId, false, time);
    }
    SelectiveKeeps(s, selective, time, min, d);
    assert w'.send == ReceiveSelective(s, selective, time);
    assert w'.send.(fault := None) == w'.send;
    forall u: nat ensures SendCallbacks.Conserved(w'.send, u) { assert SendCallbacks.Conserved(s, u); }
    SenderStep(w, w', settings);
  }

  // ---- the events of a receiver

  /** A step of one receiver: everything else sees more deliveries. */
  lemma ReceiverStep(w: World, i: nat, r: ReceiveModel.ReceiveState, settings: Settings)
    requires Inv(w, settings) && i < |w.receivers| && w.receivers[i].deliveries <= r.deliveries
    requires var w' := w.(receivers := w.receivers[i := r]);
             && ReceiveSafety.Inv(r, settings.send.minMessageByteCount, w.send.books.contracts, w.send.flight.log,
                                  Delivered(w'.receivers))
             && ReceiveSteps.Bounded(r.receiveQueue, settings.receive.receiveQueueMaxByteCount)
    ensures Inv(w.(receivers := w.receivers[i := r]), settings)
  {
    var w' := w.(receivers := w.receivers[i := r]);
    var d, d', log := Delivered(w.receivers), Delivered(w'.receivers), w.send.flight.log;
    DeliveredGrows(w.receivers, i, r);
    SendInvExtend(w.send, settings.send.minMessageByteCount, d, d');
    AcksExtend(w.acks, log, log, d, d');
    ReceiveSafety.WindowExtend(w.sendWindow, log, log, d, d');
    forall j | 0 <= j < |w'.receivers|
      ensures ReceiveSafety.Inv(w'.receivers[j], settings.send.minMessageByteCount, w.send.books.contracts, log, d')
    {
      if j != i {
        ReceiveSteps.InvExtend(w.receivers[j], settings.send.minMessageByteCount, w.send.books.contracts,
                               w.send.books.contracts, log, log, d, d');
      }
    }
  }

  lemma NackArrivesStep(w: World, i: nat, pack: Pack, settings: Settings)
    requires settings.Valid() && Inv(w, settings) && Enabled(w, PackArrives(i, pack), settings) && pack.nack
    ensures Inv(Step(w, PackArrives(i, pack), settings), settings)
  {
    var min, d, s, log := settings.send.minMessageByteCount, Delivered(w.receivers), w.receivers[i], w.send.flight.log;
    var r := ReceiveModel.ReceiveNack(s, pack, settings.receive);
    SenderPromises(w.send, min, d);
    ReceiveSteps.NackKeeps(s, pack, settings.receive, w.send.books.contracts, log, d);
    SameDeliveries(w.receivers, i, r);
    ReceiverStep(w, i, r, settings);
  }

  lemma ArrivesStep(w: World, i: nat, pack: Pack, settings: Settings)
    requires settings.Valid() && Inv(w, settings) && Enabled(w, PackArrives(i, pack), settings) && !pack.nack
    ensures Inv(Step(w, PackArrives(i, pack), settings), settings)
  {
    var min, d, s, log := settings.send.minMessageByteCount, Delivered(w.receivers), w.receivers[i], w.send.flight.log;
    var r := ReceiveModel.Receive(s, pack, settings.receive);
    SenderPromises(w.send, min, d);
    DeliveriesGrow(s, pack, settings.receive);
    DeliveredGrows(w.receivers, i, r);
    ReceiveSteps.ReceiveKeeps(s, pack, settings.receive, w.send.books.contracts, log, d, Delivered(w.receivers[i := r]));
    ReceiveSteps.ReceiveBounded(s, pack, settings.receive);
    ReceiverStep(w, i, r, settings);
  }

  lemma DeliveriesGrow(s: ReceiveModel.ReceiveState, pack: Pack, settings: ReceiveModel.ReceiveSettings)
    ensures s.deliveries <= ReceiveModel.Receive(s, pack, settings).deliveries
  {
  }

  lemma DrainedStep(w: World, i: nat, id: Id, settings: Settings)
    requires settings.Valid() && Inv(w, settings) && Enabled(w, QueueDrained(i, id), settings)
    ensures Inv(Step(w, QueueDrained(i, id), settings), settings)
  {
    var min, d, s, log := settings.send.minMessageByteCount, Delivered(w.receivers), w.receivers[i], w.send.flight.log;
    var r := ReceiveModel.Drain(s, id, settings.receive);
    SenderPromises(w.send, min, d);
    ReceiveSteps.DrainPart(s, id, settings.receive);
    DeliveredGrows(w.receivers, i, r);
    ReceiveSteps.DrainKeeps(s, id, settings.receive, w.send.books.contracts, log, d, Delivered(w.receivers[i := r]));
    ReceiveSteps.DrainBounded(s, id, settings.receive);
    ReceiverStep(w, i, r, settings);
  }

  lemma ReceiverExitsStep(w: World, i: nat, settings: Settings)
    requires settings.Valid() && Inv(w, settings) && Enabled(w, ReceiverExits(i), settings)
    ensures Inv(Step(w, ReceiverExits(i), settings), settings)
  {
    var r := w.receivers[i].(alive := false);
    SameDeliveries(w.receivers, i, r);
    ReceiverStep(w, i, r, settings);
  }

  lemma SameDeliveries(receivers: seq<ReceiveModel.ReceiveState>, i: nat, r: ReceiveModel.ReceiveState)
    requires i < |receivers| && receivers[i].deliveries == r.deliveries
    ensures Delivered(receivers[i := r]) == Delivered(receivers)
  {
    DeliveredGrows(receivers, i, r);
    DeliveredGrows(receivers[i := r], i, receivers[i]);
    assert receivers[i := r][i := receivers[i]] == receivers;
  }

  lemma CreatedStep(w: World, settings: Settings)
    requires settings.Valid() && Inv(w, settings)
    ensures Inv(Step(w, ReceiverCreated, settings), settings)
  {
    var w' := Step(w, ReceiverCreated, settings);
    assert Delivered(w'.receivers) == Delivered(w.receivers) by {
      forall n | n in Delivered(w.receivers) ensures n in Delivered(w'.receivers) {
        var j, k :| 0 <= j < |w.receivers| && 0 <= k < |w.receivers[j].deliveries|
                    && w.receivers[j].deliveries[k].sequenceNumber == n;
        assert w'.receivers[j].deliveries[k].sequenceNumber == n;
      }
    }
    ReceiveSteps.InitialOk(settings.send.minMessageByteCount, w.send.books.contracts, w.send.flight.log,
                           Delivered(w.receivers));
  }

  lemma WrittenStep(w: World, i: nat, settings: Settings)
    requires settings.Valid() && Inv(w, settings) && Enabled(w, AcksWritten(i), settings)
    ensures Inv(Step(w, AcksWritten(i), settings), settings)
  {
    var d, s, log := Delivered(w.receivers), w.receivers[i], w.send.flight.log;
    var r := s.(window := Reset(s.window));
    ReceiveSteps.EmittedOk(s.window, log, d);
    SameDeliveries(w.receivers, i, r);
    ReceiverStep(w, i, r, settings);
    forall a | a in w.acks + Emitted(s.window) ensures AckOnWire(a, log, d) {
      if a in w.acks { assert AckOnWire(a, log, d); }
    }
  }

  lemma StepKeeps(w: World, e: Event, settings: Settings)
    requires settings.Valid() && Inv(w, settings) && Enabled(w, e, settings)
    ensures Inv(Step(w, e, settings), settings)
  {
    match e
    case PackAccepted(p) => AcceptedStep(w, p, settings);
    case PackSent(offers, write) => SentStep(w, offers, write, settings);
    case PackResent(id, time) => ResentStep(w, id, time, settings);
    case AckArrives(ack) => AckArrivesStep(w, ack, settings);
    case AcksApplied(selective, time) => AppliedStep(w, selective, time, settings);
    case SenderExits(drained) => ExitStep(w, drained, settings);
    case SenderCloses => CloseStep(w, settings);
    case ReceiverCreated => CreatedStep(w, settings);
    case ReceiverExits(i) => ReceiverExitsStep(w, i, settings);
    case PackArrives(i, pack) =>
      if pack.nack { NackArrivesStep(w, i, pack, settings); } else { ArrivesStep(w, i, pack, settings); }
    case QueueDrained(i, id) => DrainedStep(w, i, id, settings);
    case AcksWritten(i) => WrittenStep(w, i, settings);
  }

  lemma InitialKeeps(settings: Settings)
    requires settings.Valid()
    ensures Inv(INITIAL, settings)
  {
    forall u: nat ensures SendCallbacks.Conserved(INITIAL.send, u) {
    }
    assert INITIAL.send.(fault := None) == INITIAL.send;
  }

  lemma {:induction false} RunKeeps(worlds: seq<World>, events: seq<Event>, settings: Settings, k: nat)
    requires settings.Valid() && IsRun(worlds, events, settings) && k < |worlds|
    ensures Inv(worlds[k], settings)
  {
    if k == 0 {
      InitialKeeps(settings);
    } else {
      RunKeeps(worlds, events, settings, k - 1);
      StepKeeps(worlds[k-1], events[k-1], settings);
    }
  }
}
