/**
 A run in which a recreated receiver queues a pack that the sender no longer holds: the first receiver
 delivers packs 0 and 1, the sender drops both on the ack, and a late copy of pack 1 reaches the second
 receiver.
 */
module LateCopy {
  import opened AckWindow
  import opened Options
  import ReceiveModel
  import SendHistory
  import SendModel
  import opened TransferSystem
  import TransferTheorems
  import opened TransferTypes

  const SETTINGS := Settings(SendModel.SendSettings(1, 1, 1, 100), ReceiveModel.ReceiveSettings(1, 100, 4, false))
  const CONTRACT := Contract(5, 100)
  const FRAME := Frame(0, [1])
  const SEND_PACK := SendModel.SendPack(FRAME, 7, true)
  const OFFERS := [SendModel.Offer(CONTRACT, SendModel.Write(10, 0, true))]
  const WRITE := SendModel.Write(11, 0, true)

  const PACK_0 := Pack(10, 0, true, [], Some(CONTRACT), false, None)
  const PACK_1 := Pack(11, 1, false, [FRAME], None, false, None)

  const ITEM_0 := SendModel.SendItem(10, 0, 0, Some(5), SendModel.ContractCallback(5))
  const ITEM_1 := SendModel.SendItem(11, 1, 1, Some(5), SendModel.UserCallback(7))

  function Debited(acked: nat, unacked: nat): map<Id, SequenceContract> {
    map[5 := SequenceContract(CONTRACT, 100, 1, acked, unacked)]
  }

  lemma Redebited(acked: nat, unacked: nat, acked': nat, unacked': nat)
    ensures Debited(acked, unacked)[5 := SequenceContract(CONTRACT, 100, 1, acked', unacked')]
            == Debited(acked', unacked')
  {
  }

  const BOOKS := SendModel.Books(Some(5), false, Debited(0, 2), multiset{}, map[5 := CONTRACT], [])
  const RESEND_0 := SendModel.ResendItem(ITEM_0, true, true, 0, PACK_0)
  const RESEND_1 := SendModel.ResendItem(ITEM_1, false, false, 0, PACK_1)
  const ENTRY_0 := SendModel.Entry(10, [], Some(CONTRACT), SendModel.ContractCallback(5), true)
  const ENTRY_1 := SendModel.Entry(11, [FRAME], Some(CONTRACT), SendModel.UserCallback(7), false)

  /** The sender with the pack in its hands, with the contract pack on the wire, and with both. */
  const TAKEN := SendModel.SendState(
    SendModel.NO_BOOKS, SendModel.NO_FLIGHT, [], SendModel.Running, None, [], [SEND_PACK], multiset{})
  const INTRODUCED := TAKEN.(
    books := BOOKS,
    flight := SendModel.Flight([ITEM_0], map[10 := RESEND_0], 1, {PACK_0}, [ENTRY_0], {10}))
  const SENT := TAKEN.(
    books := BOOKS,
    flight := SendModel.Flight([ITEM_0, ITEM_1], map[10 := RESEND_0, 11 := RESEND_1], 2, {PACK_0, PACK_1},
                               [ENTRY_0, ENTRY_1], {10, 11}))

  lemma OneFrame()
    ensures MessageByteCount([FRAME]) == 1
  {
    assert [FRAME][1..] == [];
  }

  lemma FreshIs()
    ensures SendModel.FreshContract(SETTINGS.send, CONTRACT) == SequenceContract(CONTRACT, 100, 1, 0, 0)
  {
    assert SETTINGS.send.Effective(100) == 100 * 1 / 1 == 100;
  }

  /** The contract is debited for its own pack and for the caller's. */
  lemma DebitsBoth()
    ensures SendModel.DebitNew(SETTINGS.send, CONTRACT, 1) == Some(SequenceContract(CONTRACT, 100, 1, 0, 2))
  {
    FreshIs();
    assert SequenceContract(CONTRACT, 100, 1, 0, 0).Update(0) == Some(SequenceContract(CONTRACT, 100, 1, 0, 1));
    assert SequenceContract(CONTRACT, 100, 1, 0, 1).Update(1) == Some(SequenceContract(CONTRACT, 100, 1, 0, 2));
  }

  lemma SetsContract()
    ensures SendModel.SetContract(SendModel.NO_BOOKS.(contracts := map[5 := CONTRACT]),
                                  SequenceContract(CONTRACT, 100, 1, 0, 2)) == BOOKS
  {
    assert map[][5 := SequenceContract(CONTRACT, 100, 1, 0, 2)] == Debited(0, 2);
  }

  lemma SendsContractPack()
    ensures SendModel.SendWithSetContract(TAKEN.(books := BOOKS), None, SendModel.ContractCallback(5), true, true,
                                          SendModel.Write(10, 0, true)) == INTRODUCED
  {
    var s := TAKEN.(books := BOOKS);
    assert SendModel.NewPack(s, None, true, true, 10) == PACK_0;
    assert SendModel.NewItem(BOOKS, PACK_0, SendModel.ContractCallback(5)) == ITEM_0;
  }

  /** The contract is set and its pack is sent. */
  ghost predicate Sets(s: SendModel.SendState, settings: SendModel.SendSettings, byteCount: nat, offer: SendModel.Offer,
                       t: SendModel.SendState)
    requires settings.Valid()
  {
    SendModel.SetNextContract(s, settings, byteCount, offer) == (t, true)
  }

  lemma Introduces()
    ensures Sets(TAKEN, SETTINGS.send, 1, SendModel.Offer(CONTRACT, SendModel.Write(10, 0, true)), INTRODUCED)
  {
    DebitsBoth();
    SetsContract();
    SendsContractPack();
    assert map[][5 := CONTRACT] == map[5 := CONTRACT];
  }

  function SendsPack(s: SendModel.SendState, p: SendModel.SendPack, write: SendModel.Write): SendModel.SendState {
    SendModel.SendWithSetContract(s, Some(p.frame), SendModel.UserCallback(p.callback), p.ack, false, write)
  }

  lemma SendsUserPack()
    ensures SendsPack(INTRODUCED, SEND_PACK, WRITE) == SENT
  {
    OneFrame();
    assert SendModel.NewPack(INTRODUCED, Some(FRAME), true, false, 11) == PACK_1;
    assert SendModel.NewItem(BOOKS, PACK_1, SendModel.UserCallback(7)) == ITEM_1;
  }

  lemma NotTooLarge()
    ensures !SendModel.TooLarge(SETTINGS.send, 1)
  {
    assert SETTINGS.send.Effective(100) == 100 * 1 / 1 == 100;
  }

  /** The pack that was taken needs a contract and is not too large for one. */
  ghost predicate NeedsContract(s: SendModel.SendState, settings: SendModel.SendSettings, byteCount: nat)
    requires settings.Valid()
  {
    s.books.sendContract.None? && !SendModel.TooLarge(settings, byteCount)
  }

  lemma TakenNeedsContract()
    ensures NeedsContract(TAKEN, SETTINGS.send, 1)
  {
    NotTooLarge();
  }

  /** The only pack in the channel is sent under the first contract that is offered. */
  lemma SendsFirst(s: SendModel.SendState, settings: SendModel.SendSettings, offer: SendModel.Offer,
                   write: SendModel.Write, p: SendModel.SendPack, s0: SendModel.SendState, s1: SendModel.SendState,
                   t: SendModel.SendState)
    requires settings.Valid() && NeedsContract(s0, settings, |p.frame.messageBytes|)
    requires Sets(s0, settings, |p.frame.messageBytes|, offer, s1) && s0.fault.None?
    requires s.packs == [p] && s0 == s.(packs := []) && SendsPack(s1, p, write) == t
    ensures SendModel.SendNext(s, settings, [offer], write) == t
  {
    assert s.packs[1..] == [];
    assert SendModel.UpdateContract(s0, settings, |p.frame.messageBytes|, [offer]) == (s1, true);
  }

  /** The contract pack and the caller's pack are sent. */
  lemma Sends(s: SendModel.SendState, settings: SendModel.SendSettings, offer: SendModel.Offer)
    requires s.packs == [SEND_PACK] && s.(packs := []) == TAKEN
    requires settings == SETTINGS.send && offer == OFFERS[0]
    ensures SendModel.SendNext(s, settings, [offer], WRITE) == SENT
  {
    TakenNeedsContract();
    Introduces();
    SendsUserPack();
    SendsFirst(s, settings, offer, WRITE, SEND_PACK, TAKEN, INTRODUCED, SENT);
  }

  lemma Accepts()
    ensures var s := SendModel.AcceptPack(SendModel.INITIAL, SEND_PACK); s.packs == [SEND_PACK] && s.(packs := []) == TAKEN
  {
  }

  const DELIVERY_0 := ReceiveModel.Delivery(0, [], true, 5)
  const DELIVERY_1 := ReceiveModel.Delivery(1, [FRAME], false, 5)

  /** The first receiver with one pack delivered, and with both. */
  const FIRST := ReceiveModel.ReceiveState(
    true, false, ReceiveModel.ReceiveBooks(Debited(1, 0), [5], Some(5), map[5 := 0]), map[], 1,
    Window(Some(SequenceAck(0, 10, false)), 1, map[]), [DELIVERY_0], [])
  const BOTH := ReceiveModel.ReceiveState(
    true, false, ReceiveModel.ReceiveBooks(Debited(2, 0), [5], Some(5), map[5 := 0]), map[], 2,
    Window(Some(SequenceAck(1, 11, false)), 2, map[]), [DELIVERY_0, DELIVERY_1], [])

  lemma ReceivesFirst()
    ensures ReceiveModel.ReceivePack(ReceiveModel.INITIAL, PACK_0, SETTINGS.receive) == FIRST
  {
    var item := ReceiveModel.ItemOf(PACK_0);
    assert ReceiveModel.Replaced(map[], item) == map[];
    var books := ReceiveModel.RegisterContracts(ReceiveModel.NO_CONTRACTS, Some(CONTRACT), SETTINGS.receive);
    assert books == ReceiveModel.ReceiveBooks(Debited(0, 0), [5], Some(5), map[5 := 0]);
    ChargesOne(books, 0, 0);
  }

  lemma ReceivesBoth()
    ensures ReceiveModel.ReceivePack(FIRST, PACK_1, SETTINGS.receive) == BOTH
  {
    var item := ReceiveModel.ItemOf(PACK_1);
    assert ReceiveModel.Replaced(map[], item) == map[];
    OneFrame();
    ChargesOne(FIRST.books, 1, 1);
  }

  /** A pack of at most one byte moves the debit of the contract up by one. */
  lemma ChargesOne(b: ReceiveModel.ReceiveBooks, byteCount: nat, acked: nat)
    requires byteCount <= 1 && acked < 100 && b.openReceiveContracts == Debited(acked, 0)
    ensures var b1 := ReceiveModel.UpdateContract(b, Some(5), byteCount);
            && b1 == Some(b.(openReceiveContracts := Debited(acked, 1)))
            && ReceiveModel.AckContract(b1.value, 5, byteCount)
               == Some(b.(openReceiveContracts := Debited(acked + 1, 0)))
  {
    Redebited(acked, 0, acked, 1);
    Redebited(acked, 1, acked + 1, 0);
  }

  /** The sender once pack 0 is acknowledged, and once both are. */
  const ONE_ACKED := SENT.(
    books := SENT.books.(sendContractAcked := true, openSendContracts := Debited(1, 1)),
    flight := SENT.flight.(
      sendItems := [ITEM_1], resendQueue := map[11 := SendModel.ResendItem(ITEM_1, false, false, 0, PACK_1)]),
    callbacks := [SendModel.Acked(SendModel.ContractCallback(5), 0)])
  const ACKED := ONE_ACKED.(
    books := ONE_ACKED.books.(openSendContracts := Debited(2, 0)),
    flight := SENT.flight.(sendItems := [], resendQueue := map[]),
    callbacks := [SendModel.Acked(SendModel.ContractCallback(5), 0), SendModel.Acked(SendModel.UserCallback(7), 1)])

  lemma AcknowledgesFirst()
    ensures SendModel.AckOldest(SENT) == ONE_ACKED
  {
    Redebited(0, 2, 1, 1);
    assert SendModel.SettleItem(SENT.books, ITEM_0) == Some(SENT.books.(openSendContracts := Debited(1, 1)));
    assert SendModel.Pop(SENT.flight) == ONE_ACKED.flight;
  }

  lemma AcknowledgesSecond()
    ensures SendModel.AckOldest(ONE_ACKED) == ACKED
  {
    Redebited(1, 1, 2, 0);
    assert SendModel.SettleItem(ONE_ACKED.books, ITEM_1) == Some(ACKED.books);
    assert SendModel.Pop(ONE_ACKED.flight) == ACKED.flight;
  }

  lemma Acknowledges()
    ensures SendModel.ReceiveAck(SENT, 11, false, 0) == ACKED
  {
    AcknowledgesFirst();
    AcknowledgesSecond();
    ThroughOne(SENT);
    ThroughOne(ONE_ACKED);
    assert SendModel.AckThrough(ACKED, 1) == ACKED;
  }

  lemma ThroughOne(s: SendModel.SendState)
    requires s.fault.None? && s.flight.sendItems != [] && s.flight.sendItems[0].sequenceNumber <= 1
    requires s.flight.sendItems[0].messageId in s.flight.resendQueue
    ensures SendModel.AckThrough(s, 1) == SendModel.AckThrough(SendModel.AckOldest(s), 1)
  {
  }

  ghost function Second(): ReceiveModel.ReceiveState {
    ReceiveModel.ReceivePack(ReceiveModel.INITIAL, PACK_1, SETTINGS.receive)
  }

  lemma Queues()
    ensures Second().alive && 11 in Second().receiveQueue && Second().receiveQueue[11].sequenceNumber == 1
  {
  }

  /** Some run ends in the world. */
  ghost predicate RunsTo(w: World) {
    exists worlds, events :: IsRun(worlds, events, SETTINGS) && worlds[|events|] == w
  }

  lemma Starts()
    ensures RunsTo(INITIAL)
  {
    assert IsRun([INITIAL], [], SETTINGS) && [INITIAL][0] == INITIAL;
  }

  lemma RunsOn(w: World, e: Event)
    requires RunsTo(w) && Enabled(w, e, SETTINGS)
    ensures RunsTo(Step(w, e, SETTINGS))
  {
    var worlds, events :| IsRun(worlds, events, SETTINGS) && worlds[|events|] == w;
    var worlds', events' := worlds + [Step(w, e, SETTINGS)], events + [e];
    forall k | 0 <= k < |events'|
      ensures Enabled(worlds'[k], events'[k], SETTINGS)
      ensures worlds'[k + 1] == Step(worlds'[k], events'[k], SETTINGS)
    {
      if k < |events| {
        assert worlds'[k] == worlds[k] && worlds'[k + 1] == worlds[k + 1] && events'[k] == events[k];
      }
    }
    assert IsRun(worlds', events', SETTINGS) && worlds'[|events'|] == Step(w, e, SETTINGS);
  }

  lemma RunsToSent()
    ensures RunsTo(World(SENT, EMPTY_WINDOW, [], {}))
  {
    Starts();
    RunsOn(INITIAL, PackAccepted(SEND_PACK));
    var w := INITIAL.(send := SendModel.AcceptPack(SendModel.INITIAL, SEND_PACK));
    RunsOn(w, PackSent(OFFERS, WRITE));
    Accepts();
    Sends(w.send, SETTINGS.send, OFFERS[0]);
  }

  lemma Creates(w: World)
    requires RunsTo(w)
    ensures RunsTo(w.(receivers := w.receivers + [ReceiveModel.INITIAL]))
  {
    RunsOn(w, ReceiverCreated);
  }

  /** An arrival replaces one receiver. */
  lemma Arrives(w: World, i: nat, pack: Pack, r: ReceiveModel.ReceiveState)
    requires RunsTo(w) && i < |w.receivers| && w.receivers[i].alive && pack in w.send.flight.written
    requires ReceiveModel.ReceivePack(w.receivers[i], pack, SETTINGS.receive) == r
    ensures RunsTo(w.(receivers := w.receivers[i := r]))
  {
    RunsOn(w, PackArrives(i, pack));
  }

  /** A pack arrives at the only receiver. */
  lemma ArrivesAlone(s: SendModel.SendState, before: ReceiveModel.ReceiveState, pack: Pack,
                     after: ReceiveModel.ReceiveState)
    requires RunsTo(World(s, EMPTY_WINDOW, [before], {})) && before.alive && pack in s.flight.written
    requires ReceiveModel.ReceivePack(before, pack, SETTINGS.receive) == after
    ensures RunsTo(World(s, EMPTY_WINDOW, [after], {}))
  {
    Arrives(World(s, EMPTY_WINDOW, [before], {}), 0, pack, after);
    assert [before][0 := after] == [after];
  }

  lemma RunsToCreated()
    ensures RunsTo(World(SENT, EMPTY_WINDOW, [ReceiveModel.INITIAL], {}))
  {
    RunsToSent();
    Creates(World(SENT, EMPTY_WINDOW, [], {}));
    assert [] + [ReceiveModel.INITIAL] == [ReceiveModel.INITIAL];
  }

  lemma RunsToFirst()
    ensures RunsTo(World(SENT, EMPTY_WINDOW, [FIRST], {}))
  {
    RunsToCreated();
    ReceivesFirst();
    ArrivesAlone(SENT, ReceiveModel.INITIAL, PACK_0, FIRST);
  }

  lemma RunsToBoth()
    ensures RunsTo(World(SENT, EMPTY_WINDOW, [BOTH], {}))
  {
    RunsToFirst();
    ReceivesBoth();
    ArrivesAlone(SENT, FIRST, PACK_1, BOTH);
  }

  /** The ack of pack 1 is written, arrives, and is applied. */
  lemma AckIsApplied(s: SendModel.SendState, r: ReceiveModel.ReceiveState, a: Ack, n: nat)
    requires RunsTo(World(s, EMPTY_WINDOW, [r], {})) && s.status.Running? && !a.selective
    requires Emitted(r.window) == {a} && a.messageId in s.flight.resendQueue
    requires s.flight.resendQueue[a.messageId].item.sequenceNumber == n
    ensures exists w: World ::
              RunsTo(w) && w.receivers == [r.(window := Reset(r.window))]
              && w.send == SendModel.ReceiveAck(s, a.messageId, false, 0)
  {
    var w := World(s, EMPTY_WINDOW, [r], {});
    RunsOn(w, AcksWritten(0));
    var written := World(s, EMPTY_WINDOW, [r.(window := Reset(r.window))], {a});
    assert Step(w, AcksWritten(0), SETTINGS) == written;
    RunsOn(written, AckArrives(a));
    var arrived := written.(sendWindow := Window(Some(SequenceAck(n, a.messageId, false)), 1, map[]));
    assert Step(written, AckArrives(a), SETTINGS) == arrived;
    RunsOn(arrived, AcksApplied([], 0));
  }

  lemma RunsToAcked()
    ensures exists w: World :: RunsTo(w) && |w.receivers| == 1 && w.send == ACKED
  {
    RunsToBoth();
    assert Emitted(BOTH.window) == {Ack(11, false)};
    AckIsApplied(SENT, BOTH, Ack(11, false), 1);
    Acknowledges();
  }

  /** A late copy reaches a new receiver. */
  lemma LateCopyArrives(w: World)
    requires RunsTo(w) && w.send == ACKED && |w.receivers| == 1
    ensures RunsTo(w.(receivers := w.receivers + [Second()]))
  {
    Creates(w);
    var created := w.(receivers := w.receivers + [ReceiveModel.INITIAL]);
    Arrives(created, 1, PACK_1, Second());
    assert created.receivers[1 := Second()] == w.receivers + [Second()];
  }

  /** The second receiver has queued pack 1, which the sender dropped when it was acknowledged. */
  ghost predicate QueuedAndNotHeld(w: World) {
    && Active(w.send) && |w.receivers| == 2 && w.receivers[1].alive
    && 11 in w.receivers[1].receiveQueue && w.receivers[1].receiveQueue[11].sequenceNumber == 1
    && 11 !in w.send.flight.resendQueue && SendHistory.IsAcked(w.send.callbacks, 1)
  }

  lemma LateCopyIsQueued()
    ensures exists worlds, events, w ::
              TransferTheorems.Reached(worlds, events, SETTINGS, w) && QueuedAndNotHeld(w)
  {
    RunsToAcked();
    var w: World :| RunsTo(w) && |w.receivers| == 1 && w.send == ACKED;
    LateCopyArrives(w);
    var last := w.(receivers := w.receivers + [Second()]);
    Queues();
    assert ACKED.callbacks[1] in ACKED.callbacks;
    assert QueuedAndNotHeld(last);
    var worlds, events :| IsRun(worlds, events, SETTINGS) && worlds[|events|] == last;
    assert TransferTheorems.Reached(worlds, events, SETTINGS, last);
  }
}
