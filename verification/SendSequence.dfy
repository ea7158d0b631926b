/**
 A send sequence as the object that the program runs; every method computes its function of SendModel.
 The resend queue is its map by message id, which module TransferQueue proves to be all of it.
 */
module SendSequence {
  import opened Options
  import opened SendModel
  import opened TransferTypes

  class SendSequence {
    const settings: SendSettings
    var sendContract: Option<Id>
    var sendContractAcked: bool
    var openSendContracts: map<Id, SequenceContract>
    var sendItems: seq<SendItem>
    var resendQueue: map<Id, ResendItem>
    var nextSequenceNumber: nat
    var packs: seq<SendPack>
    var status: Status
    var fault: Option<Fault>
    // effects
    var closedContracts: multiset<Id>
    var written: set<Pack>
    var callbacks: seq<CallbackEvent>
    // history
    ghost var contracts: map<Id, Contract>
    ghost var dropped: seq<(Id, nat)>
    ghost var log: seq<Entry>
    ghost var usedIds: set<Id>
    ghost var accepted: seq<SendPack>
    ghost var lost: multiset<nat>

    ghost function BooksNow(): Books
      reads this
    {
      Books(sendContract, sendContractAcked, openSendContracts, closedContracts, contracts, dropped)
    }

    ghost function FlightNow(): Flight
      reads this
    {
      Flight(sendItems, resendQueue, nextSequenceNumber, written, log, usedIds)
    }

    ghost function State(): SendState
      reads this
    {
      SendState(BooksNow(), FlightNow(), packs, status, fault, callbacks, accepted, lost)
    }

    constructor (settings: SendSettings)
      ensures State() == INITIAL && this.settings == settings
    {
      this.settings := settings;
      sendContract, sendContractAcked, openSendContracts, sendItems, resendQueue := None, false, map[], [], map[];
      nextSequenceNumber, packs, status, fault := 0, [], Running, None;
      closedContracts, written, callbacks := multiset{}, {}, [];
      contracts, dropped, log, usedIds, accepted, lost := map[], [], [], {}, [], multiset{};
    }

    // ---- contracts

    /** The ack of an open contract; false is the "Bad accounting" panic. */
    method SettleContract(contractId: Id, byteCount: nat) returns (ok: bool)
      requires contractId in openSendContracts
      modifies `openSendContracts, `closedContracts
      ensures ok <==> Settle(old(BooksNow()), contractId, byteCount).Some?
      ensures BooksNow() == if ok then Settle(old(BooksNow()), contractId, byteCount).value else old(BooksNow())
    {
      var settled := openSendContracts[contractId].Acked(byteCount);
      if settled.None? {
        return false;
      }
      openSendContracts := openSendContracts[contractId := settled.value];
      if sendContract != Some(contractId) && settled.value.unackedByteCount == 0 {
        closedContracts := closedContracts + multiset{contractId};
        openSendContracts := openSendContracts - {contractId};
      }
      ok := true;
    }

    method SettleItem(item: SendItem) returns (ok: bool)
      modifies `openSendContracts, `closedContracts
      ensures ok <==> SendModel.SettleItem(old(BooksNow()), item).Some?
      ensures BooksNow() == if ok then SendModel.SettleItem(old(BooksNow()), item).value else old(BooksNow())
    {
      ok := true;
      if item.contractId.Some? && item.contractId.value in openSendContracts {
        ok := SettleContract(item.contractId.value, item.messageByteCount);
      }
    }

    /** The callback of the pack that introduced the current contract. */
    method SetContractAcked(callback: AckCallback)
      modifies `sendContractAcked
      ensures BooksNow() == MarkAcked(old(BooksNow()), callback)
    {
      if callback.ContractCallback? && sendContract == Some(callback.contractId) {
        sendContractAcked := true;
      }
    }

    method AckItem(item: SendItem, event: CallbackEvent)
      modifies `openSendContracts, `closedContracts, `sendContractAcked, `callbacks, `fault
      ensures State() == SendModel.AckItem(old(State()), item, event)
    {
      var ok := SettleItem(item);
      if ok {
        FinishAck(event);
      } else {
        fault := Some(BadAccounting);
      }
    }

    method FinishAck(event: CallbackEvent)
      modifies `sendContractAcked, `callbacks
      ensures State() == old(State()).(
                books := MarkAcked(old(BooksNow()), event.callback), callbacks := old(callbacks) + [event])
    {
      SetContractAcked(event.callback);
      callbacks := callbacks + [event];
    }

    method SetContract(next: SequenceContract)
      modifies `openSendContracts, `closedContracts, `sendContract, `sendContractAcked
      ensures BooksNow() == SendModel.SetContract(old(BooksNow()), next)
    {
      if sendContract.Some? && sendContract.value in openSendContracts
         && openSendContracts[sendContract.value].unackedByteCount == 0 {
        closedContracts := closedContracts + multiset{sendContract.value};
        openSendContracts := openSendContracts - {sendContract.value};
      }
      openSendContracts := openSendContracts[next.contract.contractId := next];
      sendContract := Some(next.contract.contractId);
      sendContractAcked := false;
    }

    // ---- sending

    /** The current contract, for a pack that carries it. */
    function CurrentContract(): Option<Contract>
      reads this
    {
      if sendContract.Some? && sendContract.value in openSendContracts
      then Some(openSendContracts[sendContract.value].contract) else None
    }

    /** Numbers and writes a pack; it waits for an ack, or is settled at once. */
    method SendWithSetContract(frame: Option<Frame>, callback: AckCallback, ack: bool, setContract: bool, write: Write)
      modifies this
      ensures State() == SendModel.SendWithSetContract(old(State()), frame, callback, ack, setContract, write)
    {
      ghost var s := State();
      var waits := ack || (sendContract.Some? && !sendContractAcked);
      var head := waits && |sendItems| == 0;
      var contractFrame := if head || setContract then CurrentContract() else None;
      var pack := Pack(write.messageId, if waits then nextSequenceNumber else 0, head, FramesOf(frame), contractFrame,
                       !waits, if waits then None else sendContract);
      assert pack == NewPack(s, frame, SendsAck(s.books, ack), setContract, write.messageId);
      var item := SendItem(pack.messageId, pack.sequenceNumber, MessageByteCount(pack.frames), sendContract, callback);
      if waits {
        Enqueue(item, pack, setContract, write.resendTime);
      } else {
        SendNoAck(item, pack, write.success);
      }
    }

    method Enqueue(item: SendItem, pack: Pack, ghost setContract: bool, resendTime: int)
      requires item == NewItem(BooksNow(), pack, item.callback)
      modifies `sendItems, `resendQueue, `nextSequenceNumber, `written, `log, `usedIds
      ensures State() == old(State()).(
                flight := SendModel.Enqueue(old(FlightNow()), old(BooksNow()), pack, item.callback, setContract, resendTime))
    {
      Record(item, pack, setContract);
      nextSequenceNumber := nextSequenceNumber + 1;
      sendItems := sendItems + [item];
      resendQueue := resendQueue[item.messageId :=
        ResendItem(item, pack.head, pack.contractFrame.Some?, resendTime, pack)];
    }

    /** The pack is on the wire under its number. */
    method Record(item: SendItem, pack: Pack, ghost setContract: bool)
      modifies `written, `log, `usedIds
      ensures FlightNow() == old(FlightNow()).(
                written := old(written) + {pack}, usedIds := old(usedIds) + {pack.messageId},
                log := old(log) + [Entry(pack.messageId, pack.frames, BooksNow().CurrentContract(),
                                         item.callback, setContract)])
    {
      written, usedIds := written + {pack}, usedIds + {pack.messageId};
      log := log + [Entry(pack.messageId, pack.frames, CurrentContract(), item.callback, setContract)];
    }

    method SendNoAck(item: SendItem, pack: Pack, success: bool)
      modifies `written, `usedIds, `openSendContracts, `closedContracts, `sendContractAcked, `callbacks, `fault, `dropped
      ensures var s1 := old(State()).(flight := old(FlightNow()).(
                          written := old(written) + {pack}, usedIds := old(usedIds) + {pack.messageId}));
              State() == if success then SendModel.AckItem(s1, item, Sent(item.callback))
                         else s1.(callbacks := s1.callbacks + [Failed(item.callback)],
                                  books := DropNoAck(s1.books, item))
    {
      written, usedIds := written + {pack}, usedIds + {pack.messageId};
      if success {
        AckItem(item, Sent(item.callback));
      } else {
        callbacks := callbacks + [Failed(item.callback)];
        if item.contractId.Some? {
          dropped := dropped + [(item.contractId.value, item.messageByteCount)];
        }
      }
    }

    /** Switches to a contract from the manager, if it is new and the message fits. */
    method SetNextContract(byteCount: nat, offer: Offer) returns (ok: bool)
      requires settings.Valid()
      modifies this
      ensures (State(), ok) == SendModel.SetNextContract(old(State()), settings, byteCount, offer)
    {
      var id := offer.contract.contractId;
      if id in openSendContracts {
        return false;
      }
      contracts := contracts[id := offer.contract];
      ghost var s := State();
      var next := DebitNew(settings, offer.contract, byteCount);
      ok := next.Some?;
      if ok {
        SetContract(next.value);
        assert State() == s.(books := SendModel.SetContract(s.books, next.value));
        SendWithSetContract(None, ContractCallback(id), true, true, offer.write);
      } else {
        closedContracts := closedContracts + multiset{id};
      }
    }

    /** Takes contracts from the manager until one is set or it has no more in time. */
    method TakeContracts(byteCount: nat, offers: seq<Offer>) returns (ok: bool)
      requires settings.Valid()
      modifies this
      ensures (State(), ok) == SendModel.TakeContracts(old(State()), settings, byteCount, offers)
    {
      ghost var all := SendModel.TakeContracts(State(), settings, byteCount, offers);
      for i := 0 to |offers|
        invariant SendModel.TakeContracts(State(), settings, byteCount, offers[i..]) == all
      {
        assert offers[i..][1..] == offers[i + 1..];
        ok := SetNextContract(byteCount, offers[i]);
        if ok {
          return;
        }
      }
      ok := false;
    }

    /** Debits the current contract or the next one; a message that fits no contract is a panic. */
    method UpdateContract(byteCount: nat, offers: seq<Offer>) returns (ok: bool)
      requires settings.Valid()
      modifies this
      ensures (State(), ok) == SendModel.UpdateContract(old(State()), settings, byteCount, offers)
    {
      if sendContract.Some? && sendContract.value in openSendContracts {
        var updated := openSendContracts[sendContract.value].Update(byteCount);
        if updated.Some? {
          openSendContracts := openSendContracts[sendContract.value := updated.value];
          return true;
        }
      }
      if TooLarge(settings, byteCount) {
        fault := Some(MessageTooLarge);
        ok := false;
      } else {
        ok := TakeContracts(byteCount, offers);
      }
    }

    /** One pack from the channel. */
    method SendNext(offers: seq<Offer>, write: Write)
      requires settings.Valid() && packs != []
      modifies this
      ensures State() == SendModel.SendNext(old(State()), settings, offers, write)
    {
      var p := packs[0];
      packs := packs[1..];
      var ok := UpdateContract(|p.frame.messageBytes|, offers);
      Finish(p, ok, write);
    }

    /** Sends the pack that was taken, or ends the sequence. */
    method Finish(p: SendPack, ok: bool, write: Write)
      modifies this
      ensures State() == SendModel.Finish(old(State()), p, ok, write)
    {
      if fault.Some? {
        status, lost := Unwinding, lost + multiset{p.callback};
      } else if ok {
        SendWithSetContract(Some(p.frame), UserCallback(p.callback), p.ack, false, write);
      } else {
        status, callbacks := Unwinding, callbacks + [Failed(UserCallback(p.callback))];
      }
    }

    // ---- resending and acks

    /** Writes an item again, with the head flag and its contract once it is the oldest. */
    method Resend(messageId: Id, resendTime: int)
      requires messageId in resendQueue
      modifies `resendQueue, `written, `fault
      ensures State() == SendModel.Resend(old(State()), messageId, resendTime)
    {
      var r := resendQueue[messageId];
      if |sendItems| == 0 {
        fault := Some(MissingItem);
        return;
      }
      if sendItems[0].sequenceNumber == r.item.sequenceNumber && !r.head {
        var pack := SetHead(BooksOf(), r);
        if pack.None? {
          fault := Some(MissingContract);
          return;
        }
        r := r.(head := true, pack := pack.value);
      }
      written := written + {r.pack};
      resendQueue := resendQueue[messageId := r.(resendTime := resendTime)];
    }

    /** The open contracts, as SetHead looks them up. */
    function BooksOf(): Books
      reads this
    {
      Books(sendContract, sendContractAcked, openSendContracts, multiset{}, map[], [])
    }

    method ReceiveAck(messageId: Id, selective: bool, resendTime: int)
      modifies this
      ensures State() == SendModel.ReceiveAck(old(State()), messageId, selective, resendTime)
    {
      if messageId !in resendQueue {
        return;
      }
      if selective {
        resendQueue := resendQueue[messageId := resendQueue[messageId].(resendTime := resendTime)];
      } else {
        AckThrough(resendQueue[messageId].item.sequenceNumber);
      }
    }

    /** Acks are cumulative: every pending item up to the number is acknowledged, oldest first. */
    method AckThrough(sequenceNumber: nat)
      modifies this
      ensures State() == SendModel.AckThrough(old(State()), sequenceNumber)
    {
      ghost var all := SendModel.AckThrough(State(), sequenceNumber);
      while fault.None? && |sendItems| > 0 && sendItems[0].sequenceNumber <= sequenceNumber
        invariant SendModel.AckThrough(State(), sequenceNumber) == all
        decreases |sendItems|
      {
        var item := sendItems[0];
        if item.messageId !in resendQueue {
          fault := Some(MissingItem);
          return;
        }
        AckOldest();
      }
    }

    method AckOldest()
      requires sendItems != []
      modifies this
      ensures State() == SendModel.AckOldest(old(State()))
    {
      var item := sendItems[0];
      resendQueue := resendQueue - {item.messageId};
      sendItems := sendItems[1..];
      AckItem(item, Acked(item.callback, item.sequenceNumber));
    }

    // ---- the packs channel and the end of the sequence

    method SubmitPack(p: SendPack)
      modifies `packs, `accepted
      ensures State() == AcceptPack(old(State()), p)
    {
      if !status.Closed? {
        packs, accepted := packs + [p], accepted + [p];
      }
    }

    /** The deferred part of the run loop; `drained` is the resend queue in heap order. */
    method Exit(drained: seq<SendItem>)
      modifies this
      ensures State() == SendModel.Exit(old(State()), drained)
    {
      CloseContracts();
      FailDrained(drained);
      status, sendItems, resendQueue := Exited, [], map[];
    }

    method CloseContracts()
      modifies `closedContracts, `openSendContracts
      ensures BooksNow() == old(BooksNow()).(
                closedContracts := old(closedContracts) + multiset(old(openSendContracts.Keys)),
                openSendContracts := map[])
    {
      closedContracts := closedContracts + multiset(openSendContracts.Keys);
      openSendContracts := map[];
    }

    method FailDrained(drained: seq<SendItem>)
      modifies `callbacks
      ensures BooksNow() == old(BooksNow()) && callbacks == old(callbacks) + FailItems(drained)
    {
      for i := 0 to |drained|
        invariant callbacks == old(callbacks) + FailItems(drained)[..i]
      {
        callbacks := callbacks + [Failed(drained[i].callback)];
        assert FailItems(drained)[..i + 1] == FailItems(drained)[..i] + [Failed(drained[i].callback)];
      }
      assert FailItems(drained)[..|drained|] == FailItems(drained);
    }

    /** Closes the channel and drains it. */
    method Close()
      modifies this
      ensures State() == SendModel.Close(old(State()))
    {
      status := Closed;
      var waiting := packs;
      packs := [];
      for i := 0 to |waiting|
        invariant State() == old(State()).(
                    status := Closed, packs := [], callbacks := old(callbacks) + FailPacks(waiting)[..i])
      {
        callbacks := callbacks + [Failed(UserCallback(waiting[i].callback))];
        assert FailPacks(waiting)[..i + 1] == FailPacks(waiting)[..i] + [Failed(UserCallback(waiting[i].callback))];
      }
      assert FailPacks(waiting)[..|waiting|] == FailPacks(waiting);
    }
  }
}
