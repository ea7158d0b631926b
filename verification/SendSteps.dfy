/** Sending keeps the invariant: new packs, new contracts and no-ack packs. */
module SendSteps {
  import opened Options
  import opened SendModel
  import opened SendSafety
  import opened TransferTypes

  // ---- packs sent with ack

  lemma NewPackOk(s: SendState, frame: Option<Frame>, callback: AckCallback, setContract: bool, id: Id,
                  delivered: set<nat>)
    requires FlightInv(s.flight, s.books.contracts, delivered) && id !in s.flight.usedIds
    requires s.books.CurrentContract().Some?
    requires var k := s.books.CurrentContract().value;
             && k.contractId in s.books.contracts && s.books.contracts[k.contractId] == k
             && (if setContract
                 then callback == ContractCallback(k.contractId) && Unseen(s.flight.log, |s.flight.log|, k.contractId)
                 else callback.UserCallback?)
    requires !setContract ==> s.flight.log != [] && LastIsCurrent(s.books, s.flight.log)
    ensures var pack := NewPack(s, frame, true, setContract, id);
            NewEntryOk(s.flight, Entry(id, pack.frames, s.books.CurrentContract(), callback, setContract), pack,
                       s.books.contracts, delivered)
  {
    var f := s.flight;
    var pack := NewPack(s, frame, true, setContract, id);
    var e := Entry(id, pack.frames, s.books.CurrentContract(), callback, setContract);
    assert EntryOk(f.log + [e], s.books.contracts, f.usedIds + {id}, |f.log|);
    assert WirePack(pack, f.log + [e], delivered);
  }

  lemma SendAckKeeps(s: SendState, frame: Option<Frame>, callback: AckCallback, ack: bool, setContract: bool,
                     write: Write, min: nat, rest: nat, delivered: set<nat>)
    requires s.fault.None? && FlightInv(s.flight, s.books.contracts, delivered)
    requires write.messageId !in s.flight.usedIds && SendsAck(s.books, ack)
    requires BooksInv(s.books, min, s.flight.sendItems, s.flight.log,
                      rest + Charge(min, MessageByteCount(FramesOf(frame))))
    requires EventsInv(s.callbacks, s.flight.log, delivered)
    requires s.books.CurrentContract().Some?
    requires if setContract
             then callback == ContractCallback(s.books.CurrentContract().value.contractId)
                  && Unseen(s.flight.log, |s.flight.log|, s.books.CurrentContract().value.contractId)
             else callback.UserCallback? && s.flight.log != [] && LastIsCurrent(s.books, s.flight.log)
    ensures Inv(SendWithSetContract(s, frame, callback, ack, setContract, write), min, rest, delivered)
    ensures var t := SendWithSetContract(s, frame, callback, ack, setContract, write);
            && t.books == s.books && |t.flight.log| == |s.flight.log| + 1
            && t.flight.usedIds == s.flight.usedIds + {write.messageId} && s.flight.log <= t.flight.log
  {
    var f, b := s.flight, s.books;
    assert b.contracts[b.sendContract.value] == b.CurrentContract().value;
    var pack := NewPack(s, frame, true, setContract, write.messageId);
    var item := NewItem(b, pack, callback);
    var e := Entry(pack.messageId, pack.frames, b.CurrentContract(), callback, setContract);
    NewPackOk(s, frame, callback, setContract, write.messageId, delivered);
    EnqueueFlight(f, b, pack, callback, setContract, write.resendTime, delivered);
    EnqueueBooks(b, min, f.sendItems, f.log, item, e, rest);
    EventsExtend(s.callbacks, f.log, f.log + [e], delivered, delivered);
  }

  lemma EventsExtend(callbacks: seq<CallbackEvent>, log: seq<Entry>, log': seq<Entry>,
                     delivered: set<nat>, delivered': set<nat>)
    requires EventsInv(callbacks, log, delivered) && log <= log' && delivered <= delivered'
    ensures EventsInv(callbacks, log', delivered')
  {
    forall i | 0 <= i < |callbacks| ensures EventOk(callbacks[i], log', delivered') {
      assert EventOk(callbacks[i], log, delivered);
    }
  }

  // ---- packs sent without ack

  /** A no-ack pack names a contract whose first pack was acknowledged, hence delivered. */
  lemma NoAckPackOk(s: SendState, frame: Option<Frame>, id: Id, min: nat, reserved: nat, delivered: set<nat>)
    requires FlightInv(s.flight, s.books.contracts, delivered)
    requires CurrentInv(s.books, s.flight.log, s.flight.Base())
    requires s.books.sendContract.Some? && s.books.sendContractAcked
    ensures WirePack(NewPack(s, frame, false, false, id), s.flight.log, delivered)
  {
    var c := s.books.sendContract.value;
    var n: nat :| n < s.flight.Base() && Introduced(s.flight.log, n, c);
    assert n in delivered && Introduced(s.flight.log, n, c);
  }

  lemma SettleReserved(b: Books, min: nat, items: seq<SendItem>, log: seq<Entry>, item: SendItem)
    requires BooksInv(b, min, items, log, Charge(min, item.messageByteCount))
    requires b.sendContract.Some? && item.contractId == b.sendContract
    ensures SettleItem(b, item).Some?
    ensures BooksInv(SettleItem(b, item).value, min, items, log, 0)
    ensures SettleItem(b, item).value.CurrentContract() == b.CurrentContract()
    ensures SettleItem(b, item).value.contracts == b.contracts
  {
    var c := b.sendContract.value;
    var reserved := Charge(min, item.messageByteCount);
    assert OpenOk(b.openSendContracts[c], min, items, b.dropped, log, reserved);
    var t := SettleItem(b, item).value;
    forall d | d in t.openSendContracts
      ensures OpenOk(t.openSendContracts[d], min, items, t.dropped, log, 0)
    {
      assert OpenOk(b.openSendContracts[d], min, items, b.dropped, log, ReservedFor(b.sendContract, reserved, d));
    }
    assert OpenInv(t, min, items, log, 0);
  }

  lemma DropReserved(b: Books, min: nat, items: seq<SendItem>, log: seq<Entry>, item: SendItem)
    requires BooksInv(b, min, items, log, Charge(min, item.messageByteCount))
    requires b.sendContract.Some? && item.contractId == b.sendContract
    ensures BooksInv(DropNoAck(b, item), min, items, log, 0)
  {
    var c := b.sendContract.value;
    var reserved := Charge(min, item.messageByteCount);
    var t := DropNoAck(b, item);
    forall d | d in t.openSendContracts
      ensures OpenOk(t.openSendContracts[d], min, items, t.dropped, log, 0)
    {
      assert OpenOk(b.openSendContracts[d], min, items, b.dropped, log, ReservedFor(b.sendContract, reserved, d));
      DroppedAppend(min, b.dropped, (c, item.messageByteCount), d);
    }
    assert OpenInv(t, min, items, log, 0);
  }

  lemma SendNoAckKeeps(s: SendState, frame: Frame, callback: nat, write: Write, min: nat, delivered: set<nat>)
    requires Inv(s, min, Charge(min, |frame.messageBytes|), delivered)
    requires write.messageId !in s.flight.usedIds && !SendsAck(s.books, false)
    requires s.books.sendContract.Some?
    ensures var t := SendWithSetContract(s, Some(frame), UserCallback(callback), false, false, write);
            Inv(t, min, 0, delivered) && t.flight.log == s.flight.log && t.books.contracts == s.books.contracts
  {
    var f, b := s.flight, s.books;
    var pack := NewPack(s, Some(frame), false, false, write.messageId);
    var item := NewItem(b, pack, UserCallback(callback));
    assert MessageByteCount([frame]) == |frame.messageBytes| by { assert [frame][1..] == []; }
    NoAckPackOk(s, Some(frame), write.messageId, min, 0, delivered);
    NoAckFlight(f, b.contracts, pack, delivered);
    if write.success {
      SettleReserved(b, min, f.sendItems, f.log, item);
      EventsAppend(s.callbacks, Sent(UserCallback(callback)), f.log, delivered);
    } else {
      DropReserved(b, min, f.sendItems, f.log, item);
      EventsAppend(s.callbacks, Failed(UserCallback(callback)), f.log, delivered);
    }
  }

  lemma NoAckFlight(f: Flight, contracts: map<Id, Contract>, pack: Pack, delivered: set<nat>)
    requires FlightInv(f, contracts, delivered) && WirePack(pack, f.log, delivered)
    ensures FlightInv(f.(written := f.written + {pack}, usedIds := f.usedIds + {pack.messageId}), contracts, delivered)
  {
    var w, u := f.written + {pack}, f.usedIds + {pack.messageId};
    forall n | 0 <= n < |f.log| ensures EntryOk(f.log, contracts, u, n) {
      assert EntryOk(f.log, contracts, f.usedIds, n);
    }
    forall i | 0 <= i < |f.sendItems|
      ensures ResendMatches(f.resendQueue[f.sendItems[i].messageId], f.sendItems[i], w)
    {
      assert ResendMatches(f.resendQueue[f.sendItems[i].messageId], f.sendItems[i], f.written);
    }
  }

  // ---- contracts

  lemma DebitKeeps(b: Books, min: nat, items: seq<SendItem>, log: seq<Entry>, byteCount: nat)
    requires BooksInv(b, min, items, log, 0) && DebitCurrent(b, byteCount).Some?
    ensures BooksInv(DebitCurrent(b, byteCount).value, min, items, log, Charge(min, byteCount))
    ensures DebitCurrent(b, byteCount).value.CurrentContract() == b.CurrentContract()
  {
    var c := b.sendContract.value;
    var t := DebitCurrent(b, byteCount).value;
    forall d | d in t.openSendContracts
      ensures OpenOk(t.openSendContracts[d], min, items, t.dropped, log,
                     ReservedFor(t.sendContract, Charge(min, byteCount), d))
    {
      assert OpenOk(b.openSendContracts[d], min, items, b.dropped, log, 0);
    }
  }

  lemma EffectiveBound(settings: SendSettings, transferByteCount: nat)
    requires settings.Valid()
    ensures settings.Effective(transferByteCount) <= transferByteCount
  {
    var n, d := settings.fillNumerator, settings.fillDenominator;
    assert transferByteCount * n <= transferByteCount * d;
    DivideBound(transferByteCount * n, transferByteCount, d);
  }

  lemma DivideBound(a: nat, q: nat, d: nat)
    requires 0 < d && a <= q * d
    ensures a / d <= q
  {
  }

  lemma {:induction false} UnknownUncharged(min: nat, items: seq<SendItem>, dropped: seq<(Id, nat)>, c: Id)
    requires forall i | 0 <= i < |items| :: items[i].contractId != Some(c)
    requires forall i | 0 <= i < |dropped| :: dropped[i].0 != c
    ensures PendingCharge(min, items, c) == 0 && DroppedCharge(min, dropped, c) == 0
    decreases |items| + |dropped|
  {
    if items != [] { UnknownUncharged(min, items[1..], dropped, c); }
    else if dropped != [] { UnknownUncharged(min, items, dropped[1..], c); }
  }

  /** A contract never seen before has no charge of any kind. */
  lemma NewUncharged(b: Books, min: nat, items: seq<SendItem>, log: seq<Entry>, c: Id)
    requires BooksInv(b, min, items, log, 0) && LogContracts(log, b.contracts) && c !in b.contracts
    ensures PendingCharge(min, items, c) == 0 && DroppedCharge(min, b.dropped, c) == 0
    ensures LogCharge(min, log, c, |log|) == 0
  {
    UnknownUncharged(min, items, b.dropped, c);
    LogUncharged(min, log, c, |log|);
  }

  /** A rejected or accepted contract becomes known. */
  ghost function Know(b: Books, contract: Contract): Books {
    b.(contracts := b.contracts[contract.contractId := contract])
  }

  lemma RejectKeeps(b: Books, min: nat, items: seq<SendItem>, log: seq<Entry>, contract: Contract)
    requires BooksInv(b, min, items, log, 0) && LogContracts(log, b.contracts) && contract.contractId !in b.contracts
    ensures var t := Know(b, contract).(closedContracts := b.closedContracts + multiset{contract.contractId});
            BooksInv(t, min, items, log, 0)
  {
    NewUncharged(b, min, items, log, contract.contractId);
    var t := Know(b, contract).(closedContracts := b.closedContracts + multiset{contract.contractId});
    forall d | d in t.openSendContracts
      ensures d in t.contracts && t.contracts[d] == t.openSendContracts[d].contract && t.contracts[d].contractId == d
      ensures OpenOk(t.openSendContracts[d], min, items, t.dropped, log, 0)
    {
      assert OpenOk(b.openSendContracts[d], min, items, b.dropped, log, 0);
    }
  }

  lemma CloseIdleKeeps(b: Books, min: nat, items: seq<SendItem>, log: seq<Entry>)
    requires 1 <= min && BooksInv(b, min, items, log, 0)
    ensures ItemsOpen(items, CloseIdle(b).openSendContracts)
    ensures ClosedOnce(CloseIdle(b).closedContracts, CloseIdle(b).openSendContracts, b.contracts)
  {
    if CloseIdle(b) != b {
      var c := b.sendContract.value;
      assert OpenOk(b.openSendContracts[c], min, items, b.dropped, log, 0);
      PendingZero(min, items, c);
    }
  }

  lemma SetContractKeeps(b: Books, settings: SendSettings, items: seq<SendItem>, log: seq<Entry>,
                         contract: Contract, byteCount: nat)
    requires settings.Valid() && |items| <= |log|
    requires BooksInv(b, settings.minMessageByteCount, items, log, 0) && LogContracts(log, b.contracts)
    requires contract.contractId !in b.contracts && DebitNew(settings, contract, byteCount).Some?
    ensures var min := settings.minMessageByteCount;
            BooksInv(SetContract(Know(b, contract), DebitNew(settings, contract, byteCount).value), min, items, log,
                     Charge(min, byteCount) + Charge(min, 0))
  {
    var min, c := settings.minMessageByteCount, contract.contractId;
    var next := DebitNew(settings, contract, byteCount).value;
    NewUncharged(b, min, items, log, c);
    DebitNewOk(b, settings, items, log, contract, byteCount);
    SetContractOpen(b, min, items, log, contract, next, Charge(min, byteCount) + Charge(min, 0));
    SetContractRest(b, min, items, log, contract, next);
  }

  /** What does not depend on the size of the contract. */
  lemma SetContractRest(b: Books, min: nat, items: seq<SendItem>, log: seq<Entry>, contract: Contract,
                        next: SequenceContract)
    requires 1 <= min && |items| <= |log| && BooksInv(b, min, items, log, 0) && contract.contractId !in b.contracts
    requires next.contract == contract && LogCharge(min, log, contract.contractId, |log|) == 0
    ensures var t := SetContract(Know(b, contract), next);
            && ItemsOpen(items, t.openSendContracts) && CurrentInv(t, log, |log| - |items|)
            && ContractsCover(min, t.contracts, log)
            && ClosedOnce(t.closedContracts, t.openSendContracts, t.contracts) && DroppedKnown(t.dropped, t.contracts)
  {
    CloseIdleKeeps(b, min, items, log);
    OneMoreOpen(CloseIdle(b), items, next);
    SetContractIs(b, contract, next);
  }

  lemma SetContractIs(b: Books, contract: Contract, next: SequenceContract)
    requires next.contract == contract
    ensures var t, c := SetContract(Know(b, contract), next), contract.contractId;
            && t.openSendContracts == CloseIdle(b).openSendContracts[c := next]
            && t.closedContracts == CloseIdle(b).closedContracts && t.contracts == b.contracts[c := contract]
            && t.dropped == b.dropped && t.sendContract == Some(c) && !t.sendContractAcked
            && CloseIdle(b).contracts == b.contracts
  {
  }

  lemma OneMoreOpen(b: Books, items: seq<SendItem>, next: SequenceContract)
    requires ItemsOpen(items, b.openSendContracts) && ClosedOnce(b.closedContracts, b.openSendContracts, b.contracts)
    requires next.contract.contractId !in b.contracts
    ensures var c := next.contract.contractId;
            && ItemsOpen(items, b.openSendContracts[c := next])
            && ClosedOnce(b.closedContracts, b.openSendContracts[c := next], b.contracts[c := next.contract])
  {
  }

  lemma DebitNewOk(b: Books, settings: SendSettings, items: seq<SendItem>, log: seq<Entry>,
                   contract: Contract, byteCount: nat)
    requires settings.Valid() && DebitNew(settings, contract, byteCount).Some?
    requires var min, c := settings.minMessageByteCount, contract.contractId;
             PendingCharge(min, items, c) == 0 && DroppedCharge(min, b.dropped, c) == 0
             && LogCharge(min, log, c, |log|) == 0
    ensures var min := settings.minMessageByteCount;
            OpenOk(DebitNew(settings, contract, byteCount).value, min, items, b.dropped, log,
                   Charge(min, byteCount) + Charge(min, 0))
    ensures DebitNew(settings, contract, byteCount).value.contract == contract
  {
    EffectiveBound(settings, contract.transferByteCount);
  }

  lemma SetContractOpen(b: Books, min: nat, items: seq<SendItem>, log: seq<Entry>, contract: Contract,
                        next: SequenceContract, reserved: nat)
    requires BooksInv(b, min, items, log, 0) && contract.contractId !in b.contracts && next.contract == contract
    requires OpenOk(next, min, items, b.dropped, log, reserved)
    ensures OpenInv(SetContract(Know(b, contract), next), min, items, log, reserved)
  {
    var t := SetContract(Know(b, contract), next);
    forall d | d in t.openSendContracts
      ensures d in t.contracts && t.contracts[d] == t.openSendContracts[d].contract && t.contracts[d].contractId == d
      ensures OpenOk(t.openSendContracts[d], min, items, t.dropped, log, ReservedFor(t.sendContract, reserved, d))
    {
      if d != contract.contractId {
        assert OpenOk(b.openSendContracts[d], min, items, b.dropped, log, 0);
      }
    }
  }

  ghost predicate FreshOffers(s: SendState, offers: seq<Offer>) {
    && (forall i | 0 <= i < |offers| :: offers[i].contract.contractId !in s.books.contracts
                                        && offers[i].write.messageId !in s.flight.usedIds)
    && (forall i, j | 0 <= i < j < |offers| :: offers[i].contract.contractId != offers[j].contract.contractId)
  }

  /** What taking contracts leaves: on success the message is debited to the new current contract. */
  ghost predicate Taken(s: SendState, t: SendState, ok: bool, ids: set<Id>, byteCount: nat, min: nat, delivered: set<nat>) {
    && Inv(t, min, if ok then Charge(min, byteCount) else 0, delivered)
    && (ok ==> t.books.sendContract.Some? && t.flight.log != [])
    && t.flight.usedIds <= s.flight.usedIds + ids
    && s.flight.log <= t.flight.log
    && t.status == s.status && t.packs == s.packs && t.accepted == s.accepted && t.lost == s.lost
    && t.callbacks == s.callbacks
    && Extends(s.books.contracts, t.books.contracts)
  }

  ghost predicate Extends(contracts: map<Id, Contract>, contracts': map<Id, Contract>) {
    forall c | c in contracts :: c in contracts' && contracts'[c] == contracts[c]
  }

  /** The pack that introduces a contract that was just set. */
  lemma IntroduceKeeps(s: SendState, contract: Contract, write: Write, min: nat, rest: nat, delivered: set<nat>)
    requires s.fault.None? && FlightInv(s.flight, s.books.contracts, delivered)
    requires write.messageId !in s.flight.usedIds && s.books.CurrentContract() == Some(contract)
    requires BooksInv(s.books, min, s.flight.sendItems, s.flight.log, rest + Charge(min, 0))
    requires EventsInv(s.callbacks, s.flight.log, delivered)
    requires Unseen(s.flight.log, |s.flight.log|, contract.contractId)
    ensures var t := SendWithSetContract(s, None, ContractCallback(contract.contractId), true, true, write);
            && Inv(t, min, rest, delivered)
            && t == s.(flight := t.flight) && t.flight.log != [] && s.flight.log <= t.flight.log
            && t.flight.usedIds == s.flight.usedIds + {write.messageId}
  {
    SendAckKeeps(s, None, ContractCallback(contract.contractId), true, true, write, min, rest, delivered);
  }

  /** The books once a contract is set and before its pack is sent. */
  lemma AcceptBooks(s: SendState, settings: SendSettings, byteCount: nat, contract: Contract, next: SequenceContract,
                    delivered: set<nat>)
    requires settings.Valid() && Inv(s, settings.minMessageByteCount, 0, delivered)
    requires contract.contractId !in s.books.contracts && DebitNew(settings, contract, byteCount) == Some(next)
    ensures var b := SetContract(Know(s.books, contract), next);
            && FlightInv(s.flight, b.contracts, delivered) && b.CurrentContract() == Some(contract)
            && BooksInv(b, settings.minMessageByteCount, s.flight.sendItems, s.flight.log,
                        Charge(settings.minMessageByteCount, byteCount) + Charge(settings.minMessageByteCount, 0))
            && Extends(s.books.contracts, b.contracts)
            && Unseen(s.flight.log, |s.flight.log|, contract.contractId)
  {
    LogKnown(s.flight.log, s.books.contracts, s.flight.usedIds);
    KnowFlight(s.flight, s.books.contracts, contract, delivered);
    SetContractKeeps(s.books, settings, s.flight.sendItems, s.flight.log, contract, byteCount);
    NewContractIs(settings, contract, byteCount);
  }

  lemma AcceptKeeps(s: SendState, settings: SendSettings, byteCount: nat, offer: Offer, next: SequenceContract,
                    delivered: set<nat>)
    requires settings.Valid() && Inv(s, settings.minMessageByteCount, 0, delivered)
    requires offer.contract.contractId !in s.books.contracts && offer.write.messageId !in s.flight.usedIds
    requires DebitNew(settings, offer.contract, byteCount) == Some(next)
    ensures var s1 := s.(books := SetContract(Know(s.books, offer.contract), next));
            var t := SendWithSetContract(s1, None, ContractCallback(offer.contract.contractId), true, true, offer.write);
            Taken(s, t, true, {offer.write.messageId}, byteCount, settings.minMessageByteCount, delivered)
  {
    var min := settings.minMessageByteCount;
    AcceptBooks(s, settings, byteCount, offer.contract, next, delivered);
    var s1 := s.(books := SetContract(Know(s.books, offer.contract), next));
    IntroduceKeeps(s1, offer.contract, offer.write, min, Charge(min, byteCount), delivered);
  }

  lemma NewContractIs(settings: SendSettings, contract: Contract, byteCount: nat)
    requires settings.Valid() && DebitNew(settings, contract, byteCount).Some?
    ensures DebitNew(settings, contract, byteCount).value.contract == contract
  {
  }

  lemma SetNextKeeps(s: SendState, settings: SendSettings, byteCount: nat, offer: Offer, delivered: set<nat>)
    requires settings.Valid() && Inv(s, settings.minMessageByteCount, 0, delivered)
    requires offer.contract.contractId !in s.books.contracts && offer.write.messageId !in s.flight.usedIds
    ensures var r := SetNextContract(s, settings, byteCount, offer);
            && Taken(s, r.0, r.1, {offer.write.messageId}, byteCount, settings.minMessageByteCount, delivered)
            && (!r.1 ==> r.0.flight == s.flight
                         && r.0.books.contracts == s.books.contracts[offer.contract.contractId := offer.contract])
  {
    if DebitNew(settings, offer.contract, byteCount).Some? {
      AcceptKeeps(s, settings, byteCount, offer, DebitNew(settings, offer.contract, byteCount).value, delivered);
    } else {
      RefuseKeeps(s, settings.minMessageByteCount, byteCount, offer.contract, delivered);
    }
  }

  /** A contract that does not hold the message is closed and otherwise changes nothing. */
  lemma RefuseKeeps(s: SendState, min: nat, byteCount: nat, contract: Contract, delivered: set<nat>)
    requires 1 <= min && Inv(s, min, 0, delivered) && contract.contractId !in s.books.contracts
    ensures var b := Know(s.books, contract).(closedContracts := s.books.closedContracts + multiset{contract.contractId});
            Taken(s, s.(books := b), false, {}, byteCount, min, delivered)
  {
    LogKnown(s.flight.log, s.books.contracts, s.flight.usedIds);
    KnowFlight(s.flight, s.books.contracts, contract, delivered);
    RejectKeeps(s.books, min, s.flight.sendItems, s.flight.log, contract);
  }

  lemma KnowFlight(f: Flight, contracts: map<Id, Contract>, contract: Contract, delivered: set<nat>)
    requires FlightInv(f, contracts, delivered) && contract.contractId !in contracts
    ensures FlightInv(f, contracts[contract.contractId := contract], delivered)
  {
    var contracts' := contracts[contract.contractId := contract];
    forall n | 0 <= n < |f.log| ensures EntryOk(f.log, contracts', f.usedIds, n) {
      assert EntryOk(f.log, contracts, f.usedIds, n);
    }
  }

  ghost function OfferIds(offers: seq<Offer>): set<Id> {
    set o | o in offers :: o.write.messageId
  }

  lemma {:induction false} TakeKeeps(s: SendState, settings: SendSettings, byteCount: nat, offers: seq<Offer>,
                                     delivered: set<nat>)
    requires settings.Valid() && Inv(s, settings.minMessageByteCount, 0, delivered) && FreshOffers(s, offers)
    ensures var r := TakeContracts(s, settings, byteCount, offers);
            Taken(s, r.0, r.1, OfferIds(offers), byteCount, settings.minMessageByteCount, delivered)
    decreases |offers|
  {
    if offers != [] {
      SetNextKeeps(s, settings, byteCount, offers[0], delivered);
      var r := SetNextContract(s, settings, byteCount, offers[0]);
      assert offers[0] in offers;
      assert {offers[0].write.messageId} <= OfferIds(offers);
      if !r.1 {
        TakeKeeps(r.0, settings, byteCount, offers[1..], delivered);
        assert OfferIds(offers[1..]) <= OfferIds(offers);
      }
    }
  }

  // ---- one pack from the channel

  /** How a step of the run loop that takes a pack ends. */
  ghost predicate SentOk(s: SendState, t: SendState, settings: SendSettings, delivered: set<nat>) {
    && Inv(t.(fault := None), settings.minMessageByteCount, 0, delivered)
    && (t.fault.Some? ==> t.fault.value.MessageTooLarge? && t.status.Unwinding?)
    && s.flight.log <= t.flight.log && Extends(s.books.contracts, t.books.contracts)
  }

  lemma SendUserKeeps(s: SendState, frame: Frame, callback: nat, ack: bool, write: Write, min: nat, delivered: set<nat>)
    requires Inv(s, min, Charge(min, |frame.messageBytes|), delivered)
    requires write.messageId !in s.flight.usedIds && s.books.sendContract.Some? && s.flight.log != []
    ensures var t := SendWithSetContract(s, Some(frame), UserCallback(callback), ack, false, write);
            Inv(t, min, 0, delivered) && s.flight.log <= t.flight.log && t.books.contracts == s.books.contracts
  {
    assert MessageByteCount([frame]) == |frame.messageBytes| by { assert [frame][1..] == []; }
    if SendsAck(s.books, ack) {
      SendAckKeeps(s, Some(frame), UserCallback(callback), ack, false, write, min, 0, delivered);
    } else {
      SendNoAckKeeps(s, frame, callback, write, min, delivered);
    }
  }

  /** The message is debited to the current contract and sent. */
  lemma SendCurrentKeeps(s: SendState, p: SendPack, write: Write, min: nat, delivered: set<nat>)
    requires Inv(s, min, 0, delivered) && write.messageId !in s.flight.usedIds
    requires DebitCurrent(s.books, |p.frame.messageBytes|).Some?
    ensures var s1 := s.(books := DebitCurrent(s.books, |p.frame.messageBytes|).value);
            var t := SendWithSetContract(s1, Some(p.frame), UserCallback(p.callback), p.ack, false, write);
            Inv(t, min, 0, delivered) && s.flight.log <= t.flight.log && t.books.contracts == s.books.contracts
  {
    var s1 := s.(books := DebitCurrent(s.books, |p.frame.messageBytes|).value);
    DebitKeeps(s.books, min, s.flight.sendItems, s.flight.log, |p.frame.messageBytes|);
    SendUserKeeps(s1, p.frame, p.callback, p.ack, write, min, delivered);
  }

  lemma SendNextKeeps(s: SendState, settings: SendSettings, offers: seq<Offer>, write: Write, delivered: set<nat>)
    requires settings.Valid() && s.packs != []
    requires Inv(s, settings.minMessageByteCount, 0, delivered) && FreshOffers(s, offers)
    requires write.messageId !in s.flight.usedIds && write.messageId !in OfferIds(offers)
    ensures SentOk(s, SendNext(s, settings, offers, write), settings, delivered)
  {
    var min, p := settings.minMessageByteCount, s.packs[0];
    var byteCount := |p.frame.messageBytes|;
    var s0 := s.(packs := s.packs[1..]);
    var (s1, ok) := UpdateContract(s0, settings, byteCount, offers);
    if DebitCurrent(s.books, byteCount).Some? {
      SendCurrentKeeps(s0, p, write, min, delivered);
    } else if !TooLarge(settings, byteCount) {
      assert FreshOffers(s0, offers);
      TakeKeeps(s0, settings, byteCount, offers, delivered);
      if ok {
        SendUserKeeps(s1, p.frame, p.callback, p.ack, write, min, delivered);
      } else {
        EventsAppend(s1.callbacks, Failed(UserCallback(p.callback)), s1.flight.log, delivered);
      }
    }
  }
}
