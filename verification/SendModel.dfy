/**
 What each step of a send sequence computes, as functions on the value of its fields.
 The class in SendSequence.dfy is proved to compute these functions.
 */
module SendModel {
  import opened Options
  import opened TransferTypes

  datatype SendSettings = SendSettings(
    minMessageByteCount: nat,
    fillNumerator: nat,
    fillDenominator: nat,
    standardContractByteCount: nat)
  {
    predicate Valid() {
      1 <= minMessageByteCount && 0 < fillDenominator && fillNumerator <= fillDenominator
    }

    /** The part of a contract the sender lets itself use. */
    function Effective(transferByteCount: nat): nat
      requires 0 < fillDenominator
    {
      transferByteCount * fillNumerator / fillDenominator
    }
  }

  /** The callback of a caller's pack, or the one that marks a contract acked. */
  datatype AckCallback = UserCallback(pack: nat) | ContractCallback(contractId: Id)

  /** A call of an ack callback: nil on a cumulative ack, nil on a no-ack write, or an error. */
  datatype CallbackEvent =
    | Acked(callback: AckCallback, sequenceNumber: nat)
    | Sent(callback: AckCallback)
    | Failed(callback: AckCallback)

  datatype SendPack = SendPack(frame: Frame, callback: nat, ack: bool)

  datatype SendItem = SendItem(
    messageId: Id,
    sequenceNumber: nat,
    messageByteCount: nat,
    contractId: Option<Id>,
    callback: AckCallback)

  /** An item in the resend queue with the fields that change while it waits. */
  datatype ResendItem = ResendItem(
    item: SendItem,
    head: bool,
    hasContractFrame: bool,
    resendTime: int,
    pack: Pack)

  /** What the environment decides about one new pack: its id, its first timer, and the write. */
  datatype Write = Write(messageId: Id, resendTime: int, success: bool)

  /** A contract handed out by the contract manager, with the write of the pack that introduces it. */
  datatype Offer = Offer(contract: Contract, write: Write)

  datatype Status = Running | Unwinding | Exited | Closed

  /** The panics of the sender's code. */
  datatype Fault = BadAccounting | MissingItem | MissingContract | MessageTooLarge

  /** History: what was sent under a sequence number, and the contract it was debited to. */
  datatype Entry = Entry(
    messageId: Id,
    frames: seq<Frame>,
    contract: Option<Contract>,
    callback: AckCallback,
    introduces: bool)

  /** The contract side of a send sequence. */
  datatype Books = Books(
    sendContract: Option<Id>,
    sendContractAcked: bool,
    openSendContracts: map<Id, SequenceContract>,
    // effects and history: closed contracts, accepted contracts, no-ack packs whose write failed
    closedContracts: multiset<Id>,
    contracts: map<Id, Contract>,
    dropped: seq<(Id, nat)>)
  {
    function CurrentContract(): Option<Contract> {
      if sendContract.Some? && sendContract.value in openSendContracts
      then Some(openSendContracts[sendContract.value].contract) else None
    }
  }

  /** The packs that are sent and not yet acknowledged, and everything put on the wire. */
  datatype Flight = Flight(
    sendItems: seq<SendItem>,
    resendQueue: map<Id, ResendItem>,
    nextSequenceNumber: nat,
    // effects and history
    written: set<Pack>,
    log: seq<Entry>,
    usedIds: set<Id>)
  {
    /** The number of the oldest item that is still pending. */
    function Base(): int { nextSequenceNumber - |sendItems| }
  }

  datatype SendState = SendState(
    books: Books,
    flight: Flight,
    packs: seq<SendPack>,
    status: Status,
    fault: Option<Fault>,
    callbacks: seq<CallbackEvent>,
    // history: the packs taken into the channel, and the callbacks lost in a panic
    accepted: seq<SendPack>,
    lost: multiset<nat>)

  const NO_BOOKS := Books(None, false, map[], multiset{}, map[], [])
  const NO_FLIGHT := Flight([], map[], 0, {}, [], {})
  const INITIAL := SendState(NO_BOOKS, NO_FLIGHT, [], Running, None, [], [], multiset{})

  // ---- contracts

  /** None is the "Bad accounting" panic. */
  function Settle(b: Books, contractId: Id, byteCount: nat): Option<Books>
    requires contractId in b.openSendContracts
  {
    match b.openSendContracts[contractId].Acked(byteCount)
    case None => None
    case Some(settled) =>
      // a contract that was switched away from closes with its last ack
      if b.sendContract != Some(contractId) && settled.unackedByteCount == 0
      then Some(b.(openSendContracts := b.openSendContracts - {contractId},
                   closedContracts := b.closedContracts + multiset{contractId}))
      else Some(b.(openSendContracts := b.openSendContracts[contractId := settled]))
  }

  function SettleItem(b: Books, item: SendItem): Option<Books> {
    if item.contractId.Some? && item.contractId.value in b.openSendContracts
    then Settle(b, item.contractId.value, item.messageByteCount) else Some(b)
  }

  function MarkAcked(b: Books, callback: AckCallback): Books {
    if callback.ContractCallback? && b.sendContract == Some(callback.contractId)
    then b.(sendContractAcked := true) else b
  }

  /** A current contract with pending data stays open and is closed on ack. */
  function CloseIdle(b: Books): Books {
    if b.sendContract.Some? && b.sendContract.value in b.openSendContracts
       && b.openSendContracts[b.sendContract.value].unackedByteCount == 0
    then b.(openSendContracts := b.openSendContracts - {b.sendContract.value},
            closedContracts := b.closedContracts + multiset{b.sendContract.value})
    else b
  }

  function SetContract(b: Books, next: SequenceContract): Books {
    var b1 := CloseIdle(b);
    b1.(openSendContracts := b1.openSendContracts[next.contract.contractId := next],
        sendContract := Some(next.contract.contractId),
        sendContractAcked := false)
  }

  function AckItem(s: SendState, item: SendItem, event: CallbackEvent): SendState {
    match SettleItem(s.books, item)
    case None => s.(fault := Some(BadAccounting))
    case Some(b) => s.(books := MarkAcked(b, event.callback), callbacks := s.callbacks + [event])
  }

  // ---- sending

  function FramesOf(frame: Option<Frame>): seq<Frame> {
    if frame.Some? then [frame.value] else []
  }

  /** No-ack packs are sent with ack until the contract is acked. */
  function SendsAck(b: Books, ack: bool): bool {
    ack || (b.sendContract.Some? && !b.sendContractAcked)
  }

  function NewPack(s: SendState, frame: Option<Frame>, ack: bool, setContract: bool, messageId: Id): Pack {
    var head := ack && s.flight.sendItems == [];
    Pack(messageId, if ack then s.flight.nextSequenceNumber else 0, head, FramesOf(frame),
         if head || setContract then s.books.CurrentContract() else None,
         !ack, if ack then None else s.books.sendContract)
  }

  function NewItem(b: Books, pack: Pack, callback: AckCallback): SendItem {
    SendItem(pack.messageId, pack.sequenceNumber, MessageByteCount(pack.frames), b.sendContract, callback)
  }

  /** A pack that waits for an ack joins the pending items. */
  function Enqueue(f: Flight, b: Books, pack: Pack, callback: AckCallback, setContract: bool, resendTime: int): Flight {
    var item := NewItem(b, pack, callback);
    Flight(f.sendItems + [item],
           f.resendQueue[item.messageId :=
             ResendItem(item, pack.head, pack.contractFrame.Some?, resendTime, pack)],
           f.nextSequenceNumber + 1,
           f.written + {pack},
           f.log + [Entry(pack.messageId, pack.frames, b.CurrentContract(), callback, setContract)],
           f.usedIds + {pack.messageId})
  }

  function DropNoAck(b: Books, item: SendItem): Books {
    if item.contractId.Some?
    then b.(dropped := b.dropped + [(item.contractId.value, item.messageByteCount)]) else b
  }

  function SendWithSetContract(s: SendState, frame: Option<Frame>, callback: AckCallback, ack: bool,
                               setContract: bool, write: Write): SendState
  {
    var pack := NewPack(s, frame, SendsAck(s.books, ack), setContract, write.messageId);
    var item := NewItem(s.books, pack, callback);
    if !pack.nack then
      s.(flight := Enqueue(s.flight, s.books, pack, callback, setContract, write.resendTime))
    else
      var s1 := s.(flight := s.flight.(written := s.flight.written + {pack},
                                       usedIds := s.flight.usedIds + {pack.messageId}));
      if write.success then AckItem(s1, item, Sent(callback))
      else s1.(callbacks := s1.callbacks + [Failed(callback)], books := DropNoAck(s1.books, item))
  }

  function FreshContract(settings: SendSettings, contract: Contract): SequenceContract
    requires settings.Valid()
  {
    SequenceContract(contract, settings.Effective(contract.transferByteCount),
                     settings.minMessageByteCount, 0, 0)
  }

  /** The new contract with its own pack and the waiting message debited, or None if they do not fit. */
  function DebitNew(settings: SendSettings, contract: Contract, byteCount: nat): Option<SequenceContract>
    requires settings.Valid()
  {
    match FreshContract(settings, contract).Update(0)
    case None => None
    case Some(c) => c.Update(byteCount)
  }

  function SetNextContract(s: SendState, settings: SendSettings, byteCount: nat, offer: Offer): (SendState, bool)
    requires settings.Valid()
  {
    var id := offer.contract.contractId;
    if id in s.books.openSendContracts then (s, false)
    else
      var b := s.books.(contracts := s.books.contracts[id := offer.contract]);
      match DebitNew(settings, offer.contract, byteCount)
      case None => (s.(books := b.(closedContracts := b.closedContracts + multiset{id})), false)
      case Some(next) =>
        (SendWithSetContract(s.(books := SetContract(b, next)), None, ContractCallback(id), true, true, offer.write),
         true)
  }

  /** The contracts the manager hands out until one is set; an empty list is a timeout. */
  function TakeContracts(s: SendState, settings: SendSettings, byteCount: nat, offers: seq<Offer>): (SendState, bool)
    requires settings.Valid()
    decreases |offers|
  {
    if offers == [] then (s, false)
    else
      var r := SetNextContract(s, settings, byteCount, offers[0]);
      if r.1 then r else TakeContracts(r.0, settings, byteCount, offers[1..])
  }

  /** The current contract debited for a message, if it fits. */
  function DebitCurrent(b: Books, byteCount: nat): Option<Books> {
    if b.sendContract.Some? && b.sendContract.value in b.openSendContracts
       && b.openSendContracts[b.sendContract.value].Fits(byteCount) then
      var id := b.sendContract.value;
      Some(b.(openSendContracts := b.openSendContracts[id := b.openSendContracts[id].Update(byteCount).value]))
    else None
  }

  predicate TooLarge(settings: SendSettings, byteCount: nat)
    requires settings.Valid()
  {
    settings.Effective(settings.standardContractByteCount) < byteCount + settings.minMessageByteCount
  }

  function UpdateContract(s: SendState, settings: SendSettings, byteCount: nat, offers: seq<Offer>): (SendState, bool)
    requires settings.Valid()
  {
    match DebitCurrent(s.books, byteCount)
    case Some(b) => (s.(books := b), true)
    case None =>
      if TooLarge(settings, byteCount) then (s.(fault := Some(MessageTooLarge)), false)
      else TakeContracts(s, settings, byteCount, offers)
  }

  /** One pack taken from the channel by the run loop. */
  function SendNext(s: SendState, settings: SendSettings, offers: seq<Offer>, write: Write): SendState
    requires settings.Valid() && s.packs != []
  {
    var p := s.packs[0];
    var (s1, ok) := UpdateContract(s.(packs := s.packs[1..]), settings, |p.frame.messageBytes|, offers);
    Finish(s1, p, ok, write)
  }

  /** The pack that was taken is sent if it was debited; otherwise the sequence ends. */
  function Finish(s: SendState, p: SendPack, ok: bool, write: Write): SendState {
    if s.fault.Some? then s.(status := Unwinding, lost := s.lost + multiset{p.callback})
    else if ok then SendWithSetContract(s, Some(p.frame), UserCallback(p.callback), p.ack, false, write)
    else s.(status := Unwinding, callbacks := s.callbacks + [Failed(UserCallback(p.callback))])
  }

  // ---- resending and acks

  /** The pack as the head of the sequence, with its contract; None is a nil dereference. */
  function SetHead(b: Books, r: ResendItem): Option<Pack> {
    if r.item.contractId.Some? && !r.hasContractFrame then
      if r.item.contractId.value in b.openSendContracts
      then Some(r.pack.(head := true, contractFrame := Some(b.openSendContracts[r.item.contractId.value].contract)))
      else None
    else Some(r.pack.(head := true))
  }

  function Rewrite(f: Flight, messageId: Id, r: ResendItem): Flight {
    f.(written := f.written + {r.pack}, resendQueue := f.resendQueue[messageId := r])
  }

  function Resend(s: SendState, messageId: Id, resendTime: int): SendState
    requires messageId in s.flight.resendQueue
  {
    var r := s.flight.resendQueue[messageId];
    if s.flight.sendItems == [] then s.(fault := Some(MissingItem))
    else if s.flight.sendItems[0].sequenceNumber == r.item.sequenceNumber && !r.head then
      match SetHead(s.books, r)
      case None => s.(fault := Some(MissingContract))
      case Some(pack) =>
        s.(flight := Rewrite(s.flight, messageId, r.(head := true, pack := pack, resendTime := resendTime)))
    else
      s.(flight := Rewrite(s.flight, messageId, r.(resendTime := resendTime)))
  }

  /** The oldest pending item leaves the list and the queue. */
  function Pop(f: Flight): Flight
    requires f.sendItems != []
  {
    f.(resendQueue := f.resendQueue - {f.sendItems[0].messageId}, sendItems := f.sendItems[1..])
  }

  /** Acknowledges the pending items up to and including a sequence number. */
  function AckThrough(s: SendState, sequenceNumber: nat): SendState
    decreases |s.flight.sendItems|
  {
    if s.fault.Some? || s.flight.sendItems == [] || sequenceNumber < s.flight.sendItems[0].sequenceNumber then s
    else if s.flight.sendItems[0].messageId !in s.flight.resendQueue then s.(fault := Some(MissingItem))
    else AckThrough(AckOldest(s), sequenceNumber)
  }

  function AckOldest(s: SendState): (t: SendState)
    requires s.flight.sendItems != []
    ensures |t.flight.sendItems| < |s.flight.sendItems|
  {
    var item := s.flight.sendItems[0];
    AckItem(s.(flight := Pop(s.flight)), item, Acked(item.callback, item.sequenceNumber))
  }

  function ReceiveAck(s: SendState, messageId: Id, selective: bool, resendTime: int): SendState {
    if messageId !in s.flight.resendQueue then s
    else if selective then
      var r := s.flight.resendQueue[messageId].(resendTime := resendTime);
      s.(flight := s.flight.(resendQueue := s.flight.resendQueue[messageId := r]))
    else AckThrough(s, s.flight.resendQueue[messageId].item.sequenceNumber)
  }

  // ---- the packs channel and the end of the sequence

  /** A pack can win the race into the channel until the channel is closed. */
  function AcceptPack(s: SendState, p: SendPack): SendState {
    if !s.status.Closed? then s.(packs := s.packs + [p], accepted := s.accepted + [p]) else s
  }

  function FailItems(items: seq<SendItem>): seq<CallbackEvent> {
    seq(|items|, i requires 0 <= i < |items| => Failed(items[i].callback))
  }

  function FailPacks(packs: seq<SendPack>): seq<CallbackEvent> {
    seq(|packs|, i requires 0 <= i < |packs| => Failed(UserCallback(packs[i].callback)))
  }

  /** The deferred part of the run loop; `drained` is the resend queue in heap order. */
  function Exit(s: SendState, drained: seq<SendItem>): SendState {
    s.(status := Exited,
       books := s.books.(closedContracts := s.books.closedContracts + multiset(s.books.openSendContracts.Keys),
                         openSendContracts := map[]),
       callbacks := s.callbacks + FailItems(drained),
       flight := s.flight.(sendItems := [], resendQueue := map[]))
  }

  function Close(s: SendState): SendState {
    s.(status := Closed, callbacks := s.callbacks + FailPacks(s.packs), packs := [])
  }
}
