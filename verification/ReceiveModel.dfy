/**
 What each step of a receive sequence computes, as functions on the value of its fields.
 The class in ReceiveSequence.dfy is proved to compute these functions.
 */
module ReceiveModel {
  import opened AckWindow
  import opened MapSum
  import opened Options
  import opened TransferTypes

  datatype ReceiveSettings = ReceiveSettings(
    minMessageByteCount: nat,
    receiveQueueMaxByteCount: nat,
    maxOpenReceiveContract: nat,
    allowLegacyNack: bool)

  datatype ReceiveItem = ReceiveItem(
    messageId: Id,
    sequenceNumber: nat,
    messageByteCount: nat,
    head: bool,
    frames: seq<Frame>,
    contractFrame: Option<Contract>)

  /** One call of the receive callback for a pack that is acknowledged. */
  datatype Delivery = Delivery(sequenceNumber: nat, frames: seq<Frame>, head: bool, contractId: Id)

  datatype ReceiveBooks = ReceiveBooks(
    openReceiveContracts: map<Id, SequenceContract>,
    // the open contracts, earliest created first
    order: seq<Id>,
    receiveContract: Option<Id>,
    // history: what no-ack packs were charged since a contract was opened
    noAckCharged: map<Id, nat>)

  datatype ReceiveState = ReceiveState(
    alive: bool,
    badAccounting: bool,
    books: ReceiveBooks,
    receiveQueue: map<Id, ReceiveItem>,
    nextSequenceNumber: nat,
    window: Window,
    // effects
    deliveries: seq<Delivery>,
    noAckDeliveries: seq<seq<Frame>>)

  const NO_CONTRACTS := ReceiveBooks(map[], [], None, map[])
  const INITIAL := ReceiveState(true, false, NO_CONTRACTS, map[], 0, EMPTY_WINDOW, [], [])

  function ItemOf(pack: Pack): ReceiveItem {
    ReceiveItem(pack.messageId, pack.sequenceNumber, MessageByteCount(pack.frames), pack.head, pack.frames,
                pack.contractFrame)
  }

  // ---- contracts

  /** Closes the given contracts, except the current one. */
  function CloseContracts(b: ReceiveBooks, victims: seq<Id>): ReceiveBooks
    decreases |victims|
  {
    if victims == [] then b
    else
      var b1 := if Some(victims[0]) == b.receiveContract then b
                else b.(openReceiveContracts := b.openReceiveContracts - {victims[0]},
                        order := Without(b.order, victims[0]));
      CloseContracts(b1, victims[1..])
  }

  function Without(ids: seq<Id>, id: Id): seq<Id> {
    if ids == [] then [] else (if ids[0] == id then [] else [ids[0]]) + Without(ids[1..], id)
  }

  function OpenContract(b: ReceiveBooks, next: SequenceContract): ReceiveBooks {
    var id := next.contract.contractId;
    b.(openReceiveContracts := b.openReceiveContracts[id := next], order := b.order + [id],
       receiveContract := Some(id), noAckCharged := b.noAckCharged[id := 0])
  }

  function SetContract(b: ReceiveBooks, next: SequenceContract, maxOpen: nat): ReceiveBooks {
    var id := next.contract.contractId;
    if b.receiveContract == Some(id) then b
    else if id in b.openReceiveContracts then b.(receiveContract := Some(id))
    else
      var b1 := OpenContract(b, next);
      // over the limit, the contracts opened first go
      if maxOpen < |b1.order| then CloseContracts(b1, b1.order[..|b1.order| - maxOpen]) else b1
  }

  /** A receiver lets its peer use the whole contract. */
  function FreshContract(settings: ReceiveSettings, contract: Contract): SequenceContract {
    SequenceContract(contract, contract.transferByteCount, settings.minMessageByteCount, 0, 0)
  }

  function RegisterContracts(b: ReceiveBooks, contractFrame: Option<Contract>, settings: ReceiveSettings): ReceiveBooks {
    if contractFrame.None? then b
    else SetContract(b, FreshContract(settings, contractFrame.value), settings.maxOpenReceiveContract)
  }

  /** The contract debited for a message, or None: no contract, or no room in it. */
  function UpdateContract(b: ReceiveBooks, contractId: Option<Id>, byteCount: nat): Option<ReceiveBooks> {
    if contractId.Some? && contractId.value in b.openReceiveContracts then
      match b.openReceiveContracts[contractId.value].Update(byteCount)
      case None => None
      case Some(c) => Some(b.(openReceiveContracts := b.openReceiveContracts[contractId.value := c]))
    else None
  }

  /** The ack of `receiveHead`; None is a panic. */
  function AckContract(b: ReceiveBooks, contractId: Id, byteCount: nat): Option<ReceiveBooks> {
    if contractId in b.openReceiveContracts then
      match b.openReceiveContracts[contractId].Acked(byteCount)
      case None => None
      case Some(c) => Some(b.(openReceiveContracts := b.openReceiveContracts[contractId := c]))
    else None
  }

  // ---- packs that are acknowledged

  function NonSelective(item: ReceiveItem): SequenceAck {
    SequenceAck(item.sequenceNumber, item.messageId, false)
  }

  function ReceiveHead(s: ReceiveState, item: ReceiveItem, contractId: Id): ReceiveState {
    match AckContract(s.books, contractId, item.messageByteCount)
    case None => s.(badAccounting := true, alive := false)
    case Some(b) =>
      s.(books := b,
         deliveries := s.deliveries + [Delivery(item.sequenceNumber, item.frames, item.head, contractId)],
         window := WithAck(s.window, NonSelective(item)))
  }

  /** The item at the head of the sequence; without a valid contract the sequence exits. */
  function Consume(s: ReceiveState, item: ReceiveItem, settings: ReceiveSettings): ReceiveState {
    var b := RegisterContracts(s.books, item.contractFrame, settings);
    match UpdateContract(b, b.receiveContract, item.messageByteCount)
    case None => s.(books := b, alive := false)
    case Some(b1) => ReceiveHead(s.(books := b1), item, b1.receiveContract.value)
  }

  function RemoveNumber(queue: map<Id, ReceiveItem>, sequenceNumber: nat): map<Id, ReceiveItem> {
    map id | id in queue && queue[id].sequenceNumber != sequenceNumber :: queue[id]
  }

  function ItemBytes(item: ReceiveItem): nat { item.messageByteCount }

  ghost predicate CanQueue(queue: map<Id, ReceiveItem>, byteCount: nat, max: nat) {
    queue == map[] || Sum(queue, ItemBytes) + byteCount < max
  }

  ghost predicate IsLast(queue: map<Id, ReceiveItem>, id: Id) {
    id in queue && forall j | j in queue :: queue[j].sequenceNumber <= queue[id].sequenceNumber
  }

  ghost predicate IsFirst(queue: map<Id, ReceiveItem>, id: Id) {
    id in queue && forall j | j in queue :: queue[id].sequenceNumber <= queue[j].sequenceNumber
  }

  lemma {:induction false} LastExists(queue: map<Id, ReceiveItem>)
    requires queue != map[]
    ensures exists id :: IsLast(queue, id)
    decreases |queue.Keys|
  {
    var k :| k in queue;
    var rest := queue - {k};
    assert rest.Keys == queue.Keys - {k};
    assert forall j | j in queue :: j == k || j in rest;
    if rest == map[] {
      assert IsLast(queue, k);
    } else {
      LastExists(rest);
      var l :| IsLast(rest, l);
      var best := if queue[l].sequenceNumber <= queue[k].sequenceNumber then k else l;
      assert forall j | j in queue :: j == k || queue[j].sequenceNumber <= queue[l].sequenceNumber;
      assert IsLast(queue, best);
    }
  }

  /** Removes later items until the new one fits or no item is later. */
  ghost function EvictLater(queue: map<Id, ReceiveItem>, byteCount: nat, sequenceNumber: nat, max: nat): map<Id, ReceiveItem>
    decreases |queue.Keys|
  {
    if CanQueue(queue, byteCount, max) then queue
    else
      LastExists(queue);
      var last :| IsLast(queue, last);
      assert (queue - {last}).Keys == queue.Keys - {last};
      if sequenceNumber < queue[last].sequenceNumber
      then EvictLater(queue - {last}, byteCount, sequenceNumber, max) else queue
  }

  ghost function Enqueue(s: ReceiveState, item: ReceiveItem, settings: ReceiveSettings): ReceiveState {
    var max := settings.receiveQueueMaxByteCount;
    var queue := EvictLater(s.receiveQueue, item.messageByteCount, item.sequenceNumber, max);
    if CanQueue(queue, item.messageByteCount, max) then
      s.(receiveQueue := queue[item.messageId := item],
         window := WithAck(s.window, SequenceAck(item.sequenceNumber, item.messageId, true)))
    else s.(receiveQueue := queue)
  }

  /** A future head depends on acks the receiver has lost: it moves to the sender's state. */
  function Jumped(s: ReceiveState, item: ReceiveItem): nat {
    if item.head && s.nextSequenceNumber < item.sequenceNumber then item.sequenceNumber else s.nextSequenceNumber
  }

  /** The older versions of an item leave the queue. */
  function Replaced(queue: map<Id, ReceiveItem>, item: ReceiveItem): map<Id, ReceiveItem> {
    RemoveNumber(queue, item.sequenceNumber) - {item.messageId}
  }

  ghost function Receive(s: ReceiveState, pack: Pack, settings: ReceiveSettings): ReceiveState {
    var item := ItemOf(pack);
    var next := Jumped(s, item);
    var s1 := s.(nextSequenceNumber := next, receiveQueue := Replaced(s.receiveQueue, item));
    if item.sequenceNumber == next then Consume(s1.(nextSequenceNumber := next + 1), item, settings)
    // its number has been consumed, so the sender missed the ack
    else if item.sequenceNumber < next then s1.(window := WithAck(s1.window, NonSelective(item)))
    else Enqueue(s1, item, settings)
  }

  /** The first queued item, once it is not ahead of the sequence. */
  function Drain(s: ReceiveState, id: Id, settings: ReceiveSettings): ReceiveState
    requires id in s.receiveQueue
  {
    var item := s.receiveQueue[id];
    var s1 := s.(receiveQueue := s.receiveQueue - {id});
    if item.sequenceNumber == s.nextSequenceNumber then
      var t := Consume(s1, item, settings);
      if t.alive then t.(nextSequenceNumber := s.nextSequenceNumber + 1) else t
    else if item.sequenceNumber < s.nextSequenceNumber then s1.(window := WithAck(s1.window, NonSelective(item)))
    else s
  }

  // ---- no-ack packs

  function NoAckContract(b: ReceiveBooks, pack: Pack): Option<Id> {
    if pack.contractId.Some? then pack.contractId else b.receiveContract
  }

  /** A no-ack pack is delivered on arrival if its contract is open and has room, and dropped if not. */
  function ReceiveNack(s: ReceiveState, pack: Pack, settings: ReceiveSettings): ReceiveState {
    if pack.contractId.None? && !settings.allowLegacyNack then s
    else
      var b := RegisterContracts(s.books, pack.contractFrame, settings);
      var byteCount := MessageByteCount(pack.frames);
      match UpdateContract(b, NoAckContract(b, pack), byteCount)
      case None => s.(books := b)
      case Some(b1) =>
        var id := NoAckContract(b1, pack).value;
        match AckContract(b1, id, byteCount)
        case None => s.(books := b1, badAccounting := true, alive := false)
        case Some(b2) =>
          var charged := (if id in b2.noAckCharged then b2.noAckCharged[id] else 0)
                         + Charge(settings.minMessageByteCount, byteCount);
          s.(books := b2.(noAckCharged := b2.noAckCharged[id := charged]),
             noAckDeliveries := s.noAckDeliveries + [pack.frames])
  }

  ghost function ReceivePack(s: ReceiveState, pack: Pack, settings: ReceiveSettings): ReceiveState {
    if pack.nack then ReceiveNack(s, pack, settings) else Receive(s, pack, settings)
  }
}
