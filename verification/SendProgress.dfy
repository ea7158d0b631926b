/**
 What the steps of a send sequence achieve: a pack that fits a contract is sent, the oldest pending pack is
 resent as the head, and a cumulative ack takes off exactly what it covers.
 */
module SendProgress {
  import opened Options
  import opened SendContracts
  import SendHistory
  import opened SendModel
  import opened SendSafety
  import opened SendSteps
  import opened TransferTypes

  // ---- one pack from the channel

  /** The message fits the current contract, or one of the offered ones. */
  ghost predicate FitsSome(s: SendState, settings: SendSettings, byteCount: nat, offers: seq<Offer>)
    requires settings.Valid()
  {
    || DebitCurrent(s.books, byteCount).Some?
    || (!TooLarge(settings, byteCount) && exists o <- offers :: Holds(settings, byteCount, o.contract))
  }

  /** The pack goes out without an ack. */
  ghost predicate GoesUnacked(s: SendState, byteCount: nat, ack: bool) {
    !ack && s.books.sendContractAcked && DebitCurrent(s.books, byteCount).Some?
  }

  /** A pack that waits for an ack is the last of the log, and the head if it is the only one that is pending. */
  ghost predicate Numbered(s: SendState, t: SendState, p: SendPack, write: Write) {
    var f, n := t.flight, |t.flight.log| - 1;
    && |s.flight.log| <= n && f.nextSequenceNumber == n + 1
    && f.log[n] == Entry(write.messageId, [p.frame], t.books.CurrentContract(), UserCallback(p.callback), false)
    && write.messageId in f.resendQueue
    && (var r := f.resendQueue[write.messageId];
        && r.resendTime == write.resendTime && r.pack in f.written
        && r.pack == Pack(write.messageId, n, f.Base() == n, [p.frame],
                          if f.Base() == n then f.log[n].contract else None, false, None))
    && t.callbacks == s.callbacks
  }

  /** A no-ack pack names the current contract and is called back at once. */
  ghost predicate Unnumbered(s: SendState, t: SendState, p: SendPack, write: Write) {
    && t.flight == s.flight.(written := t.flight.written, usedIds := t.flight.usedIds)
    && t.flight.written
       == s.flight.written + {Pack(write.messageId, 0, false, [p.frame], None, true, s.books.sendContract)}
    && t.callbacks == s.callbacks + [if write.success then Sent(UserCallback(p.callback))
                                     else Failed(UserCallback(p.callback))]
  }

  /** The pack is not sent, and the sequence ends. */
  ghost predicate NotSent(s: SendState, t: SendState, p: SendPack, lost: bool) {
    && t.status.Unwinding?
    && (if lost then t.lost == s.lost + multiset{p.callback} && t.callbacks == s.callbacks && t.flight == s.flight
        else t.lost == s.lost && t.callbacks == s.callbacks + [Failed(UserCallback(p.callback))])
  }

  lemma NumberedPack(s0: SendState, s: SendState, p: SendPack, write: Write)
    requires SendsAck(s.books, p.ack) && |s.flight.log| == s.flight.nextSequenceNumber
    requires |s0.flight.log| <= |s.flight.log| && s.callbacks == s0.callbacks
    requires |s.flight.sendItems| <= |s.flight.log|
    ensures Numbered(s0, SendWithSetContract(s, Some(p.frame), UserCallback(p.callback), p.ack, false, write), p, write)
  {
  }

  lemma UnnumberedPack(s0: SendState, s: SendState, p: SendPack, write: Write, min: nat, delivered: set<nat>)
    requires !SendsAck(s.books, p.ack) && s.flight == s0.flight && s.books.sendContract == s0.books.sendContract
    requires s.callbacks == s0.callbacks && Inv(s, min, Charge(min, |p.frame.messageBytes|), delivered)
    requires s.books.sendContract.Some? && write.messageId !in s.flight.usedIds
    ensures Unnumbered(s0, SendWithSetContract(s, Some(p.frame), UserCallback(p.callback), p.ack, false, write), p, write)
  {
    SendNoAckKeeps(s, p.frame, p.callback, write, min, delivered);
  }

  /** A message that fits a contract is debited and sent, and only then does the sequence go on. */
  lemma SentExactlyWhenItFits(s: SendState, settings: SendSettings, offers: seq<Offer>, write: Write, delivered: set<nat>)
    requires settings.Valid() && s.packs != [] && s.status.Running?
    requires Inv(s, settings.minMessageByteCount, 0, delivered) && FreshOffers(s, offers)
    requires write.messageId !in s.flight.usedIds && write.messageId !in OfferIds(offers)
    ensures var t, p := SendNext(s, settings, offers, write), s.packs[0];
            var byteCount := |p.frame.messageBytes|;
            && t.packs == s.packs[1..]
            && (if FitsSome(s, settings, byteCount, offers) then
                  t.status.Running? && t.lost == s.lost
                  && if GoesUnacked(s, byteCount, p.ack) then Unnumbered(s, t, p, write) else Numbered(s, t, p, write)
                else
                  NotSent(s, t, p, TooLarge(settings, byteCount)))
  {
    var min, p := settings.minMessageByteCount, s.packs[0];
    var byteCount := |p.frame.messageBytes|;
    if DebitCurrent(s.books, byteCount).Some? {
      SentUnderCurrent(s, settings, offers, write, delivered);
    } else if !TooLarge(settings, byteCount) {
      SentUnderOffer(s, settings, offers, write, delivered);
    }
  }

  lemma SentUnderCurrent(s: SendState, settings: SendSettings, offers: seq<Offer>, write: Write, delivered: set<nat>)
    requires settings.Valid() && s.packs != [] && s.status.Running?
    requires Inv(s, settings.minMessageByteCount, 0, delivered) && write.messageId !in s.flight.usedIds
    requires DebitCurrent(s.books, |s.packs[0].frame.messageBytes|).Some?
    ensures var t, p := SendNext(s, settings, offers, write), s.packs[0];
            && t.packs == s.packs[1..] && t.status.Running? && t.lost == s.lost
            && if GoesUnacked(s, |p.frame.messageBytes|, p.ack) then Unnumbered(s, t, p, write) else Numbered(s, t, p, write)
  {
    var min, p := settings.minMessageByteCount, s.packs[0];
    var byteCount := |p.frame.messageBytes|;
    var s1 := s.(packs := s.packs[1..], books := DebitCurrent(s.books, byteCount).value);
    DebitKeeps(s.books, min, s.flight.sendItems, s.flight.log, byteCount);
    if SendsAck(s1.books, p.ack) {
      NumberedPack(s, s1, p, write);
    } else {
      UnnumberedPack(s, s1, p, write, min, delivered);
    }
  }

  lemma SentUnderOffer(s: SendState, settings: SendSettings, offers: seq<Offer>, write: Write, delivered: set<nat>)
    requires settings.Valid() && s.packs != [] && s.status.Running?
    requires Inv(s, settings.minMessageByteCount, 0, delivered) && FreshOffers(s, offers)
    requires DebitCurrent(s.books, |s.packs[0].frame.messageBytes|).None?
    requires !TooLarge(settings, |s.packs[0].frame.messageBytes|)
    ensures var t, p := SendNext(s, settings, offers, write), s.packs[0];
            && t.packs == s.packs[1..] && t.lost == s.lost
            && if exists o <- offers :: Holds(settings, |p.frame.messageBytes|, o.contract)
               then t.status.Running? && Numbered(s, t, p, write)
               else NotSent(s, t, p, false)
  {
    var min, p, s0 := settings.minMessageByteCount, s.packs[0], s.(packs := s.packs[1..]);
    var byteCount := |p.frame.messageBytes|;
    var r := TakeContracts(s0, settings, byteCount, offers);
    var i := FirstFitExists(settings, byteCount, offers);
    TakesFirstFit(s0, settings, byteCount, offers, i);
    TakeKeeps(s0, settings, byteCount, offers, delivered);
    SomeFits(settings, byteCount, offers, i);
    if r.1 {
      SendHistory.TakenIsUnacked(s0, settings, byteCount, offers);
      NumberedPack(s, r.0, p, write);
    }
  }

  lemma SomeFits(settings: SendSettings, byteCount: nat, offers: seq<Offer>, i: nat)
    requires settings.Valid() && FirstFit(settings, byteCount, offers, i)
    ensures (exists o <- offers :: Holds(settings, byteCount, o.contract)) <==> i < |offers|
  {
    if i < |offers| {
      assert offers[i] in offers;
    } else {
      forall o | o in offers ensures !Holds(settings, byteCount, o.contract) {
        var j :| 0 <= j < |offers| && offers[j] == o;
      }
    }
  }

  // ---- resending

  /** What a resend leaves: only the item's own entry changes, and the oldest item has gone out as the head. */
  ghost predicate ResentAs(f: Flight, t: Flight, id: Id, time: int)
    requires id in f.resendQueue && f.sendItems != [] && 0 <= f.Base() < |f.log|
  {
    && id in t.resendQueue
    && (var r := t.resendQueue[id];
        && t == f.(written := f.written + {r.pack}, resendQueue := f.resendQueue[id := r])
        && r.resendTime == time && r.pack.messageId == id && r.item == f.resendQueue[id].item
        && (if id == f.sendItems[0].messageId then
              && r.pack == Pack(id, f.Base(), true, f.log[f.Base()].frames, f.log[f.Base()].contract, false, None)
              && r.pack.contractFrame.Some? && r.head
            else
              r.pack in f.written && r.pack == f.resendQueue[id].pack && r.head == f.resendQueue[id].head))
  }

  lemma OldestGoesOutAsHead(s: SendState, id: Id, time: int, min: nat, delivered: set<nat>)
    requires Inv(s, min, 0, delivered) && id in s.flight.resendQueue
    ensures s.flight.sendItems != [] && 0 <= s.flight.Base() < |s.flight.log|
    ensures ResentAs(s.flight, Resend(s, id, time).flight, id, time)
  {
    var f, r := s.flight, s.flight.resendQueue[id];
    var i := QueuedItem(f, s.books.contracts, delivered, id);
    OldestOrNot(f, s.books.contracts, delivered, id, i);
    if i == 0 {
      if !r.head { HeadHasContract(s.books, min, f.sendItems, f.log, 0, r); }
    } else {
      assert Resend(s, id, time).flight == Rewrite(f, id, r.(resendTime := time));
      assert f.written + {r.pack} == f.written;
    }
  }

  /** The oldest item is known by its number and by its id. */
  lemma OldestOrNot(f: Flight, contracts: map<Id, Contract>, delivered: set<nat>, id: Id, i: nat)
    requires FlightInv(f, contracts, delivered) && i < |f.sendItems| && f.sendItems[i].messageId == id
    ensures f.sendItems[0].messageId == id <==> i == 0
    ensures f.sendItems[0].sequenceNumber == f.sendItems[i].sequenceNumber <==> i == 0
  {
    assert ItemMatches(f.sendItems[0], f.log, f.Base() + 0);
    assert ItemMatches(f.sendItems[i], f.log, f.Base() + i);
  }

  // ---- acks

  function AckedEvents(items: seq<SendItem>): seq<CallbackEvent> {
    seq(|items|, i requires 0 <= i < |items| => Acked(items[i].callback, items[i].sequenceNumber))
  }

  function IdsOf(items: seq<SendItem>): set<Id> {
    set x | x in items :: x.messageId
  }

  /** The k oldest items are acknowledged in order, and nothing else. */
  ghost predicate TookOff(s: SendState, t: SendState, k: nat) {
    && k <= |s.flight.sendItems|
    && t.flight == s.flight.(sendItems := s.flight.sendItems[k..],
                             resendQueue := s.flight.resendQueue - IdsOf(s.flight.sendItems[..k]))
    && t.callbacks == s.callbacks + AckedEvents(s.flight.sendItems[..k])
  }

  lemma TookOffOne(s: SendState, t: SendState, k: nat)
    requires s.flight.sendItems != [] && SettleItem(s.books, s.flight.sendItems[0]).Some?
    requires TookOff(AckOldest(s), t, k)
    ensures TookOff(s, t, k + 1)
  {
    var items := s.flight.sendItems;
    var e := Acked(items[0].callback, items[0].sequenceNumber);
    assert items[1..][..k] == items[..k + 1][1..];
    assert items[1..][k..] == items[k + 1..];
    assert AckedEvents(items[..k + 1]) == [e] + AckedEvents(items[1..][..k]);
    assert s.callbacks + [e] + AckedEvents(items[1..][..k]) == s.callbacks + ([e] + AckedEvents(items[1..][..k]));
    TakenIds(items, k);
    assert s.flight.resendQueue - {items[0].messageId} - IdsOf(items[1..][..k])
        == s.flight.resendQueue - IdsOf(items[..k + 1]);
  }

  lemma TakenIds(items: seq<SendItem>, k: nat)
    requires k < |items|
    ensures IdsOf(items[..k + 1]) == {items[0].messageId} + IdsOf(items[1..][..k])
  {
    assert items[..k + 1] == [items[0]] + items[1..][..k];
  }

  /** The oldest item goes first. */
  lemma OldestIsFirst(s: SendState, n: nat, min: nat, delivered: set<nat>)
    requires 1 <= min && Inv(s, min, 0, delivered) && Below(n + 1, delivered)
    requires s.flight.sendItems != [] && s.flight.Base() <= n
    ensures AckThrough(s, n) == AckThrough(AckOldest(s), n) && SettleItem(s.books, s.flight.sendItems[0]).Some?
    ensures Inv(AckOldest(s), min, 0, delivered) && AckOldest(s).flight == Pop(s.flight)
  {
    var f := s.flight;
    assert ItemMatches(f.sendItems[0], f.log, f.Base() + 0);
    PendingIsQueued(f, s.books.contracts, delivered);
    AckOldestKeeps(s, min, delivered);
    SettleOpen(s.books, min, f.sendItems, f.log);
  }

  lemma NothingToAck(s: SendState, n: nat, contracts: map<Id, Contract>, delivered: set<nat>)
    requires FlightInv(s.flight, contracts, delivered) && (s.flight.sendItems == [] || n < s.flight.Base())
    ensures AckThrough(s, n) == s
  {
    if s.flight.sendItems != [] { assert ItemMatches(s.flight.sendItems[0], s.flight.log, s.flight.Base() + 0); }
  }

  /** How many of the pending items a number covers. */
  function CoveredBy(f: Flight, n: nat): int { if n < f.Base() then 0 else n + 1 - f.Base() }

  lemma TookOffFirst(s: SendState, t: SendState, n: nat)
    requires s.flight.sendItems != [] && 0 <= s.flight.Base() <= n && SettleItem(s.books, s.flight.sendItems[0]).Some?
    requires AckOldest(s).flight == Pop(s.flight)
    requires 0 <= CoveredBy(AckOldest(s).flight, n) && TookOff(AckOldest(s), t, CoveredBy(AckOldest(s).flight, n))
    ensures TookOff(s, t, CoveredBy(s.flight, n))
  {
    TookOffOne(s, t, n - s.flight.Base());
  }

  /** A cumulative ack of a number takes off the pending items up to it. */
  lemma {:induction false} AckThroughIsExact(s: SendState, n: nat, min: nat, delivered: set<nat>)
    requires 1 <= min && Inv(s, min, 0, delivered) && Below(n + 1, delivered) && n < s.flight.nextSequenceNumber
    ensures 0 <= CoveredBy(s.flight, n) && TookOff(s, AckThrough(s, n), CoveredBy(s.flight, n))
    decreases |s.flight.sendItems|
  {
    if s.flight.sendItems == [] || n < s.flight.Base() {
      NothingToAck(s, n, s.books.contracts, delivered);
      TookOffNone(s);
    } else {
      OldestIsFirst(s, n, min, delivered);
      AckThroughIsExact(AckOldest(s), n, min, delivered);
      TookOffFirst(s, AckThrough(s, n), n);
    }
  }

  lemma TookOffNone(s: SendState)
    ensures TookOff(s, s, 0)
  {
    assert IdsOf([]) == {};
  }

  lemma AcksItsNumber(s: SendState, id: Id, time: int, n: nat, delivered: set<nat>)
    requires FlightInv(s.flight, s.books.contracts, delivered) && id in s.flight.resendQueue
    requires n < |s.flight.log| && s.flight.log[n].messageId == id
    ensures ReceiveAck(s, id, false, time) == AckThrough(s, n) && s.flight.Base() <= n
  {
    QueuedNumber(s.flight, id, n);
    var i := QueuedItem(s.flight, s.books.contracts, delivered, id);
  }

  /** An ack of a pending item: up to its number, or only its timer. An ack of anything else is dropped. */
  lemma AckIsExact(s: SendState, id: Id, selective: bool, time: int, n: nat, min: nat, delivered: set<nat>)
    requires 1 <= min && Inv(s, min, 0, delivered)
    requires !selective ==> Below(n + 1, delivered) && n < |s.flight.log| && s.flight.log[n].messageId == id
    ensures var f, t := s.flight, ReceiveAck(s, id, selective, time);
            if id !in f.resendQueue then t == s
            else if selective then
              t == s.(flight := f.(resendQueue := f.resendQueue[id := f.resendQueue[id].(resendTime := time)]))
            else
              f.Base() <= n && TookOff(s, t, n + 1 - f.Base())
  {
    if id in s.flight.resendQueue && !selective {
      AcksItsNumber(s, id, time, n, delivered);
      AckThroughIsExact(s, n, min, delivered);
    }
  }
}
