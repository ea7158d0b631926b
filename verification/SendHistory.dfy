/**
 What the history of a send sequence says: the entries of the log come from the packs that callers
 handed in, in the order in which they were accepted, and so does every no-ack pack; the numbers whose
 callbacks were called after an ack are those below the pending ones, and the pack that introduced the
 contract of a no-ack pack is among them.
 */
module SendHistory {
  import opened Options
  import opened SendModel
  import opened SendSafety
  import opened TransferTypes

  /** The entry of a caller's pack has the frame and the callback of a pack that was accepted. */
  ghost predicate EntryFrom(e: Entry, accepted: seq<SendPack>) {
    e.callback.UserCallback? ==> exists p <- accepted :: p.callback == e.callback.pack && e.frames == [p.frame]
  }

  /** How many of the accepted packs have left the channel, if it gives the oldest first. */
  function Taken(s: SendState): int { |s.accepted| - |s.packs| }

  /** The entry of a caller's pack is that of the accepted pack at its position, which has left the channel. */
  ghost predicate AtPosition(e: Entry, accepted: seq<SendPack>, taken: int, position: nat) {
    e.callback.UserCallback? ==>
      && position < taken <= |accepted|
      && e.callback.pack == accepted[position].callback && e.frames == [accepted[position].frame]
  }

  /** Callers' packs are numbered in the order of their positions. */
  ghost predicate Ascending(log: seq<Entry>, positions: seq<nat>) {
    && |positions| == |log|
    && forall m, n | 0 <= m < n < |log| && log[m].callback.UserCallback? && log[n].callback.UserCallback? ::
         positions[m] < positions[n]
  }

  ghost predicate Ordered(log: seq<Entry>, accepted: seq<SendPack>, taken: int, positions: seq<nat>) {
    && Ascending(log, positions)
    && forall n | 0 <= n < |log| :: AtPosition(log[n], accepted, taken, positions[n])
  }

  /** The frames are those of a pack that was accepted to be sent without an ack. */
  ghost predicate NoAckFrom(frames: seq<Frame>, accepted: seq<SendPack>) {
    exists p <- accepted :: !p.ack && frames == [p.frame]
  }

  ghost predicate NoAcksFrom(written: set<Pack>, accepted: seq<SendPack>) {
    forall p | p in written && p.nack :: NoAckFrom(p.frames, accepted)
  }

  /** The channel is first in, first out. */
  ghost predicate FromAccepted(s: SendState) {
    && 0 <= Taken(s) && s.packs == s.accepted[Taken(s)..]
    && (exists positions :: Ordered(s.flight.log, s.accepted, Taken(s), positions))
    && NoAcksFrom(s.flight.written, s.accepted)
  }

  /** It depends on what was accepted, taken, numbered and written alone. */
  lemma SameHistory(s: SendState, t: SendState)
    requires FromAccepted(s) && t.packs == s.packs && t.accepted == s.accepted
    requires t.flight.log == s.flight.log && t.flight.written == s.flight.written
    ensures FromAccepted(t)
  {
    var positions :| Ordered(s.flight.log, s.accepted, Taken(s), positions);
    assert Ordered(t.flight.log, t.accepted, Taken(t), positions);
  }

  lemma OrderedIsFrom(s: SendState)
    requires FromAccepted(s)
    ensures forall n | 0 <= n < |s.flight.log| :: EntryFrom(s.flight.log[n], s.accepted)
  {
    var positions :| Ordered(s.flight.log, s.accepted, Taken(s), positions);
    forall n | 0 <= n < |s.flight.log| ensures EntryFrom(s.flight.log[n], s.accepted) {
      assert AtPosition(s.flight.log[n], s.accepted, Taken(s), positions[n]);
    }
  }

  /** More accepted and more taken packs, and new entries of no caller, keep the order. */
  lemma OrderStays(log: seq<Entry>, log': seq<Entry>, accepted: seq<SendPack>, accepted': seq<SendPack>, taken: int,
                   taken': int, positions: seq<nat>) returns (positions': seq<nat>)
    requires Ordered(log, accepted, taken, positions)
    requires log <= log' && accepted <= accepted' && taken <= taken' <= |accepted'|
    requires forall n | |log| <= n < |log'| :: log'[n].callback.ContractCallback?
    ensures Ordered(log', accepted', taken', positions')
  {
    positions' := positions + seq(|log'| - |log|, _ => 0);
    forall n | 0 <= n < |log'| ensures AtPosition(log'[n], accepted', taken', positions'[n]) {
      if n < |log| { assert AtPosition(log[n], accepted, taken, positions[n]); }
    }
  }

  /** The pack that was taken last is numbered last. */
  lemma OrderAppend(log: seq<Entry>, e: Entry, accepted: seq<SendPack>, taken: nat, positions: seq<nat>)
    requires Ordered(log, accepted, taken, positions) && taken < |accepted|
    requires e.callback == UserCallback(accepted[taken].callback) && e.frames == [accepted[taken].frame]
    ensures Ordered(log + [e], accepted, taken + 1, positions + [taken])
  {
    forall n | 0 <= n < |log + [e]| ensures AtPosition((log + [e])[n], accepted, taken + 1, (positions + [taken])[n]) {
      if n < |log| { assert AtPosition(log[n], accepted, taken, positions[n]); }
    }
    forall m, n | 0 <= m < n < |log + [e]| && (log + [e])[m].callback.UserCallback?
                  && (log + [e])[n].callback.UserCallback?
      ensures (positions + [taken])[m] < (positions + [taken])[n]
    {
      assert AtPosition(log[m], accepted, taken, positions[m]);
    }
  }

  /** The callback of the number was called after a cumulative ack. */
  ghost predicate IsAcked(callbacks: seq<CallbackEvent>, n: nat) {
    exists e <- callbacks :: e.Acked? && e.sequenceNumber == n
  }

  ghost predicate AckedBelow(callbacks: seq<CallbackEvent>, base: int) {
    forall n: nat :: IsAcked(callbacks, n) <==> n < base
  }

  /** The pack that introduced the contract of a no-ack pack was acknowledged. */
  ghost predicate ContractAcked(p: Pack, log: seq<Entry>, callbacks: seq<CallbackEvent>) {
    p.contractId.Some? && exists n: nat :: IsAcked(callbacks, n) && Introduced(log, n, p.contractId.value)
  }

  ghost predicate NoAcksFollow(written: set<Pack>, log: seq<Entry>, callbacks: seq<CallbackEvent>) {
    forall p | p in written && p.nack :: ContractAcked(p, log, callbacks)
  }

  /** A longer log and more callbacks keep it, and so do packs that wait for an ack. */
  lemma NoAcksStay(written: set<Pack>, written': set<Pack>, log: seq<Entry>, log': seq<Entry>,
                   callbacks: seq<CallbackEvent>, callbacks': seq<CallbackEvent>)
    requires NoAcksFollow(written, log, callbacks) && log <= log' && callbacks <= callbacks'
    requires forall p | p in written' && p.nack :: p in written
    ensures NoAcksFollow(written', log', callbacks')
  {
    forall p | p in written' && p.nack ensures ContractAcked(p, log', callbacks') {
      assert ContractAcked(p, log, callbacks);
      var n: nat :| IsAcked(callbacks, n) && Introduced(log, n, p.contractId.value);
      var e :| e in callbacks && e.Acked? && e.sequenceNumber == n;
      assert e in callbacks';
      assert IsAcked(callbacks', n) && Introduced(log', n, p.contractId.value);
    }
  }

  /** Nothing of a caller changes but for contract packs that are added to the log. */
  ghost predicate Quiet(s: SendState, t: SendState) {
    && t.packs == s.packs && t.accepted == s.accepted && t.callbacks == s.callbacks
    && t.flight.Base() == s.flight.Base() && s.flight.log <= t.flight.log
    && (forall n | |s.flight.log| <= n < |t.flight.log| :: t.flight.log[n].callback.ContractCallback?)
    && (forall p | p in t.flight.written && p.nack :: p in s.flight.written)
  }

  /** Accepting puts the pack behind all others, until the channel is closed. */
  lemma AcceptHistory(s: SendState, p: SendPack)
    requires FromAccepted(s)
    ensures FromAccepted(AcceptPack(s, p))
    ensures AcceptPack(s, p).accepted == if s.status.Closed? then s.accepted else s.accepted + [p]
    ensures Taken(AcceptPack(s, p)) == Taken(s)
  {
    var positions :| Ordered(s.flight.log, s.accepted, Taken(s), positions);
    var positions' :=
      OrderStays(s.flight.log, s.flight.log, s.accepted, s.accepted + [p], Taken(s), Taken(s), positions);
    NoAcksFromMore(s.flight.written, s.accepted, s.accepted + [p]);
  }

  lemma NoAcksFromMore(written: set<Pack>, accepted: seq<SendPack>, more: seq<SendPack>)
    requires NoAcksFrom(written, accepted) && accepted <= more
    ensures NoAcksFrom(written, more)
  {
    forall p | p in written && p.nack ensures NoAckFrom(p.frames, more) {
      NoAckFromMore(p.frames, accepted, more);
    }
  }

  lemma NoAckFromMore(frames: seq<Frame>, accepted: seq<SendPack>, more: seq<SendPack>)
    requires NoAckFrom(frames, accepted) && accepted <= more
    ensures NoAckFrom(frames, more)
  {
    var q :| q in accepted && !q.ack && frames == [q.frame];
    assert q in more;
  }

  lemma SetNextQuiet(s: SendState, settings: SendSettings, byteCount: nat, offer: Offer)
    requires settings.Valid()
    ensures Quiet(s, SetNextContract(s, settings, byteCount, offer).0)
  {
  }

  lemma {:induction false} TakeQuiet(s: SendState, settings: SendSettings, byteCount: nat, offers: seq<Offer>)
    requires settings.Valid()
    ensures Quiet(s, TakeContracts(s, settings, byteCount, offers).0)
    decreases |offers|
  {
    if offers != [] {
      var r := SetNextContract(s, settings, byteCount, offers[0]);
      SetNextQuiet(s, settings, byteCount, offers[0]);
      if !r.1 {
        TakeQuiet(r.0, settings, byteCount, offers[1..]);
      }
    }
  }

  lemma UpdateQuiet(s: SendState, settings: SendSettings, byteCount: nat, offers: seq<Offer>)
    requires settings.Valid()
    ensures Quiet(s, UpdateContract(s, settings, byteCount, offers).0)
  {
    if DebitCurrent(s.books, byteCount).None? && !TooLarge(settings, byteCount) {
      TakeQuiet(s, settings, byteCount, offers);
    }
  }

  /** What is known of a sender that holds the pack at position `taken` in its hands. */
  ghost predicate Holds(s: SendState, taken: nat, p: SendPack) {
    && taken < |s.accepted| && s.accepted[taken] == p && s.packs == s.accepted[taken + 1..]
    && (exists positions :: Ordered(s.flight.log, s.accepted, taken, positions))
    && NoAcksFrom(s.flight.written, s.accepted)
  }

  /** Sending the pack that was taken. */
  lemma SentHistory(s: SendState, taken: nat, p: SendPack, write: Write)
    requires Holds(s, taken, p)
    ensures var t := SendWithSetContract(s, Some(p.frame), UserCallback(p.callback), p.ack, false, write);
            && FromAccepted(t) && t.flight.Base() == s.flight.Base()
            && forall n: nat :: IsAcked(t.callbacks, n) <==> IsAcked(s.callbacks, n)
  {
    var t := SendWithSetContract(s, Some(p.frame), UserCallback(p.callback), p.ack, false, write);
    var positions :| Ordered(s.flight.log, s.accepted, taken, positions);
    if SendsAck(s.books, p.ack) {
      OrderAppend(s.flight.log, t.flight.log[|s.flight.log|], s.accepted, taken, positions);
    } else {
      assert NoAckFrom([p.frame], s.accepted) by { assert p in s.accepted; }
      var positions' := OrderStays(s.flight.log, s.flight.log, s.accepted, s.accepted, taken, taken + 1, positions);
      if t.callbacks != s.callbacks {
        NotAcked(s.callbacks, t.callbacks[|s.callbacks|]);
      }
    }
  }

  lemma NotAcked(callbacks: seq<CallbackEvent>, e: CallbackEvent)
    ensures !e.Acked? ==> forall n: nat :: IsAcked(callbacks + [e], n) <==> IsAcked(callbacks, n)
    ensures e.Acked? ==>
              forall n: nat :: IsAcked(callbacks + [e], n) <==> IsAcked(callbacks, n) || n == e.sequenceNumber
  {
    forall n: nat
      ensures IsAcked(callbacks + [e], n) <==> IsAcked(callbacks, n) || (e.Acked? && n == e.sequenceNumber)
    {
      if IsAcked(callbacks, n) {
        var x :| x in callbacks && x.Acked? && x.sequenceNumber == n;
        assert x in callbacks + [e];
      }
      assert e in callbacks + [e];
    }
  }

  lemma SendNextHistory(s: SendState, settings: SendSettings, offers: seq<Offer>, write: Write)
    requires settings.Valid() && s.packs != [] && FromAccepted(s) && AckedBelow(s.callbacks, s.flight.Base())
    ensures var t := SendNext(s, settings, offers, write);
            FromAccepted(t) && AckedBelow(t.callbacks, t.flight.Base())
  {
    var p, s0 := s.packs[0], s.(packs := s.packs[1..]);
    var (s1, ok) := UpdateContract(s0, settings, |p.frame.messageBytes|, offers);
    UpdateQuiet(s0, settings, |p.frame.messageBytes|, offers);
    QuietHolds(s, s1);
    if ok && s1.fault.None? {
      SentHistory(s1, Taken(s), p, write);
    } else {
      HoldsIsFrom(s1, Taken(s), p);
      if s1.fault.None? { NotAcked(s1.callbacks, Failed(UserCallback(p.callback))); }
    }
  }

  /** The contracts that were taken do not change what the sender holds. */
  lemma QuietHolds(s: SendState, s1: SendState)
    requires FromAccepted(s) && s.packs != [] && Quiet(s.(packs := s.packs[1..]), s1)
    ensures Holds(s1, Taken(s), s.packs[0])
  {
    var positions :| Ordered(s.flight.log, s.accepted, Taken(s), positions);
    var positions' :=
      OrderStays(s.flight.log, s1.flight.log, s.accepted, s.accepted, Taken(s), Taken(s), positions);
    assert s.accepted[Taken(s)..][1..] == s.accepted[Taken(s) + 1..];
  }

  /** A pack that is not sent is behind all that were. */
  lemma HoldsIsFrom(s: SendState, taken: nat, p: SendPack)
    requires Holds(s, taken, p)
    ensures FromAccepted(s)
  {
    var positions :| Ordered(s.flight.log, s.accepted, taken, positions);
    var positions' := OrderStays(s.flight.log, s.flight.log, s.accepted, s.accepted, taken, taken + 1, positions);
  }

  lemma AckOldestHistory(s: SendState)
    requires s.flight.sendItems != [] && SettleItem(s.books, s.flight.sendItems[0]).Some?
    requires s.flight.sendItems[0].sequenceNumber == s.flight.Base() && AckedBelow(s.callbacks, s.flight.Base())
    ensures var t := AckOldest(s);
            && AckedBelow(t.callbacks, t.flight.Base()) && t.packs == s.packs && t.accepted == s.accepted
            && t.flight.log == s.flight.log && t.flight.written == s.flight.written && s.callbacks <= t.callbacks
  {
    var item := s.flight.sendItems[0];
    AckedNext(s.callbacks, Acked(item.callback, item.sequenceNumber), s.flight.Base());
  }

  /** The contract of the oldest item has room for its ack. */
  lemma OldestSettles(b: Books, min: nat, items: seq<SendItem>, log: seq<Entry>)
    requires items != [] && OpenInv(b, min, items, log, 0) && ItemsOpen(items, b.openSendContracts)
    ensures SettleItem(b, items[0]).Some?
  {
    SettleOpen(b, min, items, log);
  }

  /** The oldest item has the lowest pending number. */
  lemma OldestNumber(items: seq<SendItem>, log: seq<Entry>)
    requires items != [] && ItemsInv(items, log)
    ensures items[0].sequenceNumber == |log| - |items|
  {
    assert ItemMatches(items[0], log, |log| - |items| + 0);
  }

  lemma AckedNext(callbacks: seq<CallbackEvent>, e: CallbackEvent, base: int)
    requires AckedBelow(callbacks, base) && e.Acked? && e.sequenceNumber == base
    ensures AckedBelow(callbacks + [e], base + 1)
  {
    NotAcked(callbacks, e);
  }

  /** Contracts that were just taken are not acked, so the next pack waits for an ack. */
  lemma {:induction false} TakenIsUnacked(s: SendState, settings: SendSettings, byteCount: nat, offers: seq<Offer>)
    requires settings.Valid()
    ensures var r := TakeContracts(s, settings, byteCount, offers);
            r.1 ==> r.0.books.sendContract.Some? && !r.0.books.sendContractAcked
    decreases |offers|
  {
    if offers != [] {
      var r := SetNextContract(s, settings, byteCount, offers[0]);
      if r.1 {
        SetNextIsUnacked(s, settings, byteCount, offers[0]);
      } else {
        TakenIsUnacked(r.0, settings, byteCount, offers[1..]);
      }
    }
  }

  lemma SetNextIsUnacked(s: SendState, settings: SendSettings, byteCount: nat, offer: Offer)
    requires settings.Valid()
    ensures var r := SetNextContract(s, settings, byteCount, offer);
            r.1 ==> r.0.books.sendContract.Some? && !r.0.books.sendContractAcked
  {
  }

  /** A pack that goes out without an ack goes out under the contract that was current and acked before. */
  lemma NoAckUnderOldContract(s: SendState, settings: SendSettings, byteCount: nat, offers: seq<Offer>, ack: bool)
    requires settings.Valid()
    ensures var r := UpdateContract(s, settings, byteCount, offers);
            r.1 && !SendsAck(r.0.books, ack) ==>
              s.books.sendContract.Some? && s.books.sendContractAcked
              && r.0.books.sendContract == s.books.sendContract && r.0.flight == s.flight
  {
    if DebitCurrent(s.books, byteCount).None? && !TooLarge(settings, byteCount) {
      TakenIsUnacked(s, settings, byteCount, offers);
    }
  }

  /** A no-ack pack goes out once everything below the pending numbers is acked. */
  lemma SentFollows(s: SendState, p: SendPack, write: Write)
    requires NoAcksFollow(s.flight.written, s.flight.log, s.callbacks) && AckedBelow(s.callbacks, s.flight.Base())
    requires !SendsAck(s.books, p.ack) ==>
               s.books.sendContract.Some? && IntroducedBelow(s.flight.log, s.flight.Base(), s.books.sendContract.value)
    ensures var t := SendWithSetContract(s, Some(p.frame), UserCallback(p.callback), p.ack, false, write);
            NoAcksFollow(t.flight.written, t.flight.log, t.callbacks)
  {
    var t := SendWithSetContract(s, Some(p.frame), UserCallback(p.callback), p.ack, false, write);
    var pack := NewPack(s, Some(p.frame), SendsAck(s.books, p.ack), false, write.messageId);
    NoAcksStay(s.flight.written, s.flight.written, s.flight.log, t.flight.log, s.callbacks, t.callbacks);
    if pack.nack {
      var n: nat :| n < s.flight.Base() && Introduced(s.flight.log, n, s.books.sendContract.value);
      assert IsAcked(s.callbacks, n);
      var e :| e in s.callbacks && e.Acked? && e.sequenceNumber == n;
      assert e in t.callbacks;
      assert ContractAcked(pack, t.flight.log, t.callbacks);
    }
  }

  lemma SendNextFollows(s: SendState, settings: SendSettings, offers: seq<Offer>, write: Write)
    requires settings.Valid() && s.packs != [] && AckedBelow(s.callbacks, s.flight.Base())
    requires NoAcksFollow(s.flight.written, s.flight.log, s.callbacks)
    requires CurrentInv(s.books, s.flight.log, s.flight.Base())
    ensures var t := SendNext(s, settings, offers, write);
            NoAcksFollow(t.flight.written, t.flight.log, t.callbacks)
  {
    var p, s0 := s.packs[0], s.(packs := s.packs[1..]);
    var (s1, ok) := UpdateContract(s0, settings, |p.frame.messageBytes|, offers);
    UpdateQuiet(s0, settings, |p.frame.messageBytes|, offers);
    NoAckUnderOldContract(s0, settings, |p.frame.messageBytes|, offers, p.ack);
    NoAcksStay(s.flight.written, s1.flight.written, s.flight.log, s1.flight.log, s.callbacks, s1.callbacks);
    if s1.fault.None? {
      if ok {
        SentFollows(s1, p, write);
      } else {
        var t := SendNext(s, settings, offers, write);
        NoAcksStay(s1.flight.written, t.flight.written, s1.flight.log, t.flight.log, s1.callbacks, t.callbacks);
      }
    }
  }

  /** A cumulative ack adds the numbers that it takes off the pending items. */
  lemma {:induction false} AckThroughHistory(s: SendState, n: nat, min: nat, delivered: set<nat>)
    requires 1 <= min && Inv(s, min, 0, delivered) && Below(n + 1, delivered)
    requires AckedBelow(s.callbacks, s.flight.Base())
    ensures var t := AckThrough(s, n);
            && AckedBelow(t.callbacks, t.flight.Base()) && t.packs == s.packs && t.accepted == s.accepted
            && t.flight.log == s.flight.log && t.flight.written == s.flight.written && s.callbacks <= t.callbacks
    decreases |s.flight.sendItems|
  {
    var f := s.flight;
    if f.sendItems != [] && f.sendItems[0].sequenceNumber <= n {
      PendingIsQueued(f, s.books.contracts, delivered);
      AckOldestKeeps(s, min, delivered);
      OldestSettles(s.books, min, f.sendItems, f.log);
      OldestNumber(f.sendItems, f.log);
      AckOldestHistory(s);
      AckThroughHistory(AckOldest(s), n, min, delivered);
    }
  }

  /** A resend writes a pack that waits for an ack. */
  lemma ResendHistory(s: SendState, messageId: Id, resendTime: int)
    requires messageId in s.flight.resendQueue && !s.flight.resendQueue[messageId].pack.nack
    requires FromAccepted(s) && NoAcksFollow(s.flight.written, s.flight.log, s.callbacks)
    ensures var t := Resend(s, messageId, resendTime);
            && FromAccepted(t) && NoAcksFollow(t.flight.written, t.flight.log, t.callbacks)
            && t.callbacks == s.callbacks && t.flight.Base() == s.flight.Base() && t.status == s.status
  {
  }

  lemma EndHistory(s: SendState, drained: seq<SendItem>)
    requires FromAccepted(s) && NoAcksFollow(s.flight.written, s.flight.log, s.callbacks)
    ensures FromAccepted(Exit(s, drained)) && FromAccepted(Close(s))
    ensures NoAcksFollow(s.flight.written, s.flight.log, Exit(s, drained).callbacks)
    ensures NoAcksFollow(s.flight.written, s.flight.log, Close(s).callbacks)
  {
    var f := s.flight;
    NoAcksStay(f.written, f.written, f.log, f.log, s.callbacks, Exit(s, drained).callbacks);
    NoAcksStay(f.written, f.written, f.log, f.log, s.callbacks, Close(s).callbacks);
    var positions :| Ordered(f.log, s.accepted, Taken(s), positions);
    assert Ordered(f.log, Exit(s, drained).accepted, Taken(Exit(s, drained)), positions);
    var positions' := OrderStays(f.log, f.log, s.accepted, s.accepted, Taken(s), |s.accepted|, positions);
  }
}
