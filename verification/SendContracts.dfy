/**
 When a send sequence has a contract marked as acked, when it closes one, and how the step of the run
 loop with one pack ends, each in both directions.
 */
module SendContracts {
  import opened Options
  import opened SendModel
  import opened SendSafety
  import opened SendSteps
  import opened TransferTypes

  // ---- contracts that are not current

  /** A contract that was switched away from stays open only while it has unacked bytes. */
  ghost predicate NoIdle(b: Books) {
    forall c | c in b.openSendContracts && b.sendContract != Some(c) :: 0 < b.openSendContracts[c].unackedByteCount
  }

  lemma SetContractNoIdle(b: Books, next: SequenceContract)
    requires NoIdle(b)
    ensures NoIdle(SetContract(b, next))
  {
  }

  lemma AckItemNoIdle(s: SendState, item: SendItem, event: CallbackEvent)
    requires NoIdle(s.books)
    ensures NoIdle(AckItem(s, item, event).books)
  {
  }

  lemma {:induction false} AckThroughNoIdle(s: SendState, n: nat)
    requires NoIdle(s.books)
    ensures NoIdle(AckThrough(s, n).books)
    decreases |s.flight.sendItems|
  {
    var f := s.flight;
    if s.fault.None? && f.sendItems != [] && f.sendItems[0].sequenceNumber <= n {
      AckItemNoIdle(s.(flight := Pop(f)), f.sendItems[0], Acked(f.sendItems[0].callback, f.sendItems[0].sequenceNumber));
      if f.sendItems[0].messageId in f.resendQueue { AckThroughNoIdle(AckOldest(s), n); }
    }
  }

  lemma {:induction false} TakeNoIdle(s: SendState, settings: SendSettings, byteCount: nat, offers: seq<Offer>)
    requires settings.Valid() && NoIdle(s.books)
    ensures NoIdle(TakeContracts(s, settings, byteCount, offers).0.books)
    decreases |offers|
  {
    if offers != [] {
      var r := SetNextContract(s, settings, byteCount, offers[0]);
      SetNextNoIdle(s, settings, byteCount, offers[0]);
      if !r.1 { TakeNoIdle(r.0, settings, byteCount, offers[1..]); }
    }
  }

  lemma SetNextNoIdle(s: SendState, settings: SendSettings, byteCount: nat, offer: Offer)
    requires settings.Valid() && NoIdle(s.books)
    ensures NoIdle(SetNextContract(s, settings, byteCount, offer).0.books)
  {
    var next := DebitNew(settings, offer.contract, byteCount);
    if next.Some? {
      var b := s.books.(contracts := s.books.contracts[offer.contract.contractId := offer.contract]);
      SetContractNoIdle(b, next.value);
    }
  }

  lemma SendNextNoIdle(s: SendState, settings: SendSettings, offers: seq<Offer>, write: Write)
    requires settings.Valid() && s.packs != [] && NoIdle(s.books)
    ensures NoIdle(SendNext(s, settings, offers, write).books)
  {
    var p, s0 := s.packs[0], s.(packs := s.packs[1..]);
    var (s1, ok) := UpdateContract(s0, settings, |p.frame.messageBytes|, offers);
    TakeNoIdle(s0, settings, |p.frame.messageBytes|, offers);
    assert NoIdle(s1.books);
    if s1.fault.None? && ok { SentNoIdle(s1, p, write); }
  }

  lemma SentNoIdle(s: SendState, p: SendPack, write: Write)
    requires NoIdle(s.books)
    ensures NoIdle(SendWithSetContract(s, Some(p.frame), UserCallback(p.callback), p.ack, false, write).books)
  {
  }

  // ---- the mark of the current contract

  /** The pack that introduced the current contract is marked when it is acknowledged. */
  ghost predicate Marked(b: Books, log: seq<Entry>, base: int) {
    b.sendContract.Some? && IntroducedBelow(log, base, b.sendContract.value) ==> b.sendContractAcked
  }

  lemma AckOldestMarks(s: SendState, min: nat, delivered: set<nat>)
    requires 1 <= min && Inv(s, min, 0, delivered) && s.flight.sendItems != []
    requires Marked(s.books, s.flight.log, s.flight.Base())
    ensures var t := AckOldest(s); Marked(t.books, t.flight.log, t.flight.Base())
  {
    var f, t := s.flight, AckOldest(s);
    SettleOpen(s.books, min, f.sendItems, f.log);
    if t.books.sendContract.Some? && IntroducedBelow(f.log, f.Base() + 1, t.books.sendContract.value) {
      var c := t.books.sendContract.value;
      var n: nat :| n < f.Base() + 1 && Introduced(f.log, n, c);
      if n < f.Base() {
        assert IntroducedBelow(f.log, f.Base(), c);
      } else {
        assert ItemMatches(f.sendItems[0], f.log, |f.log| - |f.sendItems| + 0);
        assert EntryOk(f.log, s.books.contracts, f.usedIds, n);
      }
    }
  }

  lemma {:induction false} AckThroughMarks(s: SendState, n: nat, min: nat, delivered: set<nat>)
    requires 1 <= min && Inv(s, min, 0, delivered) && Below(n + 1, delivered)
    requires Marked(s.books, s.flight.log, s.flight.Base())
    ensures var t := AckThrough(s, n); Marked(t.books, t.flight.log, t.flight.Base())
    decreases |s.flight.sendItems|
  {
    var f := s.flight;
    if f.sendItems != [] && f.sendItems[0].sequenceNumber <= n {
      PendingIsQueued(f, s.books.contracts, delivered);
      AckOldestKeeps(s, min, delivered);
      AckOldestMarks(s, min, delivered);
      AckThroughMarks(AckOldest(s), n, min, delivered);
    }
  }

  /** What is added to the log from `base` on introduces nothing below it. */
  lemma MarkStays(b: Books, b': Books, log: seq<Entry>, log': seq<Entry>, base: int)
    requires Marked(b, log, base) && log <= log' && base <= |log|
    requires b'.sendContract == b.sendContract && b'.sendContractAcked == b.sendContractAcked
    ensures Marked(b', log', base)
  {
    if b.sendContract.Some? && IntroducedBelow(log', base, b.sendContract.value) {
      var n: nat :| n < base && Introduced(log', n, b.sendContract.value);
      assert Introduced(log, n, b.sendContract.value);
    }
  }

  /** A contract that no pack was debited to is introduced nowhere. */
  lemma UnseenIsUnmarked(b: Books, log: seq<Entry>, log': seq<Entry>, base: int)
    requires log <= log' && base <= |log| && b.sendContract.Some? && Unseen(log, |log|, b.sendContract.value)
    ensures Marked(b, log', base)
  {
    forall n: nat | n < base ensures !Introduced(log', n, b.sendContract.value) {
      assert log[n] == log'[n];
    }
  }

  lemma SetNextMarks(s: SendState, settings: SendSettings, byteCount: nat, offer: Offer)
    requires settings.Valid() && Marked(s.books, s.flight.log, s.flight.Base())
    requires |s.flight.log| == s.flight.nextSequenceNumber
    requires LogContracts(s.flight.log, s.books.contracts) && offer.contract.contractId !in s.books.contracts
    ensures var r := SetNextContract(s, settings, byteCount, offer);
            && Marked(r.0.books, r.0.flight.log, s.flight.Base()) && r.0.flight.Base() == s.flight.Base()
            && (!r.1 ==> r.0.flight == s.flight)
  {
    var r := SetNextContract(s, settings, byteCount, offer);
    if r.1 {
      assert Unseen(s.flight.log, |s.flight.log|, offer.contract.contractId);
      UnseenIsUnmarked(r.0.books, s.flight.log, r.0.flight.log, s.flight.Base());
    } else {
      MarkStays(s.books, r.0.books, s.flight.log, s.flight.log, s.flight.Base());
    }
  }

  lemma {:induction false} TakeMarks(s: SendState, settings: SendSettings, byteCount: nat, offers: seq<Offer>,
                                     delivered: set<nat>)
    requires settings.Valid() && Inv(s, settings.minMessageByteCount, 0, delivered) && FreshOffers(s, offers)
    requires Marked(s.books, s.flight.log, s.flight.Base())
    ensures var t := TakeContracts(s, settings, byteCount, offers).0;
            Marked(t.books, t.flight.log, s.flight.Base()) && t.flight.Base() == s.flight.Base()
    decreases |offers|
  {
    if offers != [] {
      var r := SetNextContract(s, settings, byteCount, offers[0]);
      LogKnown(s.flight.log, s.books.contracts, s.flight.usedIds);
      SetNextMarks(s, settings, byteCount, offers[0]);
      SetNextKeeps(s, settings, byteCount, offers[0], delivered);
      if !r.1 { TakeMarks(r.0, settings, byteCount, offers[1..], delivered); }
    }
  }

  lemma SentMarks(s: SendState, p: SendPack, write: Write)
    requires Marked(s.books, s.flight.log, s.flight.Base()) && |s.flight.log| == s.flight.nextSequenceNumber
    ensures var t := SendWithSetContract(s, Some(p.frame), UserCallback(p.callback), p.ack, false, write);
            Marked(t.books, t.flight.log, s.flight.Base()) && t.flight.Base() == s.flight.Base()
  {
    var t := SendWithSetContract(s, Some(p.frame), UserCallback(p.callback), p.ack, false, write);
    MarkStays(s.books, t.books, s.flight.log, t.flight.log, s.flight.Base());
  }

  lemma SendNextMarks(s: SendState, settings: SendSettings, offers: seq<Offer>, write: Write, delivered: set<nat>)
    requires settings.Valid() && s.packs != []
    requires Inv(s, settings.minMessageByteCount, 0, delivered) && FreshOffers(s, offers)
    requires Marked(s.books, s.flight.log, s.flight.Base())
    ensures var t := SendNext(s, settings, offers, write); Marked(t.books, t.flight.log, t.flight.Base())
  {
    var p, s0 := s.packs[0], s.(packs := s.packs[1..]);
    var byteCount := |p.frame.messageBytes|;
    var (s1, ok) := UpdateContract(s0, settings, byteCount, offers);
    if DebitCurrent(s.books, byteCount).Some? {
      MarkStays(s.books, s1.books, s.flight.log, s.flight.log, s.flight.Base());
      SentMarks(s1, p, write);
    } else if !TooLarge(settings, byteCount) {
      assert FreshOffers(s0, offers);
      TakeMarks(s0, settings, byteCount, offers, delivered);
      TakeKeeps(s0, settings, byteCount, offers, delivered);
      if ok { SentMarks(s1, p, write); }
    }
  }

  // ---- contracts that are offered

  /** A contract holds the message beside the pack that introduces it. */
  predicate Holds(settings: SendSettings, byteCount: nat, contract: Contract)
    requires settings.Valid()
  {
    settings.minMessageByteCount + Charge(settings.minMessageByteCount, byteCount)
    <= settings.Effective(contract.transferByteCount)
  }

  lemma DebitNewFits(settings: SendSettings, contract: Contract, byteCount: nat)
    requires settings.Valid()
    ensures DebitNew(settings, contract, byteCount).Some? <==> Holds(settings, byteCount, contract)
    ensures DebitNew(settings, contract, byteCount).Some? ==>
              DebitNew(settings, contract, byteCount).value.contract == contract
  {
  }

  /** The fill fraction of a contract, rounded down. */
  lemma EffectiveIsFraction(settings: SendSettings, transferByteCount: nat)
    requires settings.Valid()
    ensures var e := settings.Effective(transferByteCount);
            e * settings.fillDenominator <= transferByteCount * settings.fillNumerator < (e + 1) * settings.fillDenominator
  {
    DivideDown(transferByteCount * settings.fillNumerator, settings.fillDenominator);
  }

  lemma DivideDown(a: nat, d: nat)
    requires 0 < d
    ensures (a / d) * d <= a < (a / d + 1) * d
  {
    assert a == (a / d) * d + a % d;
  }

  /**
   A message that is not refused as too large fits a standard contract if and only if it has the minimum of
   bytes or the contract holds the minimum twice: a smaller message is compared as it is and charged as the minimum.
   */
  lemma TooLargeIsExactFromMinimum(settings: SendSettings, byteCount: nat, contract: Contract)
    requires settings.Valid() && contract.transferByteCount == settings.standardContractByteCount
    ensures var min, e := settings.minMessageByteCount, settings.Effective(settings.standardContractByteCount);
            && (Holds(settings, byteCount, contract) ==> !TooLarge(settings, byteCount))
            && (!TooLarge(settings, byteCount) ==>
                  (Holds(settings, byteCount, contract) <==> min <= byteCount || 2 * min <= e))
  {
  }

  /** An empty message that is not too large and fits no standard contract. */
  lemma SmallMessageFitsNothing()
    ensures var settings := SendSettings(1, 1, 1, 1);
            !TooLarge(settings, 0) && !Holds(settings, 0, Contract(0, settings.standardContractByteCount))
  {
    assert SendSettings(1, 1, 1, 1).Effective(1) == 1 * 1 / 1 == 1;
  }

  /** The place of the first offer that holds the message, or the number of offers. */
  ghost predicate FirstFit(settings: SendSettings, byteCount: nat, offers: seq<Offer>, i: nat)
    requires settings.Valid()
  {
    && i <= |offers| && (i < |offers| ==> Holds(settings, byteCount, offers[i].contract))
    && forall j | 0 <= j < i :: !Holds(settings, byteCount, offers[j].contract)
  }

  lemma {:induction false} FirstFitExists(settings: SendSettings, byteCount: nat, offers: seq<Offer>) returns (i: nat)
    requires settings.Valid()
    ensures FirstFit(settings, byteCount, offers, i)
  {
    i := 0;
    if offers != [] && !Holds(settings, byteCount, offers[0].contract) {
      var k := FirstFitExists(settings, byteCount, offers[1..]);
      i := k + 1;
    }
  }

  ghost function OfferedContracts(offers: seq<Offer>): set<Id> {
    set o | o in offers :: o.contract.contractId
  }

  /** The contracts before the first that holds the message become known and stay unused, so they are closed. */
  ghost predicate TookUpTo(s: SendState, t: SendState, ok: bool, offers: seq<Offer>, i: nat) {
    && i <= |offers| && ok == (i < |offers|)
    && (if ok
        then t.books.sendContract == Some(offers[i].contract.contractId)
             && t.books.contracts.Keys == s.books.contracts.Keys + OfferedContracts(offers[..i + 1])
        else t.books.sendContract == s.books.sendContract && t.flight == s.flight
             && t.books.contracts.Keys == s.books.contracts.Keys + OfferedContracts(offers))
  }

  lemma SetNextIs(s: SendState, settings: SendSettings, byteCount: nat, offer: Offer)
    requires settings.Valid() && offer.contract.contractId !in s.books.openSendContracts
    ensures var r := SetNextContract(s, settings, byteCount, offer);
            && r.1 == Holds(settings, byteCount, offer.contract)
            && r.0.books.contracts == s.books.contracts[offer.contract.contractId := offer.contract]
            && r.0.flight.usedIds <= s.flight.usedIds + {offer.write.messageId}
            && (if r.1 then r.0.books.sendContract == Some(offer.contract.contractId)
                else r.0.flight == s.flight && r.0.books.sendContract == s.books.sendContract
                     && r.0.books.openSendContracts == s.books.openSendContracts)
  {
    DebitNewFits(settings, offer.contract, byteCount);
  }

  /** The offers are taken one after another until one holds the message. */
  lemma {:induction false} TakesFirstFit(s: SendState, settings: SendSettings, byteCount: nat, offers: seq<Offer>, i: nat)
    requires settings.Valid() && FreshOffers(s, offers) && s.books.openSendContracts.Keys <= s.books.contracts.Keys
    requires FirstFit(settings, byteCount, offers, i)
    ensures var r := TakeContracts(s, settings, byteCount, offers); TookUpTo(s, r.0, r.1, offers, i)
    decreases |offers|
  {
    if offers != [] {
      var r := SetNextContract(s, settings, byteCount, offers[0]);
      SetNextIs(s, settings, byteCount, offers[0]);
      if i == 0 {
        assert OfferedContracts(offers[..1]) == {offers[0].contract.contractId};
      } else {
        RestIsFresh(s, r.0, offers);
        RestFirstFit(settings, byteCount, offers, i);
        TakesFirstFit(r.0, settings, byteCount, offers[1..], i - 1);
        var t := TakeContracts(s, settings, byteCount, offers);
        TookFirst(s, r.0, t.0, t.1, offers, i);
      }
    }
  }

  lemma RestFirstFit(settings: SendSettings, byteCount: nat, offers: seq<Offer>, i: nat)
    requires settings.Valid() && 0 < i && FirstFit(settings, byteCount, offers, i)
    ensures FirstFit(settings, byteCount, offers[1..], i - 1) && !Holds(settings, byteCount, offers[0].contract)
  {
    forall j | 0 <= j < i - 1 ensures !Holds(settings, byteCount, offers[1..][j].contract) {
      assert offers[1..][j] == offers[j + 1];
    }
  }

  /** One offer that does not hold the message, then the rest. */
  lemma TookFirst(s: SendState, s1: SendState, t: SendState, ok: bool, offers: seq<Offer>, i: nat)
    requires 0 < i <= |offers| && TookUpTo(s1, t, ok, offers[1..], i - 1)
    requires s1.flight == s.flight && s1.books.sendContract == s.books.sendContract
    requires s1.books.contracts == s.books.contracts[offers[0].contract.contractId := offers[0].contract]
    ensures TookUpTo(s, t, ok, offers, i)
  {
    OfferedFirst(offers, if i < |offers| then i + 1 else i);
    assert offers[..|offers|] == offers;
  }

  lemma RestIsFresh(s: SendState, t: SendState, offers: seq<Offer>)
    requires offers != [] && FreshOffers(s, offers) && t.flight == s.flight
    requires t.books.contracts == s.books.contracts[offers[0].contract.contractId := offers[0].contract]
    ensures FreshOffers(t, offers[1..])
  {
  }

  lemma OfferedFirst(offers: seq<Offer>, n: nat)
    requires 0 < n <= |offers|
    ensures OfferedContracts(offers[..n]) == {offers[0].contract.contractId} + OfferedContracts(offers[1..][..n - 1])
    ensures offers[1..][..|offers| - 1] == offers[1..]
  {
    var rest := offers[1..][..n - 1];
    assert offers[..n] == [offers[0]] + rest;
    forall o | o in offers[..n] ensures o.contract.contractId in {offers[0].contract.contractId} + OfferedContracts(rest) {
    }
    forall o | o in rest ensures o in offers[..n] {
    }
  }
}
