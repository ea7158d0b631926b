/**
 The window that coalesces acknowledgements on both sides: the receiver before it writes them
 and the sender before it applies them.
 */
module AckWindow {
  import opened Options
  import opened TransferTypes

  datatype SequenceAck = SequenceAck(sequenceNumber: nat, messageId: Id, selective: bool)

  datatype Window = Window(
    headAck: Option<SequenceAck>,
    ackUpdateCount: nat,
    selectiveAcks: map<Id, SequenceAck>)

  const EMPTY_WINDOW := Window(None, 0, map[])

  function WithAck(w: Window, ack: SequenceAck): Window {
    if w.headAck.None? || w.headAck.value.sequenceNumber < ack.sequenceNumber then
      if ack.selective then w.(selectiveAcks := w.selectiveAcks[ack.messageId := ack])
      else w.(ackUpdateCount := w.ackUpdateCount + 1, headAck := Some(ack))
    else
      // at or before the head: the head is sent again
      w.(ackUpdateCount := w.ackUpdateCount + 1)
  }

  /** The acks that a snapshot hands on; `headAck` counts only when `ackUpdateCount` is not 0. */
  function SnapshotOf(w: Window): Window {
    if 0 < w.ackUpdateCount && w.headAck.Some? then
      w.(selectiveAcks := map id | id in w.selectiveAcks &&
                                   w.headAck.value.sequenceNumber < w.selectiveAcks[id].sequenceNumber
                          :: w.selectiveAcks[id])
    else w
  }

  /** What a resetting snapshot leaves behind: the head ack stays in place. */
  function Reset(w: Window): Window {
    w.(ackUpdateCount := 0, selectiveAcks := map[])
  }

  /** Only non-selective acks become the head, and a positive count has a head to resend. */
  ghost predicate WellFormed(w: Window) {
    && (w.headAck.Some? ==> !w.headAck.value.selective)
    && (0 < w.ackUpdateCount ==> w.headAck.Some?)
    && (forall id | id in w.selectiveAcks :: w.selectiveAcks[id].selective)
  }

  /** The acks, as messages, that a snapshot puts on the wire. */
  ghost function Emitted(w: Window): set<Ack> {
    var s := SnapshotOf(w);
    (if 0 < s.ackUpdateCount && s.headAck.Some? then {Ack(s.headAck.value.messageId, false)} else {})
    + (set id | id in s.selectiveAcks :: Ack(id, true))
  }

  /** A window that was given some acks, oldest first. */
  ghost function AfterAll(w: Window, acks: seq<SequenceAck>): Window {
    if acks == [] then w else WithAck(AfterAll(w, acks[..|acks|-1]), acks[|acks|-1])
  }

  /** The head of the window reaches at least to a number. */
  ghost predicate Covers(w: Window, n: nat) {
    w.headAck.Some? && n <= w.headAck.value.sequenceNumber
  }

  /**
   Coalescing loses no cumulative acknowledgement: from any state, as a reset leaves it, the head is a
   non-selective ack that was given, never moves back, and covers every non-selective ack that was given.
   */
  lemma {:induction false} HeadCoversEveryAck(before: Window, acks: seq<SequenceAck>)
    requires WellFormed(before)
    ensures var w := AfterAll(before, acks);
            && WellFormed(w)
            && (w.headAck == before.headAck || (w.headAck.Some? && w.headAck.value in acks))
            && (before.headAck.Some? ==> Covers(w, before.headAck.value.sequenceNumber))
            && before.ackUpdateCount <= w.ackUpdateCount
            && (forall a | a in acks && !a.selective :: Covers(w, a.sequenceNumber) && 0 < w.ackUpdateCount)
            && (forall a | a in acks && a.selective ::
                  (Covers(w, a.sequenceNumber) && 0 < w.ackUpdateCount) || a.messageId in w.selectiveAcks)
            && (forall id | id in w.selectiveAcks ::
                  || (w.selectiveAcks[id] in acks && w.selectiveAcks[id].messageId == id)
                  || (id in before.selectiveAcks && before.selectiveAcks[id] == w.selectiveAcks[id]))
  {
    if acks != [] {
      var rest := acks[..|acks|-1];
      assert acks == rest + [acks[|acks|-1]];
      HeadCoversEveryAck(before, rest);
    }
  }

  /** The acks of some rounds, each of which ends with a resetting snapshot. */
  ghost function AfterRounds(rounds: seq<seq<SequenceAck>>): Window {
    if rounds == [] then EMPTY_WINDOW
    else Reset(AfterAll(AfterRounds(rounds[..|rounds|-1]), rounds[|rounds|-1]))
  }

  /** The snapshot puts an ack of everything up to the number on the wire. */
  ghost predicate EmitsCover(w: Window, n: nat) {
    Covers(w, n) && Ack(w.headAck.value.messageId, false) in Emitted(w)
  }

  /**
   In every round, the resetting snapshot emits a head that covers every non-selective ack given in the
   round and in all rounds before it, as soon as there was one in the round.
   */
  lemma {:induction false} SnapshotEmitsEveryAck(rounds: seq<seq<SequenceAck>>, acks: seq<SequenceAck>, k: nat, a: SequenceAck)
    requires !a.selective && ((k < |rounds| && a in rounds[k]) || a in acks)
    ensures var w := AfterAll(AfterRounds(rounds), acks);
            && Covers(w, a.sequenceNumber)
            && ((exists b <- acks :: !b.selective) ==> EmitsCover(w, a.sequenceNumber))
  {
    var before := AfterRounds(rounds);
    RoundsCover(rounds);
    HeadCoversEveryAck(before, acks);
    if a !in acks {
      assert Covers(before, a.sequenceNumber);
    }
  }

  /** Ids identify packs, so acks with one id have one number. */
  ghost predicate OneNumberPerId(acks: seq<SequenceAck>) {
    forall a <- acks, b <- acks | a.messageId == b.messageId :: a.sequenceNumber == b.sequenceNumber
  }

  /** Every ack given in a round is on the wire after it: itself when selective, or a head that covers it. */
  lemma EveryAckIsAnswered(rounds: seq<seq<SequenceAck>>, acks: seq<SequenceAck>, a: SequenceAck)
    requires a in acks && OneNumberPerId(acks)
    ensures var w := AfterAll(AfterRounds(rounds), acks);
            EmitsCover(w, a.sequenceNumber) || (a.selective && Ack(a.messageId, true) in Emitted(w))
  {
    RoundsCover(rounds);
    HeadCoversEveryAck(AfterRounds(rounds), acks);
  }

  /** Neither a cumulative ack nor one that the head of earlier rounds covers. */
  ghost predicate AfterHead(before: Window, a: SequenceAck) {
    a.selective && !Covers(before, a.sequenceNumber)
  }

  lemma {:induction false} CountsHeads(before: Window, acks: seq<SequenceAck>)
    requires WellFormed(before) && before.ackUpdateCount == 0 && before.selectiveAcks == map[]
    ensures var w := AfterAll(before, acks);
            && (w.ackUpdateCount == 0 <==> forall a <- acks :: AfterHead(before, a))
            && (w.ackUpdateCount == 0 ==> w.headAck == before.headAck)
            && (forall id | id in w.selectiveAcks ::
                  w.selectiveAcks[id] in acks && w.selectiveAcks[id].messageId == id)
  {
    HeadCoversEveryAck(before, acks);
    if acks != [] {
      var rest, last := acks[..|acks|-1], acks[|acks|-1];
      assert acks == rest + [last];
      CountsHeads(before, rest);
      assert last in acks && forall a | a in rest :: a in acks;
      assert forall a | a in acks :: a in rest || a == last;
    }
  }

  /**
   Nothing else is on the wire: the head if and only if some ack of the round was cumulative or behind the head
   of earlier rounds, and a selective ack only if it was given in this round and no emitted head covers it.
   */
  lemma OnlyNewsIsEmitted(rounds: seq<seq<SequenceAck>>, acks: seq<SequenceAck>)
    ensures var before, w := AfterRounds(rounds), AfterAll(AfterRounds(rounds), acks);
            && ((exists a <- Emitted(w) :: !a.selective) <==> exists a <- acks :: !AfterHead(before, a))
            && (forall a <- Emitted(w) | !a.selective ::
                  w.headAck.Some? && a.messageId == w.headAck.value.messageId)
            && (forall a <- Emitted(w) | a.selective ::
                  exists b <- acks :: b.selective && b.messageId == a.messageId
                                      && (0 < w.ackUpdateCount ==> !Covers(w, b.sequenceNumber)))
  {
    var before, w := AfterRounds(rounds), AfterAll(AfterRounds(rounds), acks);
    RoundsCover(rounds);
    CountsHeads(before, acks);
    HeadCoversEveryAck(before, acks);
    if 0 < w.ackUpdateCount {
      assert Ack(w.headAck.value.messageId, false) in Emitted(w);
    }
    forall a | a in Emitted(w) && a.selective
      ensures exists b <- acks :: b.selective && b.messageId == a.messageId
                                  && (0 < w.ackUpdateCount ==> !Covers(w, b.sequenceNumber))
    {
      assert w.selectiveAcks[a.messageId] in acks;
    }
  }

  lemma {:induction false} RoundsCover(rounds: seq<seq<SequenceAck>>)
    ensures var w := AfterRounds(rounds);
            && WellFormed(w) && w.selectiveAcks == map[] && w.ackUpdateCount == 0
            && forall k, a | 0 <= k < |rounds| && a in rounds[k] && !a.selective :: Covers(w, a.sequenceNumber)
  {
    if rounds != [] {
      var n := |rounds| - 1;
      RoundsCover(rounds[..n]);
      HeadCoversEveryAck(AfterRounds(rounds[..n]), rounds[n]);
      forall k, a | 0 <= k < |rounds| && a in rounds[k] && !a.selective
        ensures Covers(AfterRounds(rounds), a.sequenceNumber)
      {
        if k < n {
          assert rounds[..n][k] == rounds[k];
        }
      }
    }
  }

  /** The mutable window; each method is one critical section of `ackLock`. */
  class SequenceAckWindow {
    var headAck: Option<SequenceAck>
    var ackUpdateCount: nat
    var selectiveAcks: map<Id, SequenceAck>

    ghost function State(): Window
      reads this
    {
      Window(headAck, ackUpdateCount, selectiveAcks)
    }

    predicate AfterHead(messageId: Id)
      requires headAck.Some? && messageId in selectiveAcks
      reads this
    {
      headAck.value.sequenceNumber < selectiveAcks[messageId].sequenceNumber
    }

    constructor ()
      ensures State() == EMPTY_WINDOW
    {
      headAck, ackUpdateCount, selectiveAcks := None, 0, map[];
    }

    method Update(ack: SequenceAck)
      modifies this
      ensures State() == WithAck(old(State()), ack)
    {
      if headAck.None? || headAck.value.sequenceNumber < ack.sequenceNumber {
        if ack.selective {
          selectiveAcks := selectiveAcks[ack.messageId := ack];
        } else {
          ackUpdateCount := ackUpdateCount + 1;
          headAck := Some(ack);
        }
      } else {
        ackUpdateCount := ackUpdateCount + 1;
      }
    }

    method Snapshot(reset: bool) returns (snapshot: Window)
      requires 0 < ackUpdateCount ==> headAck.Some?
      modifies this
      ensures snapshot == SnapshotOf(old(State()))
      ensures State() == if reset then Reset(old(State())) else old(State())
    {
      var selectiveAcksAfterHead := map[];
      if 0 < ackUpdateCount {
        var remaining := selectiveAcks.Keys;
        while remaining != {}
          invariant remaining <= selectiveAcks.Keys
          invariant forall id :: id in selectiveAcksAfterHead <==>
                      id in selectiveAcks && id !in remaining && AfterHead(id)
          invariant forall id | id in selectiveAcksAfterHead :: selectiveAcksAfterHead[id] == selectiveAcks[id]
          decreases |remaining|
        {
          var messageId :| messageId in remaining;
          remaining := remaining - {messageId};
          if AfterHead(messageId) {
            selectiveAcksAfterHead := selectiveAcksAfterHead[messageId := selectiveAcks[messageId]];
          }
        }
      } else {
        selectiveAcksAfterHead := selectiveAcks;
      }
      snapshot := Window(headAck, ackUpdateCount, selectiveAcksAfterHead);
      if reset {
        ackUpdateCount := 0;
        selectiveAcks := map[];
      }
    }
  }
}
