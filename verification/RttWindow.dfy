/** Round trip times of a recent window: a ring of samples, a heap over them and their sum. */
module RttWindow {
  import opened BinaryHeap
  import opened Options

  /** `uid` is the identity of the sample, a pointer in the program. */
  datatype Sample = Sample(uid: nat, sendTime: int, receiveTime: int)
  {
    function Rtt(): int { receiveTime - sendTime }
  }

  type Slot = Option<Sample>

  function Next(i: nat, n: nat): (j: nat)
    requires i < n
    ensures j < n && j == (i + 1) % n
  {
    if i + 1 < n then i + 1 else assert (i + 1) % n == 0; 0
  }

  /** How far slot i is after the tail. */
  function Offset(i: nat, tail: nat, n: nat): (d: nat)
    requires i < n && tail < n
    ensures d < n
  {
    if tail <= i then i - tail else i + n - tail
  }

  function SlotRtt(x: Slot): int { if x.Some? then x.value.Rtt() else 0 }

  function Sum(s: seq<Slot>): int { if s == [] then 0 else SlotRtt(s[0]) + Sum(s[1..]) }

  lemma {:induction false} SumUpdate(s: seq<Slot>, i: nat, x: Slot)
    requires i < |s|
    ensures Sum(s[i := x]) == Sum(s) - SlotRtt(s[i]) + SlotRtt(x)
  {
    if i == 0 {
      assert s[i := x][1..] == s[1..];
    } else {
      assert s[i := x][1..] == s[1..][i - 1 := x];
      SumUpdate(s[1..], i - 1, x);
    }
  }

  ghost function Samples(s: seq<Slot>): set<Sample> {
    set i | 0 <= i < |s| && s[i].Some? :: s[i].value
  }

  function SlotSamples(x: Slot): set<Sample> { if x.Some? then {x.value} else {} }

  ghost predicate Distinct(s: seq<Slot>) {
    forall i, j | 0 <= i < j < |s| && s[i].Some? :: s[i] != s[j]
  }

  lemma SamplesUpdate(s: seq<Slot>, i: nat, x: Slot)
    requires i < |s| && Distinct(s) && (x.Some? ==> x.value !in Samples(s))
    ensures Distinct(s[i := x])
    ensures Samples(s[i := x]) ==
            Samples(s) - SlotSamples(s[i]) + SlotSamples(x)
  {
    var t := s[i := x];
    assert forall j | 0 <= j < |s| && j != i :: t[j] == s[j];
    assert t[i] == x;
  }

  /** The slots from the tail up to the head are filled; of the others only the one at the head may be. */
  ghost predicate Ring(s: seq<Slot>, tail: nat, head: nat) {
    && tail < |s| && head < |s|
    && forall i: nat | i < |s| && i != head :: s[i].Some? <==> Offset(i, tail, |s|) < Offset(head, tail, |s|)
  }

  /** Samples are in the order in which they were received, the one at the head first. */
  ghost predicate Sorted(s: seq<Slot>, tail: nat, head: nat)
    requires Ring(s, tail, head)
  {
    && (forall i: nat, j: nat | i < |s| && j < |s| && i != head && j != head && s[i].Some? && s[j].Some? ::
          Offset(i, tail, |s|) <= Offset(j, tail, |s|) ==> s[i].value.receiveTime <= s[j].value.receiveTime)
    && (s[head].Some? ==>
          forall i: nat | i < |s| && s[i].Some? :: s[head].value.receiveTime <= s[i].value.receiveTime)
  }

  lemma AdvanceTail(s: seq<Slot>, tail: nat, head: nat)
    requires Ring(s, tail, head) && tail != head
    ensures Ring(s[tail := None], Next(tail, |s|), head)
    ensures Offset(head, Next(tail, |s|), |s|) == Offset(head, tail, |s|) - 1
    ensures Sorted(s, tail, head) ==> Sorted(s[tail := None], Next(tail, |s|), head)
  {
    var n := |s|;
    forall i: nat | i < n && i != tail ensures Offset(i, Next(tail, n), n) == Offset(i, tail, n) - 1 {
    }
  }

  /** The tail once a sample has been put at the head. */
  function TailAfterPut(tail: nat, head: nat, n: nat): nat
    requires tail < n && head < n
  {
    if tail == Next(head, n) then Next(tail, n) else tail
  }

  lemma PutHead(s: seq<Slot>, tail: nat, head: nat, x: Sample)
    requires Ring(s, tail, head)
    ensures Ring(s[head := Some(x)], TailAfterPut(tail, head, |s|), Next(head, |s|))
    ensures Sorted(s, tail, head) && (forall y <- Samples(s) :: y.receiveTime <= x.receiveTime) ==>
              Sorted(s[head := Some(x)], TailAfterPut(tail, head, |s|), Next(head, |s|))
  {
    var n, t, tail1, head1 := |s|, s[head := Some(x)], TailAfterPut(tail, head, |s|), Next(head, |s|);
    if Sorted(s, tail, head) && (forall y <- Samples(s) :: y.receiveTime <= x.receiveTime) {
      forall i: nat | i < n && s[i].Some? ensures s[i].value in Samples(s) {
      }
      PutSorted(s, tail, head, x);
    }
  }

  lemma PutSorted(s: seq<Slot>, tail: nat, head: nat, x: Sample)
    requires Ring(s, tail, head) && Sorted(s, tail, head)
    requires forall i: nat | i < |s| && s[i].Some? :: s[i].value.receiveTime <= x.receiveTime
    requires Ring(s[head := Some(x)], TailAfterPut(tail, head, |s|), Next(head, |s|))
    ensures Sorted(s[head := Some(x)], TailAfterPut(tail, head, |s|), Next(head, |s|))
  {
  }

  /** At most one sample is older than a time: the one at the head. */
  ghost predicate AtMostHeadOlder(s: seq<Slot>, head: nat, time: int) {
    forall i: nat | i < |s| && i != head && s[i].Some? :: time <= s[i].value.receiveTime
  }

  /** No sample is faster. */
  ghost predicate IsLeastOf(rtt: int, samples: set<Sample>) {
    forall x <- samples :: rtt <= x.Rtt()
  }

  /** Every other sample takes longer. */
  ghost predicate Fastest(x: Sample, samples: set<Sample>) {
    forall y <- samples | y != x :: x.Rtt() < y.Rtt()
  }

  ghost function Since(samples: set<Sample>, time: int): set<Sample> {
    set x <- samples | time <= x.receiveTime
  }

  lemma OthersAreSince(s: seq<Slot>, head: nat, time: int)
    requires head < |s| && AtMostHeadOlder(s, head, time)
    ensures forall x <- Samples(s) - SlotSamples(s[head]) :: time <= x.receiveTime
  {
  }

  class RttWindow {
    const windowTimeout: int
    const minScaledRtt: int
    const maxScaledRtt: int
    /** The floating-point scaling of a time. */
    const scale: int -> int
    const window: array<Slot>
    const rtts: Heap<Sample>
    var windowTailIndex: nat
    var windowHeadIndex: nat
    var netRtt: int
    var nextUid: nat

    /** The heap has exactly the samples of the ring and the sum is theirs. */
    ghost predicate Accounted()
      reads this, window, rtts
    {
      && Distinct(window[..]) && rtts.Valid() && (forall x :: rtts.rank(x) == x.Rtt())
      && Members(rtts.items) == Samples(window[..]) && netRtt == Sum(window[..])
    }

    ghost predicate Valid()
      reads this, window, rtts
    {
      && Ring(window[..], windowTailIndex, windowHeadIndex) && Accounted()
      && forall x <- Samples(window[..]) :: x.uid < nextUid && 0 <= x.Rtt()
    }

    /** The samples were received in the order of the ring. */
    ghost predicate InOrder()
      requires Valid()
      reads this, window, rtts
    {
      Sorted(window[..], windowTailIndex, windowHeadIndex)
    }

    constructor (windowSize: nat, windowTimeout: int, scale: int -> int, minScaledRtt: int, maxScaledRtt: int)
      requires 0 < windowSize
      ensures Valid() && InOrder() && fresh(window) && fresh(rtts)
      ensures this.minScaledRtt == minScaledRtt && this.maxScaledRtt == maxScaledRtt
    {
      this.windowTimeout, this.minScaledRtt, this.maxScaledRtt := windowTimeout, minScaledRtt, maxScaledRtt;
      this.scale := scale;
      window := new Slot[windowSize](_ => None);
      rtts := new Heap<Sample>((x: Sample) => x.Rtt(), (a: Sample, b: Sample) => a.Rtt() < b.Rtt());
      windowTailIndex, windowHeadIndex, netRtt, nextUid := 0, 0, 0, 0;
      new;
      NoneSum(window[..]);
    }

    method RemoveSample(x: Sample)
      requires rtts.Valid() && x in rtts.items
      modifies rtts, `netRtt
      ensures rtts.Valid() && Members(rtts.items) == Members(old(rtts.items)) - {x} && netRtt == old(netRtt) - x.Rtt()
    {
      var removed := rtts.Remove(rtts.index[x]);
      netRtt := netRtt - x.Rtt();
    }

    /** Drops the samples at the tail that are older than the window. */
    method Coalesce(windowTime: int)
      requires Valid()
      modifies this, window, rtts
      ensures Valid() && windowHeadIndex == old(windowHeadIndex) && nextUid == old(nextUid)
      ensures window[windowHeadIndex] == old(window[windowHeadIndex])
      ensures Samples(window[..]) <= old(Samples(window[..]))
      ensures forall x <- old(Samples(window[..])) ::
                x in Samples(window[..]) || x.receiveTime < windowTime - windowTimeout
      ensures old(InOrder()) ==> InOrder() && AtMostHeadOlder(window[..], windowHeadIndex, windowTime - windowTimeout)
    {
      var windowStartTime := windowTime - windowTimeout;
      while windowTailIndex != windowHeadIndex
        invariant Valid() && windowHeadIndex == old(windowHeadIndex) && nextUid == old(nextUid)
        invariant window[windowHeadIndex] == old(window[windowHeadIndex])
        invariant Samples(window[..]) <= old(Samples(window[..]))
        invariant forall x <- old(Samples(window[..])) ::
                    x in Samples(window[..]) || x.receiveTime < windowStartTime
        invariant old(InOrder()) ==> InOrder()
        decreases Offset(windowHeadIndex, windowTailIndex, window.Length)
      {
        assert window[..][windowTailIndex].Some?;
        var item := window[windowTailIndex].value;
        if windowStartTime <= item.receiveTime {
          break;
        }
        DropTail();
      }
    }

    method DropTail()
      requires Valid() && windowTailIndex != windowHeadIndex
      modifies this, window, rtts
      ensures Valid() && windowHeadIndex == old(windowHeadIndex) && nextUid == old(nextUid)
      ensures old(window[windowTailIndex]).Some? && window[windowHeadIndex] == old(window[windowHeadIndex])
      ensures Samples(window[..]) == old(Samples(window[..])) - {old(window[windowTailIndex]).value}
      ensures old(InOrder()) ==> InOrder()
      ensures Offset(windowHeadIndex, windowTailIndex, window.Length)
              < old(Offset(windowHeadIndex, windowTailIndex, window.Length))
    {
      ghost var s := window[..];
      var tail := windowTailIndex;
      assert s[tail].Some? && s[tail].value in Samples(s);
      AdvanceTail(s, tail, windowHeadIndex);
      SumUpdate(s, tail, None);
      SamplesUpdate(s, tail, None);
      RemoveSample(window[tail].value);
      window[tail] := None;
      assert window[..] == s[tail := None];
      windowTailIndex := Next(tail, window.Length);
    }

    /**
     Samples the time from sending to receiving; a tag from the future is ignored. What leaves is older than
     the window or was in the slot at the head, and in the order of receiving that is exactly what leaves.
     */
    method CloseTag(sendTime: int, receiveTime: int)
      requires Valid()
      modifies this, window, rtts
      ensures Valid()
      ensures receiveTime < sendTime ==>
                window[..] == old(window[..]) && rtts.items == old(rtts.items) && netRtt == old(netRtt)
      ensures sendTime <= receiveTime ==>
                var item := Sample(old(nextUid), sendTime, receiveTime);
                && window[old(windowHeadIndex)] == Some(item)
                && Samples(window[..]) <= old(Samples(window[..]) - SlotSamples(window[windowHeadIndex])) + {item}
                && (forall x <- old(Samples(window[..])) ::
                      || x in Samples(window[..]) || x.receiveTime < receiveTime - windowTimeout
                      || old(window[windowHeadIndex]) == Some(x))
      ensures sendTime <= receiveTime && old(InOrder()) ==>
                Samples(window[..]) ==
                  Since(old(Samples(window[..]) - SlotSamples(window[windowHeadIndex])), receiveTime - windowTimeout)
                  + {Sample(old(nextUid), sendTime, receiveTime)}
      ensures old(InOrder()) && (forall x <- old(Samples(window[..])) :: x.receiveTime <= receiveTime) ==> InOrder()
    {
      if receiveTime < sendTime {
        return;
      }
      Coalesce(receiveTime);
      if old(InOrder()) {
        OthersAreSince(window[..], windowHeadIndex, receiveTime - windowTimeout);
      }
      Put(Sample(nextUid, sendTime, receiveTime));
    }

    method Put(item: Sample)
      requires Valid() && item.uid == nextUid && 0 <= item.Rtt()
      modifies this, window, rtts
      ensures Valid() && window[old(windowHeadIndex)] == Some(item)
      ensures Samples(window[..]) ==
                old(Samples(window[..]) - SlotSamples(window[windowHeadIndex])) + {item}
      ensures old(InOrder()) && (forall x <- old(Samples(window[..])) :: x.receiveTime <= item.receiveTime) ==> InOrder()
    {
      ghost var s := window[..];
      var head := windowHeadIndex;
      PutHead(s, windowTailIndex, head, item);
      ReplaceSlot(head, item);
      windowHeadIndex := Next(head, window.Length);
      if windowTailIndex == windowHeadIndex {
        windowTailIndex := Next(windowTailIndex, window.Length);
      }
      nextUid := nextUid + 1;
    }

    /** Puts a new sample into a slot in place of what was there. */
    method ReplaceSlot(i: nat, item: Sample)
      requires Accounted() && i < window.Length && item !in Samples(window[..])
      modifies window, rtts, `netRtt
      ensures Accounted() && window[..] == old(window[..])[i := Some(item)]
      ensures Samples(window[..]) == old(Samples(window[..]) - SlotSamples(window[i])) + {item}
    {
      ghost var s := window[..];
      SumUpdate(s, i, Some(item));
      SamplesUpdate(s, i, Some(item));
      AddSample(item);
      if window[i].Some? {
        assert s[i].value in Samples(s);
        RemoveSample(window[i].value);
      }
      window[i] := Some(item);
      assert window[..] == s[i := Some(item)];
    }

    method AddSample(x: Sample)
      requires rtts.Valid() && x !in Members(rtts.items)
      modifies rtts, `netRtt
      ensures rtts.Valid() && Members(rtts.items) == Members(old(rtts.items)) + {x} && netRtt == old(netRtt) + x.Rtt()
    {
      rtts.Push(x);
      netRtt := netRtt + x.Rtt();
    }

    /** The mean of the samples, rounded down, and 0 without any. */
    ghost predicate IsMean(mean: int)
      reads this, window
    {
      if Samples(window[..]) == {} then mean == 0
      else mean * |Samples(window[..])| <= Sum(window[..]) < (mean + 1) * |Samples(window[..])|
    }

    /**
     The scaled mean of the samples that are left, if it is within the configured bounds, and otherwise the
     bound that it passes; the upper bound wins when they are not in order.
     */
    method ScaledRtt(sendTime: int) returns (scaledRtt: int, ghost mean: int)
      requires Valid()
      modifies this, window, rtts
      ensures Valid() && IsMean(mean) && scaledRtt <= maxScaledRtt
      ensures minScaledRtt <= scaledRtt <==> minScaledRtt <= maxScaledRtt
      ensures minScaledRtt <= scale(mean) <= maxScaledRtt ==> scaledRtt == scale(mean)
      ensures scale(mean) <= minScaledRtt <= maxScaledRtt ==> scaledRtt == minScaledRtt
      ensures maxScaledRtt <= scale(mean) ==> scaledRtt == maxScaledRtt
      ensures old(InOrder()) ==> InOrder() && AtMostHeadOlder(window[..], windowHeadIndex, sendTime - windowTimeout)
    {
      Coalesce(sendTime);
      var useRtt := MeanRtt();
      mean := useRtt;
      var raised := if minScaledRtt < scale(useRtt) then scale(useRtt) else minScaledRtt;
      scaledRtt := if raised < maxScaledRtt then raised else maxScaledRtt;
    }

    /**
     Meant to be the least time, this is the one in the last slot of the heap: the least if and only if the
     last slot ties with the first. A sample that is faster than all others is found only when it is alone.
     */
    method MinRtt() returns (rtt: int)
      requires Valid()
      ensures Samples(window[..]) == {} ==> rtt == 0
      ensures rtts.items != [] ==>
                && (exists x <- Samples(window[..]) :: x.Rtt() == rtt)
                && (IsLeastOf(rtt, Samples(window[..]))
                    <==> rtts.items[|rtts.items| - 1].Rtt() == rtts.items[0].Rtt())
      ensures forall x <- Samples(window[..]) | Fastest(x, Samples(window[..])) ::
                rtt == x.Rtt() <==> |rtts.items| == 1
    {
      if |rtts.items| == 0 {
        return 0;
      }
      LastOfHeap(rtts.items, rtts.rank);
      rtt := rtts.items[|rtts.items| - 1].Rtt();
    }

    method MeanRtt() returns (mean: int)
      requires Valid()
      ensures IsMean(mean)
    {
      DistinctCount(rtts.items, rtts.index);
      var n := |rtts.items|;
      if n == 0 {
        return 0;
      }
      assert forall i | 0 <= i < window.Length && window[..][i].Some? :: window[..][i].value in Samples(window[..]);
      SumNonNegative(window[..]);
      mean := netRtt / n;
      DivBounds(netRtt, n);
    }
  }

  lemma LastOfHeap(items: seq<Sample>, rank: Sample -> int)
    requires items != [] && HeapOn(items, rank, |items|) && forall y :: rank(y) == y.Rtt()
    requires forall i, j | 0 <= i < j < |items| :: items[i] != items[j]
    ensures items[|items| - 1] in Members(items)
    ensures IsLeastOf(items[|items| - 1].Rtt(), Members(items)) <==> items[|items| - 1].Rtt() == items[0].Rtt()
    ensures forall x <- Members(items) | Fastest(x, Members(items)) ::
              items[|items| - 1].Rtt() == x.Rtt() <==> |items| == 1
  {
    var samples, last := Members(items), items[|items| - 1];
    assert last in samples && items[0] in samples;
    forall x | x in samples ensures items[0].Rtt() <= x.Rtt() {
      RootIsLeastMember(items, rank, x);
    }
    forall x | x in samples && Fastest(x, samples) ensures last.Rtt() == x.Rtt() <==> |items| == 1 {
      assert items[0] == x;
    }
  }

  /** Of two samples with different times, the one in the last slot of the heap has the greater. */
  lemma LastOfTwoIsGreater(items: seq<Sample>, rank: Sample -> int)
    requires HeapOn(items, rank, |items|) && (forall x <- items :: rank(x) == x.Rtt())
    requires |items| == 2 && items[0].Rtt() != items[1].Rtt()
    ensures items[0].Rtt() < items[1].Rtt()
  {
    RootIsLeast(items, rank, 2, 1);
  }

  lemma DivBounds(a: int, n: nat)
    requires 0 < n
    ensures 0 <= a ==> (a / n) * n <= a < (a / n + 1) * n
  {
  }

  lemma {:induction false} SumNonNegative(s: seq<Slot>)
    requires forall i | 0 <= i < |s| && s[i].Some? :: 0 <= s[i].value.Rtt()
    ensures 0 <= Sum(s)
  {
    if s != [] {
      SumNonNegative(s[1..]);
    }
  }

  lemma {:induction false} NoneSum(s: seq<Slot>)
    requires forall i | 0 <= i < |s| :: s[i].None?
    ensures Sum(s) == 0
  {
    if s != [] {
      NoneSum(s[1..]);
    }
  }
}
