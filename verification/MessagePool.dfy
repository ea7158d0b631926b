/**
 Reference-counted buffers. Each method is one region that runs without interruption: a region
 under the lock, or the writes that only the last holder makes. Any interleaving of callers is a
 sequence of calls of these methods, so what all of them keep holds over every interleaving.
 */
module MessagePool {
  import opened Options

  /** The id stored in a buffer stands for the buffer. */
  type MessageId = nat

  type U16 = x: int | 0 <= x < 65536

  /** Where a buffer is between two regions. */
  datatype Phase =
    | Idle       // in the pool, or dropped
    | Taking     // popped, not yet counted
    | Held
    | Releasing  // the last holder gave it back, still counted
    | Cleared    // no longer counted, not yet in the pool

  class MessagePool {
    var pool: array<Option<MessageId>>
    var count: nat
    var nextId: nat
    /** The count inside each buffer. */
    var refCount: map<MessageId, U16>

    ghost var phase: map<MessageId, Phase>
    ghost var holders: map<MessageId, nat>

    /** The stack has distinct idle buffers. */
    ghost predicate StackOk()
      reads this, pool
    {
      && count <= pool.Length
      && (forall i | 0 <= i < count :: pool[i].Some? && pool[i].value in phase && phase[pool[i].value] == Idle)
      && (forall i, j | 0 <= i < j < count :: pool[i] != pool[j])
    }

    /** A buffer is counted exactly as often as it is held. */
    ghost predicate CountsOk()
      reads this
    {
      && phase.Keys == holders.Keys == refCount.Keys
      && (forall m <- phase :: m <= nextId)
      && (forall m <- phase :: MessageOk(phase[m], holders[m], refCount[m]))
    }

    ghost predicate Valid()
      reads this, pool
    {
      StackOk() && CountsOk()
    }

    constructor (maxCount: nat)
      ensures Valid() && fresh(pool) && phase == map[] && count == 0
    {
      pool := new Option<MessageId>[maxCount](_ => None);
      count, nextId, refCount, phase, holders := 0, 0, map[], map[], map[];
    }

    /** The first region of Get: pops the buffer on top of the stack, or makes one when the stack is empty. */
    method Take() returns (m: MessageId)
      requires Valid()
      modifies this, pool
      ensures Valid() && pool == old(pool)
      ensures m in old(phase) ==> old(phase)[m] == Idle
      ensures 0 < old(count) ==> old(pool[count - 1]) == Some(m) && count == old(count) - 1
      ensures old(count) == 0 ==> m !in old(phase) && count == 0
      ensures forall i | 0 <= i < count :: pool[i] == old(pool[i])
      ensures phase == old(phase)[m := Taking] && holders == old(holders)[m := 0]
    {
      if 0 < count {
        m := pool[count - 1].value;
        pool[count - 1] := None;
        count := count - 1;
        phase := phase[m := Taking];
        assert holders == holders[m := 0];
      } else {
        nextId := nextId + 1;
        m := nextId;
        refCount, phase, holders := refCount[m := 0], phase[m := Taking], holders[m := 0];
      }
    }

    /** The second region of Get; the first holder. */
    method Mark(m: MessageId)
      requires Valid() && m in phase && phase[m] == Taking
      modifies `refCount, `phase, `holders
      ensures Valid() && phase == old(phase)[m := Held] && holders == old(holders)[m := 1]
    {
      assert refCount[m] == 0;  // otherwise the "already taken" panic
      refCount, phase, holders := refCount[m := 1], phase[m := Held], holders[m := 1];
    }

    /** One more holder; the count wraps at 65536. */
    method Share(m: MessageId)
      requires m in phase && m in refCount && m in holders && phase[m] == Held
      modifies `refCount, `holders
      ensures holders == old(holders)[m := old(holders)[m] + 1]
      ensures refCount == if old(refCount)[m] == 0 then old(refCount)
                          else old(refCount)[m := Increment(old(refCount)[m])]
      ensures old(Valid()) && holders[m] < 65536 ==> Valid()
    {
      holders := holders[m := holders[m] + 1];
      if refCount[m] != 0 {
        refCount := refCount[m := Increment(refCount[m])];
      }
    }

    /** The region of Return: one holder less; answers whether it was the last by the count. */
    method Release(m: MessageId) returns (last: bool)
      requires m in phase && m in refCount && m in holders && phase[m] == Held && 0 < holders[m]
      modifies `refCount, `phase, `holders
      ensures holders == old(holders)[m := old(holders)[m] - 1]
      ensures last <==> old(refCount)[m] == 1
      ensures phase == if last then old(phase)[m := Releasing] else old(phase)
      ensures refCount == if old(refCount)[m] <= 1 then old(refCount)
                          else old(refCount)[m := old(refCount)[m] - 1]
      ensures old(Valid()) ==> Valid() && (last <==> old(holders)[m] == 1)
    {
      holders := holders[m := holders[m] - 1];
      last := refCount[m] == 1;
      if last {
        phase := phase[m := Releasing];
      } else if refCount[m] != 0 {
        refCount := refCount[m := refCount[m] - 1];
      }
    }

    /** What the last holder does outside the lock. */
    method Clean(m: MessageId)
      requires Valid() && m in phase && phase[m] == Releasing
      modifies `refCount, `phase
      ensures Valid() && phase == old(phase)[m := Cleared]
    {
      refCount, phase := refCount[m := 0], phase[m := Cleared];
    }

    /** Puts the buffer on the stack, or drops it when the stack is full. */
    method Put(m: MessageId)
      requires Valid() && m in phase && phase[m] == Cleared
      modifies this, pool
      ensures Valid() && pool == old(pool)
      ensures phase == old(phase)[m := Idle] && holders == old(holders)
      ensures count == if old(count) < pool.Length then old(count) + 1 else old(count)
      ensures old(count) < pool.Length ==> pool[old(count)] == Some(m)
      ensures forall i | 0 <= i < old(count) :: pool[i] == old(pool[i])
    {
      if count < pool.Length {
        pool[count] := Some(m);
        count := count + 1;
      }
      phase := phase[m := Idle];
    }

    /** Keeps as many of the buffers at the bottom of the stack as fit. */
    method Resize(maxCount: nat)
      requires Valid()
      modifies this
      ensures Valid() && fresh(pool) && pool.Length == maxCount && phase == old(phase) && holders == old(holders)
      ensures count == if old(count) < maxCount then old(count) else maxCount
      ensures forall i | 0 <= i < count :: pool[i] == old(pool[i])
    {
      var newPool := new Option<MessageId>[maxCount](_ => None);
      var newCount := if count < maxCount then count else maxCount;
      for i := 0 to newCount
        invariant forall k | 0 <= k < i :: newPool[k] == pool[k]
        modifies newPool
      {
        newPool[i] := pool[i];
      }
      pool, count := newPool, newCount;
    }

    method Clear()
      requires Valid()
      modifies this, pool
      ensures Valid() && count == 0 && pool == old(pool) && phase == old(phase) && holders == old(holders)
    {
      for i := 0 to count
        modifies pool
      {
        pool[i] := None;
      }
      count := 0;
    }

    /** Nothing on the stack is held or counted, and nothing is on it twice. */
    lemma PooledIsFree(i: nat, j: nat)
      requires Valid() && i < count && j < count
      ensures pool[i].Some? && pool[i].value in holders && holders[pool[i].value] == 0 && refCount[pool[i].value] == 0
      ensures pool[i] == pool[j] ==> i == j
    {
    }
  }

  function Increment(n: U16): U16 {
    var k: int := n;
    (k + 1) % 65536
  }

  predicate MessageOk(phase: Phase, holders: nat, refCount: U16) {
    match phase
    case Held => 0 < holders == refCount
    case Releasing => holders == 0 && refCount == 1
    case _ => holders == 0 && refCount == 0
  }

  /** What a holder of a buffer does next. */
  datatype Turn = ToShare | ToReturn

  /** The holders after some turns, of which there was one at first. */
  function HoldersAfter(turns: seq<Turn>): int {
    if turns == [] then 1 else HoldersAfter(turns[..|turns|-1]) + if turns[|turns|-1].ToShare? then 1 else -1
  }

  /** Only holders take turns. */
  ghost predicate HoldersOnly(turns: seq<Turn>) {
    forall k | 0 <= k < |turns| :: 0 < HoldersAfter(turns[..k])
  }

  /** The count wrapped at some time in the first n turns. */
  ghost predicate Wrapped(turns: seq<Turn>, n: nat)
    requires n <= |turns|
  {
    exists j: nat :: j <= n && 65536 <= HoldersAfter(turns[..j])
  }

  /**
   One buffer under any interleaving of shares and returns by its holders. A return answers true if and only
   if it is that of the last holder and there never were 65536: once the count has wrapped it stays 0 and no
   later return is the last.
   */
  method TakeTurns(turns: seq<Turn>) returns (answers: seq<bool>)
    requires HoldersOnly(turns)
    ensures |answers| == |turns|
    ensures forall k | 0 <= k < |turns| ::
              answers[k] <==> turns[k].ToReturn? && HoldersAfter(turns[..k + 1]) == 0 && !Wrapped(turns, k)
  {
    var mp := new MessagePool(1);
    var m := mp.Take();
    mp.Mark(m);
    answers := [];
    for i := 0 to |turns|
      invariant |answers| == i
      invariant forall k | 0 <= k < i ::
                  answers[k] <==> turns[k].ToReturn? && HoldersAfter(turns[..k + 1]) == 0 && !Wrapped(turns, k)
      invariant i < |turns| ==> Counted(mp, m, turns, i)
    {
      var last := TakeTurn(mp, m, turns, i);
      answers := answers + [last];
    }
  }

  /** After i turns: the count is that of the holders, or 0 since it wrapped. */
  ghost predicate Counted(mp: MessagePool, m: MessageId, turns: seq<Turn>, i: nat)
    requires i <= |turns|
    reads mp
  {
    && 0 < HoldersAfter(turns[..i]) && IsHeld(mp, m, HoldersAfter(turns[..i]))
    && mp.refCount[m] == if Wrapped(turns, i) then 0 else HoldersAfter(turns[..i])
  }

  method TakeTurn(mp: MessagePool, m: MessageId, turns: seq<Turn>, i: nat) returns (last: bool)
    requires i < |turns| && HoldersOnly(turns) && Counted(mp, m, turns, i)
    modifies mp
    ensures last <==> turns[i].ToReturn? && HoldersAfter(turns[..i + 1]) == 0 && !Wrapped(turns, i)
    ensures i + 1 < |turns| ==> Counted(mp, m, turns, i + 1)
  {
    NextHolders(turns, i);
    last := false;
    if turns[i].ToShare? {
      mp.Share(m);
    } else {
      last := mp.Release(m);
    }
  }

  lemma NextHolders(turns: seq<Turn>, i: nat)
    requires i < |turns| && HoldersOnly(turns)
    ensures HoldersAfter(turns[..i + 1]) == HoldersAfter(turns[..i]) + if turns[i].ToShare? then 1 else -1
    ensures Wrapped(turns, i + 1) <==> Wrapped(turns, i) || HoldersAfter(turns[..i + 1]) == 65536
    ensures !Wrapped(turns, i) ==> HoldersAfter(turns[..i]) < 65536
    ensures i + 1 < |turns| ==> 0 < HoldersAfter(turns[..i + 1])
  {
    assert turns[..i + 1][..i] == turns[..i];
    if Wrapped(turns, i) {
      var j: nat :| j <= i && 65536 <= HoldersAfter(turns[..j]);
      assert j <= i + 1;
    }
    if Wrapped(turns, i + 1) && !Wrapped(turns, i) {
      var j: nat :| j <= i + 1 && 65536 <= HoldersAfter(turns[..j]);
      assert j == i + 1;
    }
  }

  /**
   A buffer shared n times and returned by every holder. Exactly the last return answers true, as
   long as there are fewer than 65536 holders; from then on the count is zero and none does.
   */
  method ShareThenRelease(n: nat) returns (answers: seq<bool>)
    ensures |answers| == n + 1
    ensures forall i | 0 <= i <= n :: answers[i] <==> i == n && n + 1 < 65536
  {
    var mp := new MessagePool(1);
    var m := mp.Take();
    mp.Mark(m);
    for i := 0 to n
      invariant IsHeld(mp, m, i + 1) && mp.refCount[m] == if i < 65535 then i + 1 else 0
    {
      mp.Share(m);
    }
    answers := ReleaseAll(mp, m, n + 1);
  }

  method ReleaseAll(mp: MessagePool, m: MessageId, n: nat) returns (answers: seq<bool>)
    requires 0 < n && IsHeld(mp, m, n) && mp.refCount[m] == if n < 65536 then n else 0
    modifies mp
    ensures |answers| == n && forall k | 0 <= k < n :: answers[k] <==> k == n - 1 && n < 65536
  {
    answers := [];
    for i := 0 to n
      invariant |answers| == i && forall k | 0 <= k < i :: answers[k] <==> k == n - 1 && n < 65536
      invariant i < n ==> IsHeld(mp, m, n - i) && mp.refCount[m] == if n < 65536 then n - i else 0
    {
      var last := mp.Release(m);
      answers := answers + [last];
    }
  }

  ghost predicate IsHeld(mp: MessagePool, m: MessageId, n: nat)
    reads mp
  {
    && m in mp.phase && m in mp.refCount && m in mp.holders
    && mp.phase[m] == Held && mp.holders[m] == n
  }
}
