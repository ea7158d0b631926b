/** Sums of message bytes, which the charges to a contract cover. */
module PayloadBytes {
  import opened Options
  import opened SendModel
  import opened SendSafety
  import opened TransferTypes

  /** The bytes of a message are those of all its frames. */
  lemma {:induction false} FramesAdd(a: seq<Frame>, b: seq<Frame>)
    ensures MessageByteCount(a + b) == MessageByteCount(a) + MessageByteCount(b)
    ensures |a| == 1 ==> MessageByteCount(a) == |a[0].messageBytes|
  {
    if a == [] {
      assert a + b == b;
    } else {
      FramesAdd(a[1..], b);
      assert (a + b)[1..] == a[1..] + b;
    }
  }

  /** The message bytes of the items that were debited to contract c. */
  function PendingBytes(items: seq<SendItem>, c: Id): nat {
    if items == [] then 0
    else (if items[0].contractId == Some(c) then items[0].messageByteCount else 0) + PendingBytes(items[1..], c)
  }

  /** The message bytes of the packs numbered below n that were debited to contract c. */
  function LogBytes(log: seq<Entry>, c: Id, n: nat): nat
    requires n <= |log|
  {
    if n == 0 then 0
    else LogBytes(log, c, n - 1)
         + if log[n-1].contract.Some? && log[n-1].contract.value.contractId == c
           then MessageByteCount(log[n-1].frames) else 0
  }

  lemma {:induction false} PendingIsCharged(min: nat, items: seq<SendItem>, c: Id)
    ensures PendingBytes(items, c) <= PendingCharge(min, items, c)
  {
    if items != [] { PendingIsCharged(min, items[1..], c); }
  }

  lemma {:induction false} LogIsCharged(min: nat, log: seq<Entry>, c: Id, n: nat)
    requires n <= |log|
    ensures LogBytes(log, c, n) <= LogCharge(min, log, c, n)
  {
    if n != 0 { LogIsCharged(min, log, c, n - 1); }
  }
}
