/** The messages of the transfer protocol and the byte accounting of one contract. */
module TransferTypes {
  import opened Options

  /** Ids are fresh and never reused; 128-bit ULIDs in the program. */
  type Id = nat

  datatype Frame = Frame(messageType: nat, messageBytes: seq<bv8>)
  datatype Contract = Contract(contractId: Id, transferByteCount: nat)

  datatype Pack = Pack(
    messageId: Id,
    sequenceNumber: nat,
    head: bool,
    frames: seq<Frame>,
    contractFrame: Option<Contract>,
    nack: bool,
    contractId: Option<Id>)

  datatype Ack = Ack(messageId: Id, selective: bool)

  function MessageByteCount(frames: seq<Frame>): nat {
    if frames == [] then 0 else |frames[0].messageBytes| + MessageByteCount(frames[1..])
  }

  /** A message smaller than the minimum is charged as the minimum. */
  function Charge(minUpdateByteCount: nat, byteCount: nat): (n: nat)
    ensures minUpdateByteCount <= n && byteCount <= n && (n == minUpdateByteCount || n == byteCount)
  {
    if minUpdateByteCount < byteCount then byteCount else minUpdateByteCount
  }

  datatype SequenceContract = SequenceContract(
    contract: Contract,
    effectiveByteCount: nat,
    minUpdateByteCount: nat,
    ackedByteCount: nat,
    unackedByteCount: nat)
  {
    function Used(): nat { ackedByteCount + unackedByteCount }

    predicate Fits(byteCount: nat) {
      Used() + Charge(minUpdateByteCount, byteCount) <= effectiveByteCount
    }

    /** None when the message does not fit. A debit moves its charge from the free bytes to the unacked ones. */
    function Update(byteCount: nat): (r: Option<SequenceContract>)
      ensures r.Some? <==>
                ackedByteCount + unackedByteCount + Charge(minUpdateByteCount, byteCount) <= effectiveByteCount
      ensures r.Some? ==> r.value.Used() <= effectiveByteCount
      ensures r.Some? ==> r.value.Used() - Used() == r.value.unackedByteCount - unackedByteCount
                          == Charge(minUpdateByteCount, byteCount)
    {
      if Fits(byteCount)
      then Some(this.(unackedByteCount := unackedByteCount + Charge(minUpdateByteCount, byteCount)))
      else None
    }

    /** None is the "Bad accounting" panic. An ack moves the charge of its debit and never changes the total. */
    function Acked(byteCount: nat): (r: Option<SequenceContract>)
      ensures r.Some? <==> Charge(minUpdateByteCount, byteCount) <= unackedByteCount
      ensures r.Some? ==> r.value.Used() == Used()
      ensures r.Some? ==> r.value.ackedByteCount - ackedByteCount == Charge(minUpdateByteCount, byteCount)
    {
      var n := Charge(minUpdateByteCount, byteCount);
      if unackedByteCount < n then None
      else Some(this.(ackedByteCount := ackedByteCount + n, unackedByteCount := unackedByteCount - n))
    }
  }
}
