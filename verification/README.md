# Verified models of the connect transfer stack

This project models the parts of the `connect` package where correctness depends on state that several operations
share, and proves what those parts are for.

* **Reliable transfer** (`transfer.go`). A send sequence numbers packs, resends them, drops them on cumulative acks and
  debits each one against a byte contract. A receive sequence reorders, delivers, acknowledges through a coalescing
  window and mirrors the debits; it may be destroyed and recreated with no state at any time. `SendModel` and
  `ReceiveModel` say what each step computes, the classes in `SendSequence`, `ReceiveSequence` and `AckWindow` are
  proved to compute it on their fields, and `TransferSystem` composes one sender, a network that loses, repeats and
  reorders, and any number of receive sequences. `TransferTheorems` has the results about every world of every run, and
  `TransferProgress` what each event achieves there, up to the proof that no sequence is ever stuck.
* **Queues** (`transfer_queue.go`, `transport_pt_queue.go`, `transfer_rtt.go`). One heap with stored positions, after
  Go's `container/heap`, is proved in `BinaryHeap` for any comparison that agrees with the order off ties. The transfer
  queue, the pump queue, the combine queue and the round-trip-time window are classes over it.
* **Packets over DNS** (`transport_pt.go`, `transport_pt_codec.go`, `transport_pt_queue.go`). Splitting into fragments,
  base32 and base64 as a regrouping of bits in the alphabets and the order of RFC 4648, names and texts, and
  reassembly, joined in `DnsRoundTrip` to one round trip.
* **Smaller stateful cores**. The receive buffer's registry of sequences, the route index, the reference-counted buffer
  pool and the TLS record splitter.

Settings and facts that the model takes as given: the minimum message byte count is at least 1 and equal on both
sides, contracts are required throughout and verify, ids are fresh, and the order of ids is the order of creation.
Timers are the free choice of the next event, and each region under a lock is one step. The DNS message library packs a name
of at most 254 characters in labels of 1 to 63, after section 2.3.4 of RFC 1035.

## What is false of the code

Some properties hold only on a condition. The model keeps the code as it is, shows an input that breaks the property,
and proves the condition.

* A pack that fits no standard contract panics the run loop after it left the channel, and its ack callback is never
  called (`transfer.go:1684-1687`). `SendCallbacks.LostExactlyWhenTooLarge` gives the exact condition,
  `SendCallbacks.TooLargeIsLost` an input, and `TransferTheorems.CalledBackOnce` the account over whole runs.
* A pack that is not refused as too large need not fit a standard contract: its size is compared as it is and charged as
  the minimum (`transfer.go:1682-1710`). It fits if and only if it has the minimum of bytes or the contract holds the
  minimum twice (`SendContracts.TooLargeIsExactFromMinimum`); `SendContracts.SmallMessageFitsNothing` is an input.
* `5+tlsHeader.contentLength` is 16-bit arithmetic (`net_resilient.go:133`, `:257`, `:264`, `:270`). One round takes
  exactly one record if and only if the length is at most 65530 (`ResilientTls.RecordEndIsExact`). A server name of fewer
  than two characters has no range for its random split (`net_resilient.go:140`). `ResilientTls.FirstBadDecides` says for
  every input how the first such record ends it: a panic on a handshake record, a round that repeats forever at a length
  of 65531, and rounds that go on inside the record beyond that, with an input in `ResilientTls.MisalignedRecordStays`.
* Bytes still in the buffer when the splitter is switched off are never written (`net_resilient.go:120-123`). The wire goes
  on with the input if and only if the buffer is empty then (`ResilientTls.ResilientTlsConn.OffLosesTheBuffer`).
* Fragmentation is meant to spread the server name over records, but its two random draws can leave it in one: some piece
  holds the whole name if and only if it is cut at its start with a step of its length
  (`ResilientTls.NameStaysWhole`), as `ResilientTls.ShortNameCanStayWhole` does with a name of two bytes.
* When the server name ends the ClientHello, fragmentation emits an empty handshake record, which section 5.1 of
  RFC 8446 forbids: `ResilientTls.ResilientTlsConn.WriteFragments` has the condition in both directions.
* A receive sequence that was recreated can queue, and evict, a late copy of a pack that an earlier one delivered and the
  sender no longer holds (`LateCopy.LateCopyIsQueued` is such a run). The sender holds a queued item if and only if its
  callback was not called after an ack (`TransferTheorems.QueuedIsHeldUnlessAcked`); what nobody delivered is always held.
* With one domain under another a name can be taken for the shorter one (`DnsCodec.NestedDomainsConfuse`). Names match their
  own domain if and only if no domain lies under another (`DnsCodec.MatchesItsOwnExactly`).
* A domain of 139 or more characters leaves no room in a request: the estimate divides by zero or by a negative number, and
  the packet ends in a panic or an error (`DnsFragments.WriteRequests`), except that nothing to write is a success beyond 139.
* A name that carries a full chunk has more than 254 characters if and only if the top-level domain has fewer than six
  (`DnsCodec.FullNameFits`). The message library refuses it, also when its length wraps in one byte, and the packet ends in
  an error (`DnsFragments.ShortDomainIsRefused` is such a packet). Writing succeeds if and only if the first name fits
  (`DnsFragments.WriteRequests`), which it always does with six characters or more (`DnsFragments.SixFit`).
* The count of fragments is one byte (`transport_pt.go:225`, `:407`), so a packet that needs more than 255 does not come back
  from all arrivals of its fragments (`DnsRoundTrip.RequestsReassemble` and `ResponsesReassemble` have both directions). Of 257
  the first alone comes out as the packet (`DnsRoundTrip.FirstFragmentComesOut`), and of more than 255 requests nothing that
  comes out is the packet (`DnsRoundTrip.ManyRequestsNeverGiveThePacket`).
* The same packet sent twice under domains of different lengths has one content key and two cuts; fragments of the two
  can be combined to something else (`DnsRoundTrip.MixedCutsCorrupt`). Two cuts under one key always give the packet if and
  only if they are one (`DnsRoundTrip.TwoCutsReassemble`), which two domains make if and only if they have one length or one
  request is enough (`DnsRoundTrip.TwoDomainsReassemble`), and two lists of pump items if and only if their domains differ in
  length only after the end of the packet (`DnsRoundTrip.TwoAnswersReassemble`).
* A pump queue whose limit for an address is zero or less leaves an empty heap behind, and the next `RemoveLast` for
  that address dereferences nil (`PumpQueue.AddThenRemove` has both directions).
* Once a buffer has had 65536 holders no return of it is the last one (`MessagePool.ShareThenRelease`). In any interleaving the
  last holder's return answers true if and only if there never were that many (`MessagePool.TakeTurns`).
* Completing a combined packet counts down the address of the last fragment, so two addresses on one key leave a count
  behind (`CombineModel.TwoAddressesLeaveACount`). Over a run the counts are exact if and only if no fragment ever completes a
  packet that another address began (`CombineModel.CountsAreExact`).
* A route that two transports share is lost when one of them is removed (`RouteSelector.SharedRouteIsLost`). An update keeps
  the known routes those of the table if and only if no other transport has a route that is given up
  (`RouteSelector.ActiveKeys`).
* `setActive` makes a known route inactive whatever it is told, so it does as told if and only if that is to be inactive
  (`RouteSelector.MultiRouteSelector.SetActive`).
* `MinRtt` reads the last heap slot: with two different samples it gives the greater (`RttWindow.LastOfTwoIsGreater`), and it
  finds a sample that is faster than all others if and only if it is alone (`RttWindow.RttWindow.MinRtt`). Nothing uses it.

## Model

| member | source | states |
|---|---|---|
| TransferTheorems.AcknowledgedMeansDelivered | transfer.go:2070-2130 | in every run, over loss, repetition, reordering and recreated receivers, a callback gets nil after a cumulative ack only if some receive sequence handed on the frame of a pack that was accepted with that callback, under that number and the contract debited for it |
| SendHistory.SendNextHistory | transfer.go:1619-1642 | whatever one pack from the channel leads to, the log has only frames and callbacks of accepted packs in the order of their acceptance, the channel keeps the packs accepted last, every no-ack pack has the frame of one accepted without ack, and the acknowledged numbers stay exactly those below the pending ones |
| SendHistory.AckThroughHistory | transfer.go:2099-2125 | a cumulative ack adds to the acknowledged numbers exactly those that it takes off the pending items |
| SendHistory.SendNextFollows | transfer.go:1846-1856 | whatever one pack from the channel leads to, every no-ack pack on the wire names a contract whose first pack is acknowledged |
| TransferTheorems.WireProvesDelivery | transfer.go:1858-1877 | every non-selective ack for n proves that all packs up to n were delivered, and every head pack numbered n that all packs below n were; head packs carry their contract |
| TransferTheorems.DeliveredInOrder | transfer.go:2853-2934 | one receive sequence delivers strictly increasing numbers, each at most once, and skips numbers only to a head pack |
| TransferTheorems.DeliveredInOrderOfAcceptance | transfer.go:1314-1361 | in every run the channel is first in, first out: it holds the packs accepted last, the others are numbered in the order in which they were accepted, and every receive sequence delivers the callers' frames in that order |
| TransferTheorems.NeverRecreatedIsGapless | transfer.go:2885-2934 | a receive sequence that was never recreated delivers exactly 0, 1, 2, ... up to its next number |
| TransferTheorems.HeadNeverJumps | transfer.go:2885-2894 | in every run with one receive sequence, never recreated, no pack that can arrive makes it jump to a head |
| TransferTheorems.BothEndsCharge | transfer.go:3405-3450 | the receiver charges each acked pack to the contract the sender debited, never reaches "Bad accounting", and its debits are covered by the sender's plus no-ack charges |
| TransferTheorems.CheckFailsOnlyOnNoAck | transfer.go:2908-2925 | the receiver's contract check ends a sequence on an acked pack only if a no-ack pack had been charged to that contract |
| TransferTheorems.SenderConserves | transfer.go:1666-1821 | acked plus unacked bytes stay within each open contract, unacked bytes are exactly the pending and the failed no-ack packs and cover the pending message bytes, no contract carries more message bytes than it has, the contract of every pending item is open, each accepted contract is closed exactly once, and the only panic is the one for a pack that is too large |
| TransferTheorems.PendingIsWhatIsMissing | transfer.go:1970-1982 | resend queue and pending items are the same items, the contiguous run that ends at the last number given out, and everything not yet delivered is among them |
| TransferTheorems.QueuedIsPending | transfer.go:2936-2958 | what a never recreated receiver queues, and so may evict, is still held by the sender under the same number |
| TransferTheorems.QueuedIsHeldUnlessAcked | transfer.go:2936-2958 | for every receiver, what it queues and so may evict is held by the sender if and only if the callback of its number was not called after an ack, and in any case while nobody has delivered it |
| LateCopy.LateCopyIsQueued | transfer.go:2936-2958 | a run whose second receiver queues a pack that the sender dropped when the first had acknowledged it |
| TransferTheorems.QueueEndsAreUnique | transfer.go:2728-2731 | in every run a receive queue has one first and one last item, so the item at the root of each heap is the modelled one |
| TransferTheorems.BufferBounded | transfer.go:2936-2965 | in every run the reorder buffer holds at most one item or less than its maximum of bytes |
| TransferTheorems.CalledBackOnce | transfer.go:1431-1435 | once the sequence has closed every accepted pack was called back exactly as often as it was accepted, but for the pack lost to the too-large panic |
| TransferTheorems.NoAckAfterContract | transfer.go:1846-1856 | a no-ack pack that names a contract is written only after the pack that introduced the contract was cumulatively acknowledged, hence delivered |
| TransferProgress.ArrivalIsAnswered | transfer.go:2853-2965 | in every run, a pack that arrives below the next number is acknowledged again and not delivered; one in turn, or a head ahead, is delivered with its frames and contract as the new last delivery and acknowledged, unless no-ack charges had used up its contract; one that is ahead is queued and acknowledged selectively exactly when it fits beside the earlier items; no other item is lost |
| TransferProgress.DrainedIsAnswered | transfer.go:2725-2767 | in every run, the first queued item stays while it is ahead, and otherwise leaves the queue and is delivered and acknowledged, or acknowledged again |
| TransferProgress.NoAckArrives | transfer.go:2968-3034 | in every run, a no-ack pack hands on exactly its frames if the contract it names is open with room, and otherwise changes nothing |
| TransferProgress.NoAckDeliveriesWereAccepted | transfer.go:3060-3064 | in every run, everything handed on without an ack is the frame of a pack that was accepted to be sent without one |
| TransferProgress.ReceiverChargesAreExact | transfer.go:3405-3450 | in every run, the used bytes of a contract open at a receiver are exactly the charges of what it delivered under it, with and without ack, hence at least the bytes handed on, and no more contracts are open than the limit |
| TransferProgress.ContractFlagsAreExact | transfer.go:1807-1827 | in every run, the current contract is marked acked if and only if the pack that introduced it is acknowledged, and a contract that was switched away from is open only while it has unacked bytes |
| TransferProgress.PackIsSentExactlyWhenItFits | transfer.go:1619-1642 | in every run, the pack taken from the channel is sent if and only if it fits the current contract or an offered one, numbered, or without an ack exactly when it asked for none and the current contract is acked and has room; it is the head with its contract exactly when nothing else is pending; otherwise the sequence ends with its callback failed or lost |
| TransferProgress.OldestIsResentAsHead | transfer.go:1520-1582 | in every run, a resend of the oldest pending item writes it as the head under its number, with its frames and the contract it was debited to; a resend of any other item writes what was written before; only that item's timer changes |
| TransferProgress.AckIsKept | transfer.go:1459-1471 | in every run, an ack of a pending item waits in the window until it is applied, itself or under a head that covers it, and any other ack is dropped |
| TransferProgress.AcksAreApplied | transfer.go:1479-1494 | in every run, applying the acks calls back exactly the pending items up to the head of the window, oldest first, moves the timers of the selectively acked ones and changes nothing else |
| TransferProgress.OldestCanBeAcknowledged | transfer.go:1495-1582 | from every world of every run with a pack pending, a resend, a new receiver without state, one arrival and one exchange of acks are enabled one after the other and lead to a world where the oldest pack is delivered and no longer pending |
| TransferSystem.StepKeeps | transfer.go:1472-1660 | every event of the sender, the network and the receivers keeps the system invariant |
| TransferSystem.RunKeeps | transfer.go:1472-1660 | the system invariant holds in every world of every run |
| SendSafety.AckThroughKeeps | transfer.go:2099-2125 | a cumulative ack keeps the sender's invariant and "Missing item" is not reached |
| SendSafety.ReceiveAckKeeps | transfer.go:2070-2091 | an ack, selective or not, keeps the invariant; a selective one drops no item |
| SendSafety.ResendKeeps | transfer.go:1495-1582 | a resend, with the promotion to head, keeps the invariant; neither the missing item nor the missing contract is reached |
| SendProgress.OldestGoesOutAsHead | transfer.go:1520-1582 | from the invariant, the oldest item goes out as the head with its number, frames and contract and any other item as it was |
| SendProgress.SentExactlyWhenItFits | transfer.go:1619-1642 | from the invariant, how the step with one pack ends and what it writes, in both directions |
| SendProgress.AckThroughIsExact | transfer.go:2099-2125 | a cumulative ack takes off exactly the pending items up to its number, from the list and from the queue, and calls them back oldest first |
| SendProgress.AckIsExact | transfer.go:2070-2130 | an ack of a pending item is exact: the items up to it, or only its timer when selective; any other ack changes nothing |
| SendSafety.HeadHasContract | transfer.go:2005-2016 | the contract of a pending item that needs one attached is open |
| SendSteps.SendNextKeeps | transfer.go:1619-1642 | taking one pack from the channel, with any contracts handed out, keeps the invariant and reserves nothing beyond it |
| SendSteps.SetContractKeeps | transfer.go:1807-1821 | switching contracts closes the idle one and keeps every other account |
| SendContracts.TakesFirstFit | transfer.go:1682-1710 | offered contracts are taken one after another until the first that holds the message beside its own pack; those before it become known and are not used |
| SendContracts.EffectiveIsFraction | transfer.go:3396-3396 | the sender uses the fill fraction of a contract, rounded down |
| SendContracts.TooLargeIsExactFromMinimum | transfer.go:1682-1688 | a message that is not refused as too large fits a standard contract if and only if it has the minimum of bytes or the contract holds the minimum twice; one that fits is never refused |
| SendContracts.SmallMessageFitsNothing | transfer.go:1682-1710 | an empty message that is not refused and fits no standard contract |
| SendContracts.SendNextMarks | transfer.go:1807-1827 | whatever one pack from the channel leads to, the current contract is marked if its first pack is acknowledged |
| SendContracts.SendNextNoIdle | transfer.go:1807-1816 | and no contract but the current one is open without unacked bytes |
| SendSteps.SendAckKeeps | transfer.go:1837-1975 | numbering a pack and joining it to the pending items keeps the invariant |
| SendSteps.SendNoAckKeeps | transfer.go:1973-1983 | a no-ack pack is settled at once, or its charge stays as that of a failed write |
| SendCallbacks.SendNextConserves | transfer.go:1619-1642 | no step of the run loop calls a callback twice or forgets it, except the too-large panic |
| SendCallbacks.AckThroughConserves | transfer.go:2099-2125 | a cumulative ack turns each pending item into exactly one call of its callback |
| SendCallbacks.ExitConserves | transfer.go:1419-1435 | draining the resend queue in heap order calls back exactly the pending items |
| SendCallbacks.CloseConserves | transfer.go:2183-2213 | closing the channel calls back exactly the packs in it |
| SendCallbacks.LostExactlyWhenTooLarge | transfer.go:1684-1687 | a pack loses its callback if and only if it does not fit the current contract nor a standard one |
| SendCallbacks.TooLargeIsLost | transfer.go:1684-1687 | a concrete pack that panics the run loop and is never called back |
| SendSequence.SendSequence.SendWithSetContract | transfer.go:1837-1983 | the object's new state is that of the modelled step, for acked and no-ack packs |
| SendSequence.SendSequence.UpdateContract | transfer.go:1666-1743 | debits the current contract, panics on a message that fits none, or takes contracts until one is set |
| SendSequence.SendSequence.TakeContracts | transfer.go:1766-1795 | the loop over offered contracts stops at the first that is new and fits, closing those that do not |
| SendSequence.SendSequence.SetContract | transfer.go:1807-1821 | closes an idle current contract and makes the next one current and not yet acked |
| SendSequence.SendSequence.AckItem | transfer.go:2132-2153 | settles the item's contract, closes it when it is no longer current and has nothing unacked, and calls back |
| SendSequence.SendSequence.Resend | transfer.go:1520-1582 | the oldest item goes out as head with its contract, any other item as it was |
| SendSequence.SendSequence.ReceiveAck | transfer.go:2070-2130 | a selective ack only moves the timer; a cumulative one acknowledges every pending item up to it |
| SendSequence.SendSequence.AckThrough | transfer.go:2099-2125 | the loop over pending items acknowledges them oldest first and stops at the first later one |
| SendSequence.SendSequence.SendNext | transfer.go:1626-1642 | one pack from the channel is sent, or fails with the sequence |
| SendSequence.SendSequence.Exit | transfer.go:1419-1435 | closes the open contracts and fails every pending item |
| SendSequence.SendSequence.Close | transfer.go:2183-2213 | fails every pack left in the channel |
| ReceiveSafety.ConsumeKeeps | transfer.go:3036-3069 | the pack at the head of the sequence is delivered, acked and charged as the sender charged it |
| ReceiveSafety.SameContract | transfer.go:3071-3127 | after registering a pack's contract frame the current contract is the one the sender debited for that pack |
| ReceiveSafety.CheckPasses | transfer.go:3166-3183 | without no-ack charges the receiver's debit fits whenever the sender's did |
| ReceiveSteps.ReceiveKeeps | transfer.go:2853-2965 | any pack that was ever on the wire, at any time, keeps the receiver's invariant |
| ReceiveSteps.DrainKeeps | transfer.go:2718-2770 | draining the queue keeps the receiver's invariant |
| ReceiveSteps.EvictKeeps | transfer.go:2947-2956 | eviction ends, removes only later items, and stops only when the new item fits or is itself the last |
| ReceiveSteps.ReceiveBounded | transfer.go:2936-2965 | the bound holds after every receive and only items at or after the pack's number leave the queue |
| ReceiveAnswers.RoomIsExact | transfer.go:2936-2958 | there is room for a pack if and only if it fits beside the earlier items |
| ReceiveAnswers.EvictsTheLatest | transfer.go:2947-2956 | what is evicted is later than what stays, and one of the evicted had no room |
| ReceiveAnswers.InTurnIsDelivered | transfer.go:2896-2916 | a pack in turn is the new last delivery, is acknowledged, and leaves nothing queued under its number |
| ReceiveAnswers.PastIsAcked | transfer.go:2926-2934 | a pack below the next number is acknowledged again and not delivered |
| ReceiveAnswers.AheadIsQueued | transfer.go:2936-2965 | a pack ahead is queued in its newest version and acknowledged selectively exactly when there is room |
| ReceiveAnswers.UnnamedNoAck | transfer.go:2990-2993 | a no-ack pack that names no contract is dropped, or handed on under the current contract where that is allowed |
| ReceiveCharges.OpensAtTheEnd | transfer.go:3129-3164 | a contract that is opened joins the ones opened last; those opened first are closed, and the others stay as they are |
| ReceiveCharges.ConsumeCharges | transfer.go:3166-3183 | consuming a pack keeps the used bytes of every open contract exactly those of its deliveries |
| ReceiveSteps.NackKeeps | transfer.go:2968-3034 | a no-ack pack leaves numbers, queue and acked accounting alone |
| ReceiveSequence.ReceiveSequence.Receive | transfer.go:2853-2965 | jump to a head ahead, replacement of older versions, delivery, resent ack or queueing, as modelled |
| ReceiveSequence.ReceiveSequence.EvictForSpace | transfer.go:2936-2956 | the loop over the byte total and the last item removes exactly the modelled items |
| ReceiveSequence.ReceiveSequence.Enqueue | transfer.go:2936-2965 | queues and acks selectively when it fits, drops otherwise |
| ReceiveSequence.ReceiveSequence.DrainFirst | transfer.go:2728-2767 | consumes the first item, or acks it again when it is already behind |
| ReceiveSequence.ReceiveSequence.ReceiveNack | transfer.go:2968-3034 | delivers on arrival, or drops without a contract |
| ReceiveSequence.ReceiveSequence.SetContract | transfer.go:3129-3164 | keeps, switches to or opens a contract and closes the oldest beyond the limit, never the current one |
| AckWindow.HeadCoversEveryAck | transfer.go:3298-3318 | coalescing loses no cumulative ack, from any state of the window: the head was given, never moves back and covers every one that was given; selective acks stay or are covered |
| AckWindow.SnapshotEmitsEveryAck | transfer.go:3298-3350 | over any number of rounds, a resetting snapshot emits a head that covers every non-selective ack of its round and of all rounds before |
| AckWindow.EveryAckIsAnswered | transfer.go:3298-3350 | every ack given in a round is on the wire after it, itself when selective or a head that covers it |
| AckWindow.OnlyNewsIsEmitted | transfer.go:3298-3350 | and nothing else: the head if and only if some ack of the round was cumulative or behind the head of earlier rounds, and a selective ack only if it was given in the round and no emitted head covers it |
| AckWindow.SequenceAckWindow.Update | transfer.go:3298-3318 | one ack moves the head, joins the selective acks, or asks for the head to be sent again |
| AckWindow.SequenceAckWindow.Snapshot | transfer.go:3320-3350 | hands on the head and only the selective acks after it; a reset keeps the head |
| TransferTypes.SequenceContract.Update | transfer.go:3405-3438 | a debit succeeds exactly when it fits, never exceeds the effective size, and adds the larger of message and minimum to the unacked bytes |
| TransferTypes.SequenceContract.Acked | transfer.go:3440-3450 | an ack panics exactly when too little is unacked, and otherwise moves the charge of its debit to the acked bytes and keeps the total |
| TransferTypes.Charge | transfer.go:3405-3406 | the larger of the message and the minimum |
| PayloadBytes.PendingIsCharged | transfer.go:3405-3433 | the message bytes of the pending items on a contract are at most their charges |
| PayloadBytes.LogIsCharged | transfer.go:3405-3433 | the message bytes of all packs debited to a contract are at most their charges |
| ReceiveBuffer.RunKeeps | transfer.go:2321-2384 | over every run of arrivals, retries and late ends both maps describe the same sequences, one for each source, and neither "head sequence" panic is reached |
| ReceiveBuffer.NewestStays | transfer.go:2337-2355 | while it is not ended, the registered sequence of a source is the newest of all that arrived |
| ReceiveBuffer.OlderIsDropped | transfer.go:2338-2343 | at any time while a newer sequence is registered, a pack of an older one is dropped and changes nothing |
| ReceiveBuffer.InitIsExact | transfer.go:2321-2384 | a pack goes to the sequence registered for its id unless that one just refused it; a sequence is started exactly for an id that is newer than the registered one or refused by it, is then the registered one, and cancels the one it replaces; other sources are not touched |
| ReceiveBuffer.LateEndIsHarmless | transfer.go:2370-2380 | the end of the registered sequence of a source removes it, and that of any other sequence removes nothing |
| ReceiveBuffer.ReceiveBuffer.InitReceiveSequence | transfer.go:2321-2384 | returns the registered sequence, starts one, or drops the pack, and cancels exactly the one it replaces; every sequence that is not registered was canceled or has ended |
| ReceiveBuffer.ReceiveBuffer.End | transfer.go:2370-2380 | removes the sequence from both maps only if it is still the registered one |
| BinaryHeap.RootIsLeast | transfer_queue.go:213-246 | the first item of a heap is a least one |
| BinaryHeap.DownIteration | transfer_queue.go:213-246 | one round of sifting down stops with a heap but for the edge above, or moves the defect to the smaller child |
| BinaryHeap.Heap.Remove | transfer_queue.go:213-246 | takes out the item at any position and keeps the heap and every stored position |
| BinaryHeap.Heap.Push | transfer_queue.go:213-246 | adds an item and keeps the heap and every stored position |
| BinaryHeap.Heap.Update | transport_pt_queue.go:147-154 | an item that changes in place finds its new place |
| TransferQueue.TransferQueue.Add | transfer_queue.go:94-103 | with an absent id and number, both heaps, both maps and the byte total go on describing one set, which gains the item |
| TransferQueue.TransferQueue.RemoveByMessageId | transfer_queue.go:116-126 | removes the item with the id if there is one, from all five views |
| TransferQueue.TransferQueue.RemoveBySequenceNumber | transfer_queue.go:128-138 | removes the item with the number if there is one, from all five views |
| TransferQueue.TransferQueue.RemoveItem | transfer_queue.go:164-174 | "Heap invariant broken" is not reached |
| TransferQueue.TransferQueue.RemoveFirst | transfer_queue.go:176-191 | removes a least item under the comparison |
| TransferQueue.TransferQueue.PeekFirst | transfer_queue.go:193-202 | a least item of the whole set, or none when it is empty |
| TransferQueue.TransferQueue.PeekLast | transfer_queue.go:204-209 | a greatest item of the whole set, although the max heap's comparison is not strict |
| MapSum.SumRemove | transfer_queue.go:164-174 | the byte total does not depend on the order of removal |
| PumpQueue.PumpQueue.Add | transport_pt_queue.go:285-313 | refuses exactly at a limit; otherwise the global heap and the max heap of the address gain the stamped item and the partition stays exact |
| PumpQueue.PumpQueue.RemoveLast | transport_pt_queue.go:227-242 | a newest item of the address leaves both heaps; nil is dereferenced only with a limit of zero or less |
| PumpQueue.PumpQueue.RemoveLastN | transport_pt_queue.go:244-267 | the n newest items of the address, newest first, or nothing changes |
| PumpQueue.PumpQueue.RemoveOlder | transport_pt_queue.go:269-283 | removes exactly the items older than the time |
| PumpQueue.NewestFirstDescends | transport_pt_queue.go:257-266 | the items of RemoveLastN are distinct, in descending order, and nothing left behind is newer |
| PumpQueue.AddThenRemove | transport_pt_queue.go:285-306 | asking for the host just added fails exactly when there is room but the limit of an address is zero or less |
| RttWindow.RttWindow.CloseTag | transfer_rtt.go:98-124 | the heap goes on holding exactly the samples of the ring and their sum; only samples that are older than the window or in the slot at the head leave, and in order of time exactly those; a tag from the future is ignored |
| RttWindow.RttWindow.Coalesce | transfer_rtt.go:70-81 | only samples older than the window leave, and when times do not decrease at most the one at the head is older |
| RttWindow.RttWindow.ScaledRtt | transfer_rtt.go:131-147 | the scaled mean of the samples that are left when it is within the bounds, otherwise the bound it passes; the maximum wins when the bounds are not in order |
| RttWindow.RttWindow.MeanRtt | transfer_rtt.go:183-189 | the mean of the samples in the ring, rounded down |
| RttWindow.RttWindow.MinRtt | transfer_rtt.go:174-181 | the time in the last slot of the heap, which is the least if and only if it ties with the first; when one sample is faster than all others it is found if and only if it is alone |
| RttWindow.LastOfTwoIsGreater | transfer_rtt.go:174-181 | with two samples of different times it is the greater |
| RttWindow.AdvanceTail | transfer_rtt.go:77-79 | advancing the tail keeps the filled slots a circular run, plus possibly the slot at the head, in order of time |
| RttWindow.PutHead | transfer_rtt.go:116-123 | so does putting a sample at the head, with the tail pushed on when the ring is full |
| BaseEncoding.DecodeEncode | transport_pt_codec.go:29-57 | decoding an encoded text gives the bytes back, for base32, base32hex and base64 without padding |
| BaseEncoding.EncodeConcat | transport_pt_codec.go:204-206 | a header whose bits fill whole characters can be encoded apart from the data |
| BaseEncoding.EncodingIsTheNumber | transport_pt_codec.go:29-57 | an encoded text spells the bytes, read as one number with the first the most significant and shifted by less than a group of zero bits, in the letters of the alphabet (sections 4, 6 and 7 of RFC 4648) |
| BaseEncoding.CharIsLetter | transport_pt_codec.go:180-181 | each group of bits has the letter of tables 1, 3 and 4 of RFC 4648 |
| BaseEncoding.ValueIsLetter | transport_pt_codec.go:253-254 | no other character is accepted |
| DnsCodec.EncodeRequest | transport_pt_codec.go:28-92 | the number of bytes consumed, the data name in labels of 30 bytes, and the pump name; a slice panic exactly for a domain longer than 139, and an error exactly when the domain is not in good labels or the name has more than 254 characters |
| DnsCodec.DecodeRequest | transport_pt_codec.go:94-161 | the loops over questions, domains and labels compute the modelled decoding, with its errors |
| DnsCodec.RequestRoundTrip | transport_pt_codec.go:28-161 | header and chunk come back from the questions and the pump question is ignored; the library packs the names if and only if the first has at most 254 characters and the domain is in good labels |
| DnsCodec.RequestNamePacks | transport_pt_codec.go:45-69 | with the length of a name kept in one byte, a request name is packed if and only if it has at most 254 characters and the domain is in good labels |
| DnsCodec.MatchesItsOwnExactly | transport_pt_codec.go:116-125 | every name that ends with a dot and one of the domains matches that domain, if and only if no domain lies under another |
| DnsCodec.EndsWithIsExact | transport_pt_codec.go:116-125 | a name lies under a domain if and only if it is the domain after something that ends in a dot |
| DnsCodec.MatchIsFirst | transport_pt_codec.go:116-125 | the first domain in the list under which the name lies is the one that is taken |
| DnsCodec.DecodeOverruns | transport_pt_codec.go:130-147 | labels that carry more than 1024 bytes in all are an error |
| DnsCodec.DecodeLabelsOf | transport_pt_codec.go:130-147 | labels that carry up to 1024 bytes give them back, also after other data when the first label has more than 18 |
| DnsCodec.LastQuestionDecides | transport_pt_codec.go:110-155 | a decoded request has the domain of its last text question, none when that is unknown, and tells exactly whether there were other questions |
| DnsCodec.NestedDomainsConfuse | transport_pt_codec.go:116-125 | with one domain under another a name can be taken for the shorter one |
| DnsCodec.LabelLimit | transport_pt_codec.go:45-57 | every label has at most 63 characters |
| DnsCodec.FullNameFits | transport_pt_codec.go:45-60 | a name with a full chunk has at most 254 characters if and only if the domain has at least six |
| DnsCodec.NameFits | transport_pt_codec.go:45-60 | with such a domain every name fits |
| DnsResponse.EncodeResponse | transport_pt_codec.go:179-250 | the number of bytes consumed and the one or two answers; a slice panic exactly for a domain longer than 173, and otherwise an error exactly for one that is not in good labels |
| DnsResponse.DecodeResponse | transport_pt_codec.go:252-329 | the loops over answers and texts compute the modelled decoding, with its errors |
| DnsResponse.ResponseRoundTrip | transport_pt_codec.go:179-329 | pump header, header and chunk come back from the answers |
| DnsResponse.NameSetsPump | transport_pt_codec.go:293-303 | the name of an answer sets the pump header from its start, and more than 18 bytes are an error |
| DnsResponse.AnswerRoundTrip | transport_pt_codec.go:305-318 | a text appends its data up to 1024 bytes in all, and more is an error |
| DnsResponse.ForeignAnswerIsSkipped | transport_pt_codec.go:279-292 | an answer under no known domain is skipped |
| DnsResponse.ResponseNamesPack | transport_pt_codec.go:194-216 | the names of the answers are packed if and only if the domain is in good labels |
| DnsResponse.TextsFit | transport_pt_codec.go:202-247 | every text has at most 255 characters |
| DnsFragments.WriteRequests | transport_pt.go:213-274 | with a domain shorter than 139 whose first name fits, the estimated number of passes consumes exactly all bytes, and request i carries chunk i under the header with index i; when it does not fit nothing is written and the error is returned; with a longer domain nothing is written and the end is the panic, the error or, for no bytes, success |
| DnsFragments.SixFit | transport_pt_codec.go:45-69 | with good labels, every packet fits a domain of six characters or more, and no packet that fills a request fits a shorter one |
| DnsFragments.ShortDomainIsRefused | transport_pt_codec.go:45-69 | a domain of five characters carries 133 bytes and refuses 134 |
| DnsFragments.EncodeRequestCount | transport_pt_codec.go:15-25 | the estimate for any domain, with the division by zero at 139 and the truncated division by a negative room beyond |
| DnsFragments.WriteResponses | transport_pt.go:357-458 | so does the estimate from the longest domain when each response may use a shorter one; the first domain without room for a text is a panic, and the first that is not in good labels an error |
| DnsFragments.LongestTld | transport_pt.go:363-368 | a longest of the domains |
| DnsFragments.ChunksHoldThePacket | transport_pt.go:224-272 | the chunks joined in order are the packet |
| DnsRoundTrip.RequestsReassemble | transport_pt_queue.go:66-157 | in any order, with repeats, other keys, limits and expiry, whatever comes out for the key of a packet is the packet, and it comes out once all requests have arrived undisturbed, if and only if the packet is not empty, its first name fits and there are at most 255 requests |
| DnsRoundTrip.ResponsesReassemble | transport_pt_queue.go:66-157 | the same for answers under domains of several lengths, if and only if the packet is not empty and there are at most 255 answers |
| DnsRoundTrip.ManyRequestsNeverGiveThePacket | transport_pt.go:225-232 | with more than 255 requests nothing that comes out for their key is the packet |
| DnsRoundTrip.ManyResponsesNeverGiveThePacket | transport_pt.go:407-426 | nor with more than 255 answers, when as many of them as the wrapped count says cannot hold the packet |
| DnsRoundTrip.FirstFragmentComesOut | transport_pt.go:225-232 | of 257 requests the first alone comes out as the packet |
| DnsRoundTrip.MixedCutsCorrupt | transport_pt.go:218-223 | two cuts of one packet under one key combine to something that is not the packet |
| DnsRoundTrip.TwoCutsReassemble | transport_pt_queue.go:110-133 | fragments of two cuts under one key, in any mix and order, always give the packet if and only if the cuts are one |
| DnsRoundTrip.OneCut | transport_pt_codec.go:15-25 | two domains that need the same number of requests cut the packet alike if and only if they have one length or one request is enough |
| DnsRoundTrip.CutsAgree | transport_pt.go:376-426 | two lists of sizes cut a packet alike if and only if they differ in no piece that ends before the packet |
| DnsRoundTrip.TwoDomainsReassemble | transport_pt.go:213-274 | so a packet written twice under two such domains always comes back if and only if they have one length or one request holds it |
| DnsRoundTrip.TwoAnswersReassemble | transport_pt.go:376-426 | two answers to one packet, each under its own pump items, always give it in any mix if and only if the domains of each two differ in length only after its end |
| CombineModel.OutputsAreThePacket | transport_pt_queue.go:110-133 | every output for a key is the join of its chunks |
| CombineModel.AllIndicesOutput | transport_pt_queue.go:97-157 | once all indices have arrived, with no refusal and no expiry, there is an output |
| CombineModel.MergeCounts | transport_pt_queue.go:135-152 | exact counts stay exact if and only if the fragment does not complete a packet that another address began |
| CombineModel.StepBounded | transport_pt_queue.go:77-88 | no event takes the queue or an address beyond its limit |
| CombineModel.CountsAreExact | transport_pt_queue.go:52-157 | over a whole run, with expiry, every count is the number of partial packets of its address throughout, if and only if no fragment ever completes a packet that another address began |
| CombineModel.OneAddressCounts | transport_pt_queue.go:52-157 | with one address for each key the counts are exact in the whole run |
| CombineModel.TwoAddressesLeaveACount | transport_pt_queue.go:140-145 | with two addresses on one key the first keeps a count without an item |
| CombineQueue.CombineQueue.Combine | transport_pt_queue.go:66-157 | the heap, the map and the counts compute the modelled step; a new key is refused exactly when its address or the queue is at its limit, so neither goes beyond it; a stored fragment is in its slot with the time of its arrival; exact counts stay exact on that condition |
| CombineQueue.CombineQueue.RemoveOlder | transport_pt_queue.go:52-64 | forgets exactly the partial packets that were not updated since the time, one by one with their counts, so exact counts stay exact |
| RouteMatch.MatchState.OpenMultiRouteSelector | transfer_route_manager.go:202-227 | the new selector has exactly the registered transports that match, with their routes; the nil-map branch is not reached; known routes stay those of the tables |
| RouteMatch.MatchState.CloseMultiRouteSelector | transfer_route_manager.go:229-246 | every other selector stays as it is |
| RouteMatch.MatchState.UpdateTransport | transfer_route_manager.go:248-287 | each open selector gets the routes if it matches now and loses the transport if not, so exact tables stay exact; its known routes stay those of its table if and only if no other of its transports has a route that is given up |
| RouteMatch.ExactAfter | transfer_route_manager.go:270-282 | the plain definition of a table is kept by an update |
| RouteSelector.ActiveKeys | transfer_route_manager.go:369-408 | the keys of routeActive stay exactly the routes of the table if and only if no other transport has a route that is given up |
| RouteSelector.WithRoutesIsExact | transfer_route_manager.go:367-410 | a transport is in the table with its routes, without any it is not, and the others stay as they are |
| RouteSelector.MultiRouteSelector.UpdateTransport | transfer_route_manager.go:350-415 | routes that are gone are forgotten, new ones are active, and the rest keep their state; the known routes stay exact on that condition |
| RouteSelector.MultiRouteSelector.SetActive | transfer_route_manager.go:531-538 | a known route gets the state that is asked for if and only if that is inactive; no other route changes and none becomes known |
| RouteSelector.SharedRouteIsLost | transfer_route_manager.go:369-376 | removing one of two transports that share a route hides the route of the other |
| MessagePool.MessagePool.Take | message_pool.go:91-107 | Get pops the buffer on top of the stack, or makes a new one exactly when the stack is empty; it is held by nobody and what is below stays |
| MessagePool.MessagePool.Mark | message_pool.go:350-367 | "already taken" is not reached in any interleaving |
| MessagePool.MessagePool.Share | message_pool.go:424-437 | below 65536 holders the count stays the number of holders |
| MessagePool.MessagePool.Release | message_pool.go:376-406 | answers true exactly at the last holder's return |
| MessagePool.MessagePool.Put | message_pool.go:109-119 | the returned buffer goes on the stack, or is dropped when it is full |
| MessagePool.MessagePool.Resize | message_pool.go:65-73 | keeps the bottom of the stack and every count |
| MessagePool.MessagePool.PooledIsFree | message_pool.go:91-119 | no buffer is on the stack twice, and what is on it has count 0 and no holder |
| MessagePool.ShareThenRelease | message_pool.go:376-437 | exactly the last of n returns answers true if n is below 65536, and none does otherwise |
| MessagePool.TakeTurns | message_pool.go:376-437 | under any interleaving of shares and returns of one buffer by its holders, a return answers true if and only if it is that of the last holder and there never were 65536 |
| TlsRecords.ParseSerialize | net_resilient.go:315-330 | a parser finds the records again in their bytes, and leaves incomplete bytes after them |
| TlsRecords.WireLayout | net_resilient.go:315-330 | a record is one byte of type, two of version and two of length, big-endian, and the content (section 5.1 of RFC 8446) |
| TlsRecords.FirstRecordWire | net_resilient.go:323-330 | reconstructing a parsed record gives its bytes back |
| ResilientTls.RecordEndIsExact | net_resilient.go:270 | the 16-bit end of a record is its end if and only if its length is at most 65530 |
| ResilientTls.ResilientTlsConn.Write | net_resilient.go:125-278 | for any chunking the result and the buffer are those of the rounds; the records before the first that is not writable are carried in order, and unless that one misaligns the rounds the buffer is exactly the rest of the input |
| ResilientTls.FirstBadDecides | net_resilient.go:125-278 | the first record that is not writable decides the end for every input: none leaves the incomplete rest, a handshake panics, a length of 65531 loops, and a greater one goes on inside the record |
| ResilientTls.MisalignedRecordStays | net_resilient.go:257-270 | a whole record of 65532 zero bytes whose last four stay in the buffer |
| ResilientTls.ResilientTlsConn.OffLosesTheBuffer | net_resilient.go:120-126 | after the splitter is off, the wire goes on with all of the input if and only if the buffer is empty, that is, the input had stopped between records |
| ResilientTls.ResilientTlsConn.WriteFragments | net_resilient.go:182-196 | the emitted records are the content cut at the drawn split and then in the drawn steps up to the end of the name, in order under the same type and version with correct lengths, and none is empty exactly when the name does not end the message |
| ResilientTls.TooShortHasNoDraw | net_resilient.go:140-141 | the name is too short to split exactly when no split and step can be drawn; the source panics in these cases |
| ResilientTls.NameStaysWhole | net_resilient.go:140-141 | some piece holds the whole server name if and only if it is cut at its start with a step of its length |
| ResilientTls.ShortNameCanStayWhole | net_resilient.go:140-141 | draws that leave a name of two bytes in one piece |
| ResilientTls.ResilientTlsConn.WriteBlocks | net_resilient.go:198-223 | reordering writes the bytes of the record unchanged, in blocks |
| ResilientTls.ResilientTlsConn.StreamPreserved | net_resilient.go:125-278 | between writes a receiver parses from the wire, record by record, the content of the input's whole records, and nothing else is on the wire; a ClientHello with a server name is cut when fragmenting, and every other record is one record |

## Left out

* Sockets, websockets, QUIC, HTTP strategies, extenders, the user-space network stack and the multi-client window: library
  plumbing and heuristics without a law to prove.
* Protobuf, DNS wire packing, HMAC and content hashing: messages are values, a DNS question is its name, verification is
  assumed to succeed (a failed one ends the receive sequence, which the model allows at any time), and content keys do
  not collide. Marshalling never fails, so `setHead` returns no error.
* Liveness: nothing says that an ack, a resend or a cleanup happens, only that the events that free the oldest pack can.
* Peers without contracts, changes of that mode, and no-ack packs in the agreement of charges, since the receiver does not
  recognise a repeated no-ack pack.
* Sequence numbers wrap at 64 bits in the program and do not in the model.
* The contract fill fraction and the round-trip-time scale are a fraction of integers and an arbitrary function, without
  floating-point rounding.
* The timeouts that end a sequence are the free choice of its exit, and the limit on the bytes in the resend queue, which
  only delays taking the next pack, is the free choice of that event; the contents of tags are not modelled.
* The two tries of `ReceiveBuffer.Pack` are two arrivals, the second with the sequence that refused the pack to skip.
* The resend and the receive queue of the sequence classes are their maps by message id, with a byte total on the receiving
  side; the heaps over the same items are proved in `TransferQueue`. On the receiving side the first and the last item are
  unique, so the choice is the heap's (`TransferTheorems.QueueEndsAreUnique`); which item is resent first is the free choice
  of an event.
* What the rounds of the TLS splitter put on the wire once they go on inside a record: only their result and the buffer.
* A response is written for domains shorter than 333 characters, beyond which the estimate has no room to divide by.
* A sequence contract is a value in the map of open contracts; the program shares a pointer with the current contract. The
  pending items are cut off one at a time where the program cuts the slice once at the end.
* The order in which contracts close and in which Go iterates maps.
* Contract queues of the contract manager, creation requests and peer audits.
* A heap keeps the stored position of each item in a map from the item; the program keeps it in the item.
* Route weights, route statistics and the shuffles over active routes.
* Two pools by size, tags and statistics of the message pool, and slices that were never pooled: one pool is modelled.
* Socket time to live, write errors of the TLS connection, and the parsing of a ClientHello, which gives any offsets in
  range.
* Decoding base32 or base64 texts of lengths that no encoder makes, where the library drops a different number of bits.
