/** From a packet through fragments, names or texts, and the combine queue, back to the packet. */
module DnsRoundTrip {
  import opened Basics
  import opened CombineModel
  import opened DnsCodec
  import opened DnsFragments
  import opened DnsResponse
  import opened Options

  function FragmentKey(address: ContentAddress, count: nat): (key: Key)
    ensures |key| == 17 && key[16] == count % 256
  {
    address + [count % 256]
  }

  lemma HeaderParts(address: ContentAddress, count: nat, k: nat)
    ensures var h, key := FragmentHeader(address, count, k), FragmentKey(address, count);
            KeyOf(h) == key && h[16] == count % 256 && h[17] == k % 256 && h == key + [k % 256]
  {
    assert address + [count % 256, k % 256] == address + [count % 256] + [k % 256];
  }

  /** Whatever comes out for the key is the packet. */
  ghost predicate OnlyThePacket(items: Partials, events: seq<Event>, key: Key, packet: seq<Byte>)
    requires AllWellFormed(items)
  {
    forall n | 0 <= n < |Outputs(items, events, key)| :: Outputs(items, events, key)[n] == packet
  }

  /** One arrival of each piece, in order. */
  function Arrivals(key: Key, pieces: seq<seq<Byte>>): (events: seq<Event>)
    requires |key| == 17 && |pieces| == key[16]
    ensures |events| == |pieces|
    ensures forall k | 0 <= k < |events| :: events[k] == Arrive("", key + [k], pieces[k], 0, false)
  {
    seq(|pieces|, k requires 0 <= k < |pieces| => Arrive("", key + [k], pieces[k], 0, false))
  }

  lemma ArrivalsAreFragments(key: Key, pieces: seq<seq<Byte>>)
    requires |key| == 17 && |pieces| == key[16]
    ensures forall k | 0 <= k < |pieces| ::
              var e := Arrivals(key, pieces)[k];
              IsFragment(e, key) && e.header[17] == k && e.data == pieces[k] && !e.full
  {
    forall k | 0 <= k < |pieces| ensures (key + [k])[..17] == key && (key + [k])[16] == key[16] {
    }
  }

  lemma AllComeOut(items: Partials, key: Key, pieces: seq<seq<Byte>>)
    requires AllWellFormed(items) && key !in items
    requires |key| == 17 && |pieces| == key[16] && 0 < key[16]
    ensures var out := Outputs(items, Arrivals(key, pieces), key); out != [] && out[0] == Flat(pieces)
  {
    var events := Arrivals(key, pieces);
    ArrivalsAreFragments(key, pieces);
    NothingDisturbs(items, events, key);
    forall k: nat | k < key[16] ensures Arrived(events, key, k) {
      assert events[k] in events;
    }
    AllIndicesOutput(items, events, key);
    assert Faithful(events, key, pieces);
    OutputsAreThePacket(items, events, key, pieces, 0);
  }

  lemma {:induction false} NothingDisturbs(items: Partials, events: seq<Event>, key: Key)
    requires AllWellFormed(items) && forall e <- events :: e.Arrive? && !e.full
    ensures Undisturbed(items, events, key)
    decreases |events|
  {
    if events != [] {
      assert events[0] in events;
      NothingDisturbs(Step(items, events[0]).0, events[1..], key);
    }
  }

  // ---- messages

  /** The arrival that a decoded message makes. */
  function Received(d: Decoded, addr: Addr, now: int, full: bool): Event
    requires d.Decoded? && 18 <= |d.data|
  {
    Arrive(addr, d.data[..18], d.data[18..], now, full)
  }

  /** The message carries a header and a chunk. */
  predicate Carries(d: Decoded, header: Header, chunk: seq<Byte>) {
    d.Decoded? && d.data == header + chunk
  }

  ghost predicate AllCarry(decoded: seq<Decoded>, address: ContentAddress, packet: seq<Byte>, sizes: seq<nat>) {
    |decoded| == |sizes| &&
    forall k | 0 <= k < |sizes| :: Carries(decoded[k], FragmentHeader(address, |sizes|, k), Chunk(packet, sizes, k))
  }

  /** The event is the arrival of the decoded message. */
  predicate IsArrival(e: Event, d: Decoded) {
    e.Arrive? && d.Decoded? && 18 <= |d.data| && e == Received(d, e.addr, e.now, e.full)
  }

  lemma ArrivalIs(addr: Addr, header: Header, chunk: seq<Byte>, now: int, full: bool, d: Decoded)
    requires Carries(d, header, chunk)
    ensures IsArrival(Arrive(addr, header, chunk, now, full), d)
  {
  }

  lemma ArrivalBrings(e: Event, d: Decoded, header: Header, chunk: seq<Byte>)
    requires IsArrival(e, d) && Carries(d, header, chunk)
    ensures e.header == header && e.data == chunk
  {
  }

  /** The fragments of the key among the events are arrivals of the messages. */
  ghost predicate ArrivalsOf(events: seq<Event>, key: Key, decoded: seq<Decoded>) {
    forall e <- events :: IsFragment(e, key) ==> exists d <- decoded :: IsArrival(e, d)
  }

  /** Every message has arrived at least once. */
  ghost predicate AllArrive(events: seq<Event>, decoded: seq<Decoded>) {
    forall d <- decoded :: exists e <- events :: IsArrival(e, d)
  }

  /**
   Whatever messages arrive in whatever order, again and again and among other keys, what comes out for the
   key is the packet, and it does come out once all have arrived undisturbed.
   */
  ghost predicate ComesBack(items: Partials, decoded: seq<Decoded>, key: Key, packet: seq<Byte>)
    requires AllWellFormed(items)
  {
    forall events | ArrivalsOf(events, key, decoded) ::
      && OnlyThePacket(items, events, key, packet)
      && (Undisturbed(items, events, key) && AllArrive(events, decoded) ==> Outputs(items, events, key) != [])
  }

  /** What the arrival of message k brings. */
  lemma MessageAt(
      packet: seq<Byte>, sizes: seq<nat>, address: ContentAddress, decoded: seq<Decoded>, e: Event, k: nat)
    requires AllCarry(decoded, address, packet, sizes) && k < |sizes| && IsArrival(e, decoded[k])
    ensures KeyOf(e.header) == FragmentKey(address, |sizes|)
    ensures e.header[16] == |sizes| % 256 && e.header[17] == k % 256 && e.data == Chunk(packet, sizes, k)
  {
    ArrivalBrings(e, decoded[k], FragmentHeader(address, |sizes|, k), Chunk(packet, sizes, k));
    HeaderParts(address, |sizes|, k);
  }

  lemma ArrivedChunk(
      packet: seq<Byte>, sizes: seq<nat>, address: ContentAddress, decoded: seq<Decoded>, e: Event, d: Decoded)
    requires |sizes| <= 255 && AllCarry(decoded, address, packet, sizes) && d in decoded && IsArrival(e, d)
    ensures e.header[17] < |sizes| && e.data == Chunk(packet, sizes, e.header[17])
  {
    var k :| 0 <= k < |decoded| && decoded[k] == d;
    MessageAt(packet, sizes, address, decoded, e, k);
  }

  lemma IndexArrived(
      packet: seq<Byte>, sizes: seq<nat>, address: ContentAddress, decoded: seq<Decoded>, events: seq<Event>, k: nat)
    requires k < |sizes| <= 255 && AllCarry(decoded, address, packet, sizes) && AllArrive(events, decoded)
    ensures Arrived(events, FragmentKey(address, |sizes|), k)
  {
    assert decoded[k] in decoded;
    var e :| e in events && IsArrival(e, decoded[k]);
    MessageAt(packet, sizes, address, decoded, e, k);
  }

  /** Up to 255 messages give the packet back from any arrivals. */
  lemma FewComeBack(
      packet: seq<Byte>, sizes: seq<nat>, address: ContentAddress, decoded: seq<Decoded>,
      items: Partials, events: seq<Event>)
    requires 0 < |sizes| <= 255 && Flat(Chunks(packet, sizes)) == packet && AllCarry(decoded, address, packet, sizes)
    requires AllWellFormed(items) && FragmentKey(address, |sizes|) !in items
    requires ArrivalsOf(events, FragmentKey(address, |sizes|), decoded)
    ensures var key := FragmentKey(address, |sizes|);
            && OnlyThePacket(items, events, key, packet)
            && (Undisturbed(items, events, key) && AllArrive(events, decoded) ==> Outputs(items, events, key) != [])
  {
    var key, chunks := FragmentKey(address, |sizes|), Chunks(packet, sizes);
    forall e | e in events && IsFragment(e, key) ensures e.data == chunks[e.header[17]] {
      var d :| d in decoded && IsArrival(e, d);
      ArrivedChunk(packet, sizes, address, decoded, e, d);
    }
    assert Faithful(events, key, chunks);
    forall n | 0 <= n < |Outputs(items, events, key)| ensures Outputs(items, events, key)[n] == packet {
      OutputsAreThePacket(items, events, key, chunks, n);
    }
    if Undisturbed(items, events, key) && AllArrive(events, decoded) {
      forall k: nat | k < |sizes| ensures Arrived(events, key, k) {
        IndexArrived(packet, sizes, address, decoded, events, k);
      }
      AllIndicesOutput(items, events, key);
    }
  }

  // ---- more messages than one byte counts

  /** Under a count of zero every index is bad. */
  lemma {:induction false} ZeroCountIsSilent(items: Partials, events: seq<Event>, key: Key)
    requires AllWellFormed(items) && |key| == 17 && key[16] == 0
    ensures Outputs(items, events, key) == []
    decreases |events|
  {
    if events != [] {
      ZeroCountIsSilent(Step(items, events[0]).0, events[1..], key);
    }
  }

  /** One arrival of each message. */
  function ReceivedAll(decoded: seq<Decoded>): (events: seq<Event>)
    requires forall k | 0 <= k < |decoded| :: decoded[k].Decoded? && 18 <= |decoded[k].data|
    ensures |events| == |decoded| && forall k | 0 <= k < |events| :: events[k] == Received(decoded[k], "", 0, false)
  {
    seq(|decoded|, k requires 0 <= k < |decoded| => Received(decoded[k], "", 0, false))
  }

  lemma MultiplesAreSilent(
      packet: seq<Byte>, sizes: seq<nat>, address: ContentAddress, decoded: seq<Decoded>, items: Partials)
    requires |sizes| % 256 == 0 && AllCarry(decoded, address, packet, sizes) && AllWellFormed(items)
    ensures !ComesBack(items, decoded, FragmentKey(address, |sizes|), packet)
  {
    var key := FragmentKey(address, |sizes|);
    forall k | 0 <= k < |decoded| ensures decoded[k].Decoded? && 18 <= |decoded[k].data| {
      assert Carries(decoded[k], FragmentHeader(address, |sizes|, k), Chunk(packet, sizes, k));
    }
    var events := ReceivedAll(decoded);
    forall d | d in decoded ensures exists e <- events :: IsArrival(e, d) {
      var k :| 0 <= k < |decoded| && decoded[k] == d;
      assert events[k] in events && IsArrival(events[k], d);
    }
    assert ArrivalsOf(events, key, decoded);
    NothingDisturbs(items, events, key);
    ZeroCountIsSilent(items, events, key);
  }

  // ---- two cuts of one packet

  lemma {:induction false} FlatConcat(a: seq<seq<Byte>>, b: seq<seq<Byte>>)
    ensures Flat(a + b) == Flat(a) + Flat(b)
  {
    if a == [] {
      assert a + b == b;
    } else {
      assert (a + b)[1..] == a[1..] + b;
      FlatConcat(a[1..], b);
    }
  }

  /** Each piece is taken from one cut or from the other. */
  ghost predicate IsMix(m: seq<seq<Byte>>, a: seq<seq<Byte>>, b: seq<seq<Byte>>) {
    |m| == |a| == |b| && forall i | 0 <= i < |m| :: m[i] == a[i] || m[i] == b[i]
  }

  /** All mixes of two cuts make up the same bytes if and only if the cuts are one. */
  lemma MixesAgree(a: seq<seq<Byte>>, b: seq<seq<Byte>>)
    requires |a| == |b|
    ensures (forall m | IsMix(m, a, b) :: Flat(m) == Flat(a)) <==> a == b
  {
    if a == b {
      forall m | IsMix(m, a, b) ensures m == a {
      }
    } else if forall m | IsMix(m, a, b) :: Flat(m) == Flat(a) {
      forall i | 0 <= i < |a| ensures a[i] == b[i] {
        assert IsMix(a[i := b[i]], a, b);
        PieceIsSame(a, i, b[i]);
      }
    }
  }

  lemma PieceIsSame(a: seq<seq<Byte>>, i: nat, piece: seq<Byte>)
    requires i < |a| && Flat(a[i := piece]) == Flat(a)
    ensures piece == a[i]
  {
    var before, after := a[..i], a[i + 1..];
    FlatAround(before, a[i], after);
    FlatAround(before, piece, after);
    assert a == before + [a[i]] + after && a[i := piece] == before + [piece] + after;
    var n := |Flat(before)|;
    assert (Flat(before) + a[i] + Flat(after))[n..n + |a[i]|] == a[i];
    assert (Flat(before) + piece + Flat(after))[n..n + |piece|] == piece;
  }

  lemma FlatAround(before: seq<seq<Byte>>, piece: seq<Byte>, after: seq<seq<Byte>>)
    ensures Flat(before + [piece] + after) == Flat(before) + piece + Flat(after)
  {
    FlatConcat(before + [piece], after);
    FlatConcat(before, [piece]);
    assert [piece][1..] == [];
  }

  lemma {:induction false} FlatOfEmpty(s: seq<seq<Byte>>)
    ensures Flat(s) == [] <==> forall i | 0 <= i < |s| :: s[i] == []
  {
    if s != [] {
      FlatOfEmpty(s[1..]);
      assert forall i | 0 < i < |s| :: s[i] == s[1..][i - 1];
      if forall i | 0 <= i < |s| :: s[i] == [] {
        assert forall i | 0 <= i < |s| - 1 :: s[1..][i] == s[i + 1];
      }
    }
  }

  /** When the first k pieces hold all, pieces after them are empty, so they are not the first k again. */
  lemma NotTwice(chunks: seq<seq<Byte>>, k: nat, j: nat)
    requires k <= j && j + k <= |chunks| && Flat(chunks) != []
    ensures !(Flat(chunks[..k]) == Flat(chunks) && chunks[..k] == chunks[j..j + k])
  {
    var rest := chunks[k..];
    FlatConcat(chunks[..k], rest);
    assert chunks == chunks[..k] + rest;
    if Flat(chunks[..k]) == Flat(chunks) && chunks[..k] == chunks[j..j + k] {
      assert |Flat(rest)| == 0;
      FlatOfEmpty(rest);
      forall i | 0 <= i < k ensures chunks[..k][i] == [] {
        assert chunks[j..j + k][i] == chunks[j + i] == rest[j + i - k];
      }
      FlatOfEmpty(chunks[..k]);
    }
  }

  /** Piece k of a mix of the chunks with those 256 further on arrives as one of the messages. */
  lemma MixedArrival(
      packet: seq<Byte>, sizes: seq<nat>, address: ContentAddress, decoded: seq<Decoded>, k: nat, piece: seq<Byte>)
    requires AllCarry(decoded, address, packet, sizes) && k < 256 && k + 256 < |sizes|
    requires piece == Chunk(packet, sizes, k) || piece == Chunk(packet, sizes, k + 256)
    ensures exists d <- decoded :: IsArrival(Arrive("", FragmentKey(address, |sizes|) + [k], piece, 0, false), d)
  {
    var i := if piece == Chunk(packet, sizes, k) then k else k + 256;
    assert Carries(decoded[i], FragmentHeader(address, |sizes|, i), Chunk(packet, sizes, i));
    HeaderParts(address, |sizes|, i);
    assert i % 256 == k;
    ArrivalIs("", FragmentHeader(address, |sizes|, i), piece, 0, false, decoded[i]);
    assert decoded[i] in decoded;
  }

  lemma MixPiece(m: seq<seq<Byte>>, chunks: seq<seq<Byte>>, n: nat, k: nat)
    requires 256 + n <= |chunks| && IsMix(m, chunks[..n], chunks[256..256 + n]) && k < |m|
    ensures k < n && (m[k] == chunks[k] || m[k] == chunks[k + 256])
  {
  }

  lemma MixArrives(
      packet: seq<Byte>, sizes: seq<nat>, address: ContentAddress, decoded: seq<Decoded>, m: seq<seq<Byte>>)
    requires 255 < |sizes| && AllCarry(decoded, address, packet, sizes)
    requires var chunks, n := Chunks(packet, sizes), |sizes| % 256; IsMix(m, chunks[..n], chunks[256..256 + n])
    ensures ArrivalsOf(Arrivals(FragmentKey(address, |sizes|), m), FragmentKey(address, |sizes|), decoded)
  {
    var key, chunks, n := FragmentKey(address, |sizes|), Chunks(packet, sizes), |sizes| % 256;
    var events := Arrivals(key, m);
    forall e | e in events ensures exists d <- decoded :: IsArrival(e, d) {
      var k :| 0 <= k < |events| && events[k] == e;
      MixPiece(m, chunks, n, k);
      MixedArrival(packet, sizes, address, decoded, k, m[k]);
    }
  }

  lemma MixComesOut(
      packet: seq<Byte>, sizes: seq<nat>, address: ContentAddress, decoded: seq<Decoded>, items: Partials,
      m: seq<seq<Byte>>)
    requires 255 < |sizes| && 0 < |sizes| % 256 && AllCarry(decoded, address, packet, sizes)
    requires AllWellFormed(items) && FragmentKey(address, |sizes|) !in items
    requires ComesBack(items, decoded, FragmentKey(address, |sizes|), packet)
    requires var chunks, n := Chunks(packet, sizes), |sizes| % 256; IsMix(m, chunks[..n], chunks[256..256 + n])
    ensures Flat(m) == packet
  {
    var key := FragmentKey(address, |sizes|);
    MixArrives(packet, sizes, address, decoded, m);
    assert OnlyThePacket(items, Arrivals(key, m), key, packet);
    AllComeOut(items, key, m);
  }

  /** With more than 255 messages the count wraps, and some arrivals do not give the packet. */
  lemma ManyDoNotComeBack(
      packet: seq<Byte>, sizes: seq<nat>, address: ContentAddress, decoded: seq<Decoded>, items: Partials)
    requires 255 < |sizes| && Flat(Chunks(packet, sizes)) == packet != []
    requires AllCarry(decoded, address, packet, sizes)
    requires AllWellFormed(items) && FragmentKey(address, |sizes|) !in items
    ensures !ComesBack(items, decoded, FragmentKey(address, |sizes|), packet)
  {
    var chunks, n := Chunks(packet, sizes), |sizes| % 256;
    if n == 0 {
      MultiplesAreSilent(packet, sizes, address, decoded, items);
    } else if ComesBack(items, decoded, FragmentKey(address, |sizes|), packet) {
      var a, b := chunks[..n], chunks[256..256 + n];
      forall m | IsMix(m, a, b) ensures Flat(m) == packet {
        MixComesOut(packet, sizes, address, decoded, items, m);
      }
      assert IsMix(a, a, b);
      MixesAgree(a, b);
      NotTwice(chunks, n, 256);
    }
  }

  /** A packet cut into messages comes back from all arrivals if and only if it is not empty and the count is a byte. */
  lemma MessagesReassemble(
      packet: seq<Byte>, sizes: seq<nat>, address: ContentAddress, decoded: seq<Decoded>, items: Partials)
    requires Flat(Chunks(packet, sizes)) == packet && AllCarry(decoded, address, packet, sizes)
    requires packet != [] || sizes == []
    requires AllWellFormed(items) && FragmentKey(address, |sizes|) !in items
    ensures ComesBack(items, decoded, FragmentKey(address, |sizes|), packet) <==> packet != [] && |sizes| <= 255
  {
    if packet == [] {
      MultiplesAreSilent(packet, sizes, address, decoded, items);
    } else if |sizes| <= 255 {
      forall events | ArrivalsOf(events, FragmentKey(address, |sizes|), decoded)
        ensures var key := FragmentKey(address, |sizes|);
                && OnlyThePacket(items, events, key, packet)
                && (Undisturbed(items, events, key) && AllArrive(events, decoded) ==> Outputs(items, events, key) != [])
      {
        FewComeBack(packet, sizes, address, decoded, items, events);
      }
    } else {
      ManyDoNotComeBack(packet, sizes, address, decoded, items);
    }
  }

  // ---- requests

  function DecodedRequests(out: seq<seq<Question>>, tlds: seq<string>): (d: seq<Decoded>)
    ensures |d| == |out|
  {
    seq(|out|, k requires 0 <= k < |out| => DecodeQuestions(out[k], tlds, Plain([])))
  }

  lemma RequestsCarry(
      packet: seq<Byte>, address: ContentAddress, tld: string, tlds: seq<string>, out: seq<seq<Question>>, k: nat)
    requires Separate(tlds) && tld in tlds && |tld| < 139 && k < |out|
    requires Written(out, address, packet, RequestSizes(|out|, tld), tld)
    ensures Carries(DecodeQuestions(out[k], tlds, Plain([])),
                    FragmentHeader(address, |out|, k), Chunk(packet, RequestSizes(|out|, tld), k))
  {
    RequestRoundTrip(FragmentHeader(address, |out|, k), Chunk(packet, RequestSizes(|out|, tld), k), tld, tlds);
  }

  lemma NothingNeverComesBack(items: Partials, key: Key, packet: seq<Byte>)
    requires AllWellFormed(items)
    ensures !ComesBack(items, [], key, packet)
  {
    assert ArrivalsOf([], key, []) && AllArrive([], []) && Undisturbed(items, [], key);
  }

  /**
   What writing a packet as requests puts on the network comes back from all arrivals, if and only if the
   packet is not empty, its first name fits, and there are at most 255 requests.
   */
  lemma RequestsReassemble(
      packet: seq<Byte>, address: ContentAddress, tld: string, tlds: seq<string>, end: WriteEnd,
      out: seq<seq<Question>>, items: Partials)
    requires Separate(tlds) && tld in tlds && |tld| < 139 && RequestsEnd(end, out, address, packet, tld)
    requires AllWellFormed(items) && FragmentKey(address, RequestCount(|packet|, tld)) !in items
    ensures ComesBack(items, DecodedRequests(out, tlds), FragmentKey(address, RequestCount(|packet|, tld)), packet)
            <==> packet != [] && RequestFits(|packet|, tld) && RequestCount(|packet|, tld) <= 255
  {
    if packet != [] && !RequestFits(|packet|, tld) {
      assert DecodedRequests(out, tlds) == [];
      NothingNeverComesBack(items, FragmentKey(address, RequestCount(|packet|, tld)), packet);
    } else {
      var sizes, decoded := RequestSizes(|out|, tld), DecodedRequests(out, tlds);
      ChunksHoldThePacket(packet, sizes, 139 - |tld|);
      forall k | 0 <= k < |sizes|
        ensures Carries(decoded[k], FragmentHeader(address, |sizes|, k), Chunk(packet, sizes, k))
      {
        RequestsCarry(packet, address, tld, tlds, out, k);
      }
      assert packet == [] ==> sizes == [];
      MessagesReassemble(packet, sizes, address, decoded, items);
    }
  }

  // ---- responses

  function DecodedResponses(out: seq<seq<Answer>>, tlds: seq<string>): (d: seq<Decoded>)
    ensures |d| == |out|
  {
    seq(|out|, k requires 0 <= k < |out| => DecodeAnswers(out[k], tlds, Plain([])))
  }

  lemma ResponsesCarry(
      packet: seq<Byte>, address: ContentAddress, tlds: seq<string>, pumps: seq<(Header, string)>,
      out: seq<seq<Answer>>, k: nat)
    requires Separate(tlds) && k < |out| == |pumps|
    requires forall j | 0 <= j < |pumps| :: pumps[j].1 in tlds && |pumps[j].1| <= 173
    requires Answered(out, address, packet, ResponseSizes(pumps), pumps)
    ensures Carries(DecodeAnswers(out[k], tlds, Plain([])),
                    FragmentHeader(address, |out|, k), Chunk(packet, ResponseSizes(pumps), k))
  {
    var chunk := Chunk(packet, ResponseSizes(pumps), k);
    ResponseRoundTrip(pumps[k].0, FragmentHeader(address, |out|, k), chunk, pumps[k].1, tlds);
  }

  /**
   A packet written as answers, under domains of several lengths, comes back from all arrivals of them, if and
   only if it is not empty and there are at most 255 answers.
   */
  lemma ResponsesReassemble(
      packet: seq<Byte>, address: ContentAddress, longest: string, tlds: seq<string>, pumps: seq<(Header, string)>,
      out: seq<seq<Answer>>, items: Partials)
    requires Separate(tlds) && |longest| < 333 && AllEncode(pumps)
    requires forall j | 0 <= j < |pumps| :: pumps[j].1 in tlds && |pumps[j].1| <= |longest|
    requires |out| == |pumps| == ResponseCount(|packet|, longest)
    requires Answered(out, address, packet, ResponseSizes(pumps), pumps)
    requires AllWellFormed(items) && FragmentKey(address, |out|) !in items
    ensures ComesBack(items, DecodedResponses(out, tlds), FragmentKey(address, |out|), packet)
            <==> packet != [] && |out| <= 255
  {
    var sizes, decoded := ResponseSizes(pumps), DecodedResponses(out, tlds);
    ResponseReachesEnd(packet, longest, pumps);
    forall k | 0 <= k < |pumps| ensures |pumps[k].1| <= 173 {
      assert Encodes(pumps[k]);
    }
    forall k | 0 <= k < |sizes|
      ensures Carries(decoded[k], FragmentHeader(address, |sizes|, k), Chunk(packet, sizes, k))
    {
      ResponsesCarry(packet, address, tlds, pumps, out, k);
    }
    assert packet == [] ==> sizes == [];
    MessagesReassemble(packet, sizes, address, decoded, items);
  }

  // ---- what comes out instead

  lemma {:induction false} JoinedIsShort(packets: seq<Option<seq<Byte>>>, m: nat)
    requires forall k | 0 <= k < |packets| :: packets[k].Some? ==> |packets[k].value| <= m
    ensures |Joined(packets)| <= |packets| * m
  {
    if packets != [] {
      JoinedIsShort(packets[1..], m);
      assert |packets| * m == (|packets| - 1) * m + m;
    }
  }

  /** The fragments of the key have at most m bytes. */
  ghost predicate PiecesAtMost(events: seq<Event>, key: Key, m: nat) {
    forall e <- events :: IsFragment(e, key) ==> |e.data| <= m
  }

  ghost predicate SlotsAtMost(items: Partials, key: Key, m: nat) {
    key in items ==>
      forall k | 0 <= k < |items[key].packets| :: items[key].packets[k].Some? ==> |items[key].packets[k].value| <= m
  }

  lemma StepIsShort(items: Partials, e: Event, key: Key, m: nat)
    requires AllWellFormed(items) && |key| == 17 && PiecesAtMost([e], key, m) && SlotsAtMost(items, key, m)
    ensures SlotsAtMost(Step(items, e).0, key, m)
    ensures IsFragment(e, key) && Step(items, e).1.Output? ==> |Step(items, e).1.data| <= key[16] * m
  {
    if IsFragment(e, key) && !(key !in items && e.full) {
      assert e in [e];
      var p := if key in items then items[key] else NewPartial(key, e.addr);
      var q := WithFragment(p, e.header[17], e.data, e.addr, e.now);
      FilledUpdate(p.packets, e.header[17], e.data);
      if q.count == |q.packets| {
        JoinedIsShort(q.packets, m);
      }
    }
  }

  /** What comes out for a key is no longer than its count of pieces. */
  lemma {:induction false} OutputsAreShort(items: Partials, events: seq<Event>, key: Key, m: nat, n: nat)
    requires AllWellFormed(items) && |key| == 17 && PiecesAtMost(events, key, m) && SlotsAtMost(items, key, m)
    requires n < |Outputs(items, events, key)|
    ensures |Outputs(items, events, key)[n]| <= key[16] * m
    decreases |events|
  {
    var e, r := events[0], Step(items, events[0]);
    assert e in events && PiecesAtMost([e], key, m) && PiecesAtMost(events[1..], key, m);
    StepIsShort(items, e, key, m);
    var first := e.Arrive? && KeyOf(e.header) == key && r.1.Output?;
    if !first {
      OutputsAreShort(r.0, events[1..], key, m, n);
    } else if n > 0 {
      OutputsAreShort(r.0, events[1..], key, m, n - 1);
    }
  }

  /** Too few pieces for the packet never give it. */
  lemma NeverThePacket(items: Partials, events: seq<Event>, key: Key, m: nat, packet: seq<Byte>, n: nat)
    requires AllWellFormed(items) && |key| == 17 && key !in items && PiecesAtMost(events, key, m)
    requires key[16] * m < |packet| && n < |Outputs(items, events, key)|
    ensures Outputs(items, events, key)[n] != packet
  {
    OutputsAreShort(items, events, key, m, n);
  }

  /** With more than 255 requests nothing that comes out for their key is the packet. */
  lemma ManyRequestsNeverGiveThePacket(
      packet: seq<Byte>, address: ContentAddress, tld: string, items: Partials, events: seq<Event>, n: nat)
    requires |tld| < 139 && 255 < RequestCount(|packet|, tld) && AllWellFormed(items)
    requires var key := FragmentKey(address, RequestCount(|packet|, tld));
             key !in items && PiecesAtMost(events, key, 139 - |tld|) && n < |Outputs(items, events, key)|
    ensures Outputs(items, events, FragmentKey(address, RequestCount(|packet|, tld)))[n] != packet
  {
    var key, m := FragmentKey(address, RequestCount(|packet|, tld)), 139 - |tld|;
    CountIsTight(|packet|, m);
    TimesAtLeast(key[16], 255, m);
    NeverThePacket(items, events, key, m, packet, n);
  }

  lemma TimesAtLeast(k: nat, q: nat, m: nat)
    requires k <= q
    ensures k * m <= q * m
  {
  }

  lemma CountIsTight(n: nat, m: nat)
    requires 0 < m && 255 < DivideUp(n, m)
    ensures 255 * m < n
  {
    var q, r := n / m, n % m;
    assert n == q * m + r;
    TimesAtLeast(if r == 0 then 256 else 255, q, m);
  }

  /**
   With more than 255 answers the same holds when as many answers as the wrapped count says cannot hold the
   packet; `shortest` is a bound below on the domains.
   */
  lemma ManyResponsesNeverGiveThePacket(
      packet: seq<Byte>, address: ContentAddress, count: nat, shortest: nat, items: Partials, events: seq<Event>, n: nat)
    requires shortest <= 333 && count % 256 * (333 - shortest) < |packet| && AllWellFormed(items)
    requires var key := FragmentKey(address, count);
             key !in items && PiecesAtMost(events, key, 333 - shortest) && n < |Outputs(items, events, key)|
    ensures Outputs(items, events, FragmentKey(address, count))[n] != packet
  {
    NeverThePacket(items, events, FragmentKey(address, count), 333 - shortest, packet, n);
  }

  /** 257 requests: the first of them alone comes out as the packet. */
  lemma FirstFragmentComesOut(packet: seq<Byte>, address: ContentAddress, tld: string)
    requires |packet| == 34049 && |tld| == 6
    ensures RequestCount(|packet|, tld) == 257
    ensures var chunk := Chunk(packet, RequestSizes(257, tld), 0);
            var out := Outputs(map[], [Arrive("", FragmentHeader(address, 257, 0), chunk, 0, false)],
                               FragmentKey(address, 257));
            out != [] && out[0] == chunk != packet
  {
    var key, chunk := FragmentKey(address, 257), Chunk(packet, RequestSizes(257, tld), 0);
    HeaderParts(address, 257, 0);
    assert Arrivals(key, [chunk]) == [Arrive("", FragmentHeader(address, 257, 0), chunk, 0, false)];
    AllComeOut(map[], key, [chunk]);
    var pieces := [chunk];
    assert pieces[1..] == [] && Flat(pieces) == chunk + [] == chunk;
  }

  // ---- two writings of one packet under one key

  /** The fragments of the key are pieces of one cut or of the other. */
  ghost predicate FromEither(events: seq<Event>, key: Key, a: seq<seq<Byte>>, b: seq<seq<Byte>>) {
    forall e <- events | IsFragment(e, key) ::
      e.header[17] < |a| == |b| && (e.data == a[e.header[17]] || e.data == b[e.header[17]])
  }

  /** Fragments of two cuts under one key always give the packet if and only if the cuts are one. */
  lemma TwoCutsReassemble(key: Key, a: seq<seq<Byte>>, b: seq<seq<Byte>>)
    requires |key| == 17 && 0 < key[16] && |a| == |b| == key[16]
    ensures (forall events | FromEither(events, key, a, b) :: OnlyThePacket(map[], events, key, Flat(a))) <==> a == b
  {
    if a == b {
      forall events | FromEither(events, key, a, b) ensures OnlyThePacket(map[], events, key, Flat(a)) {
        assert Faithful(events, key, a);
        forall n | 0 <= n < |Outputs(map[], events, key)| ensures Outputs(map[], events, key)[n] == Flat(a) {
          OutputsAreThePacket(map[], events, key, a, n);
        }
      }
    } else if forall events | FromEither(events, key, a, b) :: OnlyThePacket(map[], events, key, Flat(a)) {
      forall m | IsMix(m, a, b) ensures Flat(m) == Flat(a) {
        ArrivalsAreFragments(key, m);
        AllComeOut(map[], key, m);
        assert FromEither(Arrivals(key, m), key, a, b);
        assert OnlyThePacket(map[], Arrivals(key, m), key, Flat(a));
      }
      MixesAgree(a, b);
    }
  }

  lemma {:induction false} EqualStarts(packet: seq<Byte>, a: seq<nat>, b: seq<nat>, i: nat)
    requires i <= |a| == |b| && forall k | 0 <= k < i :: |Chunk(packet, a, k)| == |Chunk(packet, b, k)|
    ensures Start(packet, a, i) == Start(packet, b, i)
  {
    if i > 0 {
      EqualStarts(packet, a, b, i - 1);
      assert |Chunk(packet, a, i - 1)| == |Chunk(packet, b, i - 1)|;
    }
  }

  /** Piece i has one size in both lists, or both reach the end with it. */
  ghost predicate SamePiece(packet: seq<Byte>, a: seq<nat>, b: seq<nat>, i: nat)
    requires i < |a| == |b|
  {
    a[i] == b[i] || |packet| <= Start(packet, a, i) + Min(a[i], b[i])
  }

  lemma {:induction false} StartsOfSamePieces(packet: seq<Byte>, a: seq<nat>, b: seq<nat>, i: nat)
    requires i <= |a| == |b| && forall k | 0 <= k < i :: SamePiece(packet, a, b, k)
    ensures Start(packet, a, i) == Start(packet, b, i)
  {
    if i > 0 {
      StartsOfSamePieces(packet, a, b, i - 1);
      assert SamePiece(packet, a, b, i - 1);
    }
  }

  /** Two lists of sizes cut a packet alike if and only if they differ in no piece that ends before the packet. */
  lemma CutsAgree(packet: seq<Byte>, a: seq<nat>, b: seq<nat>)
    requires |a| == |b|
    ensures Chunks(packet, a) == Chunks(packet, b) <==> forall i | 0 <= i < |a| :: SamePiece(packet, a, b, i)
  {
    if Chunks(packet, a) == Chunks(packet, b) {
      forall i | 0 <= i < |a| ensures SamePiece(packet, a, b, i) {
        forall k | 0 <= k < |a| ensures Chunk(packet, a, k) == Chunk(packet, b, k) {
          assert Chunks(packet, a)[k] == Chunks(packet, b)[k];
        }
        EqualStarts(packet, a, b, i);
        EqualStarts(packet, a, b, i + 1);
      }
    }
    if forall i | 0 <= i < |a| :: SamePiece(packet, a, b, i) {
      forall i | 0 <= i < |a| ensures Chunk(packet, a, i) == Chunk(packet, b, i) {
        StartsOfSamePieces(packet, a, b, i);
        StartsOfSamePieces(packet, a, b, i + 1);
      }
    }
  }

  /** Two domains that need the same number of requests cut the packet alike. */
  lemma OneCut(packet: seq<Byte>, s: string, t: string)
    requires |s| < 139 && |t| < 139 && RequestCount(|packet|, s) == RequestCount(|packet|, t)
    ensures var c := RequestCount(|packet|, s);
            Chunks(packet, RequestSizes(c, s)) == Chunks(packet, RequestSizes(c, t)) <==> |s| == |t| || c <= 1
  {
    var c := RequestCount(|packet|, s);
    var a, b := RequestSizes(c, s), RequestSizes(c, t);
    AtMostOne(|packet|, 139 - |s|);
    AtMostOne(|packet|, 139 - |t|);
    if |s| == |t| {
      assert a == b;
    } else if c == 1 {
      assert Start(packet, a, 1) == Start(packet, b, 1) == |packet|;
      assert Chunks(packet, a)[0] == Chunks(packet, b)[0];
    } else if c > 1 {
      assert Start(packet, a, 1) == 139 - |s| && Start(packet, b, 1) == 139 - |t|;
      assert |Chunks(packet, a)[0]| != |Chunks(packet, b)[0]|;
    }
  }

  lemma AtMostOne(n: nat, m: nat)
    requires 0 < m
    ensures DivideUp(n, m) <= 1 <==> n <= m
  {
    if n < m {
      assert n / m == 0;
    } else if m < n < 2 * m {
      assert n / m == 1 && n % m == n - m;
    } else if 2 * m <= n {
      assert 2 <= n / m;
    }
  }

  /**
   One packet written under two domains that give it the same key: its requests, in any mix, always
   give the packet if and only if the domains have one length or one request holds the packet.
   */
  lemma TwoDomainsReassemble(packet: seq<Byte>, address: ContentAddress, s: string, t: string)
    requires packet != [] && |s| < 139 && |t| < 139
    requires RequestCount(|packet|, s) == RequestCount(|packet|, t) <= 255
    ensures var c := RequestCount(|packet|, s);
            var a, b := Chunks(packet, RequestSizes(c, s)), Chunks(packet, RequestSizes(c, t));
            (forall events | FromEither(events, FragmentKey(address, c), a, b) ::
               OnlyThePacket(map[], events, FragmentKey(address, c), packet))
            <==> |s| == |t| || c == 1
  {
    var c := RequestCount(|packet|, s);
    ChunksHoldThePacket(packet, RequestSizes(c, s), 139 - |s|);
    OneCut(packet, s, t);
    TwoCutsReassemble(
      FragmentKey(address, c), Chunks(packet, RequestSizes(c, s)), Chunks(packet, RequestSizes(c, t)));
  }

  /**
   One packet answered twice has one key, whatever pump items the answers use: the answers, in any mix,
   always give the packet if and only if the domains of each two differ in length only after its end.
   */
  lemma TwoAnswersReassemble(
      packet: seq<Byte>, address: ContentAddress, longest: string, s: seq<(Header, string)>, t: seq<(Header, string)>)
    requires packet != [] && |longest| < 333 && |s| == |t| == ResponseCount(|packet|, longest) <= 255
    requires forall k | 0 <= k < |s| :: |s[k].1| <= |longest| && |t[k].1| <= |longest|
    ensures var a, b := Chunks(packet, ResponseSizes(s)), Chunks(packet, ResponseSizes(t));
            (forall events | FromEither(events, FragmentKey(address, |s|), a, b) ::
               OnlyThePacket(map[], events, FragmentKey(address, |s|), packet))
            <==> forall i | 0 <= i < |s| :: SamePiece(packet, ResponseSizes(s), ResponseSizes(t), i)
  {
    ResponseReachesEnd(packet, longest, s);
    CutsAgree(packet, ResponseSizes(s), ResponseSizes(t));
    TwoCutsReassemble(
      FragmentKey(address, |s|), Chunks(packet, ResponseSizes(s)), Chunks(packet, ResponseSizes(t)));
  }

  /**
   The same packet written twice under domains of different lengths has one key and two cuts. When
   the fragments of the two mix, what comes out is not the packet.
   */
  lemma MixedCutsCorrupt(packet: seq<Byte>, address: ContentAddress, six: string, seven: string)
    requires |packet| == 134 && |six| == 6 && |seven| == 7
    ensures RequestCount(134, six) == RequestCount(134, seven) == 2
    ensures var key := FragmentKey(address, 2);
            var first := Arrive("", FragmentHeader(address, 2, 0), Chunk(packet, RequestSizes(2, seven), 0), 0, false);
            var second := Arrive("", FragmentHeader(address, 2, 1), Chunk(packet, RequestSizes(2, six), 1), 0, false);
            Outputs(map[], [first, second], key) != [] && Outputs(map[], [first, second], key)[0] != packet
  {
    var key, a, b := FragmentKey(address, 2), RequestSizes(2, seven), RequestSizes(2, six);
    var first := Arrive("", FragmentHeader(address, 2, 0), Chunk(packet, a, 0), 0, false);
    var second := Arrive("", FragmentHeader(address, 2, 1), Chunk(packet, b, 1), 0, false);
    assert Start(packet, a, 1) == 132 && Start(packet, b, 1) == 133 && Start(packet, b, 2) == 134;
    HeaderParts(address, 2, 0);
    HeaderParts(address, 2, 1);
    TwoFragments(key, first, second);
  }

  lemma TwoFragments(key: Key, first: Event, second: Event)
    requires |key| == 17 && key[16] == 2 && IsFragment(first, key) && IsFragment(second, key)
    requires first.header[17] == 0 && second.header[17] == 1 && !first.full && !second.full
    ensures Outputs(map[], [first, second], key) != []
    ensures Outputs(map[], [first, second], key)[0] == first.data + second.data
  {
    var events, chunks := [first, second], [first.data, second.data];
    assert events[0] == first && events[1] == second;
    assert Undisturbed(map[], events, key) by {
      assert events[1..] == [second] && [second][1..] == [];
      assert !second.full;
    }
    AllIndicesOutput(map[], events, key);
    assert Faithful(events, key, chunks);
    OutputsAreThePacket(map[], events, key, chunks, 0);
    assert chunks[1..] == [second.data] && [second.data][1..] == [];
    assert Flat([second.data]) == second.data + [] == second.data;
  }
}
