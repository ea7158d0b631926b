/** Splitting a packet into numbered fragments, and the way of the fragments back to the packet. */
module DnsFragments {
  import opened Basics
  import opened CombineModel
  import opened DnsCodec
  import opened DnsResponse
  import opened Options

  function DivideUp(n: nat, m: nat): (c: nat)
    requires 0 < m
    ensures n <= c * m && (0 < c ==> (c - 1) * m < n)
  {
    if n % m != 0 then n / m + 1 else n / m
  }

  function RequestCount(byteCount: nat, tld: string): (c: nat)
    requires |tld| < 139
    ensures byteCount <= c * (139 - |tld|) && (0 < c ==> (c - 1) * (139 - |tld|) < byteCount)
  {
    DivideUp(byteCount, 157 - 18 - |tld|)
  }

  function ResponseCount(byteCount: nat, tld: string): (c: nat)
    requires |tld| < 333
    ensures byteCount <= c * (333 - |tld|) && (0 < c ==> (c - 1) * (333 - |tld|) < byteCount)
  {
    DivideUp(byteCount, 191 - 18 + 160 - |tld|)
  }

  /** Where piece i starts when the pieces have at most the given sizes. */
  function Start(packet: seq<Byte>, sizes: seq<nat>, i: nat): (n: nat)
    requires i <= |sizes|
    ensures n <= |packet|
  {
    if i == 0 then 0 else Min(Start(packet, sizes, i - 1) + sizes[i - 1], |packet|)
  }

  function Chunk(packet: seq<Byte>, sizes: seq<nat>, i: nat): (chunk: seq<Byte>)
    requires i < |sizes|
    ensures |chunk| <= sizes[i]
  {
    packet[Start(packet, sizes, i)..Start(packet, sizes, i + 1)]
  }

  function Chunks(packet: seq<Byte>, sizes: seq<nat>): (c: seq<seq<Byte>>)
    ensures |c| == |sizes| && forall i | 0 <= i < |sizes| :: c[i] == Chunk(packet, sizes, i)
  {
    seq(|sizes|, i requires 0 <= i < |sizes| => Chunk(packet, sizes, i))
  }

  /** Pieces of at least m bytes reach the end of the packet in time. */
  lemma {:induction false} StartGrows(packet: seq<Byte>, sizes: seq<nat>, m: nat, i: nat)
    requires i <= |sizes| && forall k | 0 <= k < |sizes| :: m <= sizes[k]
    ensures Min(i * m, |packet|) <= Start(packet, sizes, i)
  {
    if i > 0 {
      StartGrows(packet, sizes, m, i - 1);
      assert i * m == (i - 1) * m + m;
    }
  }

  lemma {:induction false} FlatFrom(packet: seq<Byte>, sizes: seq<nat>, i: nat)
    requires i <= |sizes| && Start(packet, sizes, |sizes|) == |packet|
    ensures Flat(Chunks(packet, sizes)[i..]) == packet[Start(packet, sizes, i)..]
    decreases |sizes| - i
  {
    if i < |sizes| {
      FlatFrom(packet, sizes, i + 1);
      var chunks := Chunks(packet, sizes);
      assert chunks[i..][0] == Chunk(packet, sizes, i) && chunks[i..][1..] == chunks[i + 1..];
      var n, m := Start(packet, sizes, i), Start(packet, sizes, i + 1);
      assert packet[n..] == packet[n..m] + packet[m..];
    }
  }

  lemma NextStart(packet: seq<Byte>, sizes: seq<nat>, i: nat, n: nat)
    requires i < |sizes| && n == Start(packet, sizes, i)
    ensures var m := Min(sizes[i], |packet| - n);
            n + m == Start(packet, sizes, i + 1) && packet[n..][..m] == Chunk(packet, sizes, i)
  {
    var m := Min(sizes[i], |packet| - n);
    assert packet[n..][..m] == packet[n..n + m];
  }

  /** Enough pieces hold the whole packet. */
  lemma ChunksHoldThePacket(packet: seq<Byte>, sizes: seq<nat>, m: nat)
    requires |packet| <= |sizes| * m && forall k | 0 <= k < |sizes| :: m <= sizes[k]
    ensures Flat(Chunks(packet, sizes)) == packet && Start(packet, sizes, |sizes|) == |packet|
  {
    StartGrows(packet, sizes, m, |sizes|);
    FlatFrom(packet, sizes, 0);
    assert Chunks(packet, sizes)[0..] == Chunks(packet, sizes) && packet[0..] == packet;
  }

  type ContentAddress = a: seq<Byte> | |a| == 16 witness seq(16, _ => 0)

  /** The content address, the count and the index, both as one byte. */
  function FragmentHeader(address: ContentAddress, count: nat, i: nat): Header {
    address + [count % 256, i % 256]
  }

  function RequestSizes(count: nat, tld: string): (s: seq<nat>)
    requires |tld| <= 139
    ensures |s| == count
  {
    seq(count, _ => 139 - |tld|)
  }

  /** Request k carries chunk k under its own header. */
  ghost predicate Written(
      out: seq<seq<Question>>, address: ContentAddress, packet: seq<Byte>, sizes: seq<nat>, tld: string) {
    |out| <= |sizes| &&
    forall k | 0 <= k < |out| ::
      out[k] == RequestQuestions(FragmentHeader(address, |sizes|, k), Chunk(packet, sizes, k), tld)
  }

  lemma WrittenMore(
      out: seq<seq<Question>>, address: ContentAddress, packet: seq<Byte>, sizes: seq<nat>, tld: string,
      q: seq<Question>)
    requires Written(out, address, packet, sizes, tld) && |out| < |sizes|
    requires q == RequestQuestions(FragmentHeader(address, |sizes|, |out|), Chunk(packet, sizes, |out|), tld)
    ensures Written(out + [q], address, packet, sizes, tld)
  {
  }

  /** How writing one packet ends; a refused name and a count that was estimated wrong are errors. */
  datatype WriteEnd = Done | WriteRefused | WrongCount | Panic

  function EndOf(end: EncodeEnd): WriteEnd
    requires !end.Encoded?
  {
    if end.SlicePanic? then Panic else WriteRefused
  }

  /** The names of the requests are packed: the first request has the longest. */
  predicate RequestFits(byteCount: nat, tld: string)
    requires |tld| <= 139
  {
    LabelsOk(tld) && LabelsLength(18 + Min(byteCount, 139 - |tld|)) + |tld| <= 254
  }

  /** With six characters every packet fits, and with fewer none that fills a request. */
  lemma SixFit(byteCount: nat, tld: string)
    requires |tld| <= 139 && LabelsOk(tld)
    ensures 6 <= |tld| ==> RequestFits(byteCount, tld)
    ensures |tld| < 6 && 139 - |tld| <= byteCount ==> !RequestFits(byteCount, tld)
  {
    var n := 18 + Min(byteCount, 139 - |tld|);
    if 6 <= |tld| {
      assert n / 30 <= 5;
    } else if 139 - |tld| <= byteCount {
      assert n == 157 - |tld| && n / 30 == 5;
    }
  }

  /** A domain of five characters carries 133 bytes, and refuses the full request that 134 bytes need. */
  lemma ShortDomainIsRefused()
    ensures LabelsOk("x.co.") && RequestFits(133, "x.co.") && !RequestFits(134, "x.co.")
  {
    var s := "x.co.";
    DotAt(s, 1);
    assert s[2..] == "co.";
    DotAt(s[2..], 2);
    assert s[2..][3..] == "";
  }

  /**
   How a packet ends whose domain leaves no room: with room for 0 bytes the estimate divides by zero, and
   with a negative room it rounds to no request, except when it is one request, which is a panic.
   */
  function NoRoom(byteCount: nat, tld: string): WriteEnd
    requires 139 <= |tld|
  {
    if |tld| == 139 || 0 < byteCount < |tld| - 139 then Panic
    else if byteCount == 0 then Done
    else WrongCount
  }

  /** The estimate of the requests; division truncates, and None is a division by zero. */
  method EncodeRequestCount(byteCount: nat, tld: string) returns (c: Option<int>)
    ensures |tld| < 139 ==> c == Some(RequestCount(byteCount, tld))
    ensures |tld| == 139 ==> c.None?
    ensures 139 < |tld| ==> c.Some? && c.value <= 1 && (c.value == 1 <==> 0 < byteCount < |tld| - 139)
  {
    var m := 157 - 18 - |tld|;
    if m == 0 {
      return None;
    }
    var quotient := if 0 < m then byteCount / m else -(byteCount / -m);
    var remainder := if 0 < m then byteCount % m else byteCount % -m;
    c := Some(if remainder != 0 then quotient + 1 else quotient);
    if m < 0 {
      Truncated(byteCount, -m);
    }
  }

  /** Dividing by a negative number rounds up to one only for what is smaller and not zero. */
  lemma Truncated(n: nat, m: nat)
    requires 0 < m
    ensures var c := if n % m != 0 then -(n / m) + 1 else -(n / m);
            c <= 1 && (c == 1 <==> 0 < n < m)
  {
    if n < m {
      assert n / m == 0 && n % m == n;
    } else {
      assert 1 <= n / m;
    }
  }

  /** Request i of c, which starts at position n. */
  method WriteRequest(address: ContentAddress, packet: seq<Byte>, tld: string, c: nat, i: nat, n: nat)
    returns (end: EncodeEnd, m: nat, questions: seq<Question>)
    requires i < c && n <= |packet| && (|tld| < 139 ==> n == Start(packet, RequestSizes(c, tld), i))
    ensures 139 < |tld| ==> end.SlicePanic?
    ensures |tld| < 139 ==>
              && !end.SlicePanic? && n + m == Start(packet, RequestSizes(c, tld), i + 1)
              && (RequestFits(|packet|, tld) ==> end.Encoded?)
              && (i == 0 && !RequestFits(|packet|, tld) ==> end.NameRefused?)
              && (end.Encoded? ==>
                    questions ==
                    RequestQuestions(FragmentHeader(address, c, i), Chunk(packet, RequestSizes(c, tld), i), tld))
  {
    end, m, questions := EncodeRequest(FragmentHeader(address, c, i), packet[n..], tld);
    if |tld| < 139 {
      NextStart(packet, RequestSizes(c, tld), i, n);
      LengthsGrow(18 + m, 18 + Min(|packet|, 139 - |tld|));
    }
  }

  /** How writing a packet as requests ends, and what is written. */
  ghost predicate RequestsEnd(
      end: WriteEnd, out: seq<seq<Question>>, address: ContentAddress, packet: seq<Byte>, tld: string) {
    if 139 <= |tld| then out == [] && end == NoRoom(|packet|, tld)
    else if packet != [] && !RequestFits(|packet|, tld) then out == [] && end == WriteRefused
    else end == Done && |out| == RequestCount(|packet|, tld)
         && Written(out, address, packet, RequestSizes(|out|, tld), tld)
  }

  /** After i requests n bytes are consumed. */
  ghost predicate RequestsSoFar(
      out: seq<seq<Question>>, n: nat, i: int, c: int, address: ContentAddress, packet: seq<Byte>, tld: string) {
    if 139 <= |tld| then n == i == 0 && out == []
    else
      && 0 <= i <= c && |out| == i && Written(out, address, packet, RequestSizes(c, tld), tld)
      && n == Start(packet, RequestSizes(c, tld), i) && (0 < i ==> RequestFits(|packet|, tld))
  }

  method WriteNext(
      address: ContentAddress, packet: seq<Byte>, tld: string, c: nat, i: nat, n: nat, out: seq<seq<Question>>)
    returns (end: EncodeEnd, total: nat, more: seq<seq<Question>>)
    requires |tld| != 139 && i < c && n <= |packet| && RequestsSoFar(out, n, i, c, address, packet, tld)
    ensures if end.Encoded? then RequestsSoFar(more, total, i + 1, c, address, packet, tld)
            else out == more == [] && EndOf(end) == if 139 < |tld| then Panic else WriteRefused
    ensures |tld| < 139 ==> (end.Encoded? <==> RequestFits(|packet|, tld))
    ensures 139 < |tld| ==> end.SlicePanic?
  {
    var m, questions;
    end, m, questions := WriteRequest(address, packet, tld, c, i, n);
    if end.Encoded? {
      if |tld| < 139 {
        WrittenMore(out, address, packet, RequestSizes(c, tld), tld, questions);
      }
      total, more := n + m, out + [questions];
    } else {
      total, more := n, out;
    }
  }

  /** The estimate ends the loop exactly when all bytes are consumed. */
  lemma AllRequestsWritten(
      out: seq<seq<Question>>, n: nat, i: int, c: int, address: ContentAddress, packet: seq<Byte>, tld: string)
    requires |tld| < 139 && c == RequestCount(|packet|, tld) && c <= i
    requires RequestsSoFar(out, n, i, c, address, packet, tld)
    ensures n == |packet| && RequestsEnd(Done, out, address, packet, tld)
  {
    ChunksHoldThePacket(packet, RequestSizes(c, tld), 139 - |tld|);
  }

  /** Writes the packet as requests. */
  method WriteRequests(address: ContentAddress, packet: seq<Byte>, tld: string)
    returns (end: WriteEnd, out: seq<seq<Question>>)
    ensures RequestsEnd(end, out, address, packet, tld)
    ensures 139 <= |tld| ==>
              && (end.Done? <==> packet == [] && |tld| != 139)
              && (end.Panic? <==> |tld| == 139 || 0 < |packet| < |tld| - 139)
  {
    var count := EncodeRequestCount(|packet|, tld);
    if count.None? {
      return Panic, [];
    }
    var c := count.value;
    var n: nat, i := 0, 0;
    out := [];
    while i < c
      invariant RequestsSoFar(out, n, i, c, address, packet, tld) && n <= |packet|
    {
      var encoded;
      encoded, n, out := WriteNext(address, packet, tld, c, i, n, out);
      if !encoded.Encoded? {
        return EndOf(encoded), out;
      }
      i := i + 1;
    }
    if |tld| < 139 {
      AllRequestsWritten(out, n, i, c, address, packet, tld);
    }
    end := if n != |packet| then WrongCount else Done;
  }

  /** Response k carries chunk k under the pump header and the domain of item k. */
  ghost predicate Answered(
      out: seq<seq<Answer>>, address: ContentAddress, packet: seq<Byte>, sizes: seq<nat>, items: seq<(Header, string)>)
  {
    |out| <= |sizes| == |items| &&
    forall k | 0 <= k < |out| ::
      && |items[k].1| <= 173
      && out[k] == ResponseAnswers(
           items[k].0, FragmentHeader(address, |sizes|, k), Chunk(packet, sizes, k), items[k].1)
  }

  lemma AnsweredMore(
      out: seq<seq<Answer>>, address: ContentAddress, packet: seq<Byte>, sizes: seq<nat>, items: seq<(Header, string)>,
      a: seq<Answer>)
    requires Answered(out, address, packet, sizes, items) && |out| < |sizes| && |items[|out|].1| <= 173
    requires a == ResponseAnswers(items[|out|].0, FragmentHeader(address, |sizes|, |out|),
                                  Chunk(packet, sizes, |out|), items[|out|].1)
    ensures Answered(out + [a], address, packet, sizes, items)
  {
  }

  function ResponseSizes(items: seq<(Header, string)>): (s: seq<nat>)
    requires forall k | 0 <= k < |items| :: |items[k].1| <= 333
    ensures |s| == |items| && forall k | 0 <= k < |s| :: s[k] == 333 - |items[k].1|
  {
    seq(|items|, k requires 0 <= k < |items| => 333 - |items[k].1|)
  }

  method LongestTld(tlds: seq<string>) returns (longest: string)
    requires tlds != []
    ensures longest in tlds && forall tld <- tlds :: |tld| <= |longest|
  {
    longest := tlds[0];
    for k := 1 to |tlds|
      invariant longest in tlds && forall j | 0 <= j < k :: |tlds[j]| <= |longest|
    {
      if |longest| < |tlds[k]| {
        longest := tlds[k];
      }
    }
  }

  /** Fragment i, which starts at position n. */
  method WriteResponse(
      address: ContentAddress, packet: seq<Byte>, items: seq<(Header, string)>, i: nat, n: nat)
    returns (end: EncodeEnd, m: nat, answers: seq<Answer>)
    requires i < |items| && forall k | 0 <= k < |items| :: |items[k].1| <= 333
    requires n == Start(packet, ResponseSizes(items), i)
    ensures end == if 173 < |items[i].1| then SlicePanic else if LabelsOk(items[i].1) then Encoded else NameRefused
    ensures end.Encoded? ==>
              && n + m == Start(packet, ResponseSizes(items), i + 1)
              && answers == ResponseAnswers(items[i].0, FragmentHeader(address, |items|, i),
                                            Chunk(packet, ResponseSizes(items), i), items[i].1)
  {
    NextStart(packet, ResponseSizes(items), i, n);
    end, m, answers := EncodeResponse(items[i].0, FragmentHeader(address, |items|, i), packet[n..], items[i].1);
  }

  lemma ResponseReachesEnd(packet: seq<Byte>, longest: string, items: seq<(Header, string)>)
    requires |longest| < 333 && forall k | 0 <= k < |items| :: |items[k].1| <= |longest|
    requires |items| == ResponseCount(|packet|, longest)
    ensures Start(packet, ResponseSizes(items), |items|) == |packet|
    ensures Flat(Chunks(packet, ResponseSizes(items))) == packet
  {
    var sizes, m := ResponseSizes(items), 333 - |longest|;
    assert |packet| <= |items| * m;
    ChunksHoldThePacket(packet, sizes, m);
  }

  /** The response has room for its first text and a name that is packed. */
  predicate Encodes(item: (Header, string)) { |item.1| <= 173 && LabelsOk(item.1) }

  predicate AllEncode(items: seq<(Header, string)>) {
    forall k | 0 <= k < |items| :: Encodes(items[k])
  }

  /** After i responses n bytes are consumed. */
  ghost predicate ResponsesSoFar(
      out: seq<seq<Answer>>, n: nat, i: nat, address: ContentAddress, packet: seq<Byte>, items: seq<(Header, string)>)
    requires i <= |items| && forall k | 0 <= k < |items| :: |items[k].1| <= 333
  {
    && |out| == i && n == Start(packet, ResponseSizes(items), i) && AllEncode(items[..i])
    && Answered(out, address, packet, ResponseSizes(items), items)
  }

  lemma EncodeMore(items: seq<(Header, string)>, i: nat)
    requires i < |items| && AllEncode(items[..i]) && Encodes(items[i])
    ensures AllEncode(items[..i + 1])
  {
    var more := items[..i + 1];
    forall k | 0 <= k < |more| ensures Encodes(more[k]) {
      if k < i {
        assert more[k] == items[..i][k];
      }
    }
  }

  lemma OneMoreResponse(
      out: seq<seq<Answer>>, n: nat, i: nat, address: ContentAddress, packet: seq<Byte>, items: seq<(Header, string)>,
      m: nat, answers: seq<Answer>)
    requires i < |items| && forall k | 0 <= k < |items| :: |items[k].1| <= 333
    requires ResponsesSoFar(out, n, i, address, packet, items) && Encodes(items[i])
    requires n + m == Start(packet, ResponseSizes(items), i + 1)
    requires answers == ResponseAnswers(items[i].0, FragmentHeader(address, |items|, i),
                                        Chunk(packet, ResponseSizes(items), i), items[i].1)
    ensures ResponsesSoFar(out + [answers], n + m, i + 1, address, packet, items)
  {
    AnsweredMore(out, address, packet, ResponseSizes(items), items, answers);
    EncodeMore(items, i);
  }

  method WriteNextResponse(
      address: ContentAddress, packet: seq<Byte>, items: seq<(Header, string)>, i: nat, n: nat, out: seq<seq<Answer>>)
    returns (end: EncodeEnd, total: nat, more: seq<seq<Answer>>)
    requires i < |items| && forall k | 0 <= k < |items| :: |items[k].1| <= 333
    requires ResponsesSoFar(out, n, i, address, packet, items)
    ensures end == if 173 < |items[i].1| then SlicePanic else if LabelsOk(items[i].1) then Encoded else NameRefused
    ensures if end.Encoded? then ResponsesSoFar(more, total, i + 1, address, packet, items) else more == out
  {
    var m, answers;
    end, m, answers := WriteResponse(address, packet, items, i, n);
    if end.Encoded? {
      OneMoreResponse(out, n, i, address, packet, items, m, answers);
      total, more := n + m, out + [answers];
    } else {
      total, more := n, out;
    }
  }

  /**
   Writes the packet as answers, each under a domain that may be shorter than the longest one. The first
   domain without room for a text is a panic, and the first that is not in good labels is an error.
   */
  method WriteResponses(address: ContentAddress, packet: seq<Byte>, longest: string, items: seq<(Header, string)>)
    returns (end: WriteEnd, out: seq<seq<Answer>>)
    requires |longest| < 333 && forall k | 0 <= k < |items| :: |items[k].1| <= |longest|
    requires |items| == ResponseCount(|packet|, longest)
    ensures Answered(out, address, packet, ResponseSizes(items), items)
    ensures if AllEncode(items) then end == Done && |out| == |items|
            else |out| < |items| && AllEncode(items[..|out|])
                 && if 173 < |items[|out|].1| then end == Panic else end == WriteRefused && !LabelsOk(items[|out|].1)
  {
    var c := |items|;
    var n: nat := 0;
    out := [];
    for i := 0 to c
      invariant ResponsesSoFar(out, n, i, address, packet, items)
    {
      var encoded;
      encoded, n, out := WriteNextResponse(address, packet, items, i, n, out);
      if !encoded.Encoded? {
        return EndOf(encoded), out;
      }
    }
    assert items[..c] == items;
    ResponseReachesEnd(packet, longest, items);
    end := if n != |packet| then WrongCount else Done;
  }
}
