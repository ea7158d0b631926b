/** A connection that splits the records of a TLS handshake around the server name. */
module ResilientTls {
  import opened Basics
  import opened Options
  import opened TlsRecords

  /** Where the value of the server name lies in a handshake message. */
  datatype Span = Span(start: nat, end: nat)

  datatype WriteResult = Written(n: nat) | Panic | Loop

  /** `5+contentLength` has the type of the length, 16 bits. */
  function RecordEnd(contentLength: U16): U16 { (5 + contentLength) % 65536 }

  /** One round of Write takes exactly one record exactly when its length is at most 65530. */
  lemma RecordEndIsExact(contentLength: U16)
    ensures RecordEnd(contentLength) == 5 + contentLength <==> contentLength <= 65530
    ensures RecordEnd(contentLength) < 5 <==> 65530 < contentLength
    ensures RecordEnd(contentLength) == 0 <==> contentLength == 65531
  {
  }

  type NameParser = seq<Byte> -> Option<Span>

  /** The random split of a shorter name would be drawn from an empty range. */
  predicate TooShort(span: Option<Span>) { span.Some? && span.value.end < span.value.start + 2 }

  /** One round of Write can take the record. */
  predicate Writable(r: Record, serverName: NameParser) {
    |r.content| <= 65530 && !(r.contentType == HANDSHAKE && TooShort(serverName(r.content)))
  }

  /**
   How a round fails on the first record: the slice of a handshake is inverted, the server name is too
   short to split, or nothing is taken and the round repeats.
   */
  function FaultOf(b: seq<Byte>, serverName: NameParser): Option<WriteResult>
    requires Complete(b)
  {
    var r := FirstRecord(b);
    if Writable(r, serverName) then None
    else if r.contentType == HANDSHAKE then Some(Panic)
    else if |r.content| == 65531 then Some(Loop)
    else None
  }

  /** How the rounds end and what they leave in the buffer. */
  datatype Ending = Ending(fault: Option<WriteResult>, rest: seq<Byte>)

  /** Each round takes as many bytes as the 16-bit end says. */
  function Flushed(b: seq<Byte>, serverName: NameParser): Ending
    decreases |b|
  {
    if !Complete(b) then Ending(None, b)
    else if FaultOf(b, serverName).Some? then Ending(FaultOf(b, serverName), b)
    else
      RecordEndIsExact(ParseTlsHeader(b).contentLength);
      Flushed(b[RecordEnd(ParseTlsHeader(b).contentLength)..], serverName)
  }

  /** What a round that does not fail leaves: the bytes after the record, or all but a few of its own. */
  ghost predicate Takes(b: seq<Byte>, next: seq<Byte>)
    requires Complete(b)
  {
    var n: int := ParseTlsHeader(b).contentLength;
    if n <= 65530 then next == b[5 + n..] else 65531 < n && next == b[n - 65531..]
  }

  lemma FlushedStep(b: seq<Byte>, next: seq<Byte>, serverName: NameParser)
    requires Complete(b) && FaultOf(b, serverName).None? && Takes(b, next)
    ensures Flushed(b, serverName) == Flushed(next, serverName)
  {
    RecordEndIsExact(ParseTlsHeader(b).contentLength);
    assert next == b[RecordEnd(ParseTlsHeader(b).contentLength)..];
  }

  /** The number of the first record that is not writable, or of all records. */
  function FirstBad(records: seq<Record>, serverName: NameParser): (k: nat)
    ensures k <= |records| && forall j | 0 <= j < k :: Writable(records[j], serverName)
    ensures k < |records| ==> !Writable(records[k], serverName)
  {
    if records == [] || !Writable(records[0], serverName) then 0
    else
      assert forall j | 0 < j < |records| :: records[j] == records[1..][j - 1];
      1 + FirstBad(records[1..], serverName)
  }

  /** The bytes from whole record k on. */
  function From(b: seq<Byte>, k: nat): seq<Byte>
    decreases k
  {
    if k == 0 || !Complete(b) then b else From(b[5 + ParseTlsHeader(b).contentLength..], k - 1)
  }

  lemma {:induction false} ParseFrom(b: seq<Byte>, k: nat)
    requires k <= |Parse(b)|
    ensures Parse(From(b, k)) == Parse(b)[k..] && Remainder(From(b, k)) == Remainder(b)
    ensures Complete(From(b, k)) <==> k < |Parse(b)|
    ensures Complete(From(b, k)) ==>
              && FirstRecord(From(b, k)) == Parse(b)[k]
              && From(b, k + 1) == From(b, k)[5 + ParseTlsHeader(From(b, k)).contentLength..]
    decreases k
  {
    if k > 0 {
      ParseFrom(b[5 + ParseTlsHeader(b).contentLength..], k - 1);
    }
  }

  /** Only a few bytes of the record are taken, and the next header is read inside it. */
  predicate Misaligns(r: Record) { r.contentType != HANDSHAKE && 65531 < |r.content| }

  ghost predicate MisalignsAtFirstBad(b: seq<Byte>, serverName: NameParser) {
    var k := FirstBad(Parse(b), serverName);
    k < |Parse(b)| && Misaligns(Parse(b)[k])
  }

  /** Taking one more record, or standing at the first that is not writable. */
  lemma Advance(b: seq<Byte>, serverName: NameParser, n: nat)
    requires n <= FirstBad(Parse(b), serverName) && Complete(From(b, n))
    ensures var at, found := From(b, n), Parse(b);
            && n < |found| && FirstRecord(at) == found[n]
            && (Writable(FirstRecord(at), serverName) ==>
                  && n + 1 <= FirstBad(found, serverName) && From(b, n + 1) == From(at, 1)
                  && From(at, 1) == at[5 + ParseTlsHeader(at).contentLength..]
                  && found[..n + 1] == found[..n] + [FirstRecord(at)])
            && (!Writable(FirstRecord(at), serverName) ==> n == FirstBad(found, serverName))
  {
    ParseFrom(b, n);
  }

  /** One more record is carried. */
  lemma CarriesOne(all: seq<Byte>, n: nat, before: seq<Record>, written: seq<Record>, b: seq<Byte>, next: seq<Byte>,
                   serverName: NameParser)
    requires n <= FirstBad(Parse(all), serverName) && written == before + Parse(all)[..n] && b == From(all, n)
    requires Complete(b) && Writable(FirstRecord(b), serverName) && Takes(b, next)
    ensures n + 1 <= FirstBad(Parse(all), serverName) && next == From(all, n + 1)
    ensures written + [FirstRecord(b)] == before + Parse(all)[..n + 1]
  {
    Advance(all, serverName, n);
  }

  lemma StandsAtBad(all: seq<Byte>, n: nat, b: seq<Byte>, serverName: NameParser)
    requires n <= FirstBad(Parse(all), serverName) && b == From(all, n)
    requires Complete(b) && !Writable(FirstRecord(b), serverName)
    ensures n == FirstBad(Parse(all), serverName)
    ensures FaultOf(b, serverName).None? ==> MisalignsAtFirstBad(all, serverName)
  {
    Advance(all, serverName, n);
  }

  /** Without a whole record left, all of them were writable. */
  lemma AllTaken(b: seq<Byte>, serverName: NameParser, n: nat)
    requires n <= FirstBad(Parse(b), serverName) && !Complete(From(b, n))
    ensures n == FirstBad(Parse(b), serverName) == |Parse(b)|
  {
    ParseFrom(b, n);
  }

  /** Writable records are taken one by one. */
  lemma {:induction false} FlushedFrom(b: seq<Byte>, serverName: NameParser, k: nat)
    requires k <= FirstBad(Parse(b), serverName)
    ensures Flushed(b, serverName) == Flushed(From(b, k), serverName)
  {
    if k > 0 {
      FlushedFrom(b, serverName, k - 1);
      ParseFrom(b, k - 1);
      Advance(b, serverName, k - 1);
      FlushedStep(From(b, k - 1), From(b, k), serverName);
    }
  }

  /**
   The first record that is not writable decides how the rounds end. Without one exactly the incomplete rest
   stays. A handshake record is a panic and a length of 65531 repeats forever, with that record and all that
   follows still in the buffer. With a greater length the rounds go on inside the record.
   */
  lemma {:induction false} FirstBadDecides(b: seq<Byte>, serverName: NameParser)
    ensures var k, records := FirstBad(Parse(b), serverName), Parse(b);
            if k == |records| then Flushed(b, serverName) == Ending(None, Remainder(b))
            else if records[k].contentType == HANDSHAKE then Flushed(b, serverName) == Ending(Some(Panic), From(b, k))
            else if |records[k].content| == 65531 then Flushed(b, serverName) == Ending(Some(Loop), From(b, k))
            else Misaligns(records[k]) && |records[k].content| - 65531 <= |From(b, k)|
                 && Flushed(b, serverName) == Flushed(From(b, k)[|records[k].content| - 65531..], serverName)
  {
    var k, records := FirstBad(Parse(b), serverName), Parse(b);
    FlushedFrom(b, serverName, k);
    ParseFrom(b, k);
    if k < |records| && Misaligns(records[k]) {
      FlushedStep(From(b, k), From(b, k)[|records[k].content| - 65531..], serverName);
    }
  }

  function Zeros(n: nat): (z: seq<Byte>)
    ensures |z| == n && forall i | 0 <= i < n :: z[i] == 0
  {
    seq(n, _ => 0)
  }

  lemma ZerosStep(n: nat, serverName: NameParser)
    requires 5 <= n
    ensures Flushed(Zeros(n), serverName) == Flushed(Zeros(n - 5), serverName)
  {
    assert ParseTlsHeader(Zeros(n)) == TlsHeader(0, 0, 0);
    assert Zeros(n)[5..] == Zeros(n - 5);
    FlushedStep(Zeros(n), Zeros(n - 5), serverName);
  }

  /** Zero bytes are empty records of type 0. */
  lemma {:induction false} ZerosLeave(n: nat, serverName: NameParser)
    ensures Flushed(Zeros(n), serverName) == Ending(None, Zeros(n % 5))
  {
    if 5 <= n {
      ZerosStep(n, serverName);
      ZerosLeave(n - 5, serverName);
      assert (n - 5) % 5 == n % 5;
    }
  }

  /** One whole record of application data, with 65532 zero bytes, leaves its last four in the buffer. */
  lemma MisalignedRecordStays(serverName: NameParser)
    ensures var r := Record(23, 771, Zeros(65532));
            && Parse(Wire(r)) == [r] && Remainder(Wire(r)) == []
            && Flushed(Wire(r), serverName) == Ending(None, Zeros(4))
  {
    var r := Record(23, 771, Zeros(65532));
    var b := Wire(r);
    FirstOfWire(r, []);
    assert b + [] == b;
    assert b == [23, 3, 3, 255, 252] + Zeros(65532);
    var inside := b[1..];
    assert inside == [3, 3, 255, 252] + Zeros(65532);
    assert ParseTlsHeader(inside) == TlsHeader(3, 1023, 64512);
    assert inside[64517..] == Zeros(1019);
    FlushedStep(b, inside, serverName);
    FlushedStep(inside, Zeros(1019), serverName);
    ZerosLeave(1019, serverName);
  }

  // ---- where a ClientHello is cut

  /** The cuts inside the server name: `step` bytes each, the last one shorter. */
  function MiddleCuts(i: nat, step: nat, end: nat): seq<Span>
    requires 0 < step
    decreases end - i
  {
    if end <= i then [] else [Span(i, Min(i + step, end))] + MiddleCuts(i + step, step, end)
  }

  /** All pieces of a message of n bytes. */
  function Cuts(name: Span, split: nat, step: nat, n: nat): seq<Span>
    requires 0 < step
  {
    [Span(0, split)] + MiddleCuts(split, step, name.end) + [Span(name.end, n)]
  }

  /** What the two random draws can give. */
  predicate Drawn(name: Span, split: nat, step: nat) {
    name.start <= split < (name.start + name.end) / 2 && 1 <= step && split + step <= name.end
  }

  /** A name is too short exactly when the draws have nothing to draw from. */
  lemma TooShortHasNoDraw(name: Span)
    ensures TooShort(Some(name)) <==> !exists split, step :: Drawn(name, split, step)
  {
    if !TooShort(Some(name)) {
      assert Drawn(name, name.start, 1);
    }
  }

  /** The pieces are the cuts of the content. */
  ghost predicate CutAt(pieces: seq<Record>, content: seq<Byte>, cuts: seq<Span>) {
    && |pieces| == |cuts|
    && forall k | 0 <= k < |cuts| ::
         cuts[k].start <= cuts[k].end <= |content| && pieces[k].content == content[cuts[k].start..cuts[k].end]
  }

  predicate HoldsName(cut: Span, name: Span) { cut.start <= name.start && name.end <= cut.end }

  lemma {:induction false} MiddleHolds(i: nat, step: nat, name: Span)
    requires 0 < step && name.start <= i && name.start < name.end
    ensures (exists c <- MiddleCuts(i, step, name.end) :: HoldsName(c, name))
            <==> i == name.start && name.end <= i + step
    decreases name.end - i
  {
    if i < name.end {
      var cuts := MiddleCuts(i, step, name.end);
      MiddleHolds(i + step, step, name);
      assert cuts[0] in cuts && forall c | c in MiddleCuts(i + step, step, name.end) :: c in cuts;
      assert forall c | c in cuts :: c == cuts[0] || c in MiddleCuts(i + step, step, name.end);
    }
  }

  /** Some piece holds the whole server name if and only if it is cut at its start and the step is its length. */
  lemma NameStaysWhole(name: Span, split: nat, step: nat, n: nat)
    requires name.start + 2 <= name.end <= n && Drawn(name, split, step)
    ensures (exists c <- Cuts(name, split, step, n) :: HoldsName(c, name))
            <==> split == name.start && step == name.end - name.start
  {
    var cuts, middle := Cuts(name, split, step, n), MiddleCuts(split, step, name.end);
    MiddleHolds(split, step, name);
    assert forall c | c in middle :: c in cuts;
    assert forall c | c in cuts :: c == Span(0, split) || c in middle || c == Span(name.end, n);
  }

  /** The draws that leave a name of two bytes in one piece. */
  lemma ShortNameCanStayWhole()
    ensures Drawn(Span(5, 7), 5, 2) && HoldsName(Cuts(Span(5, 7), 5, 2, 9)[1], Span(5, 7))
  {
    assert MiddleCuts(5, 2, 7) == [Span(5, 7)] + MiddleCuts(7, 2, 7);
  }

  /** How one record is written: a ClientHello is cut around its server name with `fragment`, and nothing else is. */
  ghost predicate SentAs(pieces: seq<Record>, r: Record, serverName: NameParser, fragment: bool) {
    && Splits(pieces, r)
    && (if fragment && r.contentType == HANDSHAKE && serverName(r.content).Some? then
          exists split, step :: CutDrawn(pieces, r.content, serverName(r.content).value, split, step)
        else pieces == [r])
  }

  ghost predicate CutDrawn(pieces: seq<Record>, content: seq<Byte>, name: Span, split: nat, step: nat) {
    Drawn(name, split, step) && CutAt(pieces, content, Cuts(name, split, step, |content|))
  }

  /** The wire carries the records, group by group, and they make up the input with the buffer. */
  ghost predicate Accounts(
      input: seq<Byte>, wire: seq<Byte>, buffer: seq<Byte>, records: seq<Record>, groups: seq<seq<Record>>,
      serverName: NameParser, fragment: bool)
  {
    && AllFit(records) && input == Serialize(records) + buffer
    && wire == Serialize(Flat(groups)) && AllSent(groups, records, serverName, fragment)
  }

  /** Each group is what was written for its record. */
  ghost predicate AllSent(groups: seq<seq<Record>>, records: seq<Record>, serverName: NameParser, fragment: bool) {
    && |groups| == |records|
    && (groups == [] ||
        (SentAs(groups[|groups|-1], records[|records|-1], serverName, fragment)
         && AllSent(groups[..|groups|-1], records[..|records|-1], serverName, fragment)))
  }

  lemma {:induction false} AllSentAt(groups: seq<seq<Record>>, records: seq<Record>, serverName: NameParser, fragment: bool)
    requires AllSent(groups, records, serverName, fragment)
    ensures AllFit(Flat(groups))
    ensures forall k | 0 <= k < |records| :: SentAs(groups[k], records[k], serverName, fragment)
  {
    if groups != [] {
      AllSentAt(groups[..|groups|-1], records[..|records|-1], serverName, fragment);
      forall k | 0 <= k < |records| ensures SentAs(groups[k], records[k], serverName, fragment) {
        if k < |records| - 1 { assert groups[..|groups|-1][k] == groups[k] && records[..|records|-1][k] == records[k]; }
      }
    }
  }

  class ResilientTlsConn {
    const tcp: bool
    const fragment: bool
    const reorder: bool
    /** The offsets that parsing a ClientHello gives; None for any other handshake message. */
    const serverName: NameParser
    var buffer: seq<Byte>
    var enabled: bool
    /** Everything written to the underlying connection. */
    var wire: seq<Byte>

    ghost var input: seq<Byte>
    ghost var records: seq<Record>
    ghost var groups: seq<seq<Record>>
    /** The input and the wire when the splitter was switched off, and what was written since. */
    ghost var offInput: seq<Byte>
    ghost var offWire: seq<Byte>
    ghost var direct: seq<Byte>

    /** The offsets are in range. */
    ghost predicate GoodSpans() {
      forall c :: serverName(c).Some? ==> serverName(c).value.start <= serverName(c).value.end <= |c|
    }

    /** What was written carries the whole records of the input; the buffer has the rest. */
    ghost predicate Valid()
      reads this
    {
      Accounts(input, wire, buffer, records, groups, serverName, fragment)
    }

    /** Since the splitter is off, what is written goes to the wire as it is. */
    ghost predicate Passes()
      reads this
    {
      && Accounts(offInput, offWire, buffer, records, groups, serverName, fragment)
      && input == offInput + direct && wire == offWire + direct
    }

    constructor (tcp: bool, fragment: bool, reorder: bool, serverName: NameParser)
      ensures Valid() && enabled && input == [] && buffer == [] && this.serverName == serverName
    {
      this.tcp, this.fragment, this.reorder, this.serverName := tcp, fragment, reorder, serverName;
      buffer, enabled, wire, input, records, groups := [], true, [], [], [], [];
      offInput, offWire, direct := [], [], [];
    }

    method Off()
      modifies `enabled, `offInput, `offWire, `direct
      ensures !enabled
      ensures old(if enabled then Valid() else Passes()) ==> Passes()
      ensures old(enabled) ==> offInput == input && direct == []
    {
      if enabled {
        offInput, offWire, direct := input, wire, [];
      }
      enabled := false;
    }

    method Emit(b: seq<Byte>)
      modifies `wire
      ensures wire == old(wire) + b
    {
      wire := wire + b;
    }

    /** Writes one record in several around and inside the server name. */
    method WriteFragments(h: TlsHeader, content: seq<Byte>, span: Span)
      returns (ghost pieces: seq<Record>, ghost drawnSplit: nat, ghost drawnStep: nat)
      requires |content| < 65536 && span.start + 2 <= span.end <= |content|
      modifies `wire
      ensures wire == old(wire) + Serialize(pieces)
      ensures Splits(pieces, Record(h.contentType, h.tlsVersion, content))
      ensures CutDrawn(pieces, content, span, drawnSplit, drawnStep)
      ensures 0 < span.start ==> (NoneEmpty(pieces) <==> span.end < |content|)
    {
      var split: nat :| span.start <= split < (span.start + span.end) / 2;
      var step: nat :| 1 <= step <= span.end - split;
      drawnSplit, drawnStep := split, step;
      pieces := WriteCuts(h, content, span, split, step);
    }

    method WriteCuts(h: TlsHeader, content: seq<Byte>, span: Span, split: nat, step: nat) returns (ghost pieces: seq<Record>)
      requires span.start <= split < span.end <= |content| < 65536 && 0 < step
      modifies `wire
      ensures wire == old(wire) + Serialize(pieces)
      ensures Splits(pieces, Record(h.contentType, h.tlsVersion, content))
      ensures CutAt(pieces, content, Cuts(span, split, step, |content|))
      ensures 0 < span.start ==> (NoneEmpty(pieces) <==> span.end < |content|)
    {
      ghost var cuts;
      pieces, cuts := WritePiece(h, content, [], [], 0, split, old(wire));
      NoneCut(h, content, pieces, cuts, span, split, step);
      var i := split;
      while i < span.end
        invariant Cutting(h, content, pieces, cuts, span, split, step, i)
        invariant wire == old(wire) + Serialize(pieces)
        decreases span.end - i
      {
        pieces, cuts := WriteStep(h, content, pieces, cuts, span, split, step, i, old(wire));
        i := i + step;
      }
      AllCut(h, content, pieces, cuts, span, split, step, i);
      pieces, cuts := WritePiece(h, content, pieces, cuts, span.end, |content|, old(wire));
      assert content[..|content|] == content;
    }

    method WriteStep(h: TlsHeader, content: seq<Byte>, ghost pieces: seq<Record>, ghost cuts: seq<Span>, span: Span,
                     ghost split: nat, step: nat, i: nat, ghost before: seq<Byte>)
      returns (ghost more: seq<Record>, ghost moreCuts: seq<Span>)
      requires 0 < step && i < span.end <= |content| < 65536 && Cutting(h, content, pieces, cuts, span, split, step, i)
      requires wire == before + Serialize(pieces)
      modifies `wire
      ensures Cutting(h, content, more, moreCuts, span, split, step, i + step) && wire == before + Serialize(more)
    {
      JoinCuts(cuts, i, step, span.end);
      more, moreCuts := WritePiece(h, content, pieces, cuts, i, Min(i + step, span.end), before);
    }

    /** Writes the bytes from i to j as one record. */
    method WritePiece(h: TlsHeader, content: seq<Byte>, ghost pieces: seq<Record>, ghost cuts: seq<Span>, i: nat, j: nat,
                      ghost before: seq<Byte>)
      returns (ghost more: seq<Record>, ghost moreCuts: seq<Span>)
      requires i <= j <= |content| < 65536 && Carried(h, content, pieces, cuts, i) && wire == before + Serialize(pieces)
      modifies `wire
      ensures NoneEmpty(more) <==> NoneEmpty(pieces) && i < j
      ensures Carried(h, content, more, moreCuts, j) && wire == before + Serialize(more)
      ensures moreCuts == cuts + [Span(i, j)]
    {
      Emit(Reconstruct(h, content[i..j]));
      more := pieces + [Record(h.contentType, h.tlsVersion, content[i..j])];
      moreCuts := cuts + [Span(i, j)];
      CarriedMore(h, content, pieces, cuts, i, j);
      Associative(before, Serialize(pieces), Reconstruct(h, content[i..j]));
    }

    /** Writes some bytes in blocks of 64. */
    method WriteBlocks(b: seq<Byte>)
      modifies `wire
      ensures wire == old(wire) + b
    {
      var i := 0;
      while i * 64 < |b|
        invariant 0 <= i && wire == old(wire) + b[..Min(i * 64, |b|)]
        decreases |b| - i * 64
      {
        var j := Min((i + 1) * 64, |b|);
        assert b[..j] == b[..i * 64] + b[i * 64..j];
        Associative(old(wire), b[..i * 64], b[i * 64..j]);
        Emit(b[i * 64..j]);
        i := i + 1;
      }
      assert b[..|b|] == b;
    }

    /** Writes a ClientHello; the pieces carry its content. */
    method WriteHello(h: TlsHeader, content: seq<Byte>, span: Span) returns (ghost pieces: seq<Record>)
      requires |content| < 65536 && span.start + 2 <= span.end <= |content|
      requires h.contentType == HANDSHAKE && serverName(content) == Some(span)
      modifies `wire
      ensures wire == old(wire) + Serialize(pieces)
      ensures SentAs(pieces, Record(h.contentType, h.tlsVersion, content), serverName, fragment)
    {
      if fragment {
        ghost var split, step;
        pieces, split, step := WriteFragments(h, content, span);
      } else {
        if tcp && reorder {
          WriteBlocks(Reconstruct(h, content));
        } else {
          Emit(Reconstruct(h, content));
        }
        pieces := [Record(h.contentType, h.tlsVersion, content)];
        WholePiece(h, content);
      }
    }

    /** Writes the first record, which is whole, and takes it out of the buffer; None is success. */
    method WriteRecord(ghost aligned: bool) returns (fault: Option<WriteResult>)
      requires GoodSpans() && Complete(buffer) && (aligned ==> Valid())
      modifies `wire, `buffer, `records, `groups
      ensures fault == FaultOf(old(buffer), serverName)
      ensures fault.Some? ==> unchanged(this)
      ensures fault.None? ==> Takes(old(buffer), buffer)
      ensures aligned && Writable(FirstRecord(old(buffer)), serverName) ==>
                Valid() && records == old(records) + [FirstRecord(old(buffer))]
    {
      var h := ParseTlsHeader(buffer);
      var end: int := RecordEnd(h.contentLength);
      RecordEndIsExact(h.contentLength);
      if h.contentType == HANDSHAKE && end < 5 {
        return Some(Panic);
      }
      ghost var before, pieces := wire, [];
      var ok: bool;
      ok, pieces := SendRecord(h, end);
      if !ok {
        return Some(Panic);
      }
      if end == 0 {
        return Some(Loop);
      }
      TakeBytes(end, aligned, before, pieces);
      fault := None;
    }

    /** Takes the first `end` bytes out of the buffer; with a whole record its pieces are booked. */
    method TakeBytes(end: nat, ghost aligned: bool, ghost before: seq<Byte>, ghost pieces: seq<Record>)
      requires Complete(buffer) && end <= |buffer|
      requires aligned ==> Accounts(input, before, buffer, records, groups, serverName, fragment)
      requires end == 5 + ParseTlsHeader(buffer).contentLength ==>
                 wire == before + Serialize(pieces) && SentAs(pieces, FirstRecord(buffer), serverName, fragment)
      modifies `buffer, `records, `groups
      ensures buffer == old(buffer)[end..]
      ensures aligned && end == 5 + ParseTlsHeader(old(buffer)).contentLength ==>
                Valid() && records == old(records) + [FirstRecord(old(buffer))]
    {
      if aligned && end == 5 + ParseTlsHeader(buffer).contentLength {
        Account(before, pieces);
      }
      buffer := buffer[end..];
    }

    /** Books the first record of the buffer as written. */
    ghost method Account(before: seq<Byte>, pieces: seq<Record>)
      requires Accounts(input, before, buffer, records, groups, serverName, fragment) && wire == before + Serialize(pieces)
      requires Complete(buffer) && SentAs(pieces, FirstRecord(buffer), serverName, fragment)
      modifies `records, `groups
      ensures records == old(records) + [FirstRecord(buffer)]
      ensures Accounts(input, wire, buffer[5 + ParseTlsHeader(buffer).contentLength..], records, groups, serverName,
                       fragment)
    {
      TakeRecord(input, before, buffer, records, groups, pieces, serverName, fragment);
      records, groups := records + [FirstRecord(buffer)], groups + [pieces];
    }

    /** Writes the first `end` bytes of the buffer, a ClientHello in pieces; false is a panic. */
    method SendRecord(h: TlsHeader, end: nat) returns (ok: bool, ghost pieces: seq<Record>)
      requires GoodSpans() && Complete(buffer) && h == ParseTlsHeader(buffer)
      requires end == RecordEnd(h.contentLength) && (h.contentType == HANDSHAKE ==> 5 <= end)
      modifies `wire
      ensures ok <==> h.contentType == HANDSHAKE ==> !TooShort(serverName(FirstRecord(buffer).content))
      ensures !ok || end == 0 ==> wire == old(wire)
      ensures h.contentType != HANDSHAKE ==> wire == old(wire) + buffer[..end]
      ensures ok && h.contentLength <= 65530 ==>
                wire == old(wire) + Serialize(pieces) && SentAs(pieces, FirstRecord(buffer), serverName, fragment)
    {
      FirstRecordWire(buffer);
      RecordEndIsExact(h.contentLength);
      pieces := [FirstRecord(buffer)];
      WholePiece(h, FirstRecord(buffer).content);
      ok := true;
      if h.contentType == HANDSHAKE {
        var span := serverName(buffer[5..end]);
        if TooShort(span) {
          return false, [];
        }
        if span.Some? {
          pieces := WriteHello(h, buffer[5..end], span.value);
          return;
        }
      }
      Emit(buffer[..end]);
    }

    /**
     Buffers the bytes and writes every record that is whole. The result and the buffer are those of the
     rounds; up to the first record that is not writable the records are carried, and its kind decides the end.
     */
    method Write(b: seq<Byte>) returns (r: WriteResult)
      requires enabled ==> GoodSpans()
      modifies `wire, `buffer, `input, `records, `groups, `direct
      ensures input == old(input) + b
      ensures !old(enabled) ==>
                && wire == old(wire) + b && buffer == old(buffer) && r == Written(|b|)
                && (old(Passes()) ==> Passes())
      ensures old(enabled) ==>
                var e := Flushed(old(buffer) + b, serverName);
                buffer == e.rest && r == if e.fault.Some? then e.fault.value else Written(|b|)
      ensures old(enabled && Valid()) && !MisalignsAtFirstBad(old(buffer) + b, serverName) ==>
                CarriedTo(old(buffer) + b, FirstBad(Parse(old(buffer) + b), serverName), old(records))
    {
      if !enabled {
        Emit(b);
        Associative(offInput, direct, b);
        Associative(offWire, direct, b);
        input, direct := input + b, direct + b;
        return Written(|b|);
      }
      Associative(Serialize(records), buffer, b);
      buffer, input := buffer + b, input + b;
      var fault := Flush();
      r := if fault.Some? then fault.value else Written(|b|);
    }

    /** The first n of the records were written, and the bytes after them are in the buffer. */
    ghost predicate CarriedTo(all: seq<Byte>, n: nat, before: seq<Record>)
      reads this
    {
      n <= FirstBad(Parse(all), serverName) && Valid() && records == before + Parse(all)[..n] && buffer == From(all, n)
    }

    /** One round; `still` says that it took exactly the record. */
    method Round(ghost all: seq<Byte>, ghost n: nat, ghost before: seq<Record>, ghost aligned: bool)
      returns (fault: Option<WriteResult>, ghost still: bool)
      requires GoodSpans() && Complete(buffer) && (aligned ==> CarriedTo(all, n, before))
      modifies `wire, `buffer, `records, `groups
      ensures fault.Some? ==> unchanged(this) && Flushed(buffer, serverName) == Ending(fault, buffer)
      ensures fault.None? ==>
                |buffer| < |old(buffer)| && Flushed(buffer, serverName) == Flushed(old(buffer), serverName)
      ensures aligned && fault.Some? ==> n == FirstBad(Parse(all), serverName) && CarriedTo(all, n, before)
      ensures aligned && fault.None? && still ==> CarriedTo(all, n + 1, before)
      ensures aligned && fault.None? && !still ==> MisalignsAtFirstBad(all, serverName)
    {
      ghost var b, written := buffer, records;
      still := Writable(FirstRecord(b), serverName);
      fault := WriteRecord(aligned);
      if fault.None? {
        FlushedStep(b, buffer, serverName);
      }
      if aligned {
        if still {
          CarriesOne(all, n, before, written, b, buffer, serverName);
        } else {
          StandsAtBad(all, n, b, serverName);
        }
      }
    }

    /** Writes every whole record of the buffer. */
    method Flush() returns (fault: Option<WriteResult>)
      requires GoodSpans()
      modifies `wire, `buffer, `records, `groups
      ensures Ending(fault, buffer) == Flushed(old(buffer), serverName)
      ensures old(Valid()) && !MisalignsAtFirstBad(old(buffer), serverName) ==>
                CarriedTo(old(buffer), FirstBad(Parse(old(buffer)), serverName), old(records))
    {
      ghost var all, n, aligned := buffer, 0, Valid();
      assert records == records + Parse(all)[..0];
      while Complete(buffer)
        invariant Flushed(buffer, serverName) == Flushed(all, serverName)
        invariant aligned ==> CarriedTo(all, n, old(records))
        invariant old(Valid()) && !aligned ==> MisalignsAtFirstBad(all, serverName)
        decreases |buffer|
      {
        ghost var still;
        fault, still := Round(all, n, old(records), aligned);
        if fault.Some? {
          return;
        }
        n, aligned := n + 1, aligned && still;
      }
      if aligned {
        AllTaken(all, serverName, n);
      }
      fault := None;
    }

    /**
     Once the splitter is off, the wire carries all of the input after the split records if and only if the
     input did not stop inside a record; the bytes that waited in the buffer are never written.
     */
    lemma OffLosesTheBuffer()
      requires Passes()
      ensures wire == Serialize(Flat(groups)) + input[|Serialize(records)|..] <==> buffer == []
      ensures !Complete(buffer) ==> buffer == Remainder(offInput)
    {
      assert input[|Serialize(records)|..] == buffer + direct;
      if !Complete(buffer) {
        ParseSerialize(records, buffer);
      }
    }

    /** Between writes, what a receiver parses is the input, piece by piece, and the rest is in the buffer. */
    lemma StreamPreserved()
      requires Valid() && !Complete(buffer)
      ensures Parse(input) == records && Remainder(input) == buffer
      ensures Parse(wire) == Flat(groups) && Remainder(wire) == []
      ensures |groups| == |records|
      ensures forall k | 0 <= k < |records| :: SentAs(groups[k], records[k], serverName, fragment)
    {
      ParseSerialize(records, buffer);
      AllSentAt(groups, records, serverName, fragment);
      ParseSerialize(Flat(groups), []);
      assert wire + [] == wire;
    }
  }

  /** Moving the first record from the buffer to the wire keeps the accounts. */
  lemma TakeRecord(
      input: seq<Byte>, wire: seq<Byte>, buffer: seq<Byte>, records: seq<Record>, groups: seq<seq<Record>>,
      pieces: seq<Record>, serverName: NameParser, fragment: bool)
    requires Accounts(input, wire, buffer, records, groups, serverName, fragment)
    requires Complete(buffer) && SentAs(pieces, FirstRecord(buffer), serverName, fragment)
    ensures Accounts(input, wire + Serialize(pieces), buffer[5 + ParseTlsHeader(buffer).contentLength..],
                     records + [FirstRecord(buffer)], groups + [pieces], serverName, fragment)
  {
    var r, n: int := FirstRecord(buffer), 5 + ParseTlsHeader(buffer).contentLength;
    FirstRecordWire(buffer);
    assert (records + [r])[..|records|] == records && (groups + [pieces])[..|groups|] == groups;
    assert buffer == buffer[..n] + buffer[n..];
    Associative(Serialize(records), buffer[..n], buffer[n..]);
    SerializeConcat(Flat(groups), pieces);
  }

  /** Section 5.1 of RFC 8446 forbids empty handshake fragments. */
  ghost predicate NoneEmpty(pieces: seq<Record>) {
    forall k | 0 <= k < |pieces| :: pieces[k].content != []
  }

  /** The pieces carry the first n bytes, cut at the given places. */
  ghost predicate Carried(h: TlsHeader, content: seq<Byte>, pieces: seq<Record>, cuts: seq<Span>, n: nat)
    requires n <= |content|
  {
    Splits(pieces, Record(h.contentType, h.tlsVersion, content[..n])) && CutAt(pieces, content, cuts)
  }

  /** The cuts up to i are made; those inside the name go on from there. */
  ghost predicate Cutting(h: TlsHeader, content: seq<Byte>, pieces: seq<Record>, cuts: seq<Span>, name: Span,
                          split: nat, step: nat, i: nat)
    requires 0 < step && name.end <= |content|
  {
    && Carried(h, content, pieces, cuts, Min(i, name.end))
    && (0 < name.start ==> NoneEmpty(pieces))
    && cuts + MiddleCuts(i, step, name.end) == [Span(0, split)] + MiddleCuts(split, step, name.end)
  }

  lemma NoneCut(h: TlsHeader, content: seq<Byte>, pieces: seq<Record>, cuts: seq<Span>, name: Span, split: nat, step: nat)
    requires 0 < step && name.start <= split < name.end <= |content|
    requires Carried(h, content, pieces, cuts, split) && cuts == [] + [Span(0, split)]
    requires NoneEmpty(pieces) <==> NoneEmpty([]) && 0 < split
    ensures Cutting(h, content, pieces, cuts, name, split, step, split)
  {
    assert Min(split, name.end) == split;
  }

  lemma AllCut(h: TlsHeader, content: seq<Byte>, pieces: seq<Record>, cuts: seq<Span>, name: Span, split: nat, step: nat,
               i: nat)
    requires 0 < step && name.end <= i && name.end <= |content|
    requires Cutting(h, content, pieces, cuts, name, split, step, i)
    ensures Carried(h, content, pieces, cuts, name.end) && (0 < name.start ==> NoneEmpty(pieces))
    ensures cuts + [Span(name.end, |content|)] == Cuts(name, split, step, |content|)
  {
    assert cuts + [] == cuts;
  }

  lemma JoinCuts(cuts: seq<Span>, i: nat, step: nat, end: nat)
    requires 0 < step && i < end
    ensures cuts + MiddleCuts(i, step, end)
            == cuts + [Span(i, Min(i + step, end))] + MiddleCuts(i + step, step, end)
  {
  }

  lemma CarriedMore(h: TlsHeader, content: seq<Byte>, pieces: seq<Record>, cuts: seq<Span>, i: nat, j: nat)
    requires i <= j <= |content| < 65536 && Carried(h, content, pieces, cuts, i)
    ensures var piece := Record(h.contentType, h.tlsVersion, content[i..j]);
            Carried(h, content, pieces + [piece], cuts + [Span(i, j)], j)
            && Serialize(pieces + [piece]) == Serialize(pieces) + Reconstruct(h, content[i..j])
            && (NoneEmpty(pieces + [piece]) <==> NoneEmpty(pieces) && i < j)
  {
    var piece := Record(h.contentType, h.tlsVersion, content[i..j]);
    assert (pieces + [piece])[..|pieces|] == pieces;
    assert content[..j] == content[..i] + content[i..j];
    assert (pieces + [piece])[|pieces|] == piece && |piece.content| == j - i;
    forall k | 0 <= k < |pieces| ensures (pieces + [piece])[k] == pieces[k] {
    }
  }

  lemma WholePiece(h: TlsHeader, content: seq<Byte>)
    requires |content| < 65536
    ensures var r := Record(h.contentType, h.tlsVersion, content);
            Splits([r], r) && Serialize([r]) == Reconstruct(h, content)
  {
    var r := Record(h.contentType, h.tlsVersion, content);
    assert [r][..0] == [] && Serialize([r]) == [] + Wire(r) && Content([r]) == [] + content;
  }
}
