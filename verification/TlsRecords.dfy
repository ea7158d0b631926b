/** Records of TLS (section 5.1 of RFC 8446) as bytes: a type, a version and a length before the content. */
module TlsRecords {
  import opened Basics

  type U16 = x: int | 0 <= x < 65536

  const HANDSHAKE: Byte := 22

  datatype TlsHeader = TlsHeader(contentType: Byte, tlsVersion: U16, contentLength: U16)

  datatype Record = Record(contentType: Byte, tlsVersion: U16, content: seq<Byte>)

  function PutU16(n: U16): seq<Byte> { [n / 256, n % 256] }

  function GetU16(high: Byte, low: Byte): U16 { high * 256 + low }

  function ParseTlsHeader(b: seq<Byte>): TlsHeader
    requires 5 <= |b|
  {
    TlsHeader(b[0], GetU16(b[1], b[2]), GetU16(b[3], b[4]))
  }

  /** The record under another record's header; the length is one of 16 bits. */
  function Reconstruct(h: TlsHeader, content: seq<Byte>): (b: seq<Byte>)
    ensures |b| == 5 + |content|
  {
    [h.contentType] + PutU16(h.tlsVersion) + PutU16(|content| % 65536) + content
  }

  predicate Fits(r: Record) { |r.content| < 65536 }

  function Wire(r: Record): seq<Byte> {
    Reconstruct(TlsHeader(r.contentType, r.tlsVersion, 0), r.content)
  }

  function Serialize(records: seq<Record>): seq<Byte> {
    if records == [] then [] else Serialize(records[..|records|-1]) + Wire(records[|records|-1])
  }

  /** The bytes start with a whole record. */
  predicate Complete(b: seq<Byte>) {
    5 <= |b| && 5 + ParseTlsHeader(b).contentLength <= |b|
  }

  function FirstRecord(b: seq<Byte>): (r: Record)
    requires Complete(b)
    ensures Fits(r)
  {
    var h := ParseTlsHeader(b);
    Record(h.contentType, h.tlsVersion, b[5..5 + h.contentLength])
  }

  lemma FirstRecordWire(b: seq<Byte>)
    requires Complete(b)
    ensures Wire(FirstRecord(b)) == b[..5 + ParseTlsHeader(b).contentLength]
  {
    var n: int := ParseTlsHeader(b).contentLength;
    PutGet(b[1], b[2]);
    PutGet(b[3], b[4]);
    assert |b[5..5 + n]| == n;
    assert b[..5 + n] == [b[0]] + [b[1], b[2]] + [b[3], b[4]] + b[5..5 + n];
  }

  lemma PutGet(high: Byte, low: Byte)
    ensures PutU16(GetU16(high, low)) == [high, low]
  {
  }

  lemma FirstOfWire(r: Record, rest: seq<Byte>)
    requires Fits(r)
    ensures Complete(Wire(r) + rest) && FirstRecord(Wire(r) + rest) == r
    ensures (Wire(r) + rest)[5 + |r.content|..] == rest
  {
    var b := Wire(r) + rest;
    assert b[0] == r.contentType && b[1] == r.tlsVersion / 256 && b[2] == r.tlsVersion % 256;
    assert b[3] == |r.content| / 256 && b[4] == |r.content| % 256;
    assert ParseTlsHeader(b).contentLength == |r.content|;
  }

  /** Numbers are big-endian: one byte of type, two of version, two of length, then the content. */
  lemma WireLayout(r: Record)
    requires Fits(r)
    ensures var b := Wire(r);
            && |b| == 5 + |r.content| && b[0] == r.contentType && b[5..] == r.content
            && 256 * (b[1] as int) + b[2] as int == r.tlsVersion && 256 * (b[3] as int) + b[4] as int == |r.content|
  {
    FirstOfWire(r, []);
    assert Wire(r) + [] == Wire(r);
  }

  /** The whole records at the start of some bytes. */
  function Parse(b: seq<Byte>): seq<Record>
    decreases |b|
  {
    if !Complete(b) then [] else [FirstRecord(b)] + Parse(b[5 + ParseTlsHeader(b).contentLength..])
  }

  /** What is left after the whole records. */
  function Remainder(b: seq<Byte>): (rest: seq<Byte>)
    ensures !Complete(rest)
    decreases |b|
  {
    if !Complete(b) then b else Remainder(b[5 + ParseTlsHeader(b).contentLength..])
  }

  ghost predicate AllFit(records: seq<Record>) {
    forall k | 0 <= k < |records| :: Fits(records[k])
  }

  lemma {:induction false} SerializeCons(r: Record, records: seq<Record>)
    ensures Serialize([r] + records) == Wire(r) + Serialize(records)
  {
    var all, n := [r] + records, |records|;
    if records == [] {
      assert all[..n] == [];
    } else {
      assert all[..n] == [r] + records[..n - 1] && all[n] == records[n - 1];
      SerializeCons(r, records[..n - 1]);
      assert Serialize(all) == (Wire(r) + Serialize(records[..n - 1])) + Wire(records[n - 1]);
    }
  }

  /** A receiver that parses the bytes of some records finds them again, whatever incomplete bytes follow. */
  lemma {:induction false} ParseSerialize(records: seq<Record>, rest: seq<Byte>)
    requires AllFit(records) && !Complete(rest)
    ensures Parse(Serialize(records) + rest) == records && Remainder(Serialize(records) + rest) == rest
    decreases |records|
  {
    if records == [] {
      assert Serialize(records) + rest == rest;
    } else {
      var r, tail := records[0], records[1..];
      assert [r] + tail == records;
      SerializeCons(r, tail);
      assert Serialize(records) + rest == Wire(r) + (Serialize(tail) + rest);
      FirstOfWire(r, Serialize(tail) + rest);
      ParseSerialize(tail, rest);
    }
  }

  /** The contents one after the other. */
  function Content(records: seq<Record>): seq<Byte> {
    if records == [] then [] else Content(records[..|records|-1]) + records[|records|-1].content
  }

  /** The records carry the content of one record, in order, under its type and version. */
  ghost predicate Splits(pieces: seq<Record>, r: Record) {
    && AllFit(pieces) && Content(pieces) == r.content
    && forall k | 0 <= k < |pieces| :: pieces[k].contentType == r.contentType && pieces[k].tlsVersion == r.tlsVersion
  }

  function Flat(groups: seq<seq<Record>>): seq<Record> {
    if groups == [] then [] else Flat(groups[..|groups|-1]) + groups[|groups|-1]
  }

  lemma Associative(a: seq<Byte>, b: seq<Byte>, c: seq<Byte>)
    ensures a + (b + c) == (a + b) + c
  {
  }

  lemma {:induction false} SerializeConcat(a: seq<Record>, b: seq<Record>)
    ensures Serialize(a + b) == Serialize(a) + Serialize(b)
  {
    if b == [] {
      assert a + b == a;
    } else {
      var n := |b| - 1;
      assert (a + b)[..|a + b| - 1] == a + b[..n] && (a + b)[|a + b| - 1] == b[n];
      SerializeConcat(a, b[..n]);
      Associative(Serialize(a), Serialize(b[..n]), Wire(b[n]));
    }
  }
}
