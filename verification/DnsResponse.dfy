/** Packets as DNS answers: the pump header in the name, the header and the data in one or two texts. */
module DnsResponse {
  import opened BaseEncoding
  import opened Basics
  import opened DnsCodec
  import opened Options

  /** The answers that carry a header and a chunk. */
  function ResponseAnswers(pumpHeader: Header, header: Header, chunk: seq<Byte>, tld: string): seq<Answer>
    requires |tld| <= 173
  {
    var name, n := PumpName(Base32, pumpHeader, tld), FirstTextBytes(chunk, tld);
    var first := Answer(true, name, [Encode(Base64, header) + Encode(Base64, chunk[..n])]);
    if n < |chunk| then [first, Answer(true, name, [Encode(Base64, chunk[n..])])] else [first]
  }

  /** How much of the data goes with the header into the first text. */
  function FirstTextBytes(chunk: seq<Byte>, tld: string): (n: nat)
    requires |tld| <= 173
    ensures n <= |chunk|
  {
    Min(|chunk|, 191 - 18 - |tld|)
  }

  /**
   Encodes the header and as much of the packet as fits; n bytes are consumed. A domain that leaves a
   negative room in the first text is a slice panic, and one that is not in good labels is refused.
   */
  method EncodeResponse(pumpHeader: Header, header: Header, packet: seq<Byte>, tld: string)
    returns (end: EncodeEnd, n: nat, out: seq<Answer>)
    ensures end == if 173 < |tld| then SlicePanic else if LabelsOk(tld) then Encoded else NameRefused
    ensures end.Encoded? ==>
              n == Min(|packet|, 333 - |tld|) && out == ResponseAnswers(pumpHeader, header, packet[..n], tld)
    ensures !end.Encoded? ==> out == []
  {
    var m: int := 191 - |header| - |tld|;
    if m < 0 {
      return SlicePanic, 0, [];
    }
    var name := Encode(Base32, pumpHeader) + "." + tld;
    n := Min(|packet|, m);
    PumpNamePacks(Base32, pumpHeader, tld);
    if !NamePacks(name) {
      return NameRefused, n, [];
    }
    var total;
    total, out := EncodeTexts(header, packet, name, n);
    assert packet[..total][..n] == packet[..n] && packet[..total][n..] == packet[n..total];
    end, n := Encoded, total;
  }

  /** The header and n bytes in one text, and at most 160 more in another. */
  method EncodeTexts(header: Header, packet: seq<Byte>, name: string, n: nat) returns (total: nat, out: seq<Answer>)
    requires n <= |packet|
    ensures total == Min(|packet|, n + 160)
    ensures var first := Answer(true, name, [Encode(Base64, header) + Encode(Base64, packet[..n])]);
            out == if n < |packet| then [first, Answer(true, name, [Encode(Base64, packet[n..total])])] else [first]
  {
    total, out := n, [Answer(true, name, [Encode(Base64, header) + Encode(Base64, packet[..n])])];
    if n < |packet| {
      total := n + Min(|packet| - n, 160);
      out := out + [Answer(true, name, [Encode(Base64, packet[n..total])])];
    }
  }

  function DecodeAnswers(answers: seq<Answer>, tlds: seq<string>, d: Decoded): Decoded {
    if answers == [] || !d.Decoded? then d
    else DecodeAnswers(answers[1..], tlds, DecodeAnswer(answers[0], tlds, d))
  }

  /** Answers under no known domain are skipped; each of the others sets the pump header. */
  function DecodeAnswer(a: Answer, tlds: seq<string>, d: Decoded): Decoded
    requires d.Decoded?
  {
    var tld := MatchTld(a.name, tlds);
    if tld.None? then d
    else
      AfterPump(a, PumpOf(a.name[..|a.name| - |tld.value|]), d)
  }

  function AfterPump(a: Answer, pump: Option<seq<Byte>>, d: Decoded): Decoded
    requires d.Decoded?
  {
    if pump.None? then Corrupt
    else if 18 < |pump.value| then Overrun
    else if a.isText then AppendTexts(a.text, WithPump(d, pump.value))
    else WithPump(d, pump.value)
  }

  function PumpOf(body: string): Option<seq<Byte>> { Decode(Base32, body[..FirstDot(body)]) }

  /** The pump header overwritten from the start. */
  function WithPump(d: Decoded, pump: seq<Byte>): (e: Decoded)
    requires d.Decoded? && |pump| <= 18
    ensures e.Decoded?
  {
    d.(pumpHeader := pump + d.pumpHeader[|pump|..])
  }

  function AppendTexts(text: seq<string>, d: Decoded): Decoded {
    if text == [] || !d.Decoded? then d else AppendTexts(text[1..], AppendText(text[0], d))
  }

  function AppendText(text: string, d: Decoded): Decoded
    requires d.Decoded?
  {
    var data := Decode(Base64, text);
    if data.None? then Corrupt
    else if BUFFER_BYTE_COUNT < |d.data| + |data.value| then Overrun
    else d.(data := d.data + data.value)
  }

  method DecodeResponse(answers: seq<Answer>, tlds: seq<string>) returns (r: Decoded)
    ensures r == DecodeAnswers(answers, tlds, Plain([]))
  {
    r := Plain([]);
    ghost var all := DecodeAnswers(answers, tlds, r);
    for k := 0 to |answers|
      invariant r.Decoded? && DecodeAnswers(answers[k..], tlds, r) == all
    {
      assert answers[k..][1..] == answers[k + 1..];
      r := ReadAnswer(answers[k], tlds, r);
      if !r.Decoded? {
        return;
      }
    }
  }

  method ReadAnswer(a: Answer, tlds: seq<string>, d: Decoded) returns (r: Decoded)
    requires d.Decoded?
    ensures r == DecodeAnswer(a, tlds, d)
  {
    var tld := FindTld(a.name, tlds);
    if tld.None? {
      return d;
    }
    var pump := ReadPump(a.name, |a.name| - |tld.value|);
    r := ReadAfterPump(a, pump, d);
  }

  method ReadAfterPump(a: Answer, pump: Option<seq<Byte>>, d: Decoded) returns (r: Decoded)
    requires d.Decoded?
    ensures r == AfterPump(a, pump, d)
  {
    if pump.None? {
      return Corrupt;
    }
    if 18 < |pump.value| {
      return Overrun;
    }
    r := WithPump(d, pump.value);
    if a.isText {
      r := ReadTexts(a.text, r);
    }
  }

  method ReadPump(name: string, end: nat) returns (pump: Option<seq<Byte>>)
    requires 0 < end <= |name|
    ensures pump == PumpOf(name[..end])
  {
    var j := NextDot(name, 0, end);
    assert name[0..end] == name[..end] && name[..end][..j] == name[..j];
    pump := Decode(Base32, name[..j]);
  }

  method ReadTexts(text: seq<string>, d: Decoded) returns (r: Decoded)
    requires d.Decoded?
    ensures r == AppendTexts(text, d)
  {
    r := d;
    for k := 0 to |text|
      invariant r.Decoded? && AppendTexts(text[k..], r) == AppendTexts(text, d)
    {
      assert text[k..][1..] == text[k + 1..];
      r := AppendText(text[k], r);
      if !r.Decoded? {
        return;
      }
    }
  }

  /** What a response carries comes back from it. */
  lemma ResponseRoundTrip(pumpHeader: Header, header: Header, chunk: seq<Byte>, tld: string, tlds: seq<string>)
    requires Separate(tlds) && tld in tlds && |tld| <= 173 && |chunk| <= 333 - |tld|
    ensures DecodeAnswers(ResponseAnswers(pumpHeader, header, chunk, tld), tlds, Plain([]))
            == Decoded(header + chunk, None, pumpHeader, false)
  {
    var n, answers := FirstTextBytes(chunk, tld), ResponseAnswers(pumpHeader, header, chunk, tld);
    FirstAnswer(pumpHeader, header, chunk[..n], tld, tlds);
    if n < |chunk| {
      AnswerRoundTrip(pumpHeader, chunk[n..], Decoded(header + chunk[..n], None, pumpHeader, false), tld, tlds);
      TwoAnswers(answers[0], answers[1], tlds, Plain([]));
      SplitAppend(header, chunk, n);
    } else {
      assert chunk[..n] == chunk;
      OneAnswer(answers[0], tlds, Plain([]));
    }
  }

  /** The names of a response are packed if and only if the domain is in good labels. */
  lemma ResponseNamesPack(pumpHeader: Header, header: Header, chunk: seq<Byte>, tld: string)
    requires |tld| <= 173
    ensures (forall a <- ResponseAnswers(pumpHeader, header, chunk, tld) :: NamePacks(a.name)) <==> LabelsOk(tld)
  {
    var answers := ResponseAnswers(pumpHeader, header, chunk, tld);
    PumpNamePacks(Base32, pumpHeader, tld);
    assert answers[0] in answers && forall a <- answers :: a.name == PumpName(Base32, pumpHeader, tld);
  }

  lemma FirstAnswer(pumpHeader: Header, header: Header, chunk: seq<Byte>, tld: string, tlds: seq<string>)
    requires Separate(tlds) && tld in tlds && |chunk| <= 173
    ensures var text := Encode(Base64, header) + Encode(Base64, chunk);
            DecodeAnswer(Answer(true, PumpName(Base32, pumpHeader, tld), [text]), tlds, Plain([]))
            == Decoded(header + chunk, None, pumpHeader, false)
  {
    EncodeConcat(Base64, header, chunk);
    AnswerRoundTrip(pumpHeader, header + chunk, Plain([]), tld, tlds);
    assert [] + (header + chunk) == header + chunk;
  }

  /** A text appends its data up to 1024 bytes in all; more is an error. */
  lemma AnswerRoundTrip(pumpHeader: Header, data: seq<Byte>, d: Decoded, tld: string, tlds: seq<string>)
    requires Separate(tlds) && tld in tlds && d.Decoded?
    ensures DecodeAnswer(Answer(true, PumpName(Base32, pumpHeader, tld), [Encode(Base64, data)]), tlds, d)
            == if |d.data| + |data| <= 1024 then d.(data := d.data + data, pumpHeader := pumpHeader) else Overrun
  {
    var piece, text := Encode(Base32, pumpHeader), [Encode(Base64, data)];
    var body := piece + ".";
    MatchIsUnique(body, tld, tlds);
    assert (body + tld)[..|body|] == body && body == body + "";
    DecodeEncode(Base32, pumpHeader);
    FirstDotOf(piece, "");
    DecodeEncode(Base64, data);
    var e := WithPump(d, pumpHeader);
    assert pumpHeader + d.pumpHeader[18..] == pumpHeader;
    assert text[1..] == [] && AppendTexts(text, e) == AppendText(text[0], e);
  }

  /** The name of an answer sets the pump header from its start; more than 18 bytes are an error. */
  lemma NameSetsPump(pump: seq<Byte>, d: Decoded, tld: string, tlds: seq<string>)
    requires Separate(tlds) && tld in tlds && d.Decoded?
    ensures DecodeAnswer(Answer(false, (Encode(Base32, pump) + ".") + tld, []), tlds, d)
            == if 18 < |pump| then Overrun else d.(pumpHeader := pump + d.pumpHeader[|pump|..])
  {
    var piece := Encode(Base32, pump);
    var body := piece + ".";
    MatchIsUnique(body, tld, tlds);
    assert (body + tld)[..|body|] == body && body == body + "";
    DecodeEncode(Base32, pump);
    FirstDotOf(piece, "");
  }

  /** An answer under no known domain is skipped. */
  lemma ForeignAnswerIsSkipped(a: Answer, tlds: seq<string>, d: Decoded)
    requires d.Decoded? && forall tld <- tlds :: !EndsWith(a.name, tld)
    ensures DecodeAnswer(a, tlds, d) == d
  {
    assert MatchTld(a.name, tlds).None?;
  }

  lemma OneAnswer(a: Answer, tlds: seq<string>, d: Decoded)
    requires d.Decoded?
    ensures DecodeAnswers([a], tlds, d) == DecodeAnswer(a, tlds, d)
  {
    assert [a][1..] == [];
  }

  lemma TwoAnswers(a: Answer, b: Answer, tlds: seq<string>, d: Decoded)
    requires d.Decoded? && DecodeAnswer(a, tlds, d).Decoded?
    ensures DecodeAnswers([a, b], tlds, d) == DecodeAnswer(b, tlds, DecodeAnswer(a, tlds, d))
  {
    var e := DecodeAnswer(a, tlds, d);
    assert [a, b][1..] == [b] && [b][1..] == [];
    assert DecodeAnswers([b], tlds, e) == DecodeAnswers([], tlds, DecodeAnswer(b, tlds, e));
  }

  /** A text has at most 255 characters. */
  lemma TextsFit(pumpHeader: Header, header: Header, chunk: seq<Byte>, tld: string, k: nat)
    requires |tld| <= 173 && |chunk| <= 333 - |tld|
    requires k < |ResponseAnswers(pumpHeader, header, chunk, tld)|
    ensures var a := ResponseAnswers(pumpHeader, header, chunk, tld)[k];
            |a.text| == 1 && |a.text[0]| <= 255 && |a.name| == 30 + |tld|
  {
    assert GroupCount(8 * 18, 6) == 24 && GroupCount(8 * 18, 5) == 29;
  }
}
