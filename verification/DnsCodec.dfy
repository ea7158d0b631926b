/**
 Packets as DNS questions and TXT answers.

 A DNS message is its list of questions or answers and a name is a string; packing them into wire
 format is not part of this model.
 */
module DnsCodec {
  import opened BaseEncoding
  import opened Basics
  import opened Options

  type Header = h: seq<Byte> | |h| == 18 witness seq(18, _ => 0)

  /** The size of the buffer that decoded bytes are written to. */
  const BUFFER_BYTE_COUNT := 1024

  datatype Question = Question(isText: bool, name: string)
  datatype Answer = Answer(isText: bool, name: string, text: seq<string>)

  datatype Decoded =
    | Corrupt
    | Overrun
    | Decoded(data: seq<Byte>, tld: Option<string>, pumpHeader: Header, otherData: bool)

  // Names

  function DnsLabel(data: seq<Byte>): string { Encode(Base32Hex, data) + "." }

  /** The data in labels of 30 bytes, each followed by a dot. */
  function Labels(data: seq<Byte>): string
    decreases |data|
  {
    if data == [] then "" else DnsLabel(data[..Min(30, |data|)]) + Labels(data[Min(30, |data|)..])
  }

  /** The length of the text before the first dot. */
  function FirstDot(s: string): (j: nat)
    ensures j <= |s| && '.' !in s[..j] && (j < |s| ==> s[j] == '.')
  {
    if s == "" || s[0] == '.' then 0
    else
      assert s[..1 + FirstDot(s[1..])] == [s[0]] + s[1..][..FirstDot(s[1..])];
      1 + FirstDot(s[1..])
  }

  lemma {:induction false} FirstDotOf(a: string, b: string)
    requires '.' !in a
    ensures FirstDot((a + ".") + b) == |a| && ((a + ".") + b)[|a| + 1..] == b && ((a + ".") + b)[..|a|] == a
  {
    var s := (a + ".") + b;
    if a != "" {
      assert s[0] == a[0] && s[1..] == (a[1..] + ".") + b;
      assert forall c <- a[1..] :: c in a;
      FirstDotOf(a[1..], b);
    }
  }

  predicate EndsWith(name: string, tld: string) {
    |tld| < |name| && name[|name| - |tld|..] == tld && name[|name| - |tld| - 1] == '.'
  }

  /** A name lies under a domain if and only if it is the domain after something that ends in a dot. */
  lemma EndsWithIsExact(name: string, tld: string)
    ensures EndsWith(name, tld)
            <==> exists body: string :: body != "" && body[|body| - 1] == '.' && name == body + tld
  {
    if EndsWith(name, tld) {
      var body := name[..|name| - |tld|];
      assert body != "" && body[|body| - 1] == '.' && name == body + tld;
    }
    if body: string :| body != "" && body[|body| - 1] == '.' && name == body + tld {
      assert name[|name| - |tld|..] == tld && name[|name| - |tld| - 1] == body[|body| - 1];
    }
  }

  /** The first top-level domain under which the name lies. */
  function MatchTld(name: string, tlds: seq<string>): (r: Option<string>)
    ensures r.Some? ==> r.value in tlds && EndsWith(name, r.value)
    ensures r.None? <==> forall tld <- tlds :: !EndsWith(name, tld)
  {
    if tlds == [] then None
    else if EndsWith(name, tlds[0]) then Some(tlds[0])
    else MatchTld(name, tlds[1..])
  }

  lemma {:induction false} MatchIsFirst(name: string, tlds: seq<string>, k: nat)
    requires k < |tlds| && EndsWith(name, tlds[k]) && forall j | 0 <= j < k :: !EndsWith(name, tlds[j])
    ensures MatchTld(name, tlds) == Some(tlds[k])
  {
    if k > 0 {
      forall j | 0 <= j < k - 1 ensures !EndsWith(name, tlds[1..][j]) {
        assert tlds[1..][j] == tlds[j + 1];
      }
      MatchIsFirst(name, tlds[1..], k - 1);
    }
  }

  /** No domain lies under another. */
  ghost predicate Separate(tlds: seq<string>) {
    forall a <- tlds, b <- tlds :: !EndsWith(a, b)
  }

  /** Among separate domains, a name lies under one only. */
  lemma MatchIsUnique(body: string, tld: string, tlds: seq<string>)
    requires Separate(tlds) && tld in tlds && body != "" && body[|body| - 1] == '.'
    ensures MatchTld(body + tld, tlds) == Some(tld)
  {
    var name := body + tld;
    assert EndsWith(name, tld) by {
      assert name[|name| - |tld|..] == tld && name[|name| - |tld| - 1] == body[|body| - 1];
    }
    var t := MatchTld(name, tlds).value;
    if |t| < |tld| {
      NestedIn(name, t, tld);
    } else if |tld| < |t| {
      NestedIn(name, tld, t);
    }
  }

  lemma NestedIn(name: string, a: string, b: string)
    requires EndsWith(name, a) && EndsWith(name, b) && |a| < |b|
    ensures EndsWith(b, a)
  {
    assert b[|b| - |a|..] == name[|name| - |b|..][|b| - |a|..] == name[|name| - |a|..];
    assert b[|b| - |a| - 1] == name[|name| - |b|..][|b| - |a| - 1];
  }

  /** Every name that ends with a dot and one of the domains matches that domain. */
  ghost predicate MatchesItsOwn(tlds: seq<string>) {
    forall body: string, tld | tld in tlds && body != "" && body[|body| - 1] == '.' ::
      MatchTld(body + tld, tlds) == Some(tld)
  }

  /** Names match their own domain if and only if no domain lies under another. */
  lemma MatchesItsOwnExactly(tlds: seq<string>)
    ensures MatchesItsOwn(tlds) <==> Separate(tlds)
  {
    if Separate(tlds) {
      forall body: string, tld | tld in tlds && body != "" && body[|body| - 1] == '.'
        ensures MatchTld(body + tld, tlds) == Some(tld)
      {
        MatchIsUnique(body, tld, tlds);
      }
    }
    if MatchesItsOwn(tlds) {
      forall a, b | a in tlds && b in tlds ensures !EndsWith(a, b) {
        if EndsWith(a, b) {
          OneNameUnderBoth(a, b, tlds);
        }
      }
    }
  }

  /** A name under the longer of two nested domains is one under the shorter as well. */
  lemma OneNameUnderBoth(a: string, b: string, tlds: seq<string>)
    requires a in tlds && b in tlds && EndsWith(a, b)
    ensures !MatchesItsOwn(tlds)
  {
    var k := |a| - |b|;
    var above := "." + a[..k];
    assert above[|above| - 1] == a[k - 1] == '.';
    assert a == a[..k] + b;
    Associates(".", a[..k], b);
    assert Some(a) != Some(b);
  }

  /** With one domain under another, a name can be taken for the shorter one. */
  lemma NestedDomainsConfuse()
    ensures MatchTld("00.ur.xyz.", ["xyz.", "ur.xyz."]) == Some("xyz.")
    ensures EndsWith("00.ur.xyz.", "ur.xyz.")
  {
    assert "00.ur.xyz."[6..] == "xyz." && "00.ur.xyz."[3..] == "ur.xyz.";
  }

  // Packing a name into a message

  /** Every label has 1 to 63 characters and ends with a dot. */
  predicate LabelsOk(s: string)
    decreases |s|
  {
    s == "" || (0 < FirstDot(s) <= 63 && FirstDot(s) < |s| && LabelsOk(s[FirstDot(s) + 1..]))
  }

  /** The message library packs the root and names of at most 254 characters in good labels. */
  predicate PacksAs(seen: string) {
    0 < |seen| <= 254 && (seen == "." || LabelsOk(seen))
  }

  /** The length of a name is one byte, so of a longer name the library sees what is left of the length. */
  predicate NamePacks(name: string) { PacksAs(name[..|name| % 256]) }

  function LabelsLength(n: nat): nat {
    49 * (n / 30) + if n % 30 == 0 then 0 else (8 * (n % 30) + 4) / 5 + 1
  }

  lemma {:induction false} LabelsHaveLength(data: seq<Byte>)
    ensures |Labels(data)| == LabelsLength(|data|)
    decreases |data|
  {
    if |data| > 30 {
      LabelsHaveLength(data[30..]);
      LabelsLengthStep(|data|);
    } else if data != [] {
      assert data[..|data|] == data && data[|data|..] == [];
    }
  }

  lemma LabelsLengthStep(n: nat)
    requires 30 <= n
    ensures LabelsLength(n) == 49 + LabelsLength(n - 30)
  {
  }

  lemma LengthsGrow(m: nat, n: nat)
    requires m <= n <= 157
    ensures LabelsLength(m) <= LabelsLength(n)
  {
    assert m / 30 <= n / 30 <= 5;
  }

  /** A label of 1 to 63 characters in front changes nothing for the labels after it, and any other is not good. */
  lemma LabelInFront(piece: string, rest: string)
    requires '.' !in piece
    ensures LabelsOk((piece + ".") + rest) <==> 0 < |piece| <= 63 && LabelsOk(rest)
    ensures LabelsOk(piece) <==> piece == ""
  {
    FirstDotOf(piece, rest);
  }

  lemma {:induction false} LabelsInFront(data: seq<Byte>, rest: string)
    ensures LabelsOk(Labels(data) + rest) <==> LabelsOk(rest)
    decreases |data|
  {
    if data == [] {
      assert Labels(data) + rest == rest;
    } else {
      var j := Min(30, |data|);
      var piece := Encode(Base32Hex, data[..j]);
      DecodeEncode(Base32Hex, data[..j]);
      LabelsStep(data);
      Associates(piece + ".", Labels(data[j..]), rest);
      LabelInFront(piece, Labels(data[j..]) + rest);
      LabelsInFront(data[j..], rest);
    }
  }

  lemma SeenWhole(name: string)
    requires |name| <= 255
    ensures name[..|name| % 256] == name
  {
    assert |name| % 256 == |name|;
  }

  lemma ShortNamePacks(name: string)
    requires 0 < |name| <= 255 && name != "."
    ensures NamePacks(name) <==> |name| <= 254 && LabelsOk(name)
  {
    SeenWhole(name);
  }

  /** A name that wraps to a length inside its first label is refused. */
  lemma LongNameIsRefused(piece: string, rest: string)
    requires 3 <= |piece| && '.' !in piece
    requires 256 <= |(piece + ".") + rest| <= 258
    ensures !NamePacks((piece + ".") + rest)
  {
    var name := (piece + ".") + rest;
    var n := |name| - 256;
    assert name[..n] == piece[..n];
    if n > 0 {
      assert forall k | 0 <= k < n :: piece[..n][k] == piece[k] && piece[k] in piece;
      DotAt(piece[..n], n);
    }
  }

  lemma NameIsShort(n: nat, m: nat)
    requires n + m <= 157
    ensures LabelsLength(n) + m <= 258
  {
    var q := n / 30;
    assert 0 <= q <= 5 && n == 30 * q + n % 30;
  }

  /** A request name is packed if and only if the domain is in good labels and the name is not too long. */
  lemma RequestNamePacks(header: Header, chunk: seq<Byte>, tld: string)
    requires |tld| <= 139 && |chunk| <= 139 - |tld|
    ensures |RequestName(header, chunk, tld)| == LabelsLength(18 + |chunk|) + |tld|
    ensures NamePacks(RequestName(header, chunk, tld)) <==>
              LabelsOk(tld) && LabelsLength(18 + |chunk|) + |tld| <= 254
  {
    var data, name := header + chunk, RequestName(header, chunk, tld);
    LabelsHaveLength(data);
    NameIsShort(|data|, |tld|);
    FirstLabelOf(data, tld);
    if |name| <= 255 {
      LabelsInFront(data, tld);
      ShortNamePacks(name);
    } else {
      var j := Min(30, |data|);
      LongNameIsRefused(Encode(Base32Hex, data[..j]), Labels(data[j..]) + tld);
    }
  }

  lemma FirstLabelOf(data: seq<Byte>, tld: string)
    requires 18 <= |data|
    ensures var piece := Encode(Base32Hex, data[..Min(30, |data|)]);
            && Labels(data) + tld == (piece + ".") + (Labels(data[Min(30, |data|)..]) + tld)
            && 29 <= |piece| <= 48 && '.' !in piece
    ensures Labels(data) + tld != "."
  {
    var j := Min(30, |data|);
    DecodeEncode(Base32Hex, data[..j]);
    LabelsStep(data);
    Associates(Encode(Base32Hex, data[..j]) + ".", Labels(data[j..]), tld);
  }

  /** A pump name is packed if and only if the domain is in good labels. */
  lemma PumpNamePacks(a: Alphabet, header: Header, tld: string)
    requires |tld| <= 173
    ensures NamePacks(PumpName(a, header, tld)) <==> LabelsOk(tld)
  {
    var piece := Encode(a, header);
    DecodeEncode(a, header);
    assert 24 <= |piece| <= 29;
    LabelInFront(piece, tld);
    ShortNamePacks((piece + ".") + tld);
  }

  // Questions

  /** The name that carries a header and a chunk. */
  function RequestName(header: Header, chunk: seq<Byte>, tld: string): string {
    Labels(header + chunk) + tld
  }

  function PumpName(a: Alphabet, header: Header, tld: string): string {
    Encode(a, header) + "." + tld
  }

  function RequestQuestions(header: Header, chunk: seq<Byte>, tld: string): seq<Question> {
    [Question(true, RequestName(header, chunk, tld)), Question(true, PumpName(Base32Hex, header, tld))]
  }

  /** How encoding one message ends; a name that the message library refuses is an error. */
  datatype EncodeEnd = Encoded | NameRefused | SlicePanic

  /**
   Encodes the header and as much of the packet as fits; n bytes are consumed. A domain that leaves a
   negative room is a slice panic.
   */
  method EncodeRequest(header: Header, packet: seq<Byte>, tld: string)
    returns (end: EncodeEnd, n: nat, out: seq<Question>)
    ensures end.SlicePanic? <==> 139 < |tld|
    ensures |tld| <= 139 ==>
              && n == Min(|packet|, 139 - |tld|)
              && (end.Encoded? <==> LabelsOk(tld) && LabelsLength(18 + n) + |tld| <= 254)
    ensures out == if end.Encoded? then RequestQuestions(header, packet[..n], tld) else []
  {
    var m: int := 157 - |header| - |tld|;
    if m < 0 {
      return SlicePanic, 0, [];
    }
    n := Min(|packet|, m);
    var labels := EncodeLabels(header, packet, n);
    var name, pumpName := labels + tld, Encode(Base32Hex, header) + "." + tld;
    RequestNamePacks(header, packet[..n], tld);
    if !NamePacks(name) {
      return NameRefused, n, [];
    }
    PumpNamePacks(Base32Hex, header, tld);
    if !NamePacks(pumpName) {
      return NameRefused, n, [];
    }
    end, out := Encoded, [Question(true, name), Question(true, pumpName)];
  }

  /** The labels of the header and the first m bytes of the packet. */
  method EncodeLabels(header: Header, packet: seq<Byte>, m: nat) returns (name: string)
    requires m <= |packet|
    ensures name == Labels(header + packet[..m])
  {
    var j := Min(30 - |header|, m);
    ghost var chunk := packet[..m];
    ghost var all := Labels(header + chunk);
    FirstLabel(header, packet, m, j);
    name := DnsLabel(header + packet[0..j]);
    var n := j;
    while n < m
      invariant j == n <= m && name + Labels(chunk[n..]) == all
    {
      j := Min(n + 30, m);
      NextLabel(name, packet, m, n, j);
      name := name + DnsLabel(packet[n..j]);
      n := j;
    }
    assert name == name + "";
  }

  lemma FirstLabel(header: Header, packet: seq<Byte>, m: nat, j: nat)
    requires m <= |packet| && j == Min(12, m)
    ensures DnsLabel(header + packet[0..j]) + Labels(packet[..m][j..]) == Labels(header + packet[..m])
  {
    var chunk, data := packet[..m], header + packet[..m];
    assert packet[0..j] == chunk[..j];
    assert data[..Min(30, |data|)] == header + chunk[..j] && data[Min(30, |data|)..] == chunk[j..];
  }

  lemma NextLabel(name: string, packet: seq<Byte>, m: nat, n: nat, j: nat)
    requires n < m <= |packet| && j == Min(n + 30, m)
    ensures (name + DnsLabel(packet[n..j])) + Labels(packet[..m][j..]) == name + Labels(packet[..m][n..])
  {
    var rest := packet[..m][n..];
    assert rest[..Min(30, |rest|)] == packet[n..j] && rest[Min(30, |rest|)..] == packet[..m][j..];
    Associates(name, DnsLabel(packet[n..j]), Labels(packet[..m][j..]));
  }

  lemma Associates(a: string, b: string, c: string)
    ensures (a + b) + c == a + (b + c)
  {
  }

  /** The bytes of the labels of a name, appended to what came before. */
  function DecodeLabels(body: string, first: bool, data: seq<Byte>): Decoded
    decreases |body|
  {
    if body == "" then Plain(data)
    else
      var j := FirstDot(body);
      var piece := Decode(Base32Hex, body[..j]);
      if piece.None? then Corrupt
      else if BUFFER_BYTE_COUNT < |data| + |piece.value| then Overrun
      else if 0 < |data| && first && |piece.value| <= 18 then Plain(data)
      else DecodeLabels(body[Min(j + 1, |body|)..], false, data + piece.value)
  }

  function Plain(data: seq<Byte>): (d: Decoded)
    ensures d.Decoded?
  {
    Decoded(data, None, seq(18, _ => 0), false)
  }

  function Carried(data: seq<Byte>, tld: string): Decoded {
    Decoded(data, Some(tld), seq(18, _ => 0), false)
  }

  /** The data and the domain of the last text question. */
  function DecodeQuestions(questions: seq<Question>, tlds: seq<string>, d: Decoded): Decoded {
    if questions == [] || !d.Decoded? then d
    else DecodeQuestions(questions[1..], tlds, DecodeQuestion(questions[0], tlds, d))
  }

  function DecodeQuestion(q: Question, tlds: seq<string>, d: Decoded): Decoded
    requires d.Decoded?
  {
    if !q.isText then d.(otherData := true)
    else
      var tld := MatchTld(q.name, tlds);
      if tld.None? then d.(tld := None)
      else
        var r := DecodeLabels(q.name[..|q.name| - |tld.value|], true, d.data);
        if r.Decoded? then d.(data := r.data, tld := tld) else r
  }

  /** The domain of the last text question, None when it has no known one; `domain` without any text question. */
  function LastDomain(questions: seq<Question>, tlds: seq<string>, domain: Option<string>): Option<string> {
    if questions == [] then domain
    else if questions[|questions|-1].isText then MatchTld(questions[|questions|-1].name, tlds)
    else LastDomain(questions[..|questions|-1], tlds, domain)
  }

  /** A decoded request has the domain of its last text question and tells whether there were other questions. */
  lemma {:induction false} LastQuestionDecides(questions: seq<Question>, tlds: seq<string>, d: Decoded)
    requires d.Decoded? && DecodeQuestions(questions, tlds, d).Decoded?
    ensures var r := DecodeQuestions(questions, tlds, d);
            && r.tld == LastDomain(questions, tlds, d.tld) && r.pumpHeader == d.pumpHeader
            && (r.otherData <==> d.otherData || exists q <- questions :: !q.isText)
  {
    if questions != [] {
      var e := DecodeQuestion(questions[0], tlds, d);
      LastQuestionDecides(questions[1..], tlds, e);
      LastDomainFirst(questions, tlds, d.tld);
    }
  }

  lemma {:induction false} LastDomainFirst(questions: seq<Question>, tlds: seq<string>, domain: Option<string>)
    requires questions != []
    ensures LastDomain(questions, tlds, domain)
            == LastDomain(questions[1..], tlds,
                          if questions[0].isText then MatchTld(questions[0].name, tlds) else domain)
  {
    var n := |questions| - 1;
    if 0 < n {
      assert questions[1..][n - 1] == questions[n];
      if !questions[n].isText {
        LastDomainFirst(questions[..n], tlds, domain);
        assert questions[..n][1..] == questions[1..][..n - 1];
      }
    }
  }

  method DecodeRequest(questions: seq<Question>, tlds: seq<string>) returns (r: Decoded)
    ensures r == DecodeQuestions(questions, tlds, Plain([]))
  {
    r := Plain([]);
    for k := 0 to |questions|
      invariant r.Decoded?
      invariant DecodeQuestions(questions[k..], tlds, r) == DecodeQuestions(questions, tlds, Plain([]))
    {
      assert questions[k..][1..] == questions[k + 1..];
      r := ReadQuestion(questions[k], tlds, r);
      if !r.Decoded? {
        return;
      }
    }
  }

  method ReadQuestion(q: Question, tlds: seq<string>, d: Decoded) returns (r: Decoded)
    requires d.Decoded?
    ensures r == DecodeQuestion(q, tlds, d)
  {
    if !q.isText {
      return d.(otherData := true);
    }
    var tld := FindTld(q.name, tlds);
    if tld.None? {
      return d.(tld := None);
    }
    var n := |q.name| - |tld.value|;
    r := ReadLabels(q.name, n, d.data);
    assert q.name[Min(0, n)..n] == q.name[..n];
    if r.Decoded? {
      r := d.(data := r.data, tld := tld);
    }
  }

  method FindTld(name: string, tlds: seq<string>) returns (r: Option<string>)
    ensures r == MatchTld(name, tlds)
  {
    for k := 0 to |tlds|
      invariant MatchTld(name, tlds[k..]) == MatchTld(name, tlds)
    {
      if |tlds[k]| < |name| && tlds[k] == name[|name| - |tlds[k]|..] && name[|name| - |tlds[k]| - 1] == '.' {
        return Some(tlds[k]);
      }
    }
    r := None;
  }

  /** Reads the labels before `end`. */
  method ReadLabels(name: string, end: nat, before: seq<Byte>) returns (r: Decoded)
    requires end <= |name|
    ensures r == Remaining(name, 0, end, before)
  {
    r := Plain(before);
    var i, done := 0, false;
    ghost var all := Remaining(name, 0, end, before);
    while i < end && !done
      invariant 0 <= i && (done ==> r == all)
      invariant !done ==> r.Decoded? && r == Plain(r.data) && Remaining(name, i, end, r.data) == all
      decreases end - i, !done
    {
      r, i, done := ReadLabel(name, i, end, r.data);
    }
  }

  /** Reads the label at i; `done` says that reading ends here. */
  method ReadLabel(name: string, i: nat, end: nat, data: seq<Byte>) returns (r: Decoded, next: nat, done: bool)
    requires i < end <= |name|
    ensures i < next && (done ==> r == Remaining(name, i, end, data))
    ensures !done ==> r.Decoded? && r == Plain(r.data)
                      && Remaining(name, next, end, r.data) == Remaining(name, i, end, data)
  {
    var j := NextDot(name, i, end);
    RemainingStep(name, i, j, end, data);
    next := j + 1;
    var piece := Decode(Base32Hex, name[i..j]);
    if piece.None? {
      return Corrupt, next, true;
    }
    if BUFFER_BYTE_COUNT < |data| + |piece.value| {
      return Overrun, next, true;
    }
    if 0 < |data| && i == 0 && |piece.value| <= 18 {
      return Plain(data), next, true;
    }
    r, done := Plain(data + piece.value), false;
  }

  lemma Substrings(name: string, i: nat, j: nat, end: nat)
    requires i <= j <= end <= |name| && i < end
    ensures name[i..end] != "" && name[i..end][..j - i] == name[i..j]
    ensures name[i..end][Min(j - i + 1, end - i)..] == name[Min(j + 1, end)..end]
  {
  }

  /** What reading the labels from i on gives. */
  function Remaining(name: string, i: nat, end: nat, data: seq<Byte>): Decoded
    requires end <= |name|
  {
    DecodeLabels(name[Min(i, end)..end], i == 0, data)
  }

  lemma RemainingStep(name: string, i: nat, j: nat, end: nat, data: seq<Byte>)
    requires i <= j <= end <= |name| && i < end && FirstDot(name[i..end]) == j - i
    ensures var piece := Decode(Base32Hex, name[i..j]);
            Remaining(name, i, end, data) ==
              if piece.None? then Corrupt
              else if BUFFER_BYTE_COUNT < |data| + |piece.value| then Overrun
              else if 0 < |data| && i == 0 && |piece.value| <= 18 then Plain(data)
              else Remaining(name, j + 1, end, data + piece.value)
  {
    var body := name[i..end];
    Substrings(name, i, j, end);
    assert Remaining(name, i, end, data) == DecodeLabels(body, i == 0, data);
    DecodeLabelsStep(body, i == 0, data);
  }

  lemma DecodeLabelsStep(body: string, first: bool, data: seq<Byte>)
    requires body != ""
    ensures var j := FirstDot(body);
            var piece := Decode(Base32Hex, body[..j]);
            DecodeLabels(body, first, data) ==
              if piece.None? then Corrupt
              else if BUFFER_BYTE_COUNT < |data| + |piece.value| then Overrun
              else if 0 < |data| && first && |piece.value| <= 18 then Plain(data)
              else DecodeLabels(body[Min(j + 1, |body|)..], false, data + piece.value)
  {
  }

  /** The position of the first dot from i on, or `end`. */
  method NextDot(name: string, i: nat, end: nat) returns (j: nat)
    requires i < end <= |name|
    ensures i <= j <= end && FirstDot(name[i..end]) == j - i
  {
    j := i;
    while j < end && name[j] != '.'
      invariant i <= j <= end && forall k | i <= k < j :: name[k] != '.'
    {
      j := j + 1;
    }
    DotAt(name[i..end], j - i);
  }

  lemma DotAt(s: string, j: nat)
    requires j <= |s| && (forall k | 0 <= k < j :: s[k] != '.') && (j < |s| ==> s[j] == '.')
    ensures FirstDot(s) == j
  {
  }

  lemma DecodeOneLabel(data: seq<Byte>, rest: string, first: bool, before: seq<Byte>)
    requires first ==> before == [] || 18 < |data|
    requires |before| + |data| <= BUFFER_BYTE_COUNT
    ensures DecodeLabels(DnsLabel(data) + rest, first, before) == DecodeLabels(rest, false, before + data)
  {
    var piece := Encode(Base32Hex, data);
    DecodeEncode(Base32Hex, data);
    FirstDotOf(piece, rest);
    DecodeLabelsStep((piece + ".") + rest, first, before);
  }

  /**
   Decoding the labels of some data appends the data. After other data, a first label of more than 18 bytes is
   data as well.
   */
  lemma {:induction false} DecodeLabelsOf(data: seq<Byte>, first: bool, before: seq<Byte>)
    requires first ==> before == [] || 18 < |data|
    requires |before| + |data| <= 1024
    ensures DecodeLabels(Labels(data), first, before) == Plain(before + data)
    decreases |data|
  {
    if data == [] {
      assert before + data == before;
    } else {
      var j := Min(30, |data|);
      DecodeLabelsOf(data[j..], false, before + data[..j]);
      LabelsStep(data);
      DecodeOneLabel(data[..j], Labels(data[j..]), first, before);
      SplitAppend(before, data, j);
    }
  }

  /** More than 1024 bytes are an error. */
  lemma {:induction false} DecodeOverruns(data: seq<Byte>, first: bool, before: seq<Byte>)
    requires first ==> before == [] || 18 < |data|
    requires |before| <= 1024 < |before| + |data|
    ensures DecodeLabels(Labels(data), first, before) == Overrun
    decreases |data|
  {
    var j := Min(30, |data|);
    LabelsStep(data);
    if |before| + j <= 1024 {
      DecodeOneLabel(data[..j], Labels(data[j..]), first, before);
      DecodeOverruns(data[j..], false, before + data[..j]);
    } else {
      var piece := Encode(Base32Hex, data[..j]);
      DecodeEncode(Base32Hex, data[..j]);
      FirstDotOf(piece, Labels(data[j..]));
      DecodeLabelsStep((piece + ".") + Labels(data[j..]), first, before);
    }
  }

  lemma SplitAppend(before: seq<Byte>, data: seq<Byte>, j: nat)
    requires j <= |data|
    ensures (before + data[..j]) + data[j..] == before + data
  {
  }

  lemma LabelsStep(data: seq<Byte>)
    requires data != []
    ensures Labels(data) == DnsLabel(data[..Min(30, |data|)]) + Labels(data[Min(30, |data|)..])
  {
  }

  lemma {:induction false} LabelsEndInDot(data: seq<Byte>)
    requires data != []
    ensures Labels(data) != "" && Labels(data)[|Labels(data)| - 1] == '.'
    decreases |data|
  {
    if |data| > 30 {
      LabelsEndInDot(data[30..]);
    }
  }

  /** The pump question, which repeats the header, is ignored. */
  lemma PumpIsIgnored(header: Header, data: seq<Byte>)
    requires 18 <= |data| && |data| + 18 <= BUFFER_BYTE_COUNT
    ensures DecodeLabels(Encode(Base32Hex, header) + ".", true, data) == Plain(data)
  {
    DecodeEncode(Base32Hex, header);
    FirstDotOf(Encode(Base32Hex, header), "");
    assert Encode(Base32Hex, header) + "." + "" == Encode(Base32Hex, header) + ".";
  }

  /** What a request carries comes back from it; its names are packed unless the first one is too long. */
  lemma RequestRoundTrip(header: Header, chunk: seq<Byte>, tld: string, tlds: seq<string>)
    requires Separate(tlds) && tld in tlds && |chunk| <= 139 - |tld|
    ensures DecodeQuestions(RequestQuestions(header, chunk, tld), tlds, Plain([]))
            == Carried(header + chunk, tld)
    ensures (forall q <- RequestQuestions(header, chunk, tld) :: NamePacks(q.name))
            <==> LabelsOk(tld) && LabelsLength(18 + |chunk|) + |tld| <= 254
  {
    RequestNamePacks(header, chunk, tld);
    PumpNamePacks(Base32Hex, header, tld);
    assert RequestQuestions(header, chunk, tld)[0] in RequestQuestions(header, chunk, tld);
    var q := RequestQuestions(header, chunk, tld);
    DataQuestion(header, chunk, tld, tlds);
    PumpQuestion(header, header + chunk, tld, tlds);
    TwoQuestions(q[0], q[1], tlds, Plain([]));
  }

  lemma TwoQuestions(a: Question, b: Question, tlds: seq<string>, d: Decoded)
    requires d.Decoded? && DecodeQuestion(a, tlds, d).Decoded?
    ensures DecodeQuestions([a, b], tlds, d) == DecodeQuestion(b, tlds, DecodeQuestion(a, tlds, d))
  {
    var e := DecodeQuestion(a, tlds, d);
    assert [a, b][1..] == [b] && [b][1..] == [];
    assert DecodeQuestions([b], tlds, e) == DecodeQuestions([], tlds, DecodeQuestion(b, tlds, e));
  }

  lemma DataQuestion(header: Header, chunk: seq<Byte>, tld: string, tlds: seq<string>)
    requires Separate(tlds) && tld in tlds && |chunk| <= 139
    ensures DecodeQuestion(RequestQuestions(header, chunk, tld)[0], tlds, Plain([])) == Carried(header + chunk, tld)
  {
    LabelsEndInDot(header + chunk);
    MatchIsUnique(Labels(header + chunk), tld, tlds);
    assert (Labels(header + chunk) + tld)[..|Labels(header + chunk)|] == Labels(header + chunk);
    DecodeLabelsOf(header + chunk, true, []);
    assert [] + (header + chunk) == header + chunk;
  }

  lemma PumpQuestion(header: Header, data: seq<Byte>, tld: string, tlds: seq<string>)
    requires Separate(tlds) && tld in tlds && 18 <= |data| <= 157
    ensures DecodeQuestion(RequestQuestions(header, [], tld)[1], tlds, Carried(data, tld)) == Carried(data, tld)
  {
    var body := Encode(Base32Hex, header) + ".";
    MatchIsUnique(body, tld, tlds);
    assert (body + tld)[..|body|] == body;
    PumpIsIgnored(header, data);
  }

  // Limits of section 2.3.4 of RFC 1035

  /** Every label of the text has at most n characters. */
  predicate LabelsAtMost(s: string, n: nat)
    decreases |s|
  {
    s == "" || (FirstDot(s) <= n && LabelsAtMost(s[Min(FirstDot(s) + 1, |s|)..], n))
  }

  lemma {:induction false} LabelLimit(data: seq<Byte>)
    ensures LabelsAtMost(Labels(data), 63)
    decreases |data|
  {
    if data != [] {
      var j := Min(30, |data|);
      DecodeEncode(Base32Hex, data[..j]);
      FirstDotOf(Encode(Base32Hex, data[..j]), Labels(data[j..]));
      LabelLimit(data[j..]);
    }
  }

  /** A name that carries a full chunk fits exactly when the domain has at least six characters. */
  lemma FullNameFits(header: Header, chunk: seq<Byte>, tld: string)
    requires |tld| <= 139 && |chunk| == 139 - |tld|
    ensures |RequestName(header, chunk, tld)| <= 254 <==> 6 <= |tld|
  {
    LabelsHaveLength(header + chunk);
  }

  lemma NameFits(header: Header, chunk: seq<Byte>, tld: string)
    requires 6 <= |tld| && |chunk| <= 139 - |tld|
    ensures |RequestName(header, chunk, tld)| <= 254
  {
    LabelsHaveLength(header + chunk);
  }
}
