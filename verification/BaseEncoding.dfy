/**
 Unpadded base32 and base64 (sections 4, 6 and 7 of RFC 4648) as a regrouping of bits:
 bytes are eight bits each, characters `width` bits each, and the last group is filled with zeros.
 */
module BaseEncoding {
  import opened Basics
  import opened Options

  /** Bits to a character. */
  type Width = w: nat | w == 5 || w == 6 witness 5

  function Pow2(n: nat): (p: nat)
    ensures 0 < p
  {
    if n == 0 then 1 else 2 * Pow2(n - 1)
  }

  /** The low `width` bits of a number, most significant first. */
  function ToBits(v: nat, width: nat): (b: seq<bool>)
    ensures |b| == width
  {
    if width == 0 then [] else ToBits(v / 2, width - 1) + [v % 2 == 1]
  }

  function FromBits(b: seq<bool>): (v: nat)
    ensures v < Pow2(|b|)
  {
    if b == [] then 0 else 2 * FromBits(b[..|b|-1]) + if b[|b|-1] then 1 else 0
  }

  lemma {:induction false} FromToBits(v: nat, width: nat)
    requires v < Pow2(width)
    ensures FromBits(ToBits(v, width)) == v
  {
    if width != 0 {
      FromToBits(v / 2, width - 1);
      assert ToBits(v, width)[..width-1] == ToBits(v / 2, width - 1);
    }
  }

  lemma {:induction false} ToFromBits(b: seq<bool>)
    ensures ToBits(FromBits(b), |b|) == b
  {
    if b != [] {
      ToFromBits(b[..|b|-1]);
    }
  }

  function Bits(data: seq<Byte>): (b: seq<bool>)
    ensures |b| == 8 * |data|
  {
    if data == [] then [] else ToBits(data[0], 8) + Bits(data[1..])
  }

  /** The whole bytes of a string of bits; what is left over is dropped. */
  function Bytes(b: seq<bool>): (data: seq<Byte>)
    ensures |data| == |b| / 8
    decreases |b|
  {
    if |b| < 8 then [] else [ByteOf(b[..8])] + Bytes(b[8..])
  }

  function ByteOf(b: seq<bool>): Byte
    requires |b| == 8
  {
    assert Pow2(8) == 256;
    FromBits(b)
  }

  function Padded(b: seq<bool>, width: nat): (p: seq<bool>)
    ensures |p| == if |b| < width then width else |b|
  {
    if |b| < width then b + Zeros(width - |b|) else b
  }

  /** The groups of `width` bits. */
  function Groups(b: seq<bool>, width: Width): (g: seq<nat>)
    ensures |g| == GroupCount(|b|, width) && AllBelow(g, Pow2(width))
    decreases |b|
  {
    if b == [] then []
    else if |b| <= width then [FromBits(Padded(b, width))]
    else
      GroupCountStep(|b|, width);
      [FromBits(b[..width])] + Groups(b[width..], width)
  }

  function GroupCount(bits: nat, width: Width): nat {
    if width == 5 then (bits + 4) / 5 else (bits + 5) / 6
  }

  lemma GroupCountStep(bits: nat, width: Width)
    requires width < bits
    ensures GroupCount(bits, width) == GroupCount(bits - width, width) + 1
  {
  }

  predicate AllBelow(g: seq<nat>, n: nat) {
    g == [] || (g[0] < n && AllBelow(g[1..], n))
  }

  function Ungroup(g: seq<nat>, width: nat): (b: seq<bool>)
    ensures |b| == width * |g|
  {
    if g == [] then [] else ToBits(g[0], width) + Ungroup(g[1..], width)
  }

  function Zeros(n: nat): seq<bool> { seq(n, _ => false) }

  /** Ungrouping gives the bits back, followed by less than a group of zeros. */
  lemma {:induction false} UngroupGroups(b: seq<bool>, width: Width)
    ensures var u := Ungroup(Groups(b, width), width);
            |b| <= |u| < |b| + width && u == b + Zeros(|u| - |b|)
    decreases |b|
  {
    if b == [] {
      assert Ungroup(Groups(b, width), width) == [];
    } else if |b| <= width {
      ToFromBits(Padded(b, width));
      assert Groups(b, width)[1..] == [];
    } else {
      var rest := Ungroup(Groups(b[width..], width), width);
      UngroupGroups(b[width..], width);
      UngroupFirst(b, width);
      JoinBits(b, width, Zeros(|rest| - |b[width..]|));
    }
  }

  lemma UngroupFirst(b: seq<bool>, width: Width)
    requires width < |b|
    ensures Ungroup(Groups(b, width), width) == b[..width] + Ungroup(Groups(b[width..], width), width)
  {
    ToFromBits(b[..width]);
    assert Groups(b, width)[1..] == Groups(b[width..], width);
  }

  lemma JoinBits(b: seq<bool>, n: nat, tail: seq<bool>)
    requires n <= |b|
    ensures b[..n] + (b[n..] + tail) == b + tail
  {
  }

  /** Fewer than eight bits after those of `data` do not disturb it. */
  lemma {:induction false} BytesOfBits(data: seq<Byte>, b: seq<bool>)
    requires Bits(data) <= b && |b| < 8 * |data| + 8
    ensures Bytes(b) == data
  {
    if data != [] {
      assert Pow2(8) == 256;
      assert b[..8] == ToBits(data[0], 8) by { assert Bits(data)[..8] == ToBits(data[0], 8); }
      FromToBits(data[0], 8);
      assert Bits(data[1..]) == Bits(data)[8..];
      BytesOfBits(data[1..], b[8..]);
    }
  }

  /** Whole groups can be encoded apart. */
  lemma {:induction false} GroupsConcat(a: seq<bool>, b: seq<bool>, width: Width)
    requires |a| % width == 0
    ensures Groups(a + b, width) == Groups(a, width) + Groups(b, width)
    decreases |a|
  {
    if a == [] {
      assert a + b == b;
    } else {
      MultipleAtLeast(|a|, width);
      GroupsConcat(a[width..], b, width);
      FirstGroup(a, width);
      FirstGroupConcat(a, b, width);
    }
  }

  lemma FirstGroupConcat(a: seq<bool>, b: seq<bool>, width: Width)
    requires width <= |a|
    ensures Groups(a + b, width) == [FromBits(a[..width])] + Groups(a[width..] + b, width)
  {
    assert (a + b)[..width] == a[..width] && (a + b)[width..] == a[width..] + b;
    FirstGroup(a + b, width);
  }

  lemma FirstGroup(b: seq<bool>, width: Width)
    requires width <= |b|
    ensures Groups(b, width) == [FromBits(b[..width])] + Groups(b[width..], width)
  {
    if |b| == width {
      assert Padded(b, width) == b[..width] && b[width..] == [];
    }
  }

  lemma MultipleAtLeast(n: nat, width: Width)
    requires 0 < n && n % width == 0
    ensures width <= n && (n - width) % width == 0
  {
    if width == 5 { assert n % 5 == 0; } else { assert n % 6 == 0; }
  }

  lemma {:induction false} BitsConcat(a: seq<Byte>, b: seq<Byte>)
    ensures Bits(a + b) == Bits(a) + Bits(b)
  {
    if a == [] {
      assert a + b == b;
    } else {
      assert (a + b)[1..] == a[1..] + b;
      BitsConcat(a[1..], b);
    }
  }

  /** One character for each group of `width` bits. */
  datatype Alphabet = Base32 | Base32Hex | Base64
  {
    function Width(): Width {
      if Base64? then 6 else 5
    }

    function Char(v: nat): char
      requires v < Pow2(Width())
    {
      assert Pow2(5) == 32 && Pow2(6) == 64;
      match this
      case Base32 => if v < 26 then 'A' + v as char else '2' + (v - 26) as char
      case Base32Hex => if v < 10 then '0' + v as char else 'A' + (v - 10) as char
      case Base64 =>
        if v < 26 then 'A' + v as char
        else if v < 52 then 'a' + (v - 26) as char
        else if v < 62 then '0' + (v - 52) as char
        else if v == 62 then '+' else '/'
    }

    function Value(c: char): Option<nat> {
      match this
      case Base32 =>
        if 'A' <= c <= 'Z' then Some((c - 'A') as nat)
        else if '2' <= c <= '7' then Some((c - '2') as nat + 26) else None
      case Base32Hex =>
        if '0' <= c <= '9' then Some((c - '0') as nat)
        else if 'A' <= c <= 'V' then Some((c - 'A') as nat + 10) else None
      case Base64 =>
        if 'A' <= c <= 'Z' then Some((c - 'A') as nat)
        else if 'a' <= c <= 'z' then Some((c - 'a') as nat + 26)
        else if '0' <= c <= '9' then Some((c - '0') as nat + 52)
        else if c == '+' then Some(62) else if c == '/' then Some(63) else None
    }

    lemma CharValue(v: nat)
      requires v < Pow2(Width())
      ensures Value(Char(v)) == Some(v) && Char(v) != '.'
    {
      assert Pow2(5) == 32 && Pow2(6) == 64;
    }

    lemma ValueChar(c: char)
      requires Value(c).Some?
      ensures Value(c).value < Pow2(Width()) && Char(Value(c).value) == c
    {
      assert Pow2(5) == 32 && Pow2(6) == 64;
    }
  }

  function Text(a: Alphabet, g: seq<nat>): (s: string)
    requires AllBelow(g, Pow2(a.Width()))
    ensures |s| == |g|
  {
    if g == [] then [] else [a.Char(g[0])] + Text(a, g[1..])
  }

  function Values(a: Alphabet, s: string): (g: Option<seq<nat>>) {
    if s == [] then Some([])
    else
      var v, rest := a.Value(s[0]), Values(a, s[1..]);
      if v.Some? && rest.Some? then Some([v.value] + rest.value) else None
  }

  lemma {:induction false} ValuesOfText(a: Alphabet, g: seq<nat>)
    requires AllBelow(g, Pow2(a.Width()))
    ensures Values(a, Text(a, g)) == Some(g) && '.' !in Text(a, g)
  {
    if g != [] {
      a.CharValue(g[0]);
      ValuesOfText(a, g[1..]);
      var s := Text(a, g);
      assert s[0] == a.Char(g[0]) && s[1..] == Text(a, g[1..]);
      assert s == [s[0]] + s[1..] && [g[0]] + g[1..] == g;
    }
  }

  lemma {:induction false} TextConcat(a: Alphabet, g: seq<nat>, h: seq<nat>)
    requires AllBelow(g, Pow2(a.Width())) && AllBelow(h, Pow2(a.Width()))
    ensures AllBelow(g + h, Pow2(a.Width()))
    ensures Text(a, g + h) == Text(a, g) + Text(a, h)
  {
    if g == [] {
      assert g + h == h;
    } else {
      assert (g + h)[1..] == g[1..] + h;
      TextConcat(a, g[1..], h);
    }
  }

  function Encode(a: Alphabet, data: seq<Byte>): (s: string)
    ensures |s| == GroupCount(8 * |data|, a.Width())
  {
    Text(a, Groups(Bits(data), a.Width()))
  }

  /** None for a character outside the alphabet. */
  function Decode(a: Alphabet, s: string): Option<seq<Byte>> {
    var g := Values(a, s);
    if g.Some? then Some(Bytes(Ungroup(g.value, a.Width()))) else None
  }

  lemma DecodeEncode(a: Alphabet, data: seq<Byte>)
    ensures Decode(a, Encode(a, data)) == Some(data) && '.' !in Encode(a, data)
  {
    ValuesOfText(a, Groups(Bits(data), a.Width()));
    UngroupGroups(Bits(data), a.Width());
    BytesOfBits(data, Ungroup(Groups(Bits(data), a.Width()), a.Width()));
  }

  lemma EncodeConcat(a: Alphabet, x: seq<Byte>, y: seq<Byte>)
    requires 8 * |x| % a.Width() == 0
    ensures Encode(a, x + y) == Encode(a, x) + Encode(a, y)
  {
    BitsConcat(x, y);
    GroupsConcat(Bits(x), Bits(y), a.Width());
    TextConcat(a, Groups(Bits(x), a.Width()), Groups(Bits(y), a.Width()));
  }

  // ---- the alphabets and the order of bits of RFC 4648

  /** The digits as one number, `width` bits to a digit, the first digit the most significant. */
  function Number(digits: seq<nat>, width: nat): nat {
    if digits == [] then 0 else digits[0] * Pow2(width * (|digits| - 1)) + Number(digits[1..], width)
  }

  lemma {:induction false} FromBitsConcat(a: seq<bool>, b: seq<bool>)
    ensures FromBits(a + b) == FromBits(a) * Pow2(|b|) + FromBits(b)
  {
    if b == [] {
      assert a + b == a;
    } else {
      var n := |b| - 1;
      assert (a + b)[..|a + b| - 1] == a + b[..n];
      FromBitsConcat(a, b[..n]);
      Distribute(FromBits(a), Pow2(n), FromBits(b[..n]));
    }
  }

  lemma Distribute(x: nat, p: nat, y: nat)
    ensures 2 * (x * p + y) == x * (2 * p) + 2 * y
  {
  }

  lemma {:induction false} FromZeros(n: nat)
    ensures FromBits(Zeros(n)) == 0
  {
    if n != 0 {
      assert Zeros(n)[..n - 1] == Zeros(n - 1);
      FromZeros(n - 1);
    }
  }

  lemma {:induction false} UngroupNumber(g: seq<nat>, width: nat)
    requires AllBelow(g, Pow2(width))
    ensures FromBits(Ungroup(g, width)) == Number(g, width)
  {
    if g != [] {
      FromBitsConcat(ToBits(g[0], width), Ungroup(g[1..], width));
      FromToBits(g[0], width);
      UngroupNumber(g[1..], width);
    }
  }

  lemma {:induction false} BitsAreDigits(data: seq<Byte>)
    ensures Bits(data) == Ungroup(data, 8) && AllBelow(data, Pow2(8))
  {
    assert Pow2(8) == 256;
    if data != [] { BitsAreDigits(data[1..]); }
  }

  /** The groups are the bytes, read as one number with the first the most significant, shifted by the filling. */
  lemma GroupsAreTheNumber(data: seq<Byte>, width: Width)
    ensures var g := Groups(Bits(data), width);
            && 8 * |data| <= width * |g| < 8 * |data| + width
            && Number(g, width) == Number(data, 8) * Pow2(width * |g| - 8 * |data|)
  {
    var g, u := Groups(Bits(data), width), Ungroup(Groups(Bits(data), width), width);
    UngroupGroups(Bits(data), width);
    UngroupNumber(g, width);
    BitsAreDigits(data);
    UngroupNumber(data, 8);
    FromBitsConcat(Bits(data), Zeros(|u| - 8 * |data|));
    FromZeros(|u| - 8 * |data|);
  }

  /** Tables 1, 3 and 4 of RFC 4648. */
  function Letters(a: Alphabet): string {
    match a
    case Base32 => "ABCDEFGHIJKLMNOPQRSTUVWXYZ" + "234567"
    case Base32Hex => "0123456789" + "ABCDEFGHIJKLMNOPQRSTUV"
    case Base64 => "ABCDEFGHIJKLMNOPQRSTUVWXYZ" + "abcdefghijklmnopqrstuvwxyz" + "0123456789" + "+/"
  }

  /** The characters follow one another. */
  ghost predicate Follow(s: string) {
    forall i | 0 <= i < |s| :: s[i] as int == s[0] as int + i
  }

  lemma LettersFollow()
    ensures Follow("ABCDEFGHIJKLMNOPQRSTUVWXYZ") && Follow("ABCDEFGHIJKLMNOPQRSTUV")
    ensures Follow("abcdefghijklmnopqrstuvwxyz")
    ensures Follow("0123456789") && Follow("234567")
  {
  }

  /** Each group of bits has the character that RFC 4648 gives it. */
  lemma CharIsLetter(a: Alphabet, v: nat)
    requires v < Pow2(a.Width())
    ensures |Letters(a)| == Pow2(a.Width()) && a.Char(v) == Letters(a)[v]
  {
    assert Pow2(5) == 32 && Pow2(6) == 64;
    LettersFollow();
  }

  /** Only the letters have values. */
  lemma ValueIsLetter(a: Alphabet, c: char)
    ensures a.Value(c).Some? ==> a.Value(c).value < |Letters(a)| && Letters(a)[a.Value(c).value] == c
  {
    if a.Value(c).Some? {
      a.ValueChar(c);
      CharIsLetter(a, a.Value(c).value);
    }
  }

  /** The text has the letters of the digits. */
  ghost predicate Spells(a: Alphabet, s: string, digits: seq<nat>) {
    |s| == |digits| && forall k | 0 <= k < |digits| :: digits[k] < |Letters(a)| && s[k] == Letters(a)[digits[k]]
  }

  lemma {:induction false} TextSpells(a: Alphabet, g: seq<nat>)
    requires AllBelow(g, Pow2(a.Width()))
    ensures Spells(a, Text(a, g), g)
  {
    if g != [] {
      CharIsLetter(a, g[0]);
      TextSpells(a, g[1..]);
      forall k | 0 <= k < |g| ensures g[k] < |Letters(a)| && Text(a, g)[k] == Letters(a)[g[k]] {
        if 0 < k { assert g[k] == g[1..][k - 1] && Text(a, g)[k] == Text(a, g[1..])[k - 1]; }
      }
    }
  }

  /** The text spells the bytes as one number, shifted by less than a group of zero bits. */
  ghost predicate SpellsNumber(a: Alphabet, width: nat, data: seq<Byte>, s: string, digits: seq<nat>) {
    && Spells(a, s, digits)
    && 8 * |data| <= width * |digits| < 8 * |data| + width
    && Number(digits, width) == Number(data, 8) * Pow2(width * |digits| - 8 * |data|)
  }

  /**
   The text of an encoding is the number that the bytes make up, most significant first, written in the letters
   of the alphabet.
   */
  lemma EncodingIsTheNumber(a: Alphabet, data: seq<Byte>)
    ensures exists digits :: SpellsNumber(a, a.Width(), data, Encode(a, data), digits)
  {
    var g := Groups(Bits(data), a.Width());
    GroupsAreTheNumber(data, a.Width());
    TextSpells(a, g);
    assert SpellsNumber(a, a.Width(), data, Encode(a, data), g);
  }
}
