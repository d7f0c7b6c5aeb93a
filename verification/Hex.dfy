/** The three hexadecimal encoders, which all write the same text. */
module Hex {
  import opened Wrappers
  import opened StringUtils

  newtype Byte = x: int | 0 <= x < 256

  /** The digits of section 8 of RFC 4648, in lower case. */
  function Digit(n: nat): char
    requires n < 16
  {
    if n < 10 then '0' + n as char else 'a' + (n - 10) as char
  }

  /** The two digits of a byte. */
  function Octet(b: Byte): (s: string)
    ensures |s| == 2
  {
    [Digit(b as int / 16), Digit(b as int % 16)]
  }

  /** Base 16 as section 8 of RFC 4648 defines it, in lower case: two characters a byte. */
  function Encoded(bytes: seq<Byte>): (s: string)
    ensures |s| == 2 * |bytes|
  {
    if bytes == [] then "" else Octet(bytes[0]) + Encoded(bytes[1..])
  }

  lemma {:induction false} EncodedAppend(a: seq<Byte>, b: seq<Byte>)
    ensures Encoded(a + b) == Encoded(a) + Encoded(b)
  {
    if a == [] {
      assert a + b == b;
    } else {
      EncodedAppend(a[1..], b);
      assert (a + b)[1..] == a[1..] + b;
    }
  }

  lemma EncodedMore(bytes: seq<Byte>, i: nat)
    requires i < |bytes|
    ensures Encoded(bytes[..i + 1]) == Encoded(bytes[..i]) + Octet(bytes[i])
  {
    assert bytes[..i + 1] == bytes[..i] + [bytes[i]];
    EncodedAppend(bytes[..i], [bytes[i]]);
    assert [bytes[i]][1..] == [];
  }

  /** The digits of the byte at `i` stand at twice that position. */
  lemma EncodedAt(bytes: seq<Byte>, i: nat)
    requires i < |bytes|
    ensures Encoded(bytes)[2 * i..2 * i + 2] == Octet(bytes[i])
  {
    HalvesRebuild(bytes, i + 1);
    EncodedMore(bytes, i);
    EncodedAppend(bytes[..i + 1], bytes[i + 1..]);
    SliceOfMiddle(Encoded(bytes[..i]), Octet(bytes[i]), Encoded(bytes[i + 1..]));
  }

  lemma SliceOfMiddle(a: string, b: string, c: string)
    ensures (a + b + c)[|a|..|a| + |b|] == b
  {
  }

  /** Section 8 of RFC 4648 writes the high half of a byte first. */
  lemma HighHalfFirst()
    ensures Encoded([0x01, 0x23, 0x45, 0x67]) == "01234567"
    ensures Encoded([0x89, 0xab, 0xcd, 0xef]) == "89abcdef"
  {
    FourBytes(0x01, 0x23, 0x45, 0x67);
    FourBytes(0x89, 0xab, 0xcd, 0xef);
  }

  lemma FourBytes(a: Byte, b: Byte, c: Byte, d: Byte)
    ensures Encoded([a, b, c, d]) == Octet(a) + (Octet(b) + (Octet(c) + Octet(d)))
  {
    assert [a, b, c, d] == [a] + [b, c, d] && [b, c, d] == [b] + [c, d] && [c, d] == [c] + [d] && [d] == [d] + [];
    EncodedCons(a, [b, c, d]);
    EncodedCons(b, [c, d]);
    EncodedCons(c, [d]);
    EncodedCons(d, []);
    assert Octet(d) + "" == Octet(d);
  }

  // ---- stream formatting ----

  /** `std::hex` on an integer: as many digits as it needs. */
  function Formatted(n: nat): (s: string)
    ensures s != ""
  {
    if n < 16 then [Digit(n)] else Formatted(n / 16) + [Digit(n % 16)]
  }

  /** `std::setw` with `std::setfill`: filled up on the left, never cut. */
  function Filled(s: string, width: nat, fill: char): string
    decreases width - |s|
  {
    if |s| >= width then s else Filled([fill] + s, width, fill)
  }

  lemma TwoDigits(b: Byte)
    ensures Filled(Formatted(b as int), 2, '0') == Octet(b)
  {
    var n := b as int;
    if n < 16 {
      assert Filled(Formatted(n), 2, '0') == ['0'] + Formatted(n);
    } else {
      assert Formatted(n / 16) == [Digit(n / 16)];
    }
  }

  // ---- the encoders ----

  /** `Crypto::HexEncode(unsigned char *, int)`; nothing is written for a negative size. */
  method HexEncode(hash: array<Byte>, size: int) returns (ss: string)
    requires size <= hash.Length
    ensures ss == Encoded(hash[..if size < 0 then 0 else size])
  {
    ss := "";
    var i := 0;
    while i < size
      invariant 0 <= i && (i <= size || i == 0)
      invariant ss == Encoded(hash[..i])
    {
      EncodedMore(hash[..], i);
      assert hash[..][..i] == hash[..i] && hash[..][..i + 1] == hash[..i + 1];
      TwoDigits(hash[i]);
      ss := ss + Filled(Formatted(hash[i] as int), 2, '0');
      i := i + 1;
    }
  }

  const DEC2HEX := "0123456789abcdef"

  lemma TableHoldsDigits(n: nat)
    requires n < 16
    ensures DEC2HEX[n] == Digit(n)
  {
  }

  lemma TableStep(digest: seq<Byte>, i: nat, it: nat)
    requires i < |digest| && it == digest[i] as int
    ensures Encoded(digest[..i + 1]) == Encoded(digest[..i]) + [DEC2HEX[it / 16 % 16]] + [DEC2HEX[it % 16]]
  {
    EncodedMore(digest, i);
    TableHoldsDigits(it / 16);
    TableHoldsDigits(it % 16);
  }

  /** `Crypto::HexEncode(const std::vector<unsigned char> &)`, by table. */
  method HexEncodeDigest(digest: seq<Byte>) returns (sResult: string)
    ensures sResult == Encoded(digest)
  {
    sResult := "";
    for i := 0 to |digest|
      invariant sResult == Encoded(digest[..i])
    {
      var it := digest[i] as int;
      TableStep(digest, i, it);
      sResult := sResult + [DEC2HEX[it / 16 % 16]];
      sResult := sResult + [DEC2HEX[it % 16]];
    }
    assert digest[..|digest|] == digest;
  }

  /** `StringUtils::ToHexString`. */
  method ToHexString(input: array<Byte>, length: nat) returns (ss: string)
    requires length <= input.Length
    ensures ss == Encoded(input[..length])
  {
    ss := "";
    var i := 0;
    while i < length
      invariant i <= length
      invariant ss == Encoded(input[..i])
    {
      EncodedMore(input[..], i);
      assert input[..][..i] == input[..i] && input[..][..i + 1] == input[..i + 1];
      TwoDigits(input[i]);
      ss := ss + Filled(Formatted(input[i] as int), 2, '0');
      i := i + 1;
    }
  }

  // ---- decoding ----

  function DigitValue(c: char): (v: int)
    ensures -1 <= v < 16
  {
    if '0' <= c <= '9' then (c - '0') as int
    else if 'a' <= c <= 'f' then 10 + (c - 'a') as int
    else if 'A' <= c <= 'F' then 10 + (c - 'A') as int
    else -1
  }

  /** Base 16 decoding as section 8 of RFC 4648 defines it, in either case; `None` for what is no such text. */
  function Decode(s: string): Option<seq<Byte>> {
    if s == "" then Some([])
    else if |s| == 1 || DigitValue(s[0]) < 0 || DigitValue(s[1]) < 0 then None
    else match Decode(s[2..])
         case None => None
         case Some(rest) => Some([(16 * DigitValue(s[0]) + DigitValue(s[1])) as Byte] + rest)
  }

  lemma DigitOfValue(c: char)
    requires DigitValue(c) >= 0
    ensures ToLower([c]) == [Digit(DigitValue(c))]
  {
  }

  lemma ValueOfDigit(n: nat)
    requires n < 16
    ensures DigitValue(Digit(n)) == n
  {
  }

  lemma DecodeMore(b: Byte, s: string)
    ensures Decode(Octet(b) + s) == match Decode(s) case None => None case Some(rest) => Some([b] + rest)
  {
    ValueOfDigit(b as int / 16);
    ValueOfDigit(b as int % 16);
    assert (Octet(b) + s)[2..] == s;
  }

  lemma {:induction false} DecodeInvertsEncode(bytes: seq<Byte>)
    ensures Decode(Encoded(bytes)) == Some(bytes)
  {
    if bytes != [] {
      DecodeInvertsEncode(bytes[1..]);
      DecodeMore(bytes[0], Encoded(bytes[1..]));
      assert bytes == [bytes[0]] + bytes[1..];
    }
  }

  lemma HighAndLow(high: nat, low: nat)
    requires high < 16 && low < 16
    ensures 16 * high + low < 256 && (16 * high + low) / 16 == high && (16 * high + low) % 16 == low
  {
  }

  lemma OctetOfDigits(c: char, d: char)
    requires DigitValue(c) >= 0 && DigitValue(d) >= 0
    ensures Octet((16 * DigitValue(c) + DigitValue(d)) as Byte) == ToLower([c, d])
  {
    DigitOfValue(c);
    DigitOfValue(d);
    HighAndLow(DigitValue(c), DigitValue(d));
    assert ToLower([c, d]) == ToLower([c]) + ToLower([d]);
  }

  lemma DecodedStep(s: string) returns (b: Byte, bytes: seq<Byte>)
    requires s != "" && Decode(s).Some?
    ensures |s| >= 2 && Decode(s[2..]) == Some(bytes) && Decode(s) == Some([b] + bytes)
    ensures Octet(b) == ToLower(s[..2])
  {
    OctetOfDigits(s[0], s[1]);
    assert s[..2] == [s[0], s[1]];
    b, bytes := (16 * DigitValue(s[0]) + DigitValue(s[1])) as Byte, Decode(s[2..]).value;
  }

  /** Whatever can be decoded was the encoding of its bytes, up to the case of the digits. */
  lemma {:induction false} EncodeInvertsDecode(s: string)
    requires Decode(s).Some?
    ensures Encoded(Decode(s).value) == ToLower(s)
  {
    if s == "" {
      assert Decode(s) == Some([]);
    } else {
      var b, bytes := DecodedStep(s);
      EncodeInvertsDecode(s[2..]);
      EncodedCons(b, bytes);
      LowerHalves(s, 2);
    }
  }

  lemma EncodedCons(b: Byte, bytes: seq<Byte>)
    ensures Encoded([b] + bytes) == Octet(b) + Encoded(bytes)
  {
    assert ([b] + bytes)[1..] == bytes;
  }

  lemma LowerHalves(s: string, i: nat)
    requires i <= |s|
    ensures ToLower(s) == ToLower(s[..i]) + ToLower(s[i..])
  {
  }

  predicate IsLowerHex(s: string) {
    forall i :: 0 <= i < |s| ==> '0' <= s[i] <= '9' || 'a' <= s[i] <= 'f'
  }

  /** An encoding has no separator in it, so that it can close a header. */
  lemma {:induction false} EncodedIsLowerHex(bytes: seq<Byte>)
    ensures IsLowerHex(Encoded(bytes))
  {
    if bytes != [] {
      EncodedIsLowerHex(bytes[1..]);
      assert IsLowerHex(Octet(bytes[0]));
    }
  }
}
