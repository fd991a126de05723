/**
  The constant-time Base64 codec (bench/shootout-src/base64.c), all four variants, with
  no ignore set, against sections 3.5, 4 and 5 of RFC 4648.
 */
module Base64 {

  type byte = bv8

  /** Padding or none, standard or URL-safe alphabet: the four accepted variants. */
  datatype Variant = Variant(noPadding: bool, urlSafe: bool)

  const PAD: byte := 61

  // ----- characters, with the masks of the program -----

  function Eq(x: bv32, y: bv32): bv32 { (((0 - (x ^ y)) >> 8) & 0xFF) ^ 0xFF }
  function Gt(x: bv32, y: bv32): bv32 { ((y - x) >> 8) & 0xFF }
  function Ge(x: bv32, y: bv32): bv32 { Gt(y, x) ^ 0xFF }
  function Lt(x: bv32, y: bv32): bv32 { Gt(y, x) }
  function Le(x: bv32, y: bv32): bv32 { Ge(y, x) }

  /** b64_byte_to_char and its URL-safe twin; c62 and c63 are the last two characters. */
  function ByteToChar(x: bv32, c62: bv32, c63: bv32): bv32 {
    (Lt(x, 26) & (x + 65)) | (Ge(x, 26) & Lt(x, 52) & (x + 71)) | (Ge(x, 52) & Lt(x, 62) & (x - 4))
    | (Eq(x, 62) & c62) | (Eq(x, 63) & c63)
  }

  function CharToByte(c: bv32, c62: bv32, c63: bv32): bv32 {
    var x := (Ge(c, 65) & Le(c, 90) & (c - 65)) | (Ge(c, 97) & Le(c, 122) & (c - 71)) | (Ge(c, 48) & Le(c, 57) & (c + 4))
             | (Eq(c, c62) & 62) | (Eq(c, c63) & 63);
    x | (Eq(x, 0) & (Eq(c, 65) ^ 0xFF))
  }

  /** The alphabets of RFC 4648: table 1 and table 2. */
  function Alphabet(url: bool, x: byte): byte
    requires x < 64
  {
    if x < 26 then x + 65
    else if x < 52 then x + 71
    else if x < 62 then x - 4
    else if x == 62 then (if url then 45 else 43)
    else (if url then 95 else 47)
  }

  function C62(url: bool): bv32 { if url then 45 else 43 }
  function C63(url: bool): bv32 { if url then 95 else 47 }

  /** Integer promotion of a char, which the platform may treat as signed. */
  function Promote(signed: bool, c: byte): bv32 {
    if signed && c >= 128 then (c as bv32) | 0xFFFF_FF00 else c as bv32
  }

  lemma EncodesAlphabet(url: bool, x: byte)
    requires x < 64
    ensures ByteToChar(x as bv32, C62(url), C63(url)) == Alphabet(url, x) as bv32
  {
  }

  /** The digit of a character, or 255. */
  function Digit(signed: bool, url: bool, c: byte): bv32 {
    CharToByte(Promote(signed, c), C62(url), C63(url))
  }

  lemma AlphabetDecodes(signed: bool, url: bool, x: byte)
    requires x < 64
    ensures Digit(signed, url, Alphabet(url, x)) == x as bv32
  {
  }

  /** A digit of an ASCII character is its place in the alphabet. */
  lemma AsciiDigits(c: bv32, c62: bv32, c63: bv32)
    requires c < 128 && (c62 == 43 || c62 == 45) && (c63 == 47 || c63 == 95)
    ensures CharToByte(c, c62, c63)
         == if 65 <= c <= 90 then c - 65 else if 97 <= c <= 122 then c - 71 else if 48 <= c <= 57 then c + 4
            else if c == c62 then 62 else if c == c63 then 63 else 0xFF
  {
  }

  /** Where char is signed, the masks take every byte from 0x80 up for both last digits at once: 62 | 63. */
  lemma SignedDigits(c: bv32, c62: bv32, c63: bv32)
    requires c >= 0xFFFF_FF80 && (c62 == 43 || c62 == 45) && (c63 == 47 || c63 == 95)
    ensures CharToByte(c, c62, c63) == 63
  {
  }

  lemma UnsignedDigits(c: bv32, c62: bv32, c63: bv32)
    requires 128 <= c < 256 && (c62 == 43 || c62 == 45) && (c63 == 47 || c63 == 95)
    ensures CharToByte(c, c62, c63) == 0xFF
  {
  }

  // ----- groups of three bytes and four digits -----

  // The four digits of three bytes, and the three bytes of four digits.
  function D0(a: byte): byte { a >> 2 }
  function D1(a: byte, b: byte): byte { ((a & 3) << 4) | (b >> 4) }
  function D2(b: byte, c: byte): byte { ((b & 15) << 2) | (c >> 6) }
  function D3(c: byte): byte { c & 63 }
  function B0(p: byte, q: byte): byte { (p << 2) | (q >> 4) }
  function B1(q: byte, r: byte): byte { ((q & 15) << 4) | (r >> 2) }
  function B2(r: byte, s: byte): byte { ((r & 3) << 6) | s }

  lemma GroupOfBytes(a: byte, b: byte, c: byte)
    ensures B0(D0(a), D1(a, b)) == a && B1(D1(a, b), D2(b, c)) == b && B2(D2(b, c), D3(c)) == c
    ensures D0(a) < 64 && D1(a, b) < 64 && D2(b, c) < 64 && D3(c) < 64
    ensures D1(a, 0) & 15 == 0 && D2(b, 0) & 3 == 0
  {
  }

  lemma GroupOfDigits(p: byte, q: byte, r: byte, s: byte)
    requires p < 64 && q < 64 && r < 64 && s < 64
    ensures D0(B0(p, q)) == p && D1(B0(p, q), B1(q, r)) == q && D2(B1(q, r), B2(r, s)) == r && D3(B2(r, s)) == s
    ensures q & 15 == 0 ==> D1(B0(p, q), 0) == q
    ensures r & 3 == 0 ==> D2(B1(q, r), 0) == r
  {
  }

  /** The digits of a byte string; a last group of one or two bytes gives two or three. */
  function Digits(bin: seq<byte>): seq<byte> {
    if bin == [] then []
    else if |bin| == 1 then [D0(bin[0]), D1(bin[0], 0)]
    else if |bin| == 2 then [D0(bin[0]), D1(bin[0], bin[1]), D2(bin[1], 0)]
    else [D0(bin[0]), D1(bin[0], bin[1]), D2(bin[1], bin[2]), D3(bin[2])] + Digits(bin[3..])
  }

  function Bytes(ds: seq<byte>): seq<byte> {
    if |ds| <= 1 then []
    else if |ds| == 2 then [B0(ds[0], ds[1])]
    else if |ds| == 3 then [B0(ds[0], ds[1]), B1(ds[1], ds[2])]
    else [B0(ds[0], ds[1]), B1(ds[1], ds[2]), B2(ds[2], ds[3])] + Bytes(ds[4..])
  }

  predicate AllDigits(ds: seq<byte>) {
    forall i :: 0 <= i < |ds| ==> ds[i] < 64
  }

  /** No lone digit at the end, and no bits left over. */
  predicate Canonical(ds: seq<byte>) {
    if |ds| >= 4 then Canonical(ds[4..])
    else |ds| != 1 && (|ds| == 2 ==> ds[1] & 15 == 0) && (|ds| == 3 ==> ds[2] & 3 == 0)
  }

  lemma BytesOfGroup(p: byte, q: byte, r: byte, s: byte, rest: seq<byte>)
    ensures Bytes([p, q, r, s] + rest) == [B0(p, q), B1(q, r), B2(r, s)] + Bytes(rest)
    ensures Canonical([p, q, r, s] + rest) <==> Canonical(rest)
  {
    assert ([p, q, r, s] + rest)[4..] == rest;
  }

  lemma {:induction false} BytesOfDigits(bin: seq<byte>)
    ensures Bytes(Digits(bin)) == bin && AllDigits(Digits(bin)) && Canonical(Digits(bin))
  {
    if |bin| >= 3 {
      var a, b, c := bin[0], bin[1], bin[2];
      GroupOfBytes(a, b, c);
      BytesOfDigits(bin[3..]);
      BytesOfGroup(D0(a), D1(a, b), D2(b, c), D3(c), Digits(bin[3..]));
      assert bin == [a, b, c] + bin[3..];
    } else if |bin| == 2 {
      GroupOfBytes(bin[0], bin[1], 0);
    } else if |bin| == 1 {
      GroupOfBytes(bin[0], 0, 0);
    }
  }

  lemma {:induction false} DigitsOfBytes(ds: seq<byte>)
    requires AllDigits(ds) && Canonical(ds)
    ensures Digits(Bytes(ds)) == ds
  {
    if |ds| >= 4 {
      GroupOfDigits(ds[0], ds[1], ds[2], ds[3]);
      DigitsOfBytes(ds[4..]);
      assert Bytes(ds)[3..] == Bytes(ds[4..]);
      assert ds == [ds[0], ds[1], ds[2], ds[3]] + ds[4..];
    } else if |ds| == 3 {
      GroupOfDigits(ds[0], ds[1], ds[2], 0);
    } else if |ds| == 2 {
      GroupOfDigits(ds[0], ds[1], 0, 0);
    }
  }

  // ----- texts, for any pair of character maps -----

  type Map = byte -> byte

  function Apply(f: Map, s: seq<byte>): (r: seq<byte>)
    ensures |r| == |s| && forall i :: 0 <= i < |s| ==> r[i] == f(s[i])
  {
    seq(|s|, i requires 0 <= i < |s| => f(s[i]))
  }

  /** Padding that completes k digits to a group of four. */
  function PadCount(k: nat): nat {
    if k % 4 == 2 then 2 else if k % 4 == 3 then 1 else 0
  }

  function Pads(n: nat): (s: seq<byte>)
    ensures |s| == n && forall i :: 0 <= i < n ==> s[i] == PAD
  {
    seq(n, _ => PAD)
  }

  function Text(ch: Map, ds: seq<byte>, noPadding: bool): seq<byte> {
    Apply(ch, ds) + Pads(if noPadding then 0 else PadCount(|ds|))
  }

  function Encode(ch: Map, bin: seq<byte>, noPadding: bool): seq<byte> {
    Text(ch, Digits(bin), noPadding)
  }

  /** The first n characters are digits, and the next is not. */
  ghost predicate IsRun(dg: Map, text: seq<byte>, n: nat) {
    n <= |text| && (forall i :: 0 <= i < n ==> dg(text[i]) != 0xFF) && (n < |text| ==> dg(text[n]) == 0xFF)
  }

  /** How many leading characters are digits. */
  function DigitRun(dg: Map, text: seq<byte>): (n: nat)
    ensures IsRun(dg, text, n)
  {
    if text == [] || dg(text[0]) == 0xFF then 0 else 1 + DigitRun(dg, text[1..])
  }

  lemma {:induction false} RunIs(dg: Map, text: seq<byte>, k: nat)
    requires IsRun(dg, text, k)
    ensures DigitRun(dg, text) == k
    decreases k
  {
    if k > 0 {
      assert dg(text[0]) != 0xFF;
      RunIs(dg, text[1..], k - 1);
    }
  }

  datatype Result = Rejected | Decoded(bin: seq<byte>)

  /** Digits, then exactly the padding they call for. */
  function Decode(dg: Map, text: seq<byte>, noPadding: bool): Result {
    var n := DigitRun(dg, text);
    var ds := Apply(dg, text[..n]);
    if Canonical(ds) && text[n..] == Pads(if noPadding then 0 else PadCount(n)) then Decoded(Bytes(ds)) else Rejected
  }

  /** Every alphabet character is read back, and the padding character is no digit. */
  ghost predicate ReadsBack(ch: Map, dg: Map) {
    (forall x :: x < 64 ==> dg(ch(x)) == x) && dg(PAD) == 0xFF
  }

  ghost predicate DigitsOrNone(dg: Map) {
    forall c :: dg(c) == 0xFF || dg(c) < 64
  }

  /** Decoding an encoding returns the bytes. */
  lemma DecodeEncode(ch: Map, dg: Map, bin: seq<byte>, noPadding: bool)
    requires ReadsBack(ch, dg)
    ensures Decode(dg, Encode(ch, bin, noPadding), noPadding) == Decoded(bin)
  {
    var ds := Digits(bin);
    BytesOfDigits(bin);
    var text := Encode(ch, bin, noPadding);
    forall i | 0 <= i < |ds| ensures dg(text[i]) == ds[i] {
      assert text[i] == ch(ds[i]);
    }
    RunIs(dg, text, |ds|);
    assert Apply(dg, text[..|ds|]) == ds;
  }

  /** Re-encoding a decoded text changes exactly the digits whose character the alphabet would not use. */
  lemma EncodeDecode(ch: Map, dg: Map, text: seq<byte>, noPadding: bool)
    requires DigitsOrNone(dg) && Decode(dg, text, noPadding).Decoded?
    ensures Encode(ch, Decode(dg, text, noPadding).bin, noPadding) == text
       <==> forall i :: 0 <= i < DigitRun(dg, text) ==> ch(dg(text[i])) == text[i]
  {
    var n := DigitRun(dg, text);
    var ds := Apply(dg, text[..n]);
    forall i | 0 <= i < n ensures ds[i] < 64 {
      var c := text[i];
      assert ds[i] == dg(c) && dg(c) != 0xFF;
      assert dg(c) == 0xFF || dg(c) < 64;
    }
    DigitsOfBytes(ds);
    var again := Encode(ch, Decode(dg, text, noPadding).bin, noPadding);
    assert again == Apply(ch, ds) + text[n..];
    forall i | 0 <= i < n ensures again[i] == ch(dg(text[i])) {
    }
    if forall i :: 0 <= i < n ==> ch(dg(text[i])) == text[i] {
      assert Apply(ch, ds) == text[..n];
      assert text == text[..n] + text[n..];
    }
  }

  // ----- the program's character maps -----

  function CharOf(url: bool, x: byte): byte {
    if x < 64 then Alphabet(url, x) else 0
  }

  function CharMap(url: bool): Map {
    (x: byte) => CharOf(url, x)
  }

  function DigitByte(signed: bool, url: bool, c: byte): byte {
    (Digit(signed, url, c) & 0xFF) as byte
  }

  function DigitMap(signed: bool, url: bool): Map {
    (c: byte) => DigitByte(signed, url, c)
  }

  lemma DigitValue(signed: bool, url: bool, c: byte)
    ensures c >= 128 ==> Digit(signed, url, c) == if signed then 63 else 0xFF
    ensures c < 128 ==>
      var d := Digit(signed, url, c); d == 0xFF || (d < 64 && Alphabet(url, d as byte) == c)
  {
    var x := Promote(signed, c);
    if c >= 128 {
      if signed {
        SignedDigits(x, C62(url), C63(url));
      } else {
        UnsignedDigits(x, C62(url), C63(url));
      }
    } else {
      AsciiDigits(x, C62(url), C63(url));
    }
  }

  lemma PadIsNoDigit(signed: bool, url: bool)
    ensures Digit(signed, url, PAD) == 0xFF
  {
    AsciiDigits(61, C62(url), C63(url));
  }

  lemma AlphabetIsAscii(url: bool, x: byte)
    requires x < 64
    ensures Alphabet(url, x) < 128
  {
  }

  lemma MapsFit(signed: bool, url: bool)
    ensures ReadsBack(CharMap(url), DigitMap(signed, url)) && DigitsOrNone(DigitMap(signed, url))
  {
    var ch, dg := CharMap(url), DigitMap(signed, url);
    forall x: byte | x < 64 ensures dg(ch(x)) == x {
      AlphabetDecodes(signed, url, x);
    }
    PadIsNoDigit(signed, url);
    forall c ensures dg(c) == 0xFF || dg(c) < 64 {
      DigitValue(signed, url, c);
    }
  }

  lemma DigitIsExact(signed: bool, url: bool, c: byte)
    requires DigitMap(signed, url)(c) != 0xFF
    ensures CharMap(url)(DigitMap(signed, url)(c)) == c <==> c < 128
  {
    DigitValue(signed, url, c);
    AlphabetIsAscii(url, 63);
  }

  /** For every variant and platform, decoding an encoding returns the bytes. */
  lemma RoundTrip(signed: bool, v: Variant, bin: seq<byte>)
    ensures Decode(DigitMap(signed, v.urlSafe), Encode(CharMap(v.urlSafe), bin, v.noPadding), v.noPadding) == Decoded(bin)
  {
    MapsFit(signed, v.urlSafe);
    DecodeEncode(CharMap(v.urlSafe), DigitMap(signed, v.urlSafe), bin, v.noPadding);
  }

  ghost predicate Ascii(text: seq<byte>) {
    forall i :: 0 <= i < |text| ==> text[i] < 128
  }

  /** A decoded text re-encodes to itself exactly when it is ASCII. */
  lemma ReencodesIffAscii(signed: bool, v: Variant, text: seq<byte>)
    requires Decode(DigitMap(signed, v.urlSafe), text, v.noPadding).Decoded?
    ensures Encode(CharMap(v.urlSafe), Decode(DigitMap(signed, v.urlSafe), text, v.noPadding).bin, v.noPadding) == text
       <==> Ascii(text)
  {
    var ch, dg := CharMap(v.urlSafe), DigitMap(signed, v.urlSafe);
    MapsFit(signed, v.urlSafe);
    EncodeDecode(ch, dg, text, v.noPadding);
    var n := DigitRun(dg, text);
    forall i | 0 <= i < n ensures ch(dg(text[i])) == text[i] <==> text[i] < 128 {
      DigitIsExact(signed, v.urlSafe, text[i]);
    }
    assert forall i :: n <= i < |text| ==> text[i] == text[n..][i - n] == PAD;
  }

  /** Where char is unsigned, every decoded text is ASCII: the decoder is then exact. */
  lemma UnsignedAcceptsAscii(v: Variant, text: seq<byte>)
    requires Decode(DigitMap(false, v.urlSafe), text, v.noPadding).Decoded?
    ensures Ascii(text)
  {
    var dg := DigitMap(false, v.urlSafe);
    var n := DigitRun(dg, text);
    forall i | 0 <= i < n ensures text[i] < 128 {
      DigitValue(false, v.urlSafe, text[i]);
      assert dg(text[i]) != 0xFF;
    }
    assert forall i :: n <= i < |text| ==> text[i] == text[n..][i - n] == PAD;
  }

  /** Where char is signed, four bytes 0x80 decode to three bytes 0xFF, like four slashes do. */
  lemma SignedAcceptsMore()
    ensures Decode(DigitMap(true, false), [0x80, 0x80, 0x80, 0x80], false) == Decoded([0xFF, 0xFF, 0xFF])
    ensures !Ascii([0x80, 0x80, 0x80, 0x80])
  {
    DigitValue(true, false, 0x80);
    FourHighBytes(DigitMap(true, false));
    var text: seq<byte> := [0x80, 0x80, 0x80, 0x80];
    assert text[0] == 0x80;
  }

  lemma FourHighBytes(dg: Map)
    requires dg(0x80) == 63
    ensures Decode(dg, [0x80, 0x80, 0x80, 0x80], false) == Decoded([0xFF, 0xFF, 0xFF])
  {
    var text: seq<byte> := [0x80, 0x80, 0x80, 0x80];
    RunIs(dg, text, 4);
    var ds := Apply(dg, text[..4]);
    assert ds == [63, 63, 63, 63] && ds[4..] == [] && text[4..] == [];
    assert Canonical(ds[4..]) && Bytes(ds[4..]) == [];
    assert Bytes(ds) == [0xFF, 0xFF, 0xFF];
  }

  // ----- the encoder -----

  /** The shifts that occur, by an even number of bits. */
  function Shr(x: bv32, n: nat): bv32 {
    if n == 0 then x else if n == 2 then x >> 2 else if n == 4 then x >> 4 else if n == 6 then x >> 6 else 0
  }

  /** Digits that are complete after k bytes. */
  function Emitted(bin: seq<byte>, k: nat): seq<byte>
    requires k <= |bin|
  {
    if k < 3 then
      if k == 0 then [] else if k == 1 then [D0(bin[0])] else [D0(bin[0]), D1(bin[0], bin[1])]
    else [D0(bin[0]), D1(bin[0], bin[1]), D2(bin[1], bin[2]), D3(bin[2])] + Emitted(bin[3..], k - 3)
  }

  /** Digits that byte k completes. */
  function Fresh(bin: seq<byte>, k: nat): seq<byte>
    requires k < |bin|
  {
    if k % 3 == 0 then [D0(bin[k])]
    else if k % 3 == 1 then [D1(bin[k - 1], bin[k])]
    else [D2(bin[k - 1], bin[k]), D3(bin[k])]
  }

  /** The digit that the left-over bits make. */
  function LeftOver(bin: seq<byte>): seq<byte> {
    var k := |bin|;
    if k % 3 == 0 then [] else if k % 3 == 1 then [D1(bin[k - 1], 0)] else [D2(bin[k - 1], 0)]
  }

  lemma {:induction false} EmittedStep(bin: seq<byte>, k: nat)
    requires k < |bin|
    ensures Emitted(bin, k + 1) == Emitted(bin, k) + Fresh(bin, k)
    decreases k
  {
    if k >= 3 {
      EmittedStep(bin[3..], k - 3);
      assert (k - 3) % 3 == k % 3;
      assert Fresh(bin[3..], k - 3) == Fresh(bin, k);
    } else if k == 2 {
      assert Emitted(bin[3..], 0) == [];
    }
  }

  lemma {:induction false} EmittedAll(bin: seq<byte>)
    ensures Emitted(bin, |bin|) + LeftOver(bin) == Digits(bin)
    decreases |bin|
  {
    if |bin| >= 3 {
      EmittedAll(bin[3..]);
      assert (|bin| - 3) % 3 == |bin| % 3;
      assert LeftOver(bin[3..]) == LeftOver(bin);
    }
  }

  // What the accumulator holds, bit by bit.
  function Next(acc: bv32, b: byte): bv32 { (acc << 8) + (b as bv32) }
  function Sextet(acc: bv32, n: nat): byte { (Shr(acc, n) & 0x3F) as byte }

  /** The low bits of the accumulator are those of the last byte, as many as are pending. */
  predicate Pending(acc: bv32, bin: seq<byte>, k: nat)
    requires k <= |bin|
  {
    && (k % 3 == 1 ==> acc & 3 == (bin[k - 1] & 3) as bv32)
    && (k % 3 == 2 ==> acc & 15 == (bin[k - 1] & 15) as bv32)
  }

  lemma FirstBits(acc: bv32, b: byte)
    ensures Sextet(Next(acc, b), 2) == D0(b) && Next(acc, b) & 3 == (b & 3) as bv32
  {
  }

  lemma SecondBits(acc: bv32, p: byte, b: byte)
    requires acc & 3 == (p & 3) as bv32
    ensures Sextet(Next(acc, b), 4) == D1(p, b) && Next(acc, b) & 15 == (b & 15) as bv32
  {
  }

  lemma ThirdBits(acc: bv32, p: byte, b: byte)
    requires acc & 15 == (p & 15) as bv32
    ensures Sextet(Next(acc, b), 6) == D2(p, b) && Sextet(Next(acc, b), 0) == D3(b)
  {
  }

  lemma LastBits(acc: bv32, p: byte)
    ensures acc & 3 == (p & 3) as bv32 ==> ((acc << 4) & 0x3F) as byte == D1(p, 0)
    ensures acc & 15 == (p & 15) as bv32 ==> ((acc << 2) & 0x3F) as byte == D2(p, 0)
  {
  }

  /** The digits the inner loop takes from the top of len pending bits. */
  function Drained(acc: bv32, len: nat): seq<byte> {
    if len < 6 then [] else [Sextet(acc, len - 6)] + Drained(acc, len - 6)
  }

  /** A new byte on top of the pending bits gives the digits it completes. */
  lemma DrainedIsFresh(acc: bv32, bin: seq<byte>, k: nat)
    requires k < |bin| && Pending(acc, bin, k)
    ensures Drained(Next(acc, bin[k]), 2 * (k % 3) + 8) == Fresh(bin, k)
    ensures Pending(Next(acc, bin[k]), bin, k + 1)
  {
    var acc', b := Next(acc, bin[k]), bin[k];
    if k % 3 == 0 {
      FirstBits(acc, b);
      assert Drained(acc', 8) == [Sextet(acc', 2)] + Drained(acc', 2);
    } else if k % 3 == 1 {
      SecondBits(acc, bin[k - 1], b);
      assert Drained(acc', 10) == [Sextet(acc', 4)] + Drained(acc', 4);
    } else {
      ThirdBits(acc, bin[k - 1], b);
      assert Drained(acc', 12) == [Sextet(acc', 6)] + Drained(acc', 6);
      assert Drained(acc', 6) == [Sextet(acc', 0)] + Drained(acc', 0);
    }
  }

  /** One character of the output. */
  method PutDigit(b64: array<byte>, at: nat, x: byte, url: bool)
    requires at < b64.Length && x < 64
    modifies b64
    ensures b64[..at + 1] == old(b64[..at]) + [CharOf(url, x)]
  {
    EncodesAlphabet(url, x);
    b64[at] := (ByteToChar(x as bv32, C62(url), C63(url)) & 0xFF) as byte;
    KeepsByte(ByteToChar(x as bv32, C62(url), C63(url)), Alphabet(url, x));
  }

  lemma KeepsByte(w: bv32, c: byte)
    requires w == c as bv32
    ensures (w & 0xFF) as byte == c
  {
  }

  /** base64_ENCODED_LEN, the closing NUL included. */
  function EncodedLen(binLen: nat, noPadding: bool): nat {
    var r := binLen % 3;
    binLen / 3 * 4 + (if r == 0 then 0 else 4 - (if noPadding then 3 - r else 0)) + 1
  }

  lemma {:induction false} CountDigits(bin: seq<byte>, k: nat)
    requires k <= |bin|
    ensures |Emitted(bin, k)| == 4 * (k / 3) + k % 3
    ensures |Digits(bin)| == 4 * (|bin| / 3) + (if |bin| % 3 == 0 then 0 else |bin| % 3 + 1)
    decreases |bin|
  {
    if |bin| >= 3 {
      CountDigits(bin[3..], if k >= 3 then k - 3 else 0);
    }
  }

  /** The length macro is the length of the text plus one. */
  lemma EncodedLength(ch: Map, bin: seq<byte>, noPadding: bool)
    ensures |Encode(ch, bin, noPadding)| + 1 == EncodedLen(|bin|, noPadding)
  {
    CountDigits(bin, 0);
    GroupsOfFour(|bin|, |Digits(bin)|, noPadding);
  }

  lemma GroupsOfFour(n: nat, d: nat, noPadding: bool)
    requires d == 4 * (n / 3) + (if n % 3 == 0 then 0 else n % 3 + 1)
    ensures d + (if noPadding then 0 else PadCount(d)) + 1 == EncodedLen(n, noPadding)
  {
  }

  lemma ApplyMore(f: Map, s: seq<byte>, t: seq<byte>)
    ensures Apply(f, s + t) == Apply(f, s) + Apply(f, t)
  {
  }

  lemma SextetIsDigit(acc: bv32, n: nat)
    ensures Sextet(acc, n) < 64
  {
  }

  lemma DrainStep(ch: Map, done: seq<byte>, d: byte, acc: bv32, accLen: nat, all: seq<byte>)
    requires d == Sextet(acc, accLen) && done + Drained(acc, accLen + 6) == all
    ensures done + [d] + Drained(acc, accLen) == all
    ensures Apply(ch, done + [d]) == Apply(ch, done) + [ch(d)]
  {
    assert done + ([d] + Drained(acc, accLen)) == done + [d] + Drained(acc, accLen);
  }

  /** The inner loop: digits leave the accumulator while six bits are pending. */
  method Drain(b64: array<byte>, at: nat, acc: bv32, pending: nat, url: bool) returns (pos: nat, accLen: nat)
    requires at + pending / 6 <= b64.Length
    modifies b64
    ensures pos == at + pending / 6 && accLen == pending % 6
    ensures b64[..pos] == old(b64[..at]) + Apply(CharMap(url), Drained(acc, pending))
  {
    pos, accLen := at, pending;
    ghost var done: seq<byte>, all := [], Drained(acc, pending);
    while accLen >= 6
      invariant at <= pos && pos + accLen / 6 == at + pending / 6 && accLen % 6 == pending % 6
      invariant done + Drained(acc, accLen) == all
      invariant b64[..pos] == old(b64[..at]) + Apply(CharMap(url), done)
    {
      accLen := accLen - 6;
      var d := Sextet(acc, accLen);
      SextetIsDigit(acc, accLen);
      PutDigit(b64, pos, d, url);
      DrainStep(CharMap(url), done, d, acc, accLen, all);
      done := done + [d];
      pos := pos + 1;
    }
  }

  /** What the inner loop does to one more byte. */
  lemma EncodeStep(ch: Map, acc: bv32, bin: seq<byte>, k: nat, pending: nat)
    requires k < |bin| && Pending(acc, bin, k) && pending == 2 * (k % 3) + 8
    ensures Apply(ch, Emitted(bin, k + 1)) == Apply(ch, Emitted(bin, k)) + Apply(ch, Drained(Next(acc, bin[k]), pending))
    ensures Pending(Next(acc, bin[k]), bin, k + 1) && pending % 6 == 2 * ((k + 1) % 3)
    ensures |Emitted(bin, k)| + pending / 6 == |Emitted(bin, k + 1)| <= |Digits(bin)|
  {
    DrainedIsFresh(acc, bin, k);
    EmittedStep(bin, k);
    ApplyMore(ch, Emitted(bin, k), Fresh(bin, k));
    CountDigits(bin, k);
    CountDigits(bin, k + 1);
  }

  /** The outer loop: one byte at a time. */
  method EncodeBytes(b64: array<byte>, bin: seq<byte>, url: bool) returns (pos: nat, acc: bv32)
    requires |Digits(bin)| <= b64.Length
    modifies b64
    ensures pos == |Emitted(bin, |bin|)| <= b64.Length && Pending(acc, bin, |bin|)
    ensures b64[..pos] == Apply(CharMap(url), Emitted(bin, |bin|))
  {
    var k, accLen := 0, 0;
    pos, acc := 0, 0;
    while k < |bin|
      invariant k <= |bin| && accLen == 2 * (k % 3) && Pending(acc, bin, k)
      invariant pos == |Emitted(bin, k)| <= b64.Length
      invariant b64[..pos] == Apply(CharMap(url), Emitted(bin, k))
    {
      EncodeStep(CharMap(url), acc, bin, k, 2 * (k % 3) + 8);
      acc := Next(acc, bin[k]);
      pos, accLen := Drain(b64, pos, acc, accLen + 8, url);
      k := k + 1;
    }
    CountDigits(bin, |bin|);
  }

  /** The digit of the bits that are left. */
  method EncodeLeftOver(b64: array<byte>, bin: seq<byte>, at: nat, acc: bv32, url: bool) returns (pos: nat)
    requires at == |Emitted(bin, |bin|)| && |Digits(bin)| <= b64.Length && Pending(acc, bin, |bin|)
    requires at <= b64.Length && b64[..at] == Apply(CharMap(url), Emitted(bin, |bin|))
    modifies b64
    ensures pos == |Digits(bin)| && b64[..pos] == Apply(CharMap(url), Digits(bin))
  {
    EmittedAll(bin);
    CountDigits(bin, |bin|);
    ApplyMore(CharMap(url), Emitted(bin, |bin|), LeftOver(bin));
    pos := at;
    if |bin| % 3 != 0 {
      var d := LastDigit(acc, |bin| % 3);
      LastDigitIs(acc, bin);
      PutDigit(b64, pos, d, url);
      pos := pos + 1;
    }
  }

  /** The bits that are left, moved to the top of a digit. */
  function LastDigit(acc: bv32, r: nat): byte {
    if r == 1 then ((acc << 4) & 0x3F) as byte else ((acc << 2) & 0x3F) as byte
  }

  lemma LastDigitIs(acc: bv32, bin: seq<byte>)
    requires |bin| % 3 != 0 && Pending(acc, bin, |bin|)
    ensures LeftOver(bin) == [LastDigit(acc, |bin| % 3)] && LastDigit(acc, |bin| % 3) < 64
  {
    LastBits(acc, bin[|bin| - 1]);
  }

  /** Fills a stretch of the buffer with one character. */
  method Fill(b64: array<byte>, from: nat, to: nat, c: byte)
    requires from <= to <= b64.Length
    modifies b64
    ensures forall i :: 0 <= i < b64.Length && !(from <= i < to) ==> b64[i] == old(b64[i])
    ensures forall i :: from <= i < to ==> b64[i] == c
  {
    var pos := from;
    while pos < to
      invariant from <= pos <= to
      invariant forall i :: 0 <= i < b64.Length && !(from <= i < pos) ==> b64[i] == old(b64[i])
      invariant forall i :: from <= i < pos ==> b64[i] == c
    {
      b64[pos] := c;
      pos := pos + 1;
    }
  }

  /** bin2base64: the encoding, then NULs to the end of the buffer. */
  method EncodeInto(b64: array<byte>, bin: seq<byte>, v: Variant)
    requires EncodedLen(|bin|, v.noPadding) <= b64.Length
    modifies b64
    ensures
      var text := Encode(CharMap(v.urlSafe), bin, v.noPadding);
      && |text| < b64.Length && b64[..|text|] == text
      && forall i :: |text| <= i < b64.Length ==> b64[i] == 0
  {
    EncodedLength(CharMap(v.urlSafe), bin, v.noPadding);
    var r := |bin| % 3;
    var b64Len := |bin| / 3 * 4 + (if r == 0 then 0 else if v.noPadding then 2 + r / 2 else 4);
    CountDigits(bin, |bin|);
    var pos, acc := EncodeBytes(b64, bin, v.urlSafe);
    pos := EncodeLeftOver(b64, bin, pos, acc, v.urlSafe);
    Fill(b64, pos, b64Len, PAD);
    Fill(b64, b64Len, b64.Length, 0);
  }

  // ----- the decoder -----

  /** The byte that one more digit completes. */
  function Gained(ds: seq<byte>, d: byte): seq<byte> {
    var k := |ds|;
    if k % 4 == 0 then []
    else if k % 4 == 1 then [B0(ds[k - 1], d)]
    else if k % 4 == 2 then [B1(ds[k - 1], d)]
    else [B2(ds[k - 1], d)]
  }

  lemma {:induction false} BytesStep(ds: seq<byte>, d: byte)
    ensures Bytes(ds + [d]) == Bytes(ds) + Gained(ds, d)
    decreases |ds|
  {
    var all := ds + [d];
    if |ds| >= 4 {
      BytesStep(ds[4..], d);
      assert all[4..] == ds[4..] + [d];
      assert (|ds| - 4) % 4 == |ds| % 4;
      assert Gained(ds[4..], d) == Gained(ds, d);
    } else if |ds| == 3 {
      assert all[4..] == [] && Bytes(all[4..]) == [];
    }
  }

  lemma {:induction false} CountBytes(ds: seq<byte>)
    ensures |Bytes(ds)| == |ds| / 4 * 3 + (if |ds| % 4 == 0 then 0 else |ds| % 4 - 1)
  {
    if |ds| >= 4 {
      CountBytes(ds[4..]);
    }
  }

  lemma {:induction false} BytesOfPrefix(ds: seq<byte>, k: nat)
    requires k <= |ds|
    ensures |Bytes(ds[..k])| <= |Bytes(ds)|
  {
    CountBytes(ds);
    CountBytes(ds[..k]);
  }

  /** The pending bits, a mask at a time. */
  predicate Held(acc: bv32, ds: seq<byte>) {
    var k := |ds|;
    && (k % 4 == 1 ==> acc & 63 == ds[k - 1] as bv32)
    && (k % 4 == 2 ==> acc & 15 == (ds[k - 1] & 15) as bv32)
    && (k % 4 == 3 ==> acc & 3 == (ds[k - 1] & 3) as bv32)
  }

  function HeldBits(k: nat): nat {
    if k % 4 == 0 then 0 else if k % 4 == 1 then 6 else if k % 4 == 2 then 4 else 2
  }

  function Push6(acc: bv32, d: byte): bv32 { (acc << 6) + (d as bv32) }
  function Octet(acc: bv32, n: nat): byte { (Shr(acc, n) & 0xFF) as byte }

  lemma FirstDigit(acc: bv32, d: byte)
    requires d < 64
    ensures Push6(acc, d) & 63 == d as bv32
  {
  }

  lemma SecondDigit(acc: bv32, p: byte, d: byte)
    requires acc & 63 == p as bv32 && d < 64
    ensures Octet(Push6(acc, d), 4) == B0(p, d) && Push6(acc, d) & 15 == (d & 15) as bv32
  {
  }

  lemma ThirdDigit(acc: bv32, p: byte, d: byte)
    requires acc & 15 == (p & 15) as bv32 && d < 64
    ensures Octet(Push6(acc, d), 2) == B1(p, d) && Push6(acc, d) & 3 == (d & 3) as bv32
  {
  }

  lemma FourthDigit(acc: bv32, p: byte, d: byte)
    requires acc & 3 == (p & 3) as bv32 && d < 64
    ensures Octet(Push6(acc, d), 0) == B2(p, d)
  {
  }

  lemma GainedIsOctet(acc: bv32, ds: seq<byte>, d: byte)
    requires Held(acc, ds) && d < 64
    ensures Held(Push6(acc, d), ds + [d])
    ensures Gained(ds, d) == if |ds| % 4 == 0 then [] else [Octet(Push6(acc, d), HeldBits(|ds| + 1))]
  {
    var k := |ds|;
    if k % 4 == 0 {
      FirstDigit(acc, d);
    } else if k % 4 == 1 {
      SecondDigit(acc, ds[k - 1], d);
    } else if k % 4 == 2 {
      ThirdDigit(acc, ds[k - 1], d);
    } else {
      FourthDigit(acc, ds[k - 1], d);
    }
  }

  /** The bits under the mask (1 << n) - 1, for the lengths that occur. */
  function LowBits(acc: bv32, n: nat): bv32 {
    if n == 2 then acc & 3 else if n == 4 then acc & 15 else 0
  }

  lemma NarrowIsZero(b: byte)
    ensures (b & 3) as bv32 == 0 <==> b & 3 == 0
    ensures (b & 15) as bv32 == 0 <==> b & 15 == 0
  {
  }

  /** The check of the trailing bits accepts exactly the canonical digit strings. */
  lemma {:induction false} CanonicalIff(acc: bv32, ds: seq<byte>)
    requires Held(acc, ds)
    ensures Canonical(ds) <==> HeldBits(|ds|) <= 4 && LowBits(acc, HeldBits(|ds|)) == 0
    decreases |ds|
  {
    if |ds| >= 4 {
      assert (|ds| - 4) % 4 == |ds| % 4;
      CanonicalIff(acc, ds[4..]);
    } else if |ds| >= 2 {
      NarrowIsZero(ds[|ds| - 1]);
    }
  }

  /** _base642bin_skip_padding with no ignore set. */
  method SkipPadding(text: seq<byte>, from: nat, count: nat) returns (ok: bool, pos: nat)
    requires from <= |text|
    ensures from <= pos <= |text|
    ensures ok <==> from + count <= |text| && text[from..from + count] == Pads(count)
    ensures ok ==> pos == from + count
  {
    pos := from;
    var left := count;
    while left > 0
      invariant from <= pos <= |text| && pos + left == from + count
      invariant forall i :: from <= i < pos ==> text[i] == PAD
      decreases left
    {
      if pos >= |text| {
        return false, pos;
      }
      if text[pos] != PAD {
        assert from + count <= |text| ==> text[from..from + count][pos - from] != PAD;
        return false, pos;
      }
      left := left - 1;
      pos := pos + 1;
    }
    ok := true;
    assert text[from..from + count] == Pads(count);
  }

  /** The digit of one character, narrowed to a byte. */
  method ReadDigit(signed: bool, url: bool, c: byte) returns (d: byte)
    ensures d == DigitMap(signed, url)(c) && (d == 0xFF || d < 64)
  {
    d := (Digit(signed, url, c) & 0xFF) as byte;
    DigitValue(signed, url, c);
  }

  lemma HeldNext(k: nat)
    ensures HeldBits(k) + 6 >= 8 <==> k % 4 != 0
    ensures HeldBits(k + 1) == if k % 4 == 0 then HeldBits(k) + 6 else HeldBits(k) + 6 - 8
  {
  }

  /** One digit enters the accumulator and a byte leaves it, if there is room. */
  method PushDigit(bin: array<byte>, at: nat, acc: bv32, pending: nat, d: byte, ghost ds: seq<byte>, ghost ds': seq<byte>)
    returns (full: bool, n: nat, acc': bv32, accLen: nat)
    requires at <= bin.Length && bin[..at] == Bytes(ds) && Held(acc, ds) && pending == HeldBits(|ds|)
    requires d < 64 && ds' == ds + [d]
    modifies bin
    ensures full <==> |Bytes(ds')| > bin.Length
    ensures n <= bin.Length
    ensures !full ==> bin[..n] == Bytes(ds') && Held(acc', ds') && accLen == HeldBits(|ds'|)
  {
    BytesStep(ds, d);
    GainedIsOctet(acc, ds, d);
    HeldNext(|ds|);
    full, n, acc', accLen := false, at, Push6(acc, d), pending + 6;
    ghost var gained := Gained(ds, d);
    if accLen >= 8 {
      accLen := accLen - 8;
      assert gained == [Octet(acc', accLen)];
      full, n := PutByte(bin, n, Octet(acc', accLen));
    } else {
      assert gained == [];
    }
    assert |ds'| == |ds| + 1;
  }

  method PutByte(bin: array<byte>, at: nat, b: byte) returns (full: bool, n: nat)
    requires at <= bin.Length
    modifies bin
    ensures full <==> at == bin.Length
    ensures n <= bin.Length && (!full ==> bin[..n] == old(bin[..at]) + [b])
  {
    if at >= bin.Length {
      return true, at;
    }
    bin[at] := b;
    return false, at + 1;
  }

  /** The digit loop: it stops at the end, at a character that is no digit, or when the output is full. */
  method DecodeDigits(bin: array<byte>, text: seq<byte>, signed: bool, url: bool, ghost dg: Map, ghost all: seq<byte>)
    returns (full: bool, pos: nat, n: nat, acc: bv32, accLen: nat)
    requires dg == DigitMap(signed, url) && IsRun(dg, text, |all|) && all == Apply(dg, text[..|all|])
    modifies bin
    ensures full <==> |Bytes(all)| > bin.Length
    ensures pos <= |text| && n <= bin.Length
    ensures !full ==> pos == |all| && bin[..n] == Bytes(all) && Held(acc, all) && accLen == HeldBits(pos)
  {
    full, pos, n, acc, accLen := false, 0, 0, 0, 0;
    assert all[..0] == [] && bin[..0] == [];
    while pos < |text|
      invariant pos <= |all| && n <= bin.Length
      invariant bin[..n] == Bytes(all[..pos])
      invariant Held(acc, all[..pos]) && accLen == HeldBits(pos)
      decreases |text| - pos
    {
      var d := ReadDigit(signed, url, text[pos]);
      RunAt(dg, text, all, pos);
      if d == 0xFF {
        break;
      }
      full, n, acc, accLen := PushDigit(bin, n, acc, accLen, d, all[..pos], all[..pos + 1]);
      if full {
        BytesOfPrefix(all, pos + 1);
        return;
      }
      pos := pos + 1;
    }
    assert all[..pos] == all;
  }

  /** The character at a position inside the run is its digit; the one after it is none. */
  lemma RunAt(dg: Map, text: seq<byte>, all: seq<byte>, pos: nat)
    requires IsRun(dg, text, |all|) && all == Apply(dg, text[..|all|]) && pos <= |all| && pos < |text|
    ensures dg(text[pos]) == 0xFF <==> pos == |all|
    ensures pos < |all| ==> all[..pos + 1] == all[..pos] + [dg(text[pos])]
  {
    if pos < |all| {
      assert text[..|all|][pos] == text[pos];
      assert all[pos] == dg(text[pos]);
    }
  }

  lemma PaddingIs(text: seq<byte>, from: nat, count: nat)
    requires from <= |text|
    ensures text[from..] == Pads(count) <==> from + count == |text| && text[from..from + count] == Pads(count)
  {
    if from + count == |text| {
      assert text[from..] == text[from..from + count];
    }
  }

  /** The checks after the digits: no bits left over, the right padding, nothing behind it. */
  method CheckEnd(text: seq<byte>, from: nat, acc: bv32, accLen: nat, noPadding: bool, ghost all: seq<byte>) returns (ok: bool)
    requires from == |all| <= |text| && Held(acc, all) && accLen == HeldBits(|all|)
    ensures ok <==> Canonical(all) && text[from..] == Pads(if noPadding then 0 else PadCount(|all|))
  {
    CanonicalIff(acc, all);
    if accLen > 4 || LowBits(acc, accLen) != 0 {
      return false;
    }
    var pos := from;
    ok := true;
    if !noPadding {
      PaddingIs(text, from, accLen / 2);
      ok, pos := SkipPadding(text, from, accLen / 2);
    }
    ok := ok && pos == |text|;
  }

  /** base642bin with neither ignore set nor end pointer. */
  method DecodeInto(bin: array<byte>, text: seq<byte>, signed: bool, v: Variant) returns (ret: int, binLen: nat)
    modifies bin
    ensures ret == 0 || ret == -1
    ensures ret == 0 <==>
      var r := Decode(DigitMap(signed, v.urlSafe), text, v.noPadding);
      r.Decoded? && |r.bin| <= bin.Length
    ensures ret == 0 ==>
      binLen <= bin.Length && Decode(DigitMap(signed, v.urlSafe), text, v.noPadding) == Decoded(bin[..binLen])
  {
    ghost var dg := DigitMap(signed, v.urlSafe);
    ghost var all := Apply(dg, text[..DigitRun(dg, text)]);
    var full, pos, n, acc, accLen := DecodeDigits(bin, text, signed, v.urlSafe, dg, all);
    ret, binLen := -1, 0;
    if !full {
      var ok := CheckEnd(text, pos, acc, accLen, v.noPadding, all);
      if ok {
        ret, binLen := 0, n;
      }
    }
  }
}
