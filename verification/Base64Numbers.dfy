/**
  What Base64 digits are: the digits of a byte string spell in base 64 the number its bytes
  spell in base 256 (section 4 of RFC 4648), and the characters are those of tables 1 and 2.
 */
module Base64Numbers {
  import opened Base64

  /** The number that digits spell after the value so far, the most significant digit first. */
  function Spell64(sofar: nat, ds: seq<byte>): nat
    decreases |ds|
  {
    if ds == [] then sofar else Spell64(sofar * 64 + ds[0] as nat, ds[1..])
  }

  /** The number that bytes spell after the value so far, the most significant byte first. */
  function Spell256(sofar: nat, bin: seq<byte>): nat
    decreases |bin|
  {
    if bin == [] then sofar else Spell256(sofar * 256 + bin[0] as nat, bin[1..])
  }

  // ----- shifts and masks as quotients and remainders -----

  lemma Shifts(a: byte)
    ensures (a >> 2) as int == a as int / 4
    ensures (a >> 4) as int == a as int / 16
    ensures (a >> 6) as int == a as int / 64
  {
  }

  lemma Mask2(a: byte)
    ensures (a & 3) as int == a as int % 4
  {
  }

  lemma Mask4(a: byte)
    ensures (a & 15) as int == a as int % 16
  {
  }

  lemma Mask6(a: byte)
    ensures (a & 63) as int == a as int % 64
  {
  }

  lemma MoveUp2(a: byte)
    requires a < 64
    ensures (a << 2) as int == a as int * 4 && (a << 2) & 3 == 0
  {
  }

  lemma MoveUp4(a: byte)
    requires a < 16
    ensures (a << 4) as int == a as int * 16 && (a << 4) & 15 == 0
  {
  }

  lemma MoveUp6(a: byte)
    requires a < 4
    ensures (a << 6) as int == a as int * 64 && (a << 6) & 63 == 0
  {
  }

  lemma Join2(a: byte, b: byte)
    requires a & 3 == 0 && b < 4
    ensures (a | b) as int == a as int + b as int
  {
  }

  lemma Join4(a: byte, b: byte)
    requires a & 15 == 0 && b < 16
    ensures (a | b) as int == a as int + b as int
  {
  }

  lemma Join6(a: byte, b: byte)
    requires a & 63 == 0 && b < 64
    ensures (a | b) as int == a as int + b as int
  {
  }

  lemma DigitNumbers(a: byte, b: byte, c: byte)
    ensures D0(a) as int == a as int / 4
    ensures D1(a, b) as int == a as int % 4 * 16 + b as int / 16
    ensures D2(b, c) as int == b as int % 16 * 4 + c as int / 64
    ensures D3(c) as int == c as int % 64
  {
    Shifts(a);
    Shifts(b);
    Shifts(c);
    Mask2(a);
    Mask4(b);
    Mask6(c);
    MoveUp4(a & 3);
    Join4((a & 3) << 4, b >> 4);
    MoveUp2(b & 15);
    Join2((b & 15) << 2, c >> 6);
  }

  lemma ByteNumbers(p: byte, q: byte, r: byte, s: byte)
    requires p < 64 && q < 64 && r < 64 && s < 64
    ensures B0(p, q) as int == p as int * 4 + q as int / 16
    ensures B1(q, r) as int == q as int % 16 * 16 + r as int / 4
    ensures B2(r, s) as int == r as int % 4 * 64 + s as int
  {
    Shifts(q);
    Shifts(r);
    Mask4(q);
    Mask2(r);
    MoveUp2(p);
    Join2(p << 2, q >> 4);
    MoveUp4(q & 15);
    Join4((q & 15) << 4, r >> 2);
    MoveUp6(r & 3);
    Join6((r & 3) << 6, s);
  }

  // ----- whole strings -----

  lemma Digit64(sofar: nat, d: byte, rest: seq<byte>)
    ensures Spell64(sofar, [d] + rest) == Spell64(sofar * 64 + d as int, rest)
  {
    assert ([d] + rest)[1..] == rest;
  }

  lemma Byte256(sofar: nat, b: byte, rest: seq<byte>)
    ensures Spell256(sofar, [b] + rest) == Spell256(sofar * 256 + b as int, rest)
  {
    assert ([b] + rest)[1..] == rest;
  }

  lemma TwoDigits(sofar: nat, p: byte, q: byte, rest: seq<byte>)
    ensures Spell64(sofar, [p, q] + rest) == Spell64(sofar * 4096 + p as int * 64 + q as int, rest)
  {
    assert [p, q] + rest == [p] + ([q] + rest);
    Digit64(sofar, p, [q] + rest);
    Digit64(sofar * 64 + p as int, q, rest);
  }

  lemma FourDigits(sofar: nat, p: byte, q: byte, r: byte, s: byte, rest: seq<byte>)
    ensures Spell64(sofar, [p, q, r, s] + rest)
         == Spell64(sofar * 16777216 + p as int * 262144 + q as int * 4096 + r as int * 64 + s as int, rest)
  {
    assert [p, q, r, s] + rest == [p, q] + ([r, s] + rest);
    TwoDigits(sofar, p, q, [r, s] + rest);
    TwoDigits(sofar * 4096 + p as int * 64 + q as int, r, s, rest);
  }

  lemma TwoBytes(sofar: nat, a: byte, b: byte, rest: seq<byte>)
    ensures Spell256(sofar, [a, b] + rest) == Spell256(sofar * 65536 + a as int * 256 + b as int, rest)
  {
    assert [a, b] + rest == [a] + ([b] + rest);
    Byte256(sofar, a, [b] + rest);
    Byte256(sofar * 256 + a as int, b, rest);
  }

  lemma ThreeBytes(sofar: nat, a: byte, b: byte, c: byte, rest: seq<byte>)
    ensures Spell256(sofar, [a, b, c] + rest)
         == Spell256(sofar * 16777216 + a as int * 65536 + b as int * 256 + c as int, rest)
  {
    assert [a, b, c] + rest == [a, b] + ([c] + rest);
    TwoBytes(sofar, a, b, [c] + rest);
    Byte256(sofar * 65536 + a as int * 256 + b as int, c, rest);
  }

  /** Three bytes and their four digits are one number below 2^24. */
  lemma GroupNumber(a: byte, b: byte, c: byte)
    ensures D0(a) as int * 262144 + D1(a, b) as int * 4096 + D2(b, c) as int * 64 + D3(c) as int
         == a as int * 65536 + b as int * 256 + c as int
    ensures D0(a) as int * 4096 + D1(a, b) as int * 64 + D2(b, 0) as int == (a as int * 256 + b as int) * 4
    ensures D0(a) as int * 64 + D1(a, 0) as int == a as int * 16
  {
    DigitNumbers(a, b, c);
    DigitNumbers(a, b, 0);
    DigitNumbers(a, 0, 0);
    SplitBytes(a as int, b as int, c as int);
  }

  lemma SplitBytes(a: int, b: int, c: int)
    ensures a / 4 * 262144 + (a % 4 * 16 + b / 16) * 4096 + (b % 16 * 4 + c / 64) * 64 + c % 64 == a * 65536 + b * 256 + c
    ensures a / 4 * 4096 + (a % 4 * 16 + b / 16) * 64 + b % 16 * 4 == (a * 256 + b) * 4
    ensures a / 4 * 64 + a % 4 * 16 == a * 16
  {
  }

  lemma SplitDigits(p: int, q: int, r: int, s: int)
    ensures (p * 4 + q / 16) * 65536 + (q % 16 * 16 + r / 4) * 256 + (r % 4 * 64 + s) == p * 262144 + q * 4096 + r * 64 + s
    ensures (p * 4 + q / 16) * 256 + (q % 16 * 16 + r / 4) == (p * 4096 + q * 64 + r) / 4
    ensures p * 4 + q / 16 == (p * 64 + q) / 16
  {
  }

  lemma DigitGroup(sofar: nat, a: byte, b: byte, c: byte, rest: seq<byte>) returns (v: nat)
    ensures Spell64(sofar, [D0(a), D1(a, b), D2(b, c), D3(c)] + rest) == Spell64(v, rest)
    ensures v == sofar * 16777216 + a as int * 65536 + b as int * 256 + c as int
  {
    var p, q, r, s := D0(a), D1(a, b), D2(b, c), D3(c);
    v := sofar * 16777216 + a as int * 65536 + b as int * 256 + c as int;
    FourDigits(sofar, p, q, r, s, rest);
    GroupNumber(a, b, c);
    assert sofar * 16777216 + p as int * 262144 + q as int * 4096 + r as int * 64 + s as int == v;
  }

  lemma FirstBytes(sofar: nat, bin: seq<byte>) returns (v: nat)
    requires |bin| >= 3
    ensures Spell64(sofar, Digits(bin)) == Spell64(v, Digits(bin[3..]))
    ensures Spell256(sofar, bin) == Spell256(v, bin[3..])
  {
    var a, b, c, rest := bin[0], bin[1], bin[2], bin[3..];
    assert bin == [a, b, c] + rest;
    v := DigitGroup(sofar, a, b, c, Digits(rest));
    ThreeBytes(sofar, a, b, c, rest);
  }

  lemma LastTwo(sofar: nat, a: byte, b: byte)
    ensures Spell64(sofar, [D0(a), D1(a, b), D2(b, 0)]) == Spell256(sofar, [a, b]) * 4
  {
    var p, q, r := D0(a), D1(a, b), D2(b, 0);
    GroupNumber(a, b, 0);
    assert [p, q, r] == [p, q] + ([r] + []) && [a, b] == [a, b] + [];
    TwoDigits(sofar, p, q, [r] + []);
    Digit64(sofar * 4096 + p as int * 64 + q as int, r, []);
    TwoBytes(sofar, a, b, []);
  }

  lemma LastOne(sofar: nat, a: byte)
    ensures Spell64(sofar, [D0(a), D1(a, 0)]) == Spell256(sofar, [a]) * 16
  {
    var p, q := D0(a), D1(a, 0);
    GroupNumber(a, 0, 0);
    assert [p, q] == [p, q] + [] && [a] == [a] + [];
    TwoDigits(sofar, p, q, []);
    Byte256(sofar, a, []);
  }

  /** Four digits and their three bytes. */
  lemma ByteGroupNumber(p: byte, q: byte, r: byte, s: byte)
    requires p < 64 && q < 64 && r < 64 && s < 64
    ensures B0(p, q) as int * 65536 + B1(q, r) as int * 256 + B2(r, s) as int
         == p as int * 262144 + q as int * 4096 + r as int * 64 + s as int
  {
    ByteNumbers(p, q, r, s);
    SplitDigits(p as int, q as int, r as int, s as int);
  }

  /** What two or three digits leave of their number. */
  lemma ShortGroupNumber(p: byte, q: byte, r: byte)
    requires p < 64 && q < 64 && r < 64
    ensures B0(p, q) as int * 256 + B1(q, r) as int == (p as int * 4096 + q as int * 64 + r as int) / 4
    ensures B0(p, q) as int == (p as int * 64 + q as int) / 16
  {
    ByteNumbers(p, q, r, 0);
    SplitDigits(p as int, q as int, r as int, 0);
  }

  lemma FirstDigits(sofar: nat, ds: seq<byte>) returns (v: nat)
    requires |ds| >= 4 && AllDigits(ds)
    ensures Spell256(sofar, Bytes(ds)) == Spell256(v, Bytes(ds[4..]))
    ensures Spell64(sofar, ds) == Spell64(v, ds[4..])
  {
    var p, q, r, s, rest := ds[0], ds[1], ds[2], ds[3], ds[4..];
    assert ds == [p, q, r, s] + rest;
    v := ByteGroup(sofar, p, q, r, s, Bytes(rest));
    FourDigits(sofar, p, q, r, s, rest);
  }

  lemma ByteGroup(sofar: nat, p: byte, q: byte, r: byte, s: byte, rest: seq<byte>) returns (v: nat)
    requires p < 64 && q < 64 && r < 64 && s < 64
    ensures Spell256(sofar, [B0(p, q), B1(q, r), B2(r, s)] + rest) == Spell256(v, rest)
    ensures v == sofar * 16777216 + p as int * 262144 + q as int * 4096 + r as int * 64 + s as int
  {
    var a, b, c := B0(p, q), B1(q, r), B2(r, s);
    v := sofar * 16777216 + p as int * 262144 + q as int * 4096 + r as int * 64 + s as int;
    ThreeBytes(sofar, a, b, c, rest);
    ByteGroupNumber(p, q, r, s);
    assert sofar * 16777216 + a as int * 65536 + b as int * 256 + c as int == v;
  }

  lemma Quotients(sofar: nat, n: int)
    ensures (sofar * 262144 + n) / 4 == sofar * 65536 + n / 4
    ensures (sofar * 4096 + n) / 16 == sofar * 256 + n / 16
  {
  }

  lemma ThreeLeft(sofar: nat, p: byte, q: byte, r: byte)
    requires p < 64 && q < 64 && r < 64
    ensures Spell256(sofar, [B0(p, q), B1(q, r)]) == Spell64(sofar, [p, q, r]) / 4
  {
    var a, b := B0(p, q), B1(q, r);
    ShortGroupNumber(p, q, r);
    assert [p, q, r] == [p, q] + ([r] + []) && [a, b] == [a, b] + [];
    TwoDigits(sofar, p, q, [r] + []);
    Digit64(sofar * 4096 + p as int * 64 + q as int, r, []);
    TwoBytes(sofar, a, b, []);
    var n := p as int * 4096 + q as int * 64 + r as int;
    Quotients(sofar, n);
    assert Spell64(sofar, [p, q, r]) == sofar * 262144 + n;
    assert Spell256(sofar, [a, b]) == sofar * 65536 + n / 4;
  }

  lemma TwoLeft(sofar: nat, p: byte, q: byte)
    requires p < 64 && q < 64
    ensures Spell256(sofar, [B0(p, q)]) == Spell64(sofar, [p, q]) / 16
  {
    var a := B0(p, q);
    ShortGroupNumber(p, q, 0);
    assert [p, q] == [p, q] + [] && [a] == [a] + [];
    TwoDigits(sofar, p, q, []);
    Byte256(sofar, a, []);
    Quotients(sofar, p as int * 64 + q as int);
  }

  lemma OneLeft(sofar: nat, p: byte)
    requires p < 64
    ensures sofar == Spell64(sofar, [p]) / 64
  {
    assert [p] == [p] + [] && p as int < 64;
    Digit64(sofar, p, []);
  }

  /** The bits a last group of n bytes leaves empty in its last digit, as a factor. */
  function Factor(n: nat): nat {
    if n % 3 == 0 then 1 else if n % 3 == 1 then 16 else 4
  }

  /** The digits of a byte string spell its number, times 16 or 4 if one or two bytes end it. */
  lemma {:induction false} DigitsSpellBytes(sofar: nat, bin: seq<byte>)
    ensures Spell64(sofar, Digits(bin)) == Spell256(sofar, bin) * Factor(|bin|)
    decreases |bin|
  {
    if |bin| >= 3 {
      var v := FirstBytes(sofar, bin);
      DigitsSpellBytes(v, bin[3..]);
      assert |bin[3..]| % 3 == |bin| % 3;
    } else if |bin| == 2 {
      assert bin == [bin[0], bin[1]];
      LastTwo(sofar, bin[0], bin[1]);
    } else if |bin| == 1 {
      assert bin == [bin[0]];
      LastOne(sofar, bin[0]);
    }
  }

  /** The weight of the digits' bits that fill no byte. */
  function Spare(k: nat): nat {
    if k % 4 == 0 then 1 else if k % 4 == 1 then 64 else if k % 4 == 2 then 16 else 4
  }

  /** The bytes of any digits spell their number, without the bits that fill no byte. */
  lemma {:induction false} BytesSpellDigits(sofar: nat, ds: seq<byte>)
    requires AllDigits(ds)
    ensures Spell256(sofar, Bytes(ds)) == Spell64(sofar, ds) / Spare(|ds|)
    decreases |ds|
  {
    if |ds| >= 4 {
      var v := FirstDigits(sofar, ds);
      BytesSpellDigits(v, ds[4..]);
      assert |ds[4..]| % 4 == |ds| % 4;
    } else if |ds| == 3 {
      assert ds == [ds[0], ds[1], ds[2]];
      ThreeLeft(sofar, ds[0], ds[1], ds[2]);
    } else if |ds| == 2 {
      assert ds == [ds[0], ds[1]];
      TwoLeft(sofar, ds[0], ds[1]);
    } else if |ds| == 1 {
      assert ds == [ds[0]];
      OneLeft(sofar, ds[0]);
    }
  }

  /** An accepted digit string spells exactly its bytes' number, times 1, 16 or 4. */
  lemma CanonicalSpells(ds: seq<byte>)
    requires AllDigits(ds) && Canonical(ds)
    ensures Spell64(0, ds) == Spell256(0, Bytes(ds)) * Factor(|Bytes(ds)|)
  {
    DigitsOfBytes(ds);
    DigitsSpellBytes(0, Bytes(ds));
  }

  lemma {:induction false} LastDigitSpelled(sofar: nat, ds: seq<byte>, d: byte)
    ensures Spell64(sofar, ds + [d]) == Spell64(sofar, ds) * 64 + d as int
    decreases |ds|
  {
    if ds != [] {
      assert (ds + [d])[1..] == ds[1..] + [d];
      LastDigitSpelled(sofar * 64 + ds[0] as nat, ds[1..], d);
    }
  }

  lemma LastDigitIsUnique(x: nat, d: byte, y: nat, e: byte)
    requires d < 64 && e < 64 && x * 64 + d as int == y * 64 + e as int
    ensures x == y && d == e
  {
    assert d as int < 64 && e as int < 64;
    assert d as int == e as int;
  }

  /** Digits of one length are determined by the number they spell. */
  lemma {:induction false} SpellingIsUnique(ds: seq<byte>, es: seq<byte>)
    requires AllDigits(ds) && AllDigits(es) && |ds| == |es| && Spell64(0, ds) == Spell64(0, es)
    ensures ds == es
    decreases |ds|
  {
    if ds != [] {
      var n := |ds| - 1;
      assert ds == ds[..n] + [ds[n]] && es == es[..n] + [es[n]];
      LastDigitSpelled(0, ds[..n], ds[n]);
      LastDigitSpelled(0, es[..n], es[n]);
      LastDigitIsUnique(Spell64(0, ds[..n]), ds[n], Spell64(0, es[..n]), es[n]);
      SpellingIsUnique(ds[..n], es[..n]);
    }
  }

  // ----- characters -----

  /** Upper-case letters, lower-case letters, decimal digits, two signs, and the padding. */
  lemma Characters(url: bool, x: byte)
    requires x < 64
    ensures x < 26 ==> Alphabet(url, x) as int == 'A' as int + x as int
    ensures 26 <= x < 52 ==> Alphabet(url, x) as int == 'a' as int + (x as int - 26)
    ensures 52 <= x < 62 ==> Alphabet(url, x) as int == '0' as int + (x as int - 52)
    ensures x == 62 ==> Alphabet(url, x) as int == (if url then '-' else '+') as int
    ensures x == 63 ==> Alphabet(url, x) as int == (if url then '_' else '/') as int
    ensures PAD as int == '=' as int
  {
  }
}
