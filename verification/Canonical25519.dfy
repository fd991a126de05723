/**
  Canonical representatives and their 32-byte form (bench/shootout-src/ed25519.c):
  full reduction, packing, unpacking, and the tests that rest on them.

  Shifts and masks are written as division and remainder by powers of two, and an OR
  of operands with no common bit as a sum.
 */
module Canonical25519 {
  import opened Field25519

  /** One carry pass: limbs below 2^51, except that the folded top may lift the lowest. */
  method CarryPass(t0: u128, t1: u128, t2: u128, t3: u128, t4: u128)
    returns (r0: u128, r1: u128, r2: u128, r3: u128, r4: u128, ghost k: nat)
    requires t0 < 0x2_0000_0000_0000_0000 && t1 < 0x2_0000_0000_0000_0000 && t2 < 0x2_0000_0000_0000_0000
    requires t3 < 0x2_0000_0000_0000_0000 && t4 < 0x2_0000_0000_0000_0000
    ensures 0 <= r0 - 19 * k < B51 && r1 < B51 && r2 < B51 && r3 < B51 && r4 < B51
    ensures Poly(t0, t1, t2, t3, t4) == Poly(r0, r1, r2, r3, r4) + k * P
    ensures k < 0x8000
  {
    r1 := t1 + t0 / 0x8_0000_0000_0000;
    ghost var k0 := t0 / 0x8_0000_0000_0000;
    r0 := t0 % 0x8_0000_0000_0000;
    r2 := t2 + r1 / 0x8_0000_0000_0000;
    ghost var k1 := r1 / 0x8_0000_0000_0000;
    r1 := r1 % 0x8_0000_0000_0000;
    r3 := t3 + r2 / 0x8_0000_0000_0000;
    ghost var k2 := r2 / 0x8_0000_0000_0000;
    r2 := r2 % 0x8_0000_0000_0000;
    r4 := t4 + r3 / 0x8_0000_0000_0000;
    ghost var k3 := r3 / 0x8_0000_0000_0000;
    r3 := r3 % 0x8_0000_0000_0000;
    k := r4 / 0x8_0000_0000_0000;
    Telescope(t0, t1, t2, t3, t4, r0, r1, r2, r3, r4 % 0x8_0000_0000_0000, k0, k1, k2, k3, k);
    r0 := r0 + 19 * (r4 / 0x8_0000_0000_0000);
    r4 := r4 % 0x8_0000_0000_0000;
  }

  lemma PolyBound(a0: int, a1: int, a2: int, a3: int, a4: int)
    requires 0 <= a0 < B51 && 0 <= a1 < B51 && 0 <= a2 < B51 && 0 <= a3 < B51 && 0 <= a4 < B51
    ensures 0 <= Poly(a0, a1, a2, a3, a4) < P + 19
  {
  }

  /** Limbs below 2^51 are determined by their value. */
  lemma PolyUnique(f: Fe, g: Fe)
    requires Within(f, B51 - 1) && Within(g, B51 - 1) && Val(f) == Val(g)
    ensures f == g
  {
    Digit(f.l0, Poly(f.l1, f.l2, f.l3, f.l4, 0), g.l0, Poly(g.l1, g.l2, g.l3, g.l4, 0), B51);
    Digit(f.l1, Poly(f.l2, f.l3, f.l4, 0, 0), g.l1, Poly(g.l2, g.l3, g.l4, 0, 0), B51);
    Digit(f.l2, Poly(f.l3, f.l4, 0, 0, 0), g.l2, Poly(g.l3, g.l4, 0, 0, 0), B51);
    Digit(f.l3, f.l4, g.l3, g.l4, B51);
  }

  /** A digit and the rest are determined by their value. */
  lemma Digit(a: int, x: int, b: int, y: int, m: int)
    requires 0 <= a < m && 0 <= b < m && a + m * x == b + m * y
    ensures a == b && x == y
  {
    Quotient(a + m * x, a, x, m);
    Quotient(b + m * y, b, y, m);
  }

  /** Folding twice leaves a value below 2^255; the test value v + 19 tells whether it is below P. */
  lemma FoldTwice(v1: int, v2: int, k: int, m: int)
    requires 0 <= v1 - 19 * k < P + 19 && 0 <= k < 0x8000
    requires v1 == v2 + m * P && 0 <= v2 - 19 * m < P + 19 && 0 <= m
    ensures m <= 1 && 0 <= v2 < P + 19
  {
  }

  lemma FoldLast(v: int, w: int, n: int)
    requires 0 <= v < P + 19 && v + 19 == w + n * P && 0 <= w - 19 * n < P + 19 && 0 <= n
    ensures 0 <= w - 19 < P && n <= 1
  {
  }

  /** The unique representative below P, for any five 64-bit limbs. */
  method Reduce(f: Fe) returns (h: Fe)
    ensures Within(h, B51 - 1)
    ensures Val(h) == Val(f) % P
  {
    var t0, t1, t2, t3, t4, k := CarryPass(f.l0, f.l1, f.l2, f.l3, f.l4);
    PolyBound(t0 - 19 * k, t1, t2, t3, t4);
    ghost var v1 := Poly(t0, t1, t2, t3, t4);
    ghost var m;
    t0, t1, t2, t3, t4, m := CarryPass(t0, t1, t2, t3, t4);
    PolyBound(t0 - 19 * m, t1, t2, t3, t4);
    ghost var v2 := Poly(t0, t1, t2, t3, t4);
    FoldTwice(v1, v2, k, m);
    h := Finish(t0, t1, t2, t3, t4);
    RemainderShift(v2, k + m, Val(f));
  }

  lemma RemainderShift(v: int, k: int, w: int)
    requires w == v + k * P
    ensures w % P == v % P
  {
  }

  /** The last two passes: subtract P if the value is not below it. */
  method Finish(a0: u128, a1: u128, a2: u128, a3: u128, a4: u128) returns (h: Fe)
    requires a0 < 0x1_0000_0000_0000_0000 && a1 < B51 && a2 < B51 && a3 < B51 && a4 < B51
    requires Poly(a0, a1, a2, a3, a4) < P + 19
    ensures Within(h, B51 - 1)
    ensures Val(h) == Poly(a0, a1, a2, a3, a4) % P
  {
    var t0, t1, t2, t3, t4, n := CarryPass(a0 + 19, a1, a2, a3, a4);
    PolyBound(t0 - 19 * n, t1, t2, t3, t4);
    FoldLast(Poly(a0, a1, a2, a3, a4), Poly(t0, t1, t2, t3, t4), n);
    h := DropTop(t0, t1, t2, t3, t4, Poly(t0, t1, t2, t3, t4) - 19);
    Remainder(Poly(a0, a1, a2, a3, a4), Val(h), n);
  }

  lemma Remainder(x: int, r: int, k: int)
    requires x == r + k * P && 0 <= r < P
    ensures x % P == r
  {
  }

  /** Adds 2^255 - 19, carries, and drops the bit that this sets. */
  method DropTop(a0: u128, a1: u128, a2: u128, a3: u128, a4: u128, ghost c: int) returns (h: Fe)
    requires a0 < 0x2_0000_0000_0000_0000 && a1 < B51 && a2 < B51 && a3 < B51 && a4 < B51
    requires Poly(a0, a1, a2, a3, a4) == c + 19 && 0 <= c < P
    ensures Within(h, B51 - 1) && Val(h) == c
  {
    var t0: u128 := a0 + (0x8_0000_0000_0000 - 19);
    var t1: u128 := a1 + (0x8_0000_0000_0000 - 1) + t0 / 0x8_0000_0000_0000;
    var t2: u128 := a2 + (0x8_0000_0000_0000 - 1) + t1 / 0x8_0000_0000_0000;
    var t3: u128 := a3 + (0x8_0000_0000_0000 - 1) + t2 / 0x8_0000_0000_0000;
    var t4: u128 := a4 + (0x8_0000_0000_0000 - 1) + t3 / 0x8_0000_0000_0000;
    h := Fe(t0 % 0x8_0000_0000_0000, t1 % 0x8_0000_0000_0000, t2 % 0x8_0000_0000_0000,
            t3 % 0x8_0000_0000_0000, t4 % 0x8_0000_0000_0000);
    ghost var k := t4 / 0x8_0000_0000_0000;
    Telescope(a0 + (0x8_0000_0000_0000 - 19), a1 + (0x8_0000_0000_0000 - 1), a2 + (0x8_0000_0000_0000 - 1),
              a3 + (0x8_0000_0000_0000 - 1), a4 + (0x8_0000_0000_0000 - 1), h.l0, h.l1, h.l2, h.l3, h.l4,
              t0 / 0x8_0000_0000_0000, t1 / 0x8_0000_0000_0000, t2 / 0x8_0000_0000_0000, t3 / 0x8_0000_0000_0000, k);
    assert Val(h) + k * (P + 19) == c + (P + 19);
    PolyBound(h.l0, h.l1, h.l2, h.l3, h.l4);
    assert k == 1;
  }

  // ----- bytes -----

  type Bytes32 = s: seq<u8> | |s| == 32 witness seq(32, _ => 0)

  /** The little-endian 64-bit word at position i. */
  function Word(s: seq<u8>, i: nat): (w: int)
    requires i + 8 <= |s|
    ensures 0 <= w < 0x1_0000_0000_0000_0000
  {
    s[i] as int + 0x100 * (s[i + 1] as int) + 0x1_0000 * (s[i + 2] as int) + 0x100_0000 * (s[i + 3] as int)
    + 0x1_0000_0000 * (s[i + 4] as int) + 0x100_0000_0000 * (s[i + 5] as int)
    + 0x1_0000_0000_0000 * (s[i + 6] as int) + 0x100_0000_0000_0000 * (s[i + 7] as int)
  }

  function FromWords(w0: int, w1: int, w2: int, w3: int): int {
    w0 + 0x1_0000_0000_0000_0000 * (w1 + 0x1_0000_0000_0000_0000 * (w2 + 0x1_0000_0000_0000_0000 * w3))
  }

  /** The little-endian number that 32 bytes hold. */
  function Number(s: Bytes32): (n: int)
    ensures n >= 0
  {
    FromWords(Word(s, 0), Word(s, 8), Word(s, 16), Word(s, 24))
  }

  /** store64_le: one byte at a time, shifting right. */
  method Store64(w: u64) returns (s: seq<u8>)
    ensures |s| == 8 && Word(s, 0) == w
  {
    var x := w;
    var b0: u8 := x % 0x100;
    x := x / 0x100;
    var b1: u8 := x % 0x100;
    x := x / 0x100;
    var b2: u8 := x % 0x100;
    x := x / 0x100;
    var b3: u8 := x % 0x100;
    x := x / 0x100;
    var b4: u8 := x % 0x100;
    x := x / 0x100;
    var b5: u8 := x % 0x100;
    x := x / 0x100;
    var b6: u8 := x % 0x100;
    x := x / 0x100;
    var b7: u8 := x % 0x100;
    s := [b0, b1, b2, b3, b4, b5, b6, b7];
  }

  /** Five 51-bit limbs as four 64-bit words. */
  method Pack(t: Fe) returns (t0: u64, t1: u64, t2: u64, t3: u64)
    requires Within(t, B51 - 1)
    ensures FromWords(t0, t1, t2, t3) == Val(t)
  {
    t0 := t.l0 + t.l1 * 0x8_0000_0000_0000 % 0x1_0000_0000_0000_0000;
    t1 := t.l1 / 0x2000 + t.l2 * 0x40_0000_0000 % 0x1_0000_0000_0000_0000;
    t2 := t.l2 / 0x400_0000 + t.l3 * 0x200_0000 % 0x1_0000_0000_0000_0000;
    t3 := t.l3 / 0x80_0000_0000 + t.l4 * 0x1000 % 0x1_0000_0000_0000_0000;
    Spill(t.l1, 0x2000, 0x8_0000_0000_0000);
    Spill(t.l2, 0x400_0000, 0x40_0000_0000);
    Spill(t.l3, 0x80_0000_0000, 0x200_0000);
  }

  /** A left shift that loses its top bits, when m times n is 2^64. */
  lemma Spill(x: int, m: int, n: int)
    requires 0 < m && 0 < n && m * n == 0x1_0000_0000_0000_0000
    ensures x * n % 0x1_0000_0000_0000_0000 == x * n - x / m * 0x1_0000_0000_0000_0000
  {
    var q, r := x / m, x % m;
    Spread(x, q, r, m, n);
    ScaledBound(r, m, n);
    Quotient(x * n, r * n, q, 0x1_0000_0000_0000_0000);
  }

  lemma Spread(x: int, q: int, r: int, m: int, n: int)
    requires x == q * m + r
    ensures x * n == r * n + (m * n) * q
  {
  }

  lemma ScaledBound(r: int, m: int, n: int)
    requires 0 <= r < m && 0 < n
    ensures 0 <= r * n < m * n
  {
  }

  lemma Quotient(x: int, r: int, q: int, m: int)
    requires 0 < m && 0 <= r < m && x == r + m * q
    ensures x / m == q && x % m == r
  {
    var d := x / m - q;
    assert x == m * (x / m) + x % m;
    assert m * d == r - x % m;
    ZeroMultiple(m, d);
  }

  lemma ZeroMultiple(m: int, d: int)
    requires -m < m * d < m
    ensures d == 0
  {
  }

  lemma WordAt(s: seq<u8>, w: seq<u8>, i: nat)
    requires |w| == 8 && i + 8 <= |s| && s[i..i + 8] == w
    ensures Word(s, i) == Word(w, 0)
  {
    var t := s[i..i + 8];
    assert t[0] == s[i] && t[1] == s[i + 1] && t[2] == s[i + 2] && t[3] == s[i + 3];
    assert t[4] == s[i + 4] && t[5] == s[i + 5] && t[6] == s[i + 6] && t[7] == s[i + 7];
  }

  /** The canonical little-endian form of a field element. */
  method ToBytes(f: Fe) returns (s: Bytes32)
    ensures Number(s) == Val(f) % P
  {
    var t := Reduce(f);
    var t0, t1, t2, t3 := Pack(t);
    var s0 := Store64(t0);
    var s1 := Store64(t1);
    var s2 := Store64(t2);
    var s3 := Store64(t3);
    s := Join(s0, s1, s2, s3, t0, t1, t2, t3);
  }

  /** Four words in a row hold the number they make. */
  method Join(s0: seq<u8>, s1: seq<u8>, s2: seq<u8>, s3: seq<u8>, ghost w0: int, ghost w1: int, ghost w2: int, ghost w3: int)
    returns (s: Bytes32)
    requires |s0| == 8 && |s1| == 8 && |s2| == 8 && |s3| == 8
    requires Word(s0, 0) == w0 && Word(s1, 0) == w1 && Word(s2, 0) == w2 && Word(s3, 0) == w3
    ensures Number(s) == FromWords(w0, w1, w2, w3)
  {
    s := s0 + s1 + s2 + s3;
    WordAt(s, s0, 0);
    WordAt(s, s1, 8);
    WordAt(s, s2, 16);
    WordAt(s, s3, 24);
  }

  function At(s: Bytes32, i: nat): (b: int)
    requires i < 32
    ensures 0 <= b < 256
  {
    s[i]
  }

  // Which bits of the bytes each limb takes.
  function Limb0(s: Bytes32): int {
    At(s, 0) + 0x100 * At(s, 1) + 0x10000 * At(s, 2) + 0x1000000 * At(s, 3)
    + 0x100000000 * At(s, 4) + 0x10000000000 * At(s, 5) + 0x1000000000000 * (At(s, 6) % 8)
  }
  function Limb1(s: Bytes32): int {
    At(s, 6) / 8 + 0x20 * At(s, 7) + 0x2000 * At(s, 8) + 0x200000 * At(s, 9)
    + 0x20000000 * At(s, 10) + 0x2000000000 * At(s, 11) + 0x200000000000 * (At(s, 12) % 64)
  }
  function Limb2(s: Bytes32): int {
    At(s, 12) / 64 + 0x4 * At(s, 13) + 0x400 * At(s, 14) + 0x40000 * At(s, 15)
    + 0x4000000 * At(s, 16) + 0x400000000 * At(s, 17) + 0x40000000000 * At(s, 18) + 0x4000000000000 * (At(s, 19) % 2)
  }
  function Limb3(s: Bytes32): int {
    At(s, 19) / 2 + 0x80 * At(s, 20) + 0x8000 * At(s, 21) + 0x800000 * At(s, 22)
    + 0x80000000 * At(s, 23) + 0x8000000000 * At(s, 24) + 0x800000000000 * (At(s, 25) % 16)
  }
  function Limb4(s: Bytes32): int {
    At(s, 25) / 16 + 0x10 * At(s, 26) + 0x1000 * At(s, 27) + 0x100000 * At(s, 28)
    + 0x10000000 * At(s, 29) + 0x1000000000 * At(s, 30) + 0x100000000000 * (At(s, 31) % 128)
  }

  lemma Limb0IsSlice(s: Bytes32)
    ensures Word(s, 0) % 0x8_0000_0000_0000 == Limb0(s)
  {
    Quotient(Word(s, 0), Limb0(s), At(s, 6) / 8 + 32 * At(s, 7), 0x8_0000_0000_0000);
  }

  lemma Limb1IsSlice(s: Bytes32)
    ensures Word(s, 6) / 8 % 0x8_0000_0000_0000 == Limb1(s)
  {
    var x := Limb1(s) + 0x8_0000_0000_0000 * (At(s, 12) / 64 + 4 * At(s, 13));
    Quotient(Word(s, 6), At(s, 6) % 8, x, 8);
    Quotient(x, Limb1(s), At(s, 12) / 64 + 4 * At(s, 13), 0x8_0000_0000_0000);
  }

  lemma Limb2IsSlice(s: Bytes32)
    ensures Word(s, 12) / 64 % 0x8_0000_0000_0000 == Limb2(s)
  {
    var x := Limb2(s) + 0x8_0000_0000_0000 * (At(s, 19) / 2);
    Quotient(Word(s, 12), At(s, 12) % 64, x, 64);
    Quotient(x, Limb2(s), At(s, 19) / 2, 0x8_0000_0000_0000);
  }

  lemma Limb3IsSlice(s: Bytes32)
    ensures Word(s, 19) / 2 % 0x8_0000_0000_0000 == Limb3(s)
  {
    var x := Limb3(s) + 0x8_0000_0000_0000 * (At(s, 25) / 16 + 16 * At(s, 26));
    Quotient(Word(s, 19), At(s, 19) % 2, x, 2);
    Quotient(x, Limb3(s), At(s, 25) / 16 + 16 * At(s, 26), 0x8_0000_0000_0000);
  }

  lemma Limb4IsSlice(s: Bytes32)
    ensures Word(s, 24) / 4096 % 0x8_0000_0000_0000 == Limb4(s)
  {
    var x := Limb4(s) + 0x8_0000_0000_0000 * (At(s, 31) / 128);
    Quotient(Word(s, 24), At(s, 24) + 256 * (At(s, 25) % 16), x, 4096);
    Quotient(x, Limb4(s), At(s, 31) / 128, 0x8_0000_0000_0000);
  }

  lemma LimbsAreAllBits(s: Bytes32)
    ensures Number(s) == Poly(Limb0(s), Limb1(s), Limb2(s), Limb3(s), Limb4(s)) + (At(s, 31) / 128) * (P + 19)
  {
  }

  /** Unpack: the number, with its top bit ignored. */
  method FromBytes(s: Bytes32) returns (h: Fe)
    ensures Within(h, B51 - 1)
    ensures Val(h) == Number(s) % (P + 19)
  {
    h := Fe(Word(s, 0) % 0x8_0000_0000_0000, Word(s, 6) / 8 % 0x8_0000_0000_0000,
            Word(s, 12) / 64 % 0x8_0000_0000_0000, Word(s, 19) / 2 % 0x8_0000_0000_0000,
            Word(s, 24) / 0x1000 % 0x8_0000_0000_0000);
    Limb0IsSlice(s);
    Limb1IsSlice(s);
    Limb2IsSlice(s);
    Limb3IsSlice(s);
    Limb4IsSlice(s);
    LimbsAreAllBits(s);
    PolyBound(h.l0, h.l1, h.l2, h.l3, h.l4);
    TopBit(Number(s), Val(h), At(s, 31) / 128);
  }

  lemma TopBit(n: int, v: int, t: int)
    requires n == v + t * (P + 19) && 0 <= v < P + 19
    ensures n % (P + 19) == v
  {
  }

  // ----- what the bytes decide -----

  lemma WordUnique(s: seq<u8>, t: seq<u8>, i: nat)
    requires i + 8 <= |s| == |t| && Word(s, i) == Word(t, i)
    ensures s[i..i + 8] == t[i..i + 8]
  {
    Digit(Half(s, i), Half(s, i + 4), Half(t, i), Half(t, i + 4), 0x1_0000_0000);
    BytesUnique(s[i], s[i + 1], s[i + 2], s[i + 3], t[i], t[i + 1], t[i + 2], t[i + 3]);
    BytesUnique(s[i + 4], s[i + 5], s[i + 6], s[i + 7], t[i + 4], t[i + 5], t[i + 6], t[i + 7]);
  }

  function Half(s: seq<u8>, i: nat): (w: int)
    requires i + 4 <= |s|
    ensures 0 <= w < 0x1_0000_0000
  {
    s[i] as int + 0x100 * (s[i + 1] as int) + 0x1_0000 * (s[i + 2] as int) + 0x100_0000 * (s[i + 3] as int)
  }

  lemma BytesUnique(a: u8, b: u8, c: u8, d: u8, a': u8, b': u8, c': u8, d': u8)
    requires a as int + 0x100 * (b as int) + 0x1_0000 * (c as int) + 0x100_0000 * (d as int)
          == a' as int + 0x100 * (b' as int) + 0x1_0000 * (c' as int) + 0x100_0000 * (d' as int)
    ensures a == a' && b == b' && c == c' && d == d'
  {
    Digit(a, b + 0x100 * c + 0x1_0000 * d, a', b' + 0x100 * c' + 0x1_0000 * d', 0x100);
    Digit(b, c + 0x100 * d, b', c' + 0x100 * d', 0x100);
    Digit(c, d, c', d', 0x100);
  }

  /** 32 bytes are determined by the number they hold. */
  lemma NumberUnique(s: Bytes32, t: Bytes32)
    requires Number(s) == Number(t)
    ensures s == t
  {
    WordsUnique(Word(s, 0), Word(s, 8), Word(s, 16), Word(s, 24), Word(t, 0), Word(t, 8), Word(t, 16), Word(t, 24));
    WordUnique(s, t, 0);
    WordUnique(s, t, 8);
    WordUnique(s, t, 16);
    WordUnique(s, t, 24);
    assert s == s[0..8] + s[8..16] + s[16..24] + s[24..32];
    assert t == t[0..8] + t[8..16] + t[16..24] + t[24..32];
  }

  lemma WordsUnique(a: u64, b: u64, c: u64, d: u64, a': u64, b': u64, c': u64, d': u64)
    requires FromWords(a, b, c, d) == FromWords(a', b', c', d')
    ensures a == a' && b == b' && c == c' && d == d'
  {
    Digit(a, FromWords(b, c, d, 0), a', FromWords(b', c', d', 0), 0x1_0000_0000_0000_0000);
    Digit(b, FromWords(c, d, 0, 0), b', FromWords(c', d', 0, 0), 0x1_0000_0000_0000_0000);
    Digit(c, d, c', d', 0x1_0000_0000_0000_0000);
  }

  /** Two elements are congruent exactly when their bytes are equal. */
  lemma BytesDecide(f: Fe, g: Fe, s: Bytes32, t: Bytes32)
    requires Number(s) == Val(f) % P && Number(t) == Val(g) % P
    ensures s == t <==> Same(Val(f), Val(g))
  {
    SameIsRemainder(Val(f), Val(g));
    if Number(s) == Number(t) {
      NumberUnique(s, t);
    }
  }

  /** Packing, then unpacking gives the canonical limbs. */
  method PackThenUnpack(f: Fe) returns (h: Fe)
    ensures Within(h, B51 - 1) && Val(h) == Val(f) % P
  {
    var s := ToBytes(f);
    h := FromBytes(s);
    TopBit(Number(s), Number(s), 0);
  }

  /** Unpacking, then packing gives back the bytes exactly when they were canonical. */
  method UnpackThenPack(s: Bytes32) returns (t: Bytes32)
    ensures t == s <==> Number(s) < P
  {
    var h := FromBytes(s);
    t := ToBytes(h);
    AlreadyReduced(Number(s), Number(t));
    if Number(s) == Number(t) {
      NumberUnique(s, t);
    }
  }

  lemma AlreadyReduced(n: int, m: int)
    requires 0 <= n && m == n % (P + 19) % P
    ensures m == n <==> n < P
  {
  }

  /** Parity of the canonical representative. */
  method IsNegative(f: Fe) returns (b: int)
    ensures b == Val(f) % P % 2
  {
    var s := ToBytes(f);
    b := s[0] % 2;
    Parity(s);
  }

  lemma Parity(s: Bytes32)
    ensures Number(s) % 2 == s[0] % 2
  {
    var w := s[1] as int + 0x100 * (s[2] as int) + 0x1_0000 * (s[3] as int) + 0x100_0000 * (s[4] as int)
             + 0x1_0000_0000 * (s[5] as int) + 0x100_0000_0000 * (s[6] as int) + 0x1_0000_0000_0000 * (s[7] as int);
    var high := FromWords(Word(s, 8), Word(s, 16), Word(s, 24), 0);
    Even(s[0], 128 * w + 0x8000_0000_0000_0000 * high, Number(s));
  }

  lemma Even(b: int, k: int, n: int)
    requires n == b + 2 * k
    ensures n % 2 == b % 2
  {
  }

  method AllZero(n: seq<u8>) returns (b: int)
    ensures b == if forall i :: 0 <= i < |n| ==> n[i] == 0 then 1 else 0
  {
    var d: bv8 := 0;
    for i := 0 to |n|
      invariant d == 0 <==> forall j :: 0 <= j < i ==> n[j] == 0
    {
      d := d | (n[i] as bv8);
    }
    b := if ((d as bv32 - 1) >> 8) & 1 == 1 then 1 else 0;
  }

  method IsZero(f: Fe) returns (b: int)
    ensures b == if Same(Val(f), 0) then 1 else 0
  {
    var s := ToBytes(f);
    b := AllZero(s);
    ghost var z: Bytes32 := seq(32, _ => 0);
    SameIsRemainder(Val(f), 0);
    if Number(s) == Number(z) {
      NumberUnique(s, z);
    }
  }
}
