/**
  Arithmetic modulo 2^255 - 19 on five 51-bit limbs (bench/shootout-src/ed25519.c).

  Limbs are kept loose: a field element is any five 64-bit limbs, and stands for
  their value modulo P.  Every local has the width the C code gives it, so each
  method that verifies also shows that no 64-bit or 128-bit intermediate overflows.
 */
module Field25519 {

  type u8 = x: int | 0 <= x < 0x100
  type u64 = x: int | 0 <= x < 0x1_0000_0000_0000_0000
  type u128 = x: int | 0 <= x < 0x1_0000_0000_0000_0000_0000_0000_0000_0000

  const P: int := 0x7fff_ffff_ffff_ffff_ffff_ffff_ffff_ffff_ffff_ffff_ffff_ffff_ffff_ffff_ffff_ffed

  datatype Fe = Fe(l0: u64, l1: u64, l2: u64, l3: u64, l4: u64)

  /** a0 + 2^51 a1 + 2^102 a2 + 2^153 a3 + 2^204 a4 */
  function Poly(a0: int, a1: int, a2: int, a3: int, a4: int): int {
    a0 + 0x8_0000_0000_0000 * (a1 + 0x8_0000_0000_0000 * (a2 + 0x8_0000_0000_0000 * (a3 + 0x8_0000_0000_0000 * a4)))
  }

  function Val(f: Fe): (v: int)
    ensures v >= 0
  {
    Poly(f.l0, f.l1, f.l2, f.l3, f.l4)
  }

  predicate Within(f: Fe, bound: int) {
    f.l0 <= bound && f.l1 <= bound && f.l2 <= bound && f.l3 <= bound && f.l4 <= bound
  }

  // ----- congruence modulo P -----

  ghost predicate Apart(a: int, b: int, k: int) {
    a == b + k * P
  }

  ghost predicate Congruent(a: int, b: int) {
    exists k :: Apart(a, b, k)
  }

  /** The residue class of a. */
  ghost function Class(a: int): iset<int> {
    iset x | Congruent(x, a)
  }

  ghost predicate Same(a: int, b: int) {
    Class(a) == Class(b)
  }

  lemma SameShift(a: int, k: int)
    ensures Same(a + k * P, a)
  {
    forall x ensures x in Class(a + k * P) <==> x in Class(a) {
      if x in Class(a + k * P) {
        var j :| Apart(x, a + k * P, j);
        assert Apart(x, a, j + k);
      }
      if x in Class(a) {
        var j :| Apart(x, a, j);
        assert Apart(x, a + k * P, j - k);
      }
    }
  }

  lemma SameWitness(a: int, b: int) returns (k: int)
    requires Same(a, b)
    ensures a == b + k * P
  {
    assert Apart(a, a, 0);
    assert a in Class(b);
    k :| Apart(a, b, k);
  }

  lemma SameIsRemainder(a: int, b: int)
    ensures Same(a, b) <==> a % P == b % P
  {
    if Same(a, b) {
      var k := SameWitness(a, b);
    }
    if a % P == b % P {
      SameBy(b, a, a / P - b / P);
    }
  }

  lemma SameBy(a: int, b: int, k: int)
    requires b == a + k * P
    ensures Same(a, b)
  {
    SameShift(a, k);
  }

  lemma SameAdd(a: int, b: int, c: int, d: int)
    requires Same(a, b) && Same(c, d)
    ensures Same(a + c, b + d) && Same(a - c, b - d)
  {
    var k := SameWitness(a, b);
    var m := SameWitness(c, d);
    SameShift(b + d, k + m);
    SameShift(b - d, k - m);
  }

  lemma SameTimes(a: int, b: int, c: int)
    requires Same(a, b)
    ensures Same(a * c, b * c)
  {
    var k := SameWitness(a, b);
    assert a * c == b * c + (k * c) * P;
    SameShift(b * c, k * c);
  }

  lemma SameMul(a: int, b: int, c: int, d: int)
    requires Same(a, b) && Same(c, d)
    ensures Same(a * c, b * d)
  {
    SameTimes(a, b, c);
    SameTimes(c, d, b);
    assert c * b == b * c && d * b == b * d;
  }

  // ----- multiplication -----

  // The coefficients of the product once 2^255 is replaced by 19.
  function C0(f: Fe, g: Fe): int {
    f.l0 * g.l0 + (19 * f.l1) * g.l4 + (19 * f.l2) * g.l3 + (19 * f.l3) * g.l2 + (19 * f.l4) * g.l1
  }
  function C1(f: Fe, g: Fe): int {
    f.l0 * g.l1 + f.l1 * g.l0 + (19 * f.l2) * g.l4 + (19 * f.l3) * g.l3 + (19 * f.l4) * g.l2
  }
  function C2(f: Fe, g: Fe): int {
    f.l0 * g.l2 + f.l1 * g.l1 + f.l2 * g.l0 + (19 * f.l3) * g.l4 + (19 * f.l4) * g.l3
  }
  function C3(f: Fe, g: Fe): int {
    f.l0 * g.l3 + f.l1 * g.l2 + f.l2 * g.l1 + f.l3 * g.l0 + (19 * f.l4) * g.l4
  }
  function C4(f: Fe, g: Fe): int {
    f.l0 * g.l4 + f.l1 * g.l3 + f.l2 * g.l2 + f.l3 * g.l1 + f.l4 * g.l0
  }

  lemma ScalePoly(x: int, a0: int, a1: int, a2: int, a3: int, a4: int)
    ensures x * Poly(a0, a1, a2, a3, a4) == Poly(x * a0, x * a1, x * a2, x * a3, x * a4)
  {
  }

  lemma ScalePolyRight(x: int, a0: int, a1: int, a2: int, a3: int, a4: int)
    ensures Poly(a0, a1, a2, a3, a4) * x == Poly(a0 * x, a1 * x, a2 * x, a3 * x, a4 * x)
  {
  }

  lemma Product(f: Fe, g: Fe)
    ensures Val(f) * Val(g)
         == Poly(f.l0 * Val(g), f.l1 * Val(g), f.l2 * Val(g), f.l3 * Val(g), f.l4 * Val(g))
  {
    ScalePolyRight(Val(g), f.l0, f.l1, f.l2, f.l3, f.l4);
  }

  lemma Nineteen(x: int, y: int)
    ensures (19 * x) * y == 19 * (x * y)
  {
  }

  lemma MulIdentity(f: Fe, g: Fe)
    ensures Same(Val(f) * Val(g), Poly(C0(f, g), C1(f, g), C2(f, g), C3(f, g), C4(f, g)))
  {
    Product(f, g);
    ScalePoly(f.l0, g.l0, g.l1, g.l2, g.l3, g.l4);
    ScalePoly(f.l1, g.l0, g.l1, g.l2, g.l3, g.l4);
    ScalePoly(f.l2, g.l0, g.l1, g.l2, g.l3, g.l4);
    ScalePoly(f.l3, g.l0, g.l1, g.l2, g.l3, g.l4);
    ScalePoly(f.l4, g.l0, g.l1, g.l2, g.l3, g.l4);
    var q0 := f.l1 * g.l4 + f.l2 * g.l3 + f.l3 * g.l2 + f.l4 * g.l1;
    var q1 := f.l2 * g.l4 + f.l3 * g.l3 + f.l4 * g.l2;
    var q2 := f.l3 * g.l4 + f.l4 * g.l3;
    var q3 := f.l4 * g.l4;
    var q := Poly(q0, q1, q2, q3, 0);
    Nineteen(f.l1, g.l4);
    Nineteen(f.l2, g.l3);
    Nineteen(f.l2, g.l4);
    Nineteen(f.l3, g.l2);
    Nineteen(f.l3, g.l3);
    Nineteen(f.l3, g.l4);
    Nineteen(f.l4, g.l1);
    Nineteen(f.l4, g.l2);
    Nineteen(f.l4, g.l3);
    Nineteen(f.l4, g.l4);
    assert Val(f) * Val(g) == Poly(C0(f, g), C1(f, g), C2(f, g), C3(f, g), C4(f, g)) + q * P;
    SameShift(Poly(C0(f, g), C1(f, g), C2(f, g), C3(f, g), C4(f, g)), q);
  }

  const B51: int := 0x8_0000_0000_0000
  const B52: int := 0x10_0000_0000_0000
  const B53: int := 0x20_0000_0000_0000
  const B54: int := 0x40_0000_0000_0000

  lemma ProductBound(x: int, y: int, b: int)
    requires 0 <= x <= b && 0 <= y <= b
    ensures 0 <= x * y <= b * b
  {
    assert x * y <= x * b <= b * b;
  }

  /** Products of limbs below 2^54 stay below 2^108. */
  lemma LimbProduct(x: u64, y: u64)
    requires x < B54 && y < B54
    ensures 0 <= x * y <= 0xFFF_FFFF_FFFF_FF80_0000_0000_0001
  {
    ProductBound(x, y, 0x3F_FFFF_FFFF_FFFF);
  }

  /** Carries five 128-bit columns upwards; what leaves the top is the last carry. */
  method CarryUp(c0: u128, c1: u128, c2: u128, c3: u128, c4: u128)
    returns (r00: u64, r01: u64, r02: u64, r03: u64, r04: u64, carry: u128)
    requires c0 < 0x8_0000_0000_0000_0000_0000_0000_0000 && c1 < 0x8_0000_0000_0000_0000_0000_0000_0000
    requires c2 < 0x8_0000_0000_0000_0000_0000_0000_0000 && c3 < 0x8_0000_0000_0000_0000_0000_0000_0000
    requires c4 <= 0x5000_0000_0000_0000_0000_0000_0000
    ensures r00 < B51 && r01 < B51 && r02 < B51 && r03 < B51 && r04 < B51 && carry <= 0xA80_0000_0000_0000
    ensures Poly(c0, c1, c2, c3, c4) == Poly(r00, r01, r02, r03, r04) + carry * (P + 19)
  {
    r00 := c0 % 0x8_0000_0000_0000;
    carry := c0 / 0x8_0000_0000_0000;
    ghost var k0 := carry;
    var r1: u128 := c1 + carry;
    r01 := r1 % 0x8_0000_0000_0000;
    carry := r1 / 0x8_0000_0000_0000;
    ghost var k1 := carry;
    var r2: u128 := c2 + carry;
    r02 := r2 % 0x8_0000_0000_0000;
    carry := r2 / 0x8_0000_0000_0000;
    ghost var k2 := carry;
    var r3: u128 := c3 + carry;
    r03 := r3 % 0x8_0000_0000_0000;
    carry := r3 / 0x8_0000_0000_0000;
    ghost var k3 := carry;
    var r4: u128 := c4 + carry;
    r04 := r4 % 0x8_0000_0000_0000;
    carry := r4 / 0x8_0000_0000_0000;
    Telescope(c0, c1, c2, c3, c4, r00, r01, r02, r03, r04, k0, k1, k2, k3, carry);
  }

  lemma Telescope(c0: int, c1: int, c2: int, c3: int, c4: int, r0: int, r1: int, r2: int, r3: int, r4: int,
                  k0: int, k1: int, k2: int, k3: int, k4: int)
    requires c0 == r0 + k0 * 0x8_0000_0000_0000 && c1 + k0 == r1 + k1 * 0x8_0000_0000_0000
    requires c2 + k1 == r2 + k2 * 0x8_0000_0000_0000 && c3 + k2 == r3 + k3 * 0x8_0000_0000_0000
    requires c4 + k3 == r4 + k4 * 0x8_0000_0000_0000
    ensures Poly(c0, c1, c2, c3, c4) == Poly(r0, r1, r2, r3, r4) + k4 * (P + 19)
  {
  }

  /** The carry tail shared by fe25519_mul, fe25519_sq and fe25519_sq2. */
  method Carry(c0: u128, c1: u128, c2: u128, c3: u128, c4: u128) returns (h: Fe)
    requires c0 < 0x8_0000_0000_0000_0000_0000_0000_0000 && c1 < 0x8_0000_0000_0000_0000_0000_0000_0000
    requires c2 < 0x8_0000_0000_0000_0000_0000_0000_0000 && c3 < 0x8_0000_0000_0000_0000_0000_0000_0000
    requires c4 <= 0x5000_0000_0000_0000_0000_0000_0000
    ensures Within(h, B51)
    ensures Same(Val(h), Poly(c0, c1, c2, c3, c4))
  {
    var r00, r01, r02, r03, r04, carry := CarryUp(c0, c1, c2, c3, c4);
    ghost var q := carry;
    var s00: u64 := r00 + 19 * carry;
    carry := s00 / 0x8_0000_0000_0000;
    var s01: u64 := r01 + carry;
    ghost var k := carry;
    carry := s01 / 0x8_0000_0000_0000;
    var s02: u64 := r02 + carry;
    h := Fe(s00 % 0x8_0000_0000_0000, s01 % 0x8_0000_0000_0000, s02, r03, r04);
    FoldTop(r00, r01, r02, r03, r04, q, h, k, carry);
    SameBy(Val(h), Poly(c0, c1, c2, c3, c4), q);
  }

  lemma FoldTop(r0: int, r1: int, r2: int, r3: int, r4: int, q: int, h: Fe, k0: int, k1: int)
    requires r0 + 19 * q == h.l0 + k0 * 0x8_0000_0000_0000 && r1 + k0 == h.l1 + k1 * 0x8_0000_0000_0000
    requires h.l2 == r2 + k1 && h.l3 == r3 && h.l4 == r4
    ensures Poly(r0, r1, r2, r3, r4) + q * (P + 19) == Val(h) + q * P
  {
  }

  method Mul(f: Fe, g: Fe) returns (h: Fe)
    requires Within(f, B54 - 1) && Within(g, B54 - 1)
    ensures Within(h, B51)
    ensures Same(Val(h), Val(f) * Val(g))
  {
    MulBounds(f, g);
    var f1_19: u64 := 19 * f.l1;
    var f2_19: u64 := 19 * f.l2;
    var f3_19: u64 := 19 * f.l3;
    var f4_19: u64 := 19 * f.l4;
    var r0: u128 := f.l0 * g.l0 + f1_19 * g.l4 + f2_19 * g.l3 + f3_19 * g.l2 + f4_19 * g.l1;
    var r1: u128 := f.l0 * g.l1 + f.l1 * g.l0 + f2_19 * g.l4 + f3_19 * g.l3 + f4_19 * g.l2;
    var r2: u128 := f.l0 * g.l2 + f.l1 * g.l1 + f.l2 * g.l0 + f3_19 * g.l4 + f4_19 * g.l3;
    var r3: u128 := f.l0 * g.l3 + f.l1 * g.l2 + f.l2 * g.l1 + f.l3 * g.l0 + f4_19 * g.l4;
    var r4: u128 := f.l0 * g.l4 + f.l1 * g.l3 + f.l2 * g.l2 + f.l3 * g.l1 + f.l4 * g.l0;
    h := Carry(r0, r1, r2, r3, r4);
    MulIdentity(f, g);
  }

  lemma MulBounds(f: Fe, g: Fe)
    requires Within(f, B54 - 1) && Within(g, B54 - 1)
    ensures 0 <= C0(f, g) < 0x8_0000_0000_0000_0000_0000_0000_0000
    ensures 0 <= C1(f, g) < 0x8_0000_0000_0000_0000_0000_0000_0000
    ensures 0 <= C2(f, g) < 0x8_0000_0000_0000_0000_0000_0000_0000
    ensures 0 <= C3(f, g) < 0x8_0000_0000_0000_0000_0000_0000_0000
    ensures 0 <= C4(f, g) <= 0x5000_0000_0000_0000_0000_0000_0000
  {
    LimbProduct(f.l0, g.l0);
    LimbProduct(f.l0, g.l1);
    LimbProduct(f.l0, g.l2);
    LimbProduct(f.l0, g.l3);
    LimbProduct(f.l0, g.l4);
    LimbProduct(f.l1, g.l0);
    LimbProduct(f.l1, g.l1);
    LimbProduct(f.l1, g.l2);
    LimbProduct(f.l1, g.l3);
    LimbProduct(f.l1, g.l4);
    LimbProduct(f.l2, g.l0);
    LimbProduct(f.l2, g.l1);
    LimbProduct(f.l2, g.l2);
    LimbProduct(f.l2, g.l3);
    LimbProduct(f.l2, g.l4);
    LimbProduct(f.l3, g.l0);
    LimbProduct(f.l3, g.l1);
    LimbProduct(f.l3, g.l2);
    LimbProduct(f.l3, g.l3);
    LimbProduct(f.l3, g.l4);
    LimbProduct(f.l4, g.l0);
    LimbProduct(f.l4, g.l1);
    LimbProduct(f.l4, g.l2);
    LimbProduct(f.l4, g.l3);
    LimbProduct(f.l4, g.l4);
    Nineteen(f.l1, g.l4);
    Nineteen(f.l2, g.l3);
    Nineteen(f.l2, g.l4);
    Nineteen(f.l3, g.l2);
    Nineteen(f.l3, g.l3);
    Nineteen(f.l3, g.l4);
    Nineteen(f.l4, g.l1);
    Nineteen(f.l4, g.l2);
    Nineteen(f.l4, g.l3);
    Nineteen(f.l4, g.l4);
  }

  // ----- squaring -----

  lemma SquareColumns(f: Fe)
    ensures f.l0 * f.l0 + (38 * f.l1) * f.l4 + (38 * f.l2) * f.l3 == C0(f, f)
    ensures (2 * f.l0) * f.l1 + (38 * f.l2) * f.l4 + (19 * f.l3) * f.l3 == C1(f, f)
    ensures (2 * f.l0) * f.l2 + f.l1 * f.l1 + (38 * f.l3) * f.l4 == C2(f, f)
    ensures (2 * f.l0) * f.l3 + (2 * f.l1) * f.l2 + (19 * f.l4) * f.l4 == C3(f, f)
    ensures (2 * f.l0) * f.l4 + (2 * f.l1) * f.l3 + f.l2 * f.l2 == C4(f, f)
  {
  }

  method Sq(f: Fe) returns (h: Fe)
    requires Within(f, B54 - 1)
    ensures Within(h, B51)
    ensures Same(Val(h), Val(f) * Val(f))
  {
    MulBounds(f, f);
    SquareColumns(f);
    var f0_2: u64 := 2 * f.l0;
    var f1_2: u64 := 2 * f.l1;
    var f1_38: u64 := 38 * f.l1;
    var f2_38: u64 := 38 * f.l2;
    var f3_38: u64 := 38 * f.l3;
    var f3_19: u64 := 19 * f.l3;
    var f4_19: u64 := 19 * f.l4;
    var r0: u128 := f.l0 * f.l0 + f1_38 * f.l4 + f2_38 * f.l3;
    var r1: u128 := f0_2 * f.l1 + f2_38 * f.l4 + f3_19 * f.l3;
    var r2: u128 := f0_2 * f.l2 + f.l1 * f.l1 + f3_38 * f.l4;
    var r3: u128 := f0_2 * f.l3 + f1_2 * f.l2 + f4_19 * f.l4;
    var r4: u128 := f0_2 * f.l4 + f1_2 * f.l3 + f.l2 * f.l2;
    h := Carry(r0, r1, r2, r3, r4);
    MulIdentity(f, f);
  }

  /** Twice the square. */
  method Sq2(f: Fe) returns (h: Fe)
    requires Within(f, B53 - 1)
    ensures Within(h, B51)
    ensures Same(Val(h), 2 * (Val(f) * Val(f)))
  {
    MulBounds53(f);
    SquareColumns(f);
    var f0_2: u64 := 2 * f.l0;
    var f1_2: u64 := 2 * f.l1;
    var f1_38: u64 := 38 * f.l1;
    var f2_38: u64 := 38 * f.l2;
    var f3_38: u64 := 38 * f.l3;
    var f3_19: u64 := 19 * f.l3;
    var f4_19: u64 := 19 * f.l4;
    var r0: u128 := f.l0 * f.l0 + f1_38 * f.l4 + f2_38 * f.l3;
    var r1: u128 := f0_2 * f.l1 + f2_38 * f.l4 + f3_19 * f.l3;
    var r2: u128 := f0_2 * f.l2 + f.l1 * f.l1 + f3_38 * f.l4;
    var r3: u128 := f0_2 * f.l3 + f1_2 * f.l2 + f4_19 * f.l4;
    var r4: u128 := f0_2 * f.l4 + f1_2 * f.l3 + f.l2 * f.l2;
    r0 := 2 * r0;
    r1 := 2 * r1;
    r2 := 2 * r2;
    r3 := 2 * r3;
    r4 := 2 * r4;
    h := Carry(r0, r1, r2, r3, r4);
    MulIdentity(f, f);
    SameTimes(Val(f) * Val(f), Poly(C0(f, f), C1(f, f), C2(f, f), C3(f, f), C4(f, f)), 2);
  }

  /** Limbs below 2^53 leave room to double each column. */
  lemma MulBounds53(f: Fe)
    requires Within(f, B53 - 1)
    ensures 0 <= 2 * C0(f, f) < 0x8_0000_0000_0000_0000_0000_0000_0000
    ensures 0 <= 2 * C1(f, f) < 0x8_0000_0000_0000_0000_0000_0000_0000
    ensures 0 <= 2 * C2(f, f) < 0x8_0000_0000_0000_0000_0000_0000_0000
    ensures 0 <= 2 * C3(f, f) < 0x8_0000_0000_0000_0000_0000_0000_0000
    ensures 0 <= 2 * C4(f, f) <= 0x5000_0000_0000_0000_0000_0000_0000
  {
    var d := Fe(2 * f.l0, 2 * f.l1, 2 * f.l2, 2 * f.l3, 2 * f.l4);
    MulBounds(d, d);
    DoubledColumns(f, d);
  }

  lemma DoubledColumns(f: Fe, d: Fe)
    requires d.l0 == 2 * f.l0 && d.l1 == 2 * f.l1 && d.l2 == 2 * f.l2 && d.l3 == 2 * f.l3 && d.l4 == 2 * f.l4
    ensures C0(d, d) == 4 * C0(f, f) && C1(d, d) == 4 * C1(f, f) && C2(d, d) == 4 * C2(f, f)
    ensures C3(d, d) == 4 * C3(f, f) && C4(d, d) == 4 * C4(f, f)
  {
  }

  // ----- addition, subtraction, negation -----

  method Add(f: Fe, g: Fe, ghost b: int, ghost c: int) returns (h: Fe)
    requires Within(f, b) && Within(g, c) && b + c < 0x1_0000_0000_0000_0000
    ensures Within(h, b + c)
    ensures Val(h) == Val(f) + Val(g)
  {
    h := Fe(f.l0 + g.l0, f.l1 + g.l1, f.l2 + g.l2, f.l3 + g.l3, f.l4 + g.l4);
  }

  /** f - g, kept non-negative limb by limb by adding 2P. */
  method Sub(f: Fe, g: Fe, ghost b: int) returns (h: Fe)
    requires Within(f, b) && b < 0x8000_0000_0000_0000 && Within(g, 0x7fff_ffff_ffff_ffff)
    ensures Within(h, b + B52)
    ensures Same(Val(h), Val(f) - Val(g))
  {
    var h0, h1, h2, h3, h4, k := CarryTop(g);
    h := Fe((f.l0 + 0xF_FFFF_FFFF_FFDA) - h0, (f.l1 + 0xF_FFFF_FFFF_FFFE) - h1, (f.l2 + 0xF_FFFF_FFFF_FFFE) - h2,
            (f.l3 + 0xF_FFFF_FFFF_FFFE) - h3, (f.l4 + 0xF_FFFF_FFFF_FFFE) - h4);
    assert Val(h) == Val(f) - Val(g) + (k + 2) * P;
    SameShift(Val(f) - Val(g), k + 2);
  }

  /** The carry chain that subtraction runs on its second operand. */
  method CarryTop(g: Fe) returns (h0: u64, h1: u64, h2: u64, h3: u64, h4: u64, ghost k: int)
    requires Within(g, 0x7fff_ffff_ffff_ffff)
    ensures h0 < B51 + 0x1_0000_0000 && h1 < B51 && h2 < B51 && h3 < B51 && h4 < B51
    ensures Val(g) == Poly(h0, h1, h2, h3, h4) + k * P
  {
    h1 := g.l1 + g.l0 / 0x8_0000_0000_0000;
    h0 := g.l0 % 0x8_0000_0000_0000;
    h2 := g.l2 + h1 / 0x8_0000_0000_0000;
    ghost var k1 := h1 / 0x8_0000_0000_0000;
    h1 := h1 % 0x8_0000_0000_0000;
    h3 := g.l3 + h2 / 0x8_0000_0000_0000;
    ghost var k2 := h2 / 0x8_0000_0000_0000;
    h2 := h2 % 0x8_0000_0000_0000;
    h4 := g.l4 + h3 / 0x8_0000_0000_0000;
    ghost var k3 := h3 / 0x8_0000_0000_0000;
    h3 := h3 % 0x8_0000_0000_0000;
    k := h4 / 0x8_0000_0000_0000;
    Telescope(g.l0, g.l1, g.l2, g.l3, g.l4, h0, h1, h2, h3, h4 % 0x8_0000_0000_0000, g.l0 / 0x8_0000_0000_0000, k1, k2, k3, k);
    h0 := h0 + 19 * (h4 / 0x8_0000_0000_0000);
    h4 := h4 % 0x8_0000_0000_0000;
  }

  const ZERO := Fe(0, 0, 0, 0, 0)
  const ONE := Fe(1, 0, 0, 0, 0)

  method Neg(f: Fe) returns (h: Fe)
    requires Within(f, 0x7fff_ffff_ffff_ffff)
    ensures Within(h, B52)
    ensures Same(Val(h), -Val(f))
  {
    h := Sub(ZERO, f, 0);
  }
}
