/**
  The branch-free selections (bench/shootout-src/ed25519.c): a mask of ones or zeros
  made from a bit, exclusive or, and a comparison by a shift.
 */
module Cmov25519 {
  import opened Field25519
  import Power25519

  // Bitwise operations, lowest bit first.
  function Xor(a: nat, b: nat): nat {
    if a == 0 && b == 0 then 0 else 2 * Xor(a / 2, b / 2) + (a + b) % 2
  }

  function And(a: nat, b: nat): nat {
    if a == 0 || b == 0 then 0 else 2 * And(a / 2, b / 2) + (a % 2) * (b % 2)
  }

  lemma {:induction false} XorUndoes(a: nat, b: nat)
    ensures Xor(a, Xor(a, b)) == b
    decreases a + b
  {
    if a != 0 || b != 0 {
      XorUndoes(a / 2, b / 2);
      XorStep(a, b, Xor(a, b), Xor(a / 2, b / 2));
      XorUnfolds(a, Xor(a, b));
    }
  }

  lemma XorStep(a: nat, b: nat, x: nat, half: nat)
    requires x == 2 * half + (a + b) % 2
    ensures x / 2 == half && (a + x) % 2 == b % 2
  {
  }

  lemma XorUnfolds(a: nat, b: nat)
    ensures Xor(a, b) == 2 * Xor(a / 2, b / 2) + (a + b) % 2
  {
  }

  lemma {:induction false} XorZero(a: nat)
    ensures Xor(a, 0) == a
  {
    if a != 0 {
      XorZero(a / 2);
    }
  }

  lemma {:induction false} XorBound(a: nat, b: nat, n: nat)
    requires a < Power25519.TwoTo(n) && b < Power25519.TwoTo(n)
    ensures Xor(a, b) < Power25519.TwoTo(n)
    decreases n
  {
    if n > 0 {
      XorBound(a / 2, b / 2, n - 1);
    }
  }

  /** A mask of n ones keeps every n-bit number. */
  lemma {:induction false} AndOnes(a: nat, n: nat)
    requires a < Power25519.TwoTo(n)
    ensures And(a, Power25519.TwoTo(n) - 1) == a
    decreases n
  {
    if n > 0 {
      var ones := Power25519.TwoTo(n) - 1;
      assert ones / 2 == Power25519.TwoTo(n - 1) - 1 && ones % 2 == 1;
      AndOnes(a / 2, n - 1);
    }
  }

  lemma SixtyFour()
    ensures Power25519.TwoTo(64) == 0x1_0000_0000_0000_0000
  {
    Power25519.Widths();
    Power25519.TwoToAdd(50, 10);
    var w := Power25519.TwoTo(4);
    assert w == 16;
    Power25519.TwoToAdd(60, 4);
  }

  /** The mask 0 - b: the bit 1 takes g, the bit 0 keeps f. */
  lemma MaskSelects(f: u64, g: u64, b: int)
    requires b == 0 || b == 1
    ensures Xor(f, g) < 0x1_0000_0000_0000_0000
    ensures Xor(f, And(Xor(f, g), (0 - b) % 0x1_0000_0000_0000_0000)) == if b == 1 then g else f
  {
    SixtyFour();
    XorBound(f, g, 64);
    AndOnes(Xor(f, g), 64);
    XorUndoes(f, g);
    XorZero(f);
  }

  method CmovLimb(f: u64, g: u64, mask: u64, ghost b: int) returns (h: u64)
    requires (b == 0 || b == 1) && mask == (0 - b) % 0x1_0000_0000_0000_0000
    ensures h == if b == 1 then g else f
  {
    MaskSelects(f, g, b);
    var x := Xor(f, g);
    x := And(x, mask);
    h := Xor(f, x);
  }

  /** fe25519_cmov */
  method Cmov(f: Fe, g: Fe, b: int) returns (h: Fe)
    requires b == 0 || b == 1
    ensures h == if b == 1 then g else f
  {
    var mask := (0 - b) % 0x1_0000_0000_0000_0000;
    var h0 := CmovLimb(f.l0, g.l0, mask, b);
    var h1 := CmovLimb(f.l1, g.l1, mask, b);
    var h2 := CmovLimb(f.l2, g.l2, mask, b);
    var h3 := CmovLimb(f.l3, g.l3, mask, b);
    var h4 := CmovLimb(f.l4, g.l4, mask, b);
    h := Fe(h0, h1, h2, h3, h4);
  }

  lemma XorOfEquals(b: u8, c: u8)
    ensures Xor(b, c) < 256 && (Xor(b, c) == 0 <==> b == c)
  {
    var w := Power25519.TwoTo(8);
    assert w == 256;
    XorBound(b, c, 8);
    XorZero(b);
    XorUndoes(b, c);
    XorUndoes(b, 0);
  }

  /** equal: the borrow of x - 1 reaches bit 31 only from 0. */
  method Equal(b: u8, c: u8) returns (r: int)
    ensures r == if b == c then 1 else 0
  {
    XorOfEquals(b, c);
    var x: int := Xor(b, c);
    var y := (x - 1) % 0x1_0000_0000;
    r := y / 0x8000_0000;
  }

  /** negative: the top bit of the sign-extended byte. */
  method Negative(b: int) returns (r: int)
    requires -128 <= b < 128
    ensures r == if b < 0 then 1 else 0
  {
    var x: u64 := b % 0x1_0000_0000_0000_0000;
    r := x / 0x8000_0000_0000_0000;
  }
}
