/**
  The two fixed exponentiations of the field (bench/shootout-src/ed25519.c): the
  addition chains for z^(P - 2) and z^((P - 5) / 8).
 */
module Power25519 {
  import opened Field25519

  function Pow(z: int, e: nat): int {
    if e == 0 then 1 else z * Pow(z, e - 1)
  }

  function TwoTo(n: nat): (r: nat)
    ensures r >= 1
  {
    if n == 0 then 1 else 2 * TwoTo(n - 1)
  }

  lemma {:induction false} PowAdd(z: int, a: nat, b: nat)
    ensures Pow(z, a) * Pow(z, b) == Pow(z, a + b)
  {
    if a > 0 {
      PowAdd(z, a - 1, b);
      Assoc(z, Pow(z, a - 1), Pow(z, b));
    }
  }

  lemma Assoc(x: int, y: int, w: int)
    ensures (x * y) * w == x * (y * w)
  {
  }

  lemma {:induction false} TwoToAdd(a: nat, b: nat)
    ensures TwoTo(a) * TwoTo(b) == TwoTo(a + b)
  {
    if a > 0 {
      TwoToAdd(a - 1, b);
      Assoc(2, TwoTo(a - 1), TwoTo(b));
    }
  }

  /** f stands for z to the power e. */
  ghost predicate Is(f: Fe, z: int, e: nat) {
    Within(f, B54 - 1) && Same(Val(f), Pow(z, e))
  }

  method PowMul(f: Fe, g: Fe, ghost z: int, ghost a: nat, ghost b: nat) returns (h: Fe)
    requires Is(f, z, a) && Is(g, z, b)
    ensures Is(h, z, a + b) && Within(h, B51)
  {
    h := Mul(f, g);
    SameMul(Val(f), Pow(z, a), Val(g), Pow(z, b));
    PowAdd(z, a, b);
  }

  method PowSq(f: Fe, ghost z: int, ghost a: nat) returns (h: Fe)
    requires Is(f, z, a)
    ensures Is(h, z, 2 * a)
  {
    h := Sq(f);
    SameMul(Val(f), Pow(z, a), Val(f), Pow(z, a));
    PowAdd(z, a, a);
  }

  /** n squarings in a row: the first into a fresh variable, the others in place. */
  method SqTimes(f: Fe, n: nat, ghost z: int, ghost a: nat) returns (t: Fe)
    requires n >= 1 && Is(f, z, a)
    ensures Is(t, z, a * TwoTo(n))
  {
    t := PowSq(f, z, a);
    var i := 1;
    ghost var e := 2 * a;
    Doubling(a, 0);
    while i < n
      invariant 1 <= i <= n && e == a * TwoTo(i) && Is(t, z, e)
    {
      t := PowSq(t, z, e);
      Doubling(a, i);
      e := 2 * e;
      i := i + 1;
    }
  }

  lemma Doubling(a: nat, i: nat)
    ensures 2 * (a * TwoTo(i)) == a * TwoTo(i + 1)
    ensures i == 0 ==> a * TwoTo(i + 1) == 2 * a
  {
  }

  /** n squarings of z^x, then times z^y. */
  method Ladder(f: Fe, n: nat, g: Fe, ghost z: int, ghost x: nat, ghost p: nat, ghost y: nat) returns (h: Fe)
    requires n >= 1 && p == TwoTo(n) && Is(f, z, x) && Is(g, z, y)
    ensures Is(h, z, x * p + y)
  {
    var t := SqTimes(f, n, z, x);
    h := PowMul(t, g, z, x * p, y);
  }

  lemma Doubled(n: nat, w: nat)
    requires TwoTo(n) == w
    ensures TwoTo(n + n) == w * w
  {
    TwoToAdd(n, n);
  }

  /** The powers of two that the chains step by. */
  lemma Widths()
    ensures TwoTo(5) == 0x20 && TwoTo(10) == 0x400 && TwoTo(20) == 0x10_0000
    ensures TwoTo(50) == 0x4_0000_0000_0000 && TwoTo(100) == 0x10_0000_0000_0000_0000_0000_0000
  {
    var w := TwoTo(5);
    assert w == 0x20;
    Doubled(5, 0x20);
    Doubled(10, 0x400);
    Doubled(20, 0x10_0000);
    TwoToAdd(40, 10);
    Doubled(50, 0x4_0000_0000_0000);
  }

  /** The shared head of both chains: z^11 and z^(2^5 - 1). */
  method Head(z: Fe) returns (z11: Fe, z31: Fe)
    requires Within(z, B54 - 1)
    ensures Is(z11, Val(z), 11) && Is(z31, Val(z), 31)
  {
    ghost var v := Val(z);
    var z2 := PowSq(z, v, 1);
    var t := PowSq(z2, v, 2);
    t := PowSq(t, v, 4);
    var z9 := PowMul(z, t, v, 1, 8);
    z11 := PowMul(z2, z9, v, 2, 9);
    var z22 := PowSq(z11, v, 11);
    z31 := PowMul(z9, z22, v, 9, 22);
  }

  /** From z^(2^5 - 1) to z^(2^50 - 1). */
  method ToFifty(z31: Fe, ghost v: int) returns (h: Fe)
    requires Is(z31, v, 31)
    ensures Is(h, v, 0x3_ffff_ffff_ffff)
  {
    Widths();
    var a10 := Ladder(z31, 5, z31, v, 31, 0x20, 31);
    var a20 := Ladder(a10, 10, a10, v, 0x3ff, 0x400, 0x3ff);
    var a40 := Ladder(a20, 20, a20, v, 0xf_ffff, 0x10_0000, 0xf_ffff);
    h := Ladder(a40, 10, a10, v, 0xff_ffff_ffff, 0x400, 0x3ff);
  }

  /** From z^(2^50 - 1) to z^(2^250 - 1). */
  method ToTwoFifty(a50: Fe, ghost v: int) returns (h: Fe)
    requires Is(a50, v, 0x3_ffff_ffff_ffff)
    ensures Is(h, v, 0x3ff_ffff_ffff_ffff_ffff_ffff_ffff_ffff_ffff_ffff_ffff_ffff_ffff_ffff_ffff_ffff)
  {
    Widths();
    var a100 := Ladder(a50, 50, a50, v, 0x3_ffff_ffff_ffff, 0x4_0000_0000_0000, 0x3_ffff_ffff_ffff);
    var a200 := Ladder(a100, 100, a100, v, 0xf_ffff_ffff_ffff_ffff_ffff_ffff, 0x10_0000_0000_0000_0000_0000_0000, 0xf_ffff_ffff_ffff_ffff_ffff_ffff);
    h := Ladder(a200, 50, a50, v, 0xff_ffff_ffff_ffff_ffff_ffff_ffff_ffff_ffff_ffff_ffff_ffff_ffff, 0x4_0000_0000_0000, 0x3_ffff_ffff_ffff);
  }

  /** z^(P - 2). */
  method Invert(z: Fe) returns (out: Fe)
    requires Within(z, B54 - 1)
    ensures Within(out, B51) && Same(Val(out), Pow(Val(z), P - 2))
  {
    var z11, z31 := Head(z);
    var a50 := ToFifty(z31, Val(z));
    var a250 := ToTwoFifty(a50, Val(z));
    Widths();
    var t := SqTimes(a250, 5, Val(z), 0x3ff_ffff_ffff_ffff_ffff_ffff_ffff_ffff_ffff_ffff_ffff_ffff_ffff_ffff_ffff_ffff);
    out := PowMul(t, z11, Val(z), P - 13, 11);
  }

  /** z^((P - 5) / 8). */
  method Pow22523(z: Fe) returns (out: Fe)
    requires Within(z, B54 - 1)
    ensures Within(out, B51) && Same(Val(out), Pow(Val(z), (P - 5) / 8))
  {
    ghost var e: nat := 0x3ff_ffff_ffff_ffff_ffff_ffff_ffff_ffff_ffff_ffff_ffff_ffff_ffff_ffff_ffff_ffff;
    var z11, z31 := Head(z);
    var a50 := ToFifty(z31, Val(z));
    var a250 := ToTwoFifty(a50, Val(z));
    var t := PowSq(a250, Val(z), e);
    t := PowSq(t, Val(z), 2 * e);
    out := PowMul(t, z, Val(z), 4 * e, 1);
  }
}
