/**
  Point decoding (bench/shootout-src/ed25519.c, section 5.1.3 of RFC 8032): a square
  root candidate from one exponentiation, two root checks, and the sign bit.
 */
module Decode25519 {
  import opened Field25519
  import opened Canonical25519
  import opened Power25519
  import opened Curve25519
  import opened Group25519
  import Cmov25519

  // With u = y^2 - 1 and v = d y^2 + 1, the curve equation reads v x^2 = u.
  ghost function U(y: int): int { y * y - 1 }
  ghost function W(y: int): int { y * y * D + 1 }
  ghost function Cube(v: int): int { v * v * v }

  /** The candidate root u v^3 (u v^7)^((P - 5) / 8). */
  ghost function Candidate(u: int, v: int): int {
    Pow(Cube(v) * Cube(v) * v * u, (P - 5) / 8) * Cube(v) * u
  }

  /** The candidate x passes one of the two checks: v x^2 is u or -u. */
  ghost predicate Passes(u: int, v: int) {
    var x := Candidate(u, v);
    Same(x * x * v, u) || Same(x * x * v, -u)
  }

  /** The candidate for y passes; by PassesFor, whichever representatives of u and v are taken. */
  ghost predicate CandidatePasses(y: int) {
    exists u, v :: Same(u, U(y)) && Same(v, W(y)) && Passes(u, v)
  }

  lemma CubeSame(v: int, w: int)
    requires Same(v, w)
    ensures Same(Cube(v), Cube(w))
  {
    SameMul(v, w, v, w);
    SameMul(v * v, w * w, v, w);
  }

  lemma CandidateSame(u: int, v: int, u': int, v': int)
    requires Same(u, u') && Same(v, v')
    ensures Same(Candidate(u, v), Candidate(u', v'))
  {
    var c, c' := Cube(v), Cube(v');
    CubeSame(v, v');
    SameMul(c, c', c, c');
    SameMul(c * c, c' * c', v, v');
    SameMul(c * c * v, c' * c' * v', u, u');
    PowSame(c * c * v * u, c' * c' * v' * u', (P - 5) / 8);
    var z, z' := Pow(c * c * v * u, (P - 5) / 8), Pow(c' * c' * v' * u', (P - 5) / 8);
    SameMul(z, z', c, c');
    SameMul(z * c, z' * c', u, u');
  }

  lemma PassesSame(u: int, v: int, u': int, v': int)
    requires Same(u, u') && Same(v, v') && Passes(u, v)
    ensures Passes(u', v')
  {
    CandidateSame(u, v, u', v');
    ChecksSame(Candidate(u, v), u, v, Candidate(u', v'), u', v');
  }

  lemma ChecksSame(x: int, u: int, v: int, x': int, u': int, v': int)
    requires Same(x, x') && Same(u, u') && Same(v, v')
    ensures Same(x * x * v, u) <==> Same(x' * x' * v', u')
    ensures Same(x * x * v, -u) <==> Same(x' * x' * v', -u')
  {
    SameMul(x, x', x, x');
    SameMul(x * x, x' * x', v, v');
    SameAdd(0, 0, u, u');
  }

  lemma PassesFor(y: int, u: int, v: int)
    requires Same(u, U(y)) && Same(v, W(y))
    ensures CandidatePasses(y) <==> Passes(u, v)
  {
    if CandidatePasses(y) {
      var a, b :| Same(a, U(y)) && Same(b, W(y)) && Passes(a, b);
      PassesSame(a, b, u, v);
    }
  }

  /** u and v from y. */
  method Parts(Y: Fe) returns (u: Fe, v: Fe)
    requires Within(Y, B51)
    ensures Within(u, B51 + B52) && Same(Val(u), U(Val(Y)))
    ensures Within(v, B52) && Same(Val(v), W(Val(Y)))
  {
    ghost var y := Val(Y);
    var yy := SqV(Y, y);
    Constants();
    var dyy := MulV(yy, D_FE, y * y, D);
    u := SubV(yy, ONE, B51, y * y, 1);
    v := AddV(dyy, ONE, B51, y * y * D, 1);
  }

  method Root(u: Fe, v: Fe, ghost a: int, ghost b: int) returns (x: Fe)
    requires Within(u, B51 + B52) && Same(Val(u), a) && Within(v, B52) && Same(Val(v), b)
    ensures Within(x, B51) && Same(Val(x), Candidate(a, b))
  {
    var v3 := SqV(v, b);
    v3 := MulV(v3, v, b * b, b);
    x := SqV(v3, Cube(b));
    x := MulV(x, v, Cube(b) * Cube(b), b);
    x := MulV(x, u, Cube(b) * Cube(b) * b, a);
    ghost var base := Val(x);
    x := Pow22523(x);
    PowSame(base, Cube(b) * Cube(b) * b * a, (P - 5) / 8);
    ghost var z := Pow(Cube(b) * Cube(b) * b * a, (P - 5) / 8);
    x := MulV(x, v3, z, Cube(b));
    x := MulV(x, u, z * Cube(b), a);
  }

  lemma {:induction false} PowSame(a: int, b: int, e: nat)
    requires Same(a, b)
    ensures Same(Pow(a, e), Pow(b, e))
  {
    if e > 0 {
      PowSame(a, b, e - 1);
      SameMul(a, b, Pow(a, e - 1), Pow(b, e - 1));
    }
  }

  /** Both root checks, and the multiplication by sqrt(-1) when the first fails. */
  method PickRoot(x0: Fe, u: Fe, v: Fe, ghost a: int, ghost b: int, ghost c: int) returns (x: Fe, ret: int)
    requires Within(x0, B51) && Same(Val(x0), c)
    requires Within(u, B51 + B52) && Same(Val(u), a) && Within(v, B52) && Same(Val(v), b)
    ensures ret == (if Same(c * c * b, a) || Same(c * c * b, -a) then 0 else -1) && Within(x, B51)
    ensures ret == 0 ==> Same(Val(x) * Val(x) * b, a)
  {
    var vxx := SqV(x0, c);
    vxx := MulV(vxx, v, c * c, b);
    var m := SubV(vxx, u, B51, c * c * b, a);
    var p := Add(vxx, u, B51, B51 + B52);
    SameAdd(Val(vxx), c * c * b, Val(u), a);
    var hasM := IsZero(m);
    var hasP := IsZero(p);
    DifferenceZero(Val(m), c * c * b, a);
    SumZero(Val(p), c * c * b, a);
    Constants();
    var xs := MulV(x0, SQRTM1_FE, c, SQRTM1);
    x := Cmov25519.Cmov(x0, xs, 1 - hasM);
    ret := (if hasM == 1 || hasP == 1 then 1 else 0) - 1;
    if hasM == 1 {
      RootIs(Val(x), c, b);
    } else if hasP == 1 {
      RootIs(Val(x), c * SQRTM1, b);
      TimesSqrtM1(c, b, a);
    }
  }

  lemma DifferenceZero(m: int, a: int, b: int)
    requires Same(m, a - b)
    ensures Same(m, 0) <==> Same(a, b)
  {
    if Same(m, 0) {
      SameAdd(a - b, 0, b, b);
    }
    if Same(a, b) {
      SameAdd(a, b, b, b);
    }
  }

  lemma SumZero(m: int, a: int, b: int)
    requires Same(m, a + b)
    ensures Same(m, 0) <==> Same(a, -b)
  {
    DifferenceZero(m, a, -b);
  }

  lemma RootIs(x: int, c: int, b: int)
    requires Same(x, c)
    ensures Same(x * x * b, c * c * b)
  {
    SameMul(x, c, x, c);
    SameTimes(x * x, c * c, b);
  }

  lemma TimesSqrtM1(c: int, b: int, u: int)
    requires Same(c * c * b, -u)
    ensures Same((c * SQRTM1) * (c * SQRTM1) * b, u)
  {
    Constants();
    var k := SQRTM1 * SQRTM1;
    Regroup4(c, SQRTM1, b);
    SameMul(c * c * b, -u, k, -1);
    assert -u * -1 == u;
  }

  lemma Regroup4(c: int, r: int, b: int)
    ensures (c * r) * (c * r) * b == (c * c * b) * (r * r)
  {
    var x, y := c * c, r * r;
    assert (c * r) * (c * r) == x * y;
    assert (x * y) * b == (x * b) * y;
  }

  /** Negates x when its parity differs from the sign bit. */
  method FixSign(x0: Fe, sign: int) returns (x: Fe)
    requires Within(x0, B51) && (sign == 0 || sign == 1)
    ensures Within(x, B52) && (Same(Val(x), Val(x0)) || Same(Val(x), -Val(x0)))
    ensures !Same(Val(x), 0) ==> Val(x) % P % 2 == sign
  {
    var odd := IsNegative(x0);
    var negx := Neg(x0);
    x := Cmov25519.Cmov(x0, negx, (odd + sign) % 2);
    if (odd + sign) % 2 == 1 && !Same(Val(x), 0) {
      FlipParity(Val(x), Val(x0));
    }
  }

  lemma FlipParity(x: int, y: int)
    requires Same(x, -y) && !Same(x, 0)
    ensures x % P % 2 != y % P % 2
  {
    var k := SameWitness(x, -y);
    var r := y % P;
    assert x == P - r + (k - y / P - 1) * P;
    SameShift(P - r, k - y / P - 1);
    if r == 0 {
      SameShift(0, k - y / P);
    } else {
      Remainder(x, P - r, k - y / P - 1);
    }
  }

  lemma SquareOfEither(x: int, y: int, b: int)
    requires Same(x, y) || Same(x, -y)
    ensures Same(x * x * b, y * y * b)
  {
    if Same(x, y) {
      RootIs(x, y, b);
    } else {
      RootIs(x, -y, b);
      assert -y * -y == y * y;
    }
  }

  /** v x^2 = u is the curve equation, for any d. */
  lemma EquationHolds(xx: int, yy: int, tt: int, d: int, u: int, v: int)
    requires Same(xx * v, u) && Same(u, yy - 1) && Same(v, yy * d + 1) && Same(tt, xx * yy)
    ensures Same(yy - xx, 1 + d * tt)
  {
    SameMul(xx, xx, v, yy * d + 1);
    SameTimes(tt, xx * yy, d);
    Spread(xx, yy, tt, d);
    SameAdd(d * (xx * yy) + xx, yy - 1, xx, xx);
    SameAdd(d * tt, d * (xx * yy), 1, 1);
    SameAdd(d * (xx * yy), yy - 1 - xx, 1, 1);
  }

  lemma Spread(xx: int, yy: int, tt: int, d: int)
    ensures xx * (yy * d + 1) == d * (xx * yy) + xx
    ensures (xx * yy) * d == d * (xx * yy) && tt * d == d * tt
  {
  }

  lemma ProductSquare(x: int, y: int, t: int)
    requires Same(t, x * y)
    ensures Same(t * t, (x * x) * (y * y))
  {
    SameMul(t, x * y, t, x * y);
    ProductSquared(x, y);
  }

  /** A root for representatives of u and v, of either sign, gives a point of the curve. */
  lemma RootGivesPoint(x: int, x1: int, y: int, t: int, a: int, b: int)
    requires Same(x, x1) || Same(x, -x1)
    requires Same(x1 * x1 * b, a) && Same(a, U(y)) && Same(b, W(y)) && Same(t, x * y)
    ensures OnCurve(Pt(x, y, 1, t))
  {
    SquareOfEither(x, x1, b);
    ProductSquare(x, y, t);
    EquationHolds(x * x, y * y, t * t, D, a, b);
  }

  /** A root of v x^2 = u with the wanted sign, from the values a and b of u and v. */
  method SolveX(u: Fe, v: Fe, sign: int, ghost a: int, ghost b: int) returns (x: Fe, ret: int, ghost x1: int)
    requires Within(u, B51 + B52) && Same(Val(u), a) && Within(v, B52) && Same(Val(v), b) && (sign == 0 || sign == 1)
    ensures Within(x, B52) && ret == (if Passes(a, b) then 0 else -1)
    ensures Same(Val(x), x1) || Same(Val(x), -x1)
    ensures ret == 0 ==> Same(x1 * x1 * b, a)
    ensures !Same(Val(x), 0) ==> Val(x) % P % 2 == sign
  {
    var x0 := Root(u, v, a, b);
    var root;
    root, ret := PickRoot(x0, u, v, a, b, Candidate(a, b));
    x1 := Val(root);
    x := FixSign(root, sign);
  }

  /** Some member of the class of x: what follows uses nothing else of it. */
  lemma Representative(x: int) returns (a: int)
    ensures Same(a, x)
  {
    a := x;
  }

  /** The point with a given y. */
  method DecodeX(Y: Fe, sign: int) returns (h: P3, ret: int)
    requires Within(Y, B51) && (sign == 0 || sign == 1)
    ensures Bounded3(h) && h.Z == ONE && h.Y == Y
    ensures ret == if CandidatePasses(Val(Y)) then 0 else -1
    ensures Same(Val(h.T), Val(h.X) * Val(Y))
    ensures ret == 0 ==> OnCurve(V3(h))
    ensures !Same(Val(h.X), 0) ==> Val(h.X) % P % 2 == sign
  {
    ghost var y := Val(Y);
    var u, v := Parts(Y);
    ghost var a := Representative(U(y));
    ghost var b := Representative(W(y));
    PassesFor(y, a, b);
    var X;
    ghost var x1;
    X, ret, x1 := SolveX(u, v, sign, a, b);
    var T := MulV(X, Y, Val(X), y);
    h := P3(X, Y, ONE, T);
    if ret == 0 {
      RootGivesPoint(Val(X), x1, y, Val(T), a, b);
      assert V3(h) == Pt(Val(X), y, 1, Val(T));
    }
  }

  /**
    ge25519_frombytes.  It accepts exactly when the candidate for u = y^2 - 1 and
    v = d y^2 + 1 passes a root check; an accepted point is on the curve with T = XY and
    Z = 1, its y is the encoded one, and its x, unless zero, has the encoded sign.
   */
  method DecodePoint(s: Bytes32) returns (h: P3, ret: int)
    ensures Bounded3(h) && h.Z == ONE && Within(h.Y, B51 - 1) && Val(h.Y) == Number(s) % (P + 19)
    ensures ret == if CandidatePasses(Val(h.Y)) then 0 else -1
    ensures Same(Val(h.T), Val(h.X) * Val(h.Y))
    ensures ret == 0 ==> OnCurve(V3(h))
    ensures !Same(Val(h.X), 0) ==> Val(h.X) % P % 2 == s[31] / 128
  {
    var Y := FromBytes(s);
    h, ret := DecodeX(Y, s[31] / 128);
  }

  // ----- a root that exists is found, unless its power is no sign -----

  lemma {:induction false} PowOfSquare(w: int, e: nat)
    ensures Pow(w * w, e) == Pow(w, 2 * e)
  {
    if e > 0 {
      PowOfSquare(w, e - 1);
      PowAdd(w, 2, 2 * (e - 1));
      assert Pow(w, 1) == w * Pow(w, 0);
      assert Pow(w, 2) == w * Pow(w, 1);
    }
  }

  /** With u = v x^2 and w = x v^4, the candidate is x w^((P - 1) / 4). */
  lemma CandidateOfRoot(x: int, v: int, w: int, e: nat)
    requires w == x * (v * v * v * v)
    ensures Pow(Cube(v) * Cube(v) * v * (v * (x * x)), e) * Cube(v) * (v * (x * x)) == x * Pow(w, 2 * e + 1)
  {
    SeventhPower(v, x, w);
    PowOfSquare(w, e);
    Regrouped(Pow(w, 2 * e), v, x, w);
  }

  lemma SeventhPower(v: int, x: int, w: int)
    requires w == x * (v * v * v * v)
    ensures Cube(v) * Cube(v) * v * (v * (x * x)) == w * w
  {
    var f := v * v * v * v;
    var c := Cube(v);
    assert f == c * v;
    FourFactors(c, v, x);
    ProductSquared(x, f);
  }

  lemma FourFactors(c: int, v: int, x: int)
    ensures c * c * v * (v * (x * x)) == (x * x) * ((c * v) * (c * v))
  {
    assert c * c * v * (v * (x * x)) == (c * c) * (v * v) * (x * x);
    ProductSquared(c, v);
  }

  lemma Regrouped(z: int, v: int, x: int, w: int)
    requires w == x * (v * v * v * v)
    ensures z * Cube(v) * (v * (x * x)) == x * (w * z)
  {
    var c := Cube(v);
    assert v * v * v * v == c * v;
    assert z * c * (v * (x * x)) == x * ((x * (c * v)) * z);
  }

  lemma SquareOfCandidate(x: int, v: int, z: int)
    ensures (x * z) * (x * z) * v == (v * (x * x)) * (z * z)
  {
    ProductSquared(x, z);
    var a, b := x * x, z * z;
    assert (a * b) * v == (v * a) * b;
  }

  /** If x solves v x^2 = u and (x v^4)^((P - 1) / 2) is 1 or -1, the candidate passes. */
  lemma RootsPass(x: int, u: int, v: int)
    requires Same(v * (x * x), u)
    requires var z := Pow(x * (v * v * v * v), (P - 1) / 2); Same(z, 1) || Same(z, -1)
    ensures Passes(u, v)
  {
    var w := x * (v * v * v * v);
    var e := (P - 5) / 8;
    var z := Pow(w, 2 * e + 1);
    CandidateOfRoot(x, v, w, e);
    PowAdd(w, 2 * e + 1, 2 * e + 1);
    assert Same(z * z, 1) || Same(z * z, -1);
    SignedSquare(x, v, z, u);
    PassesBy(v * (x * x), v, x * z);
    PassesSame(v * (x * x), v, u, v);
  }

  /** The same for the point with this y: it is accepted. */
  lemma PointsAreAccepted(y: int, x: int, u: int, v: int)
    requires Same(u, U(y)) && Same(v, W(y)) && Same(v * (x * x), u)
    requires var z := Pow(x * (v * v * v * v), (P - 1) / 2); Same(z, 1) || Same(z, -1)
    ensures CandidatePasses(y)
  {
    RootsPass(x, u, v);
    PassesFor(y, u, v);
  }

  lemma SignedSquare(x: int, v: int, z: int, u: int)
    requires Same(z * z, 1) || Same(z * z, -1)
    ensures var a := v * (x * x);
      Same((x * z) * (x * z) * v, a) || Same((x * z) * (x * z) * v, -a)
  {
    var a := v * (x * x);
    SquareOfCandidate(x, v, z);
    if Same(z * z, 1) {
      SameMul(a, a, z * z, 1);
    } else {
      SameMul(a, a, z * z, -1);
      assert a * -1 == -a;
    }
  }

  lemma PassesBy(u: int, v: int, c: int)
    requires c == Candidate(u, v) && (Same(c * c * v, u) || Same(c * c * v, -u))
    ensures Passes(u, v)
  {
  }
}
