/**
  Group operations on limbs (bench/shootout-src/ed25519.c): each computes the formula
  of RFC 8032 modulo P, and keeps every limb inside the bounds the field needs.
 */
module Group25519 {
  import opened Field25519
  import opened Curve25519

  datatype P2 = P2(X: Fe, Y: Fe, Z: Fe)
  datatype P3 = P3(X: Fe, Y: Fe, Z: Fe, T: Fe)
  datatype P1P1 = P1P1(X: Fe, Y: Fe, Z: Fe, T: Fe)
  datatype Cached = Cached(YplusX: Fe, YminusX: Fe, Z: Fe, T2d: Fe)

  // ----- field operations, carrying the value each operand stands for -----

  method MulV(f: Fe, g: Fe, ghost a: int, ghost b: int) returns (h: Fe)
    requires Within(f, B53) && Within(g, B53) && Same(Val(f), a) && Same(Val(g), b)
    ensures Within(h, B51) && Same(Val(h), a * b)
  {
    h := Mul(f, g);
    SameMul(Val(f), a, Val(g), b);
  }

  method SqV(f: Fe, ghost a: int) returns (h: Fe)
    requires Within(f, B53) && Same(Val(f), a)
    ensures Within(h, B51) && Same(Val(h), a * a)
  {
    h := Sq(f);
    SameMul(Val(f), a, Val(f), a);
  }

  lemma SameSum(x: int, a: int, y: int, b: int, z: int)
    requires Same(x, a) && Same(y, b) && z == x + y
    ensures Same(z, a + b)
  {
    SameAdd(x, a, y, b);
  }

  method AddV(f: Fe, g: Fe, ghost m: int, ghost a: int, ghost b: int) returns (h: Fe)
    requires m <= B52 && Within(f, m) && Within(g, m) && Same(Val(f), a) && Same(Val(g), b)
    ensures Within(h, m + m) && Same(Val(h), a + b)
  {
    h := Add(f, g, m, m);
    SameSum(Val(f), a, Val(g), b, Val(h));
  }

  method SubV(f: Fe, g: Fe, ghost m: int, ghost a: int, ghost b: int) returns (h: Fe)
    requires m <= B52 && Within(f, m) && Within(g, B53) && Same(Val(f), a) && Same(Val(g), b)
    ensures Within(h, m + B52) && Same(Val(h), a - b)
  {
    h := Sub(f, g, m);
    SameAdd(Val(f), a, Val(g), b);
  }

  // ----- what limbs stand for -----

  ghost function V3(p: P3): Pt {
    Pt(Val(p.X), Val(p.Y), Val(p.Z), Val(p.T))
  }

  predicate Bounded3(p: P3) {
    Within(p.X, B52) && Within(p.Y, B52) && Within(p.Z, B52) && Within(p.T, B52)
  }

  predicate Bounded2(p: P2) {
    Within(p.X, B52) && Within(p.Y, B52) && Within(p.Z, B52)
  }

  predicate BoundedC(c: Cached) {
    Within(c.YplusX, B53) && Within(c.YminusX, B53) && Within(c.Z, B53) && Within(c.T2d, B53)
  }

  /** The first three coordinates of v. */
  ghost predicate Is2(p: P2, v: Pt) {
    Bounded2(p) && Same(Val(p.X), v.x) && Same(Val(p.Y), v.y) && Same(Val(p.Z), v.z)
  }

  ghost predicate Is3(p: P3, v: Pt) {
    Bounded3(p) && PSame(V3(p), v)
  }

  /** Y + X, Y - X, Z and 2dT of v. */
  ghost predicate IsC(c: Cached, v: Pt) {
    && BoundedC(c)
    && Same(Val(c.YplusX), v.y + v.x) && Same(Val(c.YminusX), v.y - v.x)
    && Same(Val(c.Z), v.z) && Same(Val(c.T2d), 2 * D * v.t)
  }

  /** E, H, G, F of a sum or doubling, in that order. */
  ghost predicate IsP(r: P1P1, e: int, f: int, g: int, h: int) {
    && Within(r.X, B53) && Within(r.Y, B53) && Within(r.Z, B53) && Within(r.T, B53)
    && Same(Val(r.X), e) && Same(Val(r.Y), h) && Same(Val(r.Z), g) && Same(Val(r.T), f)
  }

  // ----- the operations -----

  /** ge25519_add: E, F, G, H of the sum. */
  method AddPoints(p: P3, q: Cached, ghost v: Pt, ghost w: Pt) returns (r: P1P1)
    requires Is3(p, v) && IsC(q, w)
    ensures IsP(r, SumE(v, w), SumF(v, w), SumG(v, w), SumH(v, w))
  {
    var yPlusX := AddV(p.Y, p.X, B52, v.y, v.x);
    var yMinusX := SubV(p.Y, p.X, B52, v.y, v.x);
    var b := MulV(yPlusX, q.YplusX, v.y + v.x, w.y + w.x);
    var a := MulV(yMinusX, q.YminusX, v.y - v.x, w.y - w.x);
    var c := MulV(q.T2d, p.T, 2 * D * w.t, v.t);
    var zz := MulV(p.Z, q.Z, v.z, w.z);
    r := Finish(a, b, c, zz, v, w);
  }

  method Finish(a: Fe, b: Fe, c: Fe, zz: Fe, ghost v: Pt, ghost w: Pt) returns (r: P1P1)
    requires Within(a, B51) && Within(b, B51) && Within(c, B51) && Within(zz, B51)
    requires Same(Val(a), SumA(v, w)) && Same(Val(b), SumB(v, w)) && Same(Val(c), SumC(v, w))
    requires Same(Val(zz), v.z * w.z)
    ensures IsP(r, SumE(v, w), SumF(v, w), SumG(v, w), SumH(v, w))
  {
    var t0 := AddV(zz, zz, B51, v.z * w.z, v.z * w.z);
    var e := SubV(b, a, B51, SumB(v, w), SumA(v, w));
    var h := AddV(b, a, B51, SumB(v, w), SumA(v, w));
    var g := AddV(t0, c, B52, SumD(v, w), SumC(v, w));
    var f := SubV(t0, c, B52, SumD(v, w), SumC(v, w));
    r := P1P1(e, h, g, f);
  }

  /** ge25519_p1p1_to_p2 */
  method ToP2(r: P1P1, ghost e: int, ghost f: int, ghost g: int, ghost h: int) returns (p: P2)
    requires IsP(r, e, f, g, h)
    ensures Is2(p, Completed(e, f, g, h))
  {
    var x := MulV(r.X, r.T, e, f);
    var y := MulV(r.Y, r.Z, h, g);
    var z := MulV(r.Z, r.T, g, f);
    p := P2(x, y, z);
  }

  /** ge25519_p1p1_to_p3 */
  method ToP3(r: P1P1, ghost e: int, ghost f: int, ghost g: int, ghost h: int) returns (p: P3)
    requires IsP(r, e, f, g, h)
    ensures Is3(p, Completed(e, f, g, h))
  {
    var x := MulV(r.X, r.T, e, f);
    var y := MulV(r.Y, r.Z, h, g);
    var z := MulV(r.Z, r.T, g, f);
    var t := MulV(r.X, r.Y, e, h);
    p := P3(x, y, z, t);
  }

  /** ge25519_p2_dbl: E and G come out negated, so the point does with every coordinate negated. */
  method DoublePoint(p: P2, ghost v: Pt) returns (r: P1P1)
    requires Is2(p, v)
    ensures IsP(r, -DblE(v), DblF(v), -DblG(v), DblH(v))
  {
    var xx := SqV(p.X, v.x);
    var yy := SqV(p.Y, v.y);
    var zz2 := Sq2(p.Z);
    SameMul(Val(p.Z), v.z, Val(p.Z), v.z);
    SameTimes(Val(p.Z) * Val(p.Z), v.z * v.z, 2);
    var xPlusY := AddV(p.X, p.Y, B52, v.x, v.y);
    var t0 := SqV(xPlusY, v.x + v.y);
    var h := AddV(yy, xx, B51, v.y * v.y, v.x * v.x);
    var g := SubV(yy, xx, B51, v.y * v.y, v.x * v.x);
    var e := SubV(t0, h, B51, (v.x + v.y) * (v.x + v.y), DblH(v));
    var f := SubV(zz2, g, B51, 2 * (v.z * v.z), -DblG(v));
    r := P1P1(e, h, g, f);
  }

  lemma FlipDouble(v: Pt)
    ensures Completed(-DblE(v), DblF(v), -DblG(v), DblH(v)) == Flip(Double(v))
  {
  }

  /** ge25519_p3_to_cached */
  method ToCached(p: P3, ghost v: Pt) returns (c: Cached)
    requires Is3(p, v)
    ensures IsC(c, v)
  {
    Constants();
    var yPlusX := AddV(p.Y, p.X, B52, v.y, v.x);
    var yMinusX := SubV(p.Y, p.X, B52, v.y, v.x);
    var t2d := MulV(p.T, D2_FE, v.t, 2 * D);
    c := Cached(yPlusX, yMinusX, p.Z, t2d);
  }

  const P3_ZERO := P3(ZERO, ONE, ONE, ZERO)
  const CACHED_ZERO := Cached(ONE, ONE, ONE, ZERO)

  lemma Zeros()
    ensures Is3(P3_ZERO, IDENTITY) && IsC(CACHED_ZERO, IDENTITY)
  {
  }
}
