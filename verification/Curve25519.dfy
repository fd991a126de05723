/**
  Points of the twisted Edwards curve -x^2 + y^2 = 1 + d x^2 y^2 in extended
  coordinates (x = X/Z, y = Y/Z, xy = T/Z), as integers modulo P.

  The formulas are those of section 5.1.4 of RFC 8032.  Nothing here mentions limbs.
 */
module Curve25519 {
  import opened Field25519

  datatype Pt = Pt(x: int, y: int, z: int, t: int)

  // The constants of the program, limb by limb.
  const D_FE := Fe(929955233495203, 466365720129213, 1662059464998953, 2033849074728123, 1442794654840575)
  const D2_FE := Fe(1859910466990425, 932731440258426, 1072319116312658, 1815898335770999, 633789495995903)
  const SQRTM1_FE := Fe(1718705420411056, 234908883556509, 2233514472574048, 2117202627021982, 765476049583133)

  /** d = -121665/121666, of which only this is known (section 5.1 of RFC 8032). */
  ghost predicate IsD(d: int) {
    Same(d * 121666, -121665)
  }

  ghost const D: int := (LimbsOfD(); var d: int :| IsD(d); d)

  const SQRTM1: int := 0x2b8324804fc1df0b2b4d00993dfbd7a72f431806ad2fe478c4ee1b274a0ea0b0

  /** The limbs hold d and 2d modulo P, and a square root of -1. */
  lemma Constants()
    ensures Same(D * 121666, -121665) && Same(Val(D_FE), D)
    ensures Same(Val(D2_FE), 2 * D)
    ensures Val(SQRTM1_FE) == SQRTM1 && Same(SQRTM1 * SQRTM1, -1)
  {
    LimbsOfD();
    assert IsD(D);
    CancelDivisor(Val(D_FE), D);
    SameTimes(Val(D_FE), D, 2);
    SameIsRemainder(SQRTM1 * SQRTM1, -1);
  }

  lemma LimbsOfD()
    ensures IsD(Val(D_FE)) && Same(Val(D2_FE), Val(D_FE) * 2)
  {
    SameIsRemainder(Val(D_FE) * 121666, -121665);
    SameIsRemainder(Val(D2_FE), Val(D_FE) * 2);
  }

  /** The inverse of 121666 modulo P. */
  const INVERSE: int := 0x5203_6cee_2b6f_fe73_8cc7_4079_7779_e898_0070_0a4d_4141_d8ab_75eb_4dca_1359_78a4

  lemma CancelDivisor(x: int, y: int)
    requires Same(x * 121666, y * 121666)
    ensures Same(x, y)
  {
    SameTimes(x * 121666, y * 121666, INVERSE);
    assert x * 121666 * INVERSE == x + x * 77955 * P;
    assert y * 121666 * INVERSE == y + y * 77955 * P;
    SameShift(x, x * 77955);
    SameShift(y, y * 77955);
  }

  ghost predicate PSame(p: Pt, q: Pt) {
    Same(p.x, q.x) && Same(p.y, q.y) && Same(p.z, q.z) && Same(p.t, q.t)
  }

  const IDENTITY := Pt(0, 1, 1, 0)

  // Addition: A, B, C, D of RFC 8032, then E, F, G, H.
  ghost function SumA(p: Pt, q: Pt): int { (p.y - p.x) * (q.y - q.x) }
  ghost function SumB(p: Pt, q: Pt): int { (p.y + p.x) * (q.y + q.x) }
  ghost function SumC(p: Pt, q: Pt): int { (2 * D * q.t) * p.t }
  ghost function SumD(p: Pt, q: Pt): int { 2 * (p.z * q.z) }
  ghost function SumE(p: Pt, q: Pt): int { SumB(p, q) - SumA(p, q) }
  ghost function SumF(p: Pt, q: Pt): int { SumD(p, q) - SumC(p, q) }
  ghost function SumG(p: Pt, q: Pt): int { SumD(p, q) + SumC(p, q) }
  ghost function SumH(p: Pt, q: Pt): int { SumB(p, q) + SumA(p, q) }

  ghost function Sum(p: Pt, q: Pt): Pt {
    Completed(SumE(p, q), SumF(p, q), SumG(p, q), SumH(p, q))
  }

  function Completed(e: int, f: int, g: int, h: int): Pt {
    Pt(e * f, g * h, f * g, e * h)
  }

  // Doubling: E, F, G, H of RFC 8032.
  function DblH(p: Pt): int { p.x * p.x + p.y * p.y }
  function DblE(p: Pt): int { DblH(p) - (p.x + p.y) * (p.x + p.y) }
  function DblG(p: Pt): int { p.x * p.x - p.y * p.y }
  function DblF(p: Pt): int { 2 * (p.z * p.z) + DblG(p) }

  function Double(p: Pt): Pt {
    Completed(DblE(p), DblF(p), DblG(p), DblH(p))
  }

  function Negate(p: Pt): Pt {
    Pt(-p.x, p.y, p.z, -p.t)
  }

  /** The same point with every coordinate multiplied by -1. */
  function Flip(p: Pt): Pt {
    Pt(-p.x, -p.y, -p.z, -p.t)
  }

  // ----- the curve equation -----

  ghost predicate OnCurve(p: Pt) {
    && Same(p.y * p.y - p.x * p.x, p.z * p.z + D * (p.t * p.t))
    && Same(p.x * p.y, p.z * p.t)
  }

  // Polynomial identities, in the order the closure proof uses them.

  /** With e2 = Y + 2m, h2 = X + 2m, f2 = S - 2n, g2 = S + 2n. */
  lemma Expand(S: int, n: int, m: int, X: int, Y: int, d: int)
    ensures (S + 2 * n) * (X + 2 * m) - (Y + 2 * m) * (S - 2 * n) - d * ((Y + 2 * m) * (X + 2 * m))
         == S * (X - Y) - d * (X * Y) + 4 * (d * (m * m)) + (n - d * m) * (2 * (X + Y) + 8 * m)
  {
    assert (S + 2 * n) * (X + 2 * m) == S * X + 2 * (S * m) + 2 * (n * X) + 4 * (n * m);
    assert (Y + 2 * m) * (S - 2 * n) == S * Y - 2 * (n * Y) + 2 * (S * m) - 4 * (n * m);
    assert (Y + 2 * m) * (X + 2 * m) == X * Y + 2 * (m * Y) + 2 * (m * X) + 4 * (m * m);
    assert d * (X * Y + 2 * (m * Y) + 2 * (m * X) + 4 * (m * m))
        == d * (X * Y) + 2 * ((d * m) * Y) + 2 * ((d * m) * X) + 4 * (d * (m * m));
    assert (n - d * m) * (2 * (X + Y) + 8 * m)
        == 2 * (n * X) + 2 * (n * Y) + 8 * (n * m) - 2 * ((d * m) * X) - 2 * ((d * m) * Y) - 8 * ((d * m) * m);
    assert (d * m) * m == d * (m * m);
  }

  lemma CrossDifference(u: int, w: int, u': int, w': int)
    ensures (u * u' + w * w') - (w * u' + u * w') == (u - w) * (u' - w')
  {
  }

  lemma CrossProduct(u: int, w: int, u': int, w': int)
    ensures (u * u' + w * w') * (w * u' + u * w')
         == (u * w) * ((u' - w') * (u' - w')) + (u' * w') * ((u - w) * (u - w)) + 4 * ((u * w) * (u' * w'))
  {
    var A, B := u * w, u' * w';
    assert (u * u') * (w * u') == A * (u' * u');
    assert (u * u') * (u * w') == B * (u * u);
    assert (w * w') * (w * u') == B * (w * w);
    assert (w * w') * (u * w') == A * (w' * w');
    assert (u' - w') * (u' - w') == u' * u' + w' * w' - 2 * B;
    assert (u - w) * (u - w) == u * u + w * w - 2 * A;
    assert A * (u' * u' + w' * w' - 2 * B) == A * (u' * u') + A * (w' * w') - 2 * (A * B);
    assert B * (u * u + w * w - 2 * A) == B * (u * u) + B * (w * w) - 2 * (A * B);
  }

  lemma Weighted(a: int, b: int, a': int, b': int)
    ensures (a * b) * ((a' + b') * (a' + b')) == (a * a') * (b * a') + 2 * ((a * a') * (b * b')) + (a * b') * (b * b')
  {
    assert (a' + b') * (a' + b') == a' * a' + 2 * (a' * b') + b' * b';
    assert (a * b) * (a' * a') == (a * a') * (b * a');
    assert (a * b) * (a' * b') == (a * a') * (b * b');
    assert (a * b) * (b' * b') == (a * b') * (b * b');
    assert (a * b) * (a' * a' + 2 * (a' * b') + b' * b')
        == (a * b) * (a' * a') + 2 * ((a * b) * (a' * b')) + (a * b) * (b' * b');
  }

  lemma Regroup(p: int, q: int, r: int, t: int)
    ensures (p + q) * (p + q + r + t) - (p * t + 2 * (p * q) + r * q) - (p * r + 2 * (p * q) + t * q) == (p - q) * (p - q)
  {
    assert (p + q) * (p + q + r + t) == p * p + 2 * (p * q) + q * q + p * r + p * t + q * r + q * t;
    assert (p - q) * (p - q) == p * p - 2 * (p * q) + q * q;
  }

  lemma Balance(a: int, b: int, a': int, b': int)
    ensures (a * a' + b * b') * ((a + b) * (a' + b')) - (a * b) * ((a' + b') * (a' + b')) - (a' * b') * ((a + b) * (a + b))
         == (a * a' - b * b') * (a * a' - b * b')
  {
    Weighted(a, b, a', b');
    Weighted(a', b', a, b);
    Commuted(a, b, a', b');
    assert (a + b) * (a' + b') == a * a' + b * b' + a * b' + b * a';
    Regroup(a * a', b * b', a * b', b * a');
  }

  lemma Commuted(a: int, b: int, a': int, b': int)
    ensures a' * a == a * a' && b' * a == a * b' && b' * b == b * b' && a' * b == b * a'
  {
  }

  lemma CrossSquares(x: int, y: int, x': int, y': int)
    ensures var m := (x * y) * (x' * y');
      && (y * y' + x * x') * (y * y' + x * x') == (y * y) * (y' * y') + (x * x) * (x' * x') + 2 * m
      && (x * y' + y * x') * (x * y' + y * x') == (x * x) * (y' * y') + (y * y) * (x' * x') + 2 * m
  {
    assert (y * y') * (y * y') == (y * y) * (y' * y');
    assert (x * x') * (x * x') == (x * x) * (x' * x');
    assert (y * y') * (x * x') == (x * y) * (x' * y');
    assert (x * y') * (x * y') == (x * x) * (y' * y');
    assert (y * x') * (y * x') == (y * y) * (x' * x');
    assert (x * y') * (y * x') == (x * y) * (x' * y');
  }

  lemma DepthSquares(z: int, t: int, z': int, t': int, d: int)
    ensures var S, n := (z * z) * (z' * z') + (d * (t * t)) * (d * (t' * t')), d * ((z * t) * (z' * t'));
      && (z * z' - d * (t * t')) * (z * z' - d * (t * t')) == S - 2 * n
      && (z * z' + d * (t * t')) * (z * z' + d * (t * t')) == S + 2 * n
      && (z * z' - d * (t * t')) * (z * z' + d * (t * t')) == (z * z) * (z' * z') - (d * (t * t)) * (d * (t' * t'))
  {
    var p, q := z * z', d * (t * t');
    ProductSquared(z, z');
    ScaledSquare(t, t', d);
    ScaledCross(z, t, z', t', d);
    Conjugates(p, q);
  }

  lemma Conjugates(p: int, q: int)
    ensures (p - q) * (p - q) == p * p + q * q - 2 * (p * q)
    ensures (p + q) * (p + q) == p * p + q * q + 2 * (p * q)
    ensures (p - q) * (p + q) == p * p - q * q
  {
  }

  lemma ProductSquared(x: int, y: int)
    ensures (x * y) * (x * y) == (x * x) * (y * y)
  {
  }

  lemma ScaledSquare(t: int, t': int, d: int)
    ensures (d * (t * t')) * (d * (t * t')) == (d * (t * t)) * (d * (t' * t'))
  {
    var v := t * t';
    assert v * v == (t * t) * (t' * t');
    assert (d * v) * (d * v) == (d * d) * (v * v);
    var x, y := t * t, t' * t';
    assert (d * x) * (d * y) == (d * d) * (x * y);
  }

  lemma ScaledCross(z: int, t: int, z': int, t': int, d: int)
    ensures (z * z') * (d * (t * t')) == d * ((z * t) * (z' * t'))
  {
    var p, v := z * z', t * t';
    assert p * v == (z * t) * (z' * t');
    assert p * (d * v) == d * (p * v);
  }

  /** d x^2 y^2 = z^2 (d t^2) on the curve. */
  lemma ProductOfSquares(p: Pt)
    requires OnCurve(p)
    ensures Same(D * ((p.y * p.y) * (p.x * p.x)), (p.z * p.z) * (D * (p.t * p.t)))
  {
    var v, w := p.x * p.y, p.z * p.t;
    SameMul(v, w, v, w);
    SameTimes(v * v, w * w, D);
    SquareOfProduct(p.x, p.y, D);
    SquareOfProduct(p.z, p.t, D);
  }

  lemma SquareOfProduct(x: int, y: int, d: int)
    ensures ((x * y) * (x * y)) * d == d * ((y * y) * (x * x)) == (x * x) * (d * (y * y))
  {
    assert (x * y) * (x * y) == (y * y) * (x * x);
    var u, w := x * x, y * y;
    assert d * (w * u) == u * (d * w);
  }

  /** Modulo P the expanded difference collapses to the square that Balance names. */
  lemma Collapse(S: int, n: int, m: int, u: int, w: int, u': int, w': int, a: int, b: int, a': int, b': int)
    requires S == a * a' + b * b' && m * m == (u * w) * (u' * w')
    requires Same(n, D * m) && Same(u - w, a + b) && Same(u' - w', a' + b')
    requires Same(D * (u * w), a * b) && Same(D * (u' * w'), a' * b')
    ensures var X, Y := u * u' + w * w', w * u' + u * w';
            Same(S * (X - Y) - D * (X * Y) + 4 * (D * (m * m)) + (n - D * m) * (2 * (X + Y) + 8 * m),
                 (a * a' - b * b') * (a * a' - b * b'))
  {
    var X, Y := u * u' + w * w', w * u' + u * w';
    var k, k' := u - w, u' - w';
    var s, s' := a + b, a' + b';
    var c, c' := D * (u * w), D * (u' * w');
    CrossDifference(u, w, u', w');
    CrossProduct(u, w, u', w');
    Distribute(D, u * w, k' * k', u' * w', k * k, m * m);
    var last := (n - D * m) * (2 * (X + Y) + 8 * m);
    assert S * (X - Y) == S * (k * k');
    assert S * (X - Y) - D * (X * Y) + 4 * (D * (m * m)) + last == S * (k * k') - c * (k' * k') - c' * (k * k) + last;
    SameMul(k, s, k', s');
    SameTimes(k * k', s * s', S);
    assert (k * k') * S == S * (k * k') && (s * s') * S == S * (s * s');
    SameMul(k', s', k', s');
    SameMul(c, a * b, k' * k', s' * s');
    SameMul(k, s, k, s);
    SameMul(c', a' * b', k * k, s * s);
    SameAdd(n, D * m, D * m, D * m);
    SameTimes(n - D * m, 0, 2 * (X + Y) + 8 * m);
    Combine(S * (k * k'), c * (k' * k'), c' * (k * k), last,
            S * (s * s'), (a * b) * (s' * s'), (a' * b') * (s * s));
    Balance(a, b, a', b');
  }

  lemma Distribute(d: int, x: int, y: int, z: int, v: int, w: int)
    ensures d * (x * y + z * v + 4 * w) == (d * x) * y + (d * z) * v + 4 * (d * w)
  {
  }

  lemma Combine(a: int, b: int, c: int, d: int, a': int, b': int, c': int)
    requires Same(a, a') && Same(b, b') && Same(c, c') && Same(d, 0)
    ensures Same(a - b - c + d, a' - b' - c')
  {
    SameAdd(a, a', b, b');
    SameAdd(a - b, a' - b', c, c');
    SameAdd(a - b - c, a' - b' - c', d, 0);
  }

  /** The closure computation on the halves e, f, g, h of E, F, G, H. */
  lemma HalfSum(p: Pt, q: Pt, e: int, f: int, g: int, h: int)
    requires OnCurve(p) && OnCurve(q)
    requires e == p.x * q.y + p.y * q.x && h == p.y * q.y + p.x * q.x
    requires f == p.z * q.z - D * (p.t * q.t) && g == p.z * q.z + D * (p.t * q.t)
    ensures Same((g * g) * (h * h) - (e * e) * (f * f), (f * g) * (f * g) + D * ((e * e) * (h * h)))
  {
    var u, w, u', w' := p.y * p.y, p.x * p.x, q.y * q.y, q.x * q.x;
    var a, b, a', b' := p.z * p.z, D * (p.t * p.t), q.z * q.z, D * (q.t * q.t);
    var m, n := (p.x * p.y) * (q.x * q.y), D * ((p.z * p.t) * (q.z * q.t));
    var S, X, Y := a * a' + b * b', u * u' + w * w', w * u' + u * w';
    CrossSquares(p.x, p.y, q.x, q.y);
    DepthSquares(p.z, p.t, q.z, q.t, D);
    SameMul(p.x * p.y, p.z * p.t, q.x * q.y, q.z * q.t);
    SameTimes(m, (p.z * p.t) * (q.z * q.t), D);
    ProductOfSquares(p);
    ProductOfSquares(q);
    SquareTwice(p.x, p.y, q.x, q.y);
    Collapse(S, n, m, u, w, u', w', a, b, a', b');
    Expand(S, n, m, X, Y, D);
    SameAdd((g * g) * (h * h) - (e * e) * (f * f) - D * ((e * e) * (h * h)), (f * g) * (f * g),
            D * ((e * e) * (h * h)), D * ((e * e) * (h * h)));
  }

  lemma SquareTwice(x: int, y: int, x': int, y': int)
    ensures ((x * y) * (x' * y')) * ((x * y) * (x' * y')) == ((y * y) * (x * x)) * ((y' * y') * (x' * x'))
  {
    var v, v' := x * y, x' * y';
    assert v * v == (y * y) * (x * x) && v' * v' == (y' * y') * (x' * x');
    assert (v * v') * (v * v') == (v * v) * (v' * v');
  }

  /** The sum of two points of the curve is on the curve. */
  lemma SumOnCurve(p: Pt, q: Pt)
    requires OnCurve(p) && OnCurve(q)
    ensures OnCurve(Sum(p, q))
  {
    var e, h := p.x * q.y + p.y * q.x, p.y * q.y + p.x * q.x;
    var f, g := p.z * q.z - D * (p.t * q.t), p.z * q.z + D * (p.t * q.t);
    SumHalves(p, q);
    HalfSum(p, q, e, f, g, h);
    CompletedOnCurve(e, f, g, h);
  }

  lemma SumHalves(p: Pt, q: Pt)
    ensures SumE(p, q) == 2 * (p.x * q.y + p.y * q.x) && SumH(p, q) == 2 * (p.y * q.y + p.x * q.x)
    ensures SumF(p, q) == 2 * (p.z * q.z - D * (p.t * q.t)) && SumG(p, q) == 2 * (p.z * q.z + D * (p.t * q.t))
  {
  }

  lemma CompletedOnCurve(e: int, f: int, g: int, h: int)
    requires Same((g * g) * (h * h) - (e * e) * (f * f), (f * g) * (f * g) + D * ((e * e) * (h * h)))
    ensures OnCurve(Completed(2 * e, 2 * f, 2 * g, 2 * h))
  {
    var l, r := (g * g) * (h * h) - (e * e) * (f * f), (f * g) * (f * g) + D * ((e * e) * (h * h));
    SameTimes(l, r, 16);
    FourTimes(e, f);
    FourTimes(g, h);
    FourTimes(f, g);
    FourTimes(e, h);
    var c := Completed(2 * e, 2 * f, 2 * g, 2 * h);
    assert c.t * c.t == 16 * ((e * e) * (h * h));
    assert c.y * c.y - c.x * c.x == l * 16;
    assert c.z * c.z + D * (c.t * c.t) == r * 16;
    assert c.x * c.y == c.z * c.t by { Swap(2 * e, 2 * f, 2 * g, 2 * h); }
  }

  lemma Swap(e: int, f: int, g: int, h: int)
    ensures (e * f) * (g * h) == (f * g) * (e * h)
  {
    assert (e * f) * (g * h) == (f * g) * (e * h);
  }

  lemma FourTimes(a: int, b: int)
    ensures ((2 * a) * (2 * b)) * ((2 * a) * (2 * b)) == 16 * ((a * a) * (b * b)) == 16 * ((a * b) * (a * b))
  {
    assert (2 * a) * (2 * b) == 4 * (a * b);
    var v := a * b;
    assert (4 * v) * (4 * v) == 16 * (v * v);
    assert v * v == (a * a) * (b * b);
  }

  // ----- the same point in other coordinates -----

  function Scale(c: int, p: Pt): Pt {
    Pt(c * p.x, c * p.y, c * p.z, c * p.t)
  }

  lemma PSameOnCurve(p: Pt, q: Pt)
    requires PSame(p, q) && OnCurve(p)
    ensures OnCurve(q)
  {
    SameMul(p.x, q.x, p.x, q.x);
    SameMul(p.y, q.y, p.y, q.y);
    SameMul(p.z, q.z, p.z, q.z);
    SameMul(p.t, q.t, p.t, q.t);
    SameMul(p.x, q.x, p.y, q.y);
    SameMul(p.z, q.z, p.t, q.t);
    SameTimes(p.t * p.t, q.t * q.t, D);
    SameAdd(p.y * p.y, q.y * q.y, p.x * p.x, q.x * q.x);
    SameAdd(p.z * p.z, q.z * q.z, p.t * p.t * D, q.t * q.t * D);
  }

  lemma ScaleOnCurve(c: int, p: Pt)
    requires OnCurve(p)
    ensures OnCurve(Scale(c, p))
  {
    SameTimes(p.y * p.y - p.x * p.x, p.z * p.z + D * (p.t * p.t), c * c);
    SameTimes(p.x * p.y, p.z * p.t, c * c);
    ScaledProduct(c, p.x, p.x);
    ScaledProduct(c, p.y, p.y);
    ScaledProduct(c, p.z, p.z);
    ScaledProduct(c, p.t, p.t);
    ScaledProduct(c, p.x, p.y);
    ScaledProduct(c, p.z, p.t);
    var k, u, w, a, b := c * c, p.y * p.y, p.x * p.x, p.z * p.z, p.t * p.t;
    assert (u - w) * k == u * k - w * k;
    assert (a + D * b) * k == a * k + D * (b * k);
  }

  lemma ScaledProduct(c: int, x: int, y: int)
    ensures (c * x) * (c * y) == (x * y) * (c * c)
  {
  }

  lemma NegateOnCurve(p: Pt)
    requires OnCurve(p)
    ensures OnCurve(Negate(p))
  {
    SameTimes(p.x * p.y, p.z * p.t, -1);
    var n := Negate(p);
    assert n.x * n.x == p.x * p.x && n.t * n.t == p.t * p.t;
    assert n.x * n.y == p.x * p.y * -1 && n.z * n.t == p.z * p.t * -1;
  }

  /** Doubling is adding a point to itself, up to the common factor -4. */
  lemma DoubleIsSum(p: Pt)
    requires OnCurve(p)
    ensures PSame(Sum(p, p), Scale(-4, Double(p)))
  {
    SumHalves(p, p);
    DoubleEdges(p);
    DoubleTerms(p.y * p.y, p.x * p.x, p.z * p.z, D * (p.t * p.t));
    var e, f, g, h := DblE(p), DblF(p), DblG(p), DblH(p);
    SameMul(SumE(p, p), -2 * e, SumF(p, p), 2 * f);
    SameMul(SumG(p, p), -2 * g, SumH(p, p), 2 * h);
    SameMul(SumF(p, p), 2 * f, SumG(p, p), -2 * g);
    SameMul(SumE(p, p), -2 * e, SumH(p, p), 2 * h);
    TwiceTwice(e, f);
    TwiceTwice(g, h);
    TwiceTwice(g, f);
    TwiceTwice(e, h);
  }

  lemma TwiceTwice(a: int, b: int)
    ensures (-2 * a) * (2 * b) == -4 * (a * b) == (2 * b) * (-2 * a) && a * b == b * a
  {
  }

  lemma DoubleTerms(u: int, w: int, a: int, b: int)
    requires Same(u - w, a + b)
    ensures Same(2 * (a - b), 2 * (2 * a + (w - u))) && Same(2 * (a + b), -2 * (w - u))
  {
    SameTimes(u - w, a + b, 2);
    SameAdd(4 * a, 4 * a, (u - w) * 2, (a + b) * 2);
  }

  lemma DoubleEdges(p: Pt)
    ensures SumE(p, p) == -2 * DblE(p) && SumH(p, p) == 2 * DblH(p)
  {
    SumHalves(p, p);
    assert (p.x + p.y) * (p.x + p.y) == p.x * p.x + p.y * p.y + 2 * (p.x * p.y);
  }

  /** The inverse of -4 modulo P. */
  const MINUS_QUARTER: int := 0x1fff_ffff_ffff_ffff_ffff_ffff_ffff_ffff_ffff_ffff_ffff_ffff_ffff_ffff_ffff_fffb

  lemma ScaleBack(p: Pt, q: Pt)
    requires PSame(p, Scale(-4, q))
    ensures PSame(Scale(MINUS_QUARTER, p), q)
  {
    BackOne(p.x, q.x);
    BackOne(p.y, q.y);
    BackOne(p.z, q.z);
    BackOne(p.t, q.t);
  }

  lemma BackOne(x: int, y: int)
    requires Same(x, -4 * y)
    ensures Same(MINUS_QUARTER * x, y)
  {
    SameTimes(x, -4 * y, MINUS_QUARTER);
    assert -4 * y * MINUS_QUARTER == y - y * P;
    SameShift(y, -y);
  }

  lemma DoubleOnCurve(p: Pt)
    requires OnCurve(p)
    ensures OnCurve(Double(p))
  {
    SumOnCurve(p, p);
    DoubleIsSum(p);
    ScaleBack(Sum(p, p), Double(p));
    ScaleOnCurve(MINUS_QUARTER, Sum(p, p));
    PSameOnCurve(Scale(MINUS_QUARTER, Sum(p, p)), Double(p));
  }

  // ----- the law of addition, neutral element and inverse -----

  lemma CrossRatios(e: int, f: int, g: int, h: int)
    ensures ((2 * e) * (2 * f)) * g == ((2 * f) * (2 * g)) * e
    ensures ((2 * g) * (2 * h)) * f == ((2 * f) * (2 * g)) * h
  {
    assert ((2 * e) * (2 * f)) * g == 4 * ((e * f) * g) && ((2 * f) * (2 * g)) * e == 4 * ((f * g) * e);
    assert ((2 * g) * (2 * h)) * f == 4 * ((g * h) * f) && ((2 * f) * (2 * g)) * h == 4 * ((f * g) * h);
    assert (e * f) * g == (f * g) * e && (g * h) * f == (f * g) * h;
  }

  /** The Edwards law: x3 (1 + d x x' y y') = x y' + y x' and y3 (1 - d x x' y y') = y y' + x x', over the denominators. */
  lemma EdwardsLaw(p: Pt, q: Pt)
    ensures Sum(p, q).x * (p.z * q.z + D * (p.t * q.t)) == Sum(p, q).z * (p.x * q.y + p.y * q.x)
    ensures Sum(p, q).y * (p.z * q.z - D * (p.t * q.t)) == Sum(p, q).z * (p.y * q.y + p.x * q.x)
    ensures Sum(p, q).x * Sum(p, q).y == Sum(p, q).z * Sum(p, q).t
  {
    SumHalves(p, q);
    CrossRatios(p.x * q.y + p.y * q.x, p.z * q.z - D * (p.t * q.t), p.z * q.z + D * (p.t * q.t), p.y * q.y + p.x * q.x);
    Swap(SumE(p, q), SumF(p, q), SumG(p, q), SumH(p, q));
  }

  lemma SumCommutes(p: Pt, q: Pt)
    ensures Sum(p, q) == Sum(q, p)
  {
    SumHalves(p, q);
    SumHalves(q, p);
  }

  lemma Quadruples(a: int, b: int)
    ensures (2 * a) * (2 * b) == 4 * (a * b) == (4 * b) * a == (4 * a) * b
  {
  }

  /** Adding the identity gives the same point, all coordinates times 4 z. */
  lemma IdentityIsNeutral(p: Pt)
    requires OnCurve(p)
    ensures PSame(Sum(p, IDENTITY), Scale(4 * p.z, p)) && PSame(Sum(IDENTITY, p), Scale(4 * p.z, p))
  {
    SumHalves(p, IDENTITY);
    SumCommutes(p, IDENTITY);
    Quadruples(p.x, p.z);
    Quadruples(p.z, p.y);
    Quadruples(p.z, p.z);
    Quadruples(p.x, p.y);
    Quadruples(p.z, p.t);
    SameTimes(p.x * p.y, p.z * p.t, 4);
  }

  /** A point and its negation add up to the identity, all coordinates times F G. */
  lemma NegateIsInverse(p: Pt)
    requires OnCurve(p)
    ensures PSame(Sum(p, Negate(p)), Scale(SumF(p, Negate(p)) * SumG(p, Negate(p)), IDENTITY))
  {
    var n := Negate(p);
    SumHalves(p, n);
    OppositeProducts(p.x, p.y, p.t);
    var e, f, g, h := SumE(p, n), SumF(p, n), SumG(p, n), SumH(p, n);
    assert e == 0 && h == 2 * (p.y * p.y - p.x * p.x) && f == 2 * (p.z * p.z + D * (p.t * p.t));
    SameTimes(p.y * p.y - p.x * p.x, p.z * p.z + D * (p.t * p.t), 2);
    SameMul(g, g, h, f);
    VanishingEdges(e, f, g, h);
  }

  lemma OppositeProducts(x: int, y: int, t: int)
    ensures x * y + y * -x == 0 && y * y + x * -x == y * y - x * x && t * -t == -(t * t)
  {
  }

  lemma VanishingEdges(e: int, f: int, g: int, h: int)
    requires e == 0 && Same(g * h, g * f)
    ensures PSame(Completed(e, f, g, h), Scale(f * g, IDENTITY))
  {
    assert g * f == f * g && e * f == 0 && e * h == 0;
    assert Scale(f * g, IDENTITY) == Pt(0, f * g, f * g, 0);
  }
}
