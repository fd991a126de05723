/**
  Multiples of a point without a group law: k times p is any point computed from p by
  additions and negations whose counts add up to k, in any projective coordinates.  This
  is a relation that scalar multiplication (bench/shootout-src/ed25519.c) preserves, so
  its result is a times p with no assumption on the curve.
 */
module Multiples25519 {
  import opened Field25519
  import opened Curve25519
  import opened Group25519
  import opened ScalarMult25519
  import Canonical25519
  import Decode25519

  /** A way to compute a point from one base point. */
  datatype Expr = Zero | Base | Plus(left: Expr, right: Expr) | Minus(of: Expr)

  /** How many times the base point an expression counts. */
  function Weight(e: Expr): int {
    match e
    case Zero => 0
    case Base => 1
    case Plus(l, r) => Weight(l) + Weight(r)
    case Minus(o) => -Weight(o)
  }

  ghost function Value(e: Expr, p: Pt): Pt {
    match e
    case Zero => IDENTITY
    case Base => p
    case Plus(l, r) => Sum(Value(l, p), Value(r, p))
    case Minus(o) => Negate(Value(o, p))
  }

  /** q is the value of e up to a common factor that has an inverse. */
  ghost predicate Represents(p: Pt, e: Expr, c: int, i: int, q: Pt) {
    Inverse(c, i) && PSame(q, Scale(c, Value(e, p)))
  }

  ghost predicate IsMultiple(p: Pt, k: int, q: Pt) {
    exists e, c, i :: Represents(p, e, c, i, q) && Weight(e) == k
  }

  // ----- values stay on the curve -----

  lemma {:induction false} ValueOnCurve(e: Expr, p: Pt)
    requires OnCurve(p)
    ensures OnCurve(Value(e, p))
  {
    match e
    case Zero =>
    case Base =>
    case Plus(l, r) =>
      ValueOnCurve(l, p);
      ValueOnCurve(r, p);
      SumOnCurve(Value(l, p), Value(r, p));
    case Minus(o) =>
      ValueOnCurve(o, p);
      NegateOnCurve(Value(o, p));
  }

  // ----- common factors -----

  lemma Swap4(s: int, t: int, x: int, y: int)
    ensures (s * x) * (t * y) == (s * t) * (x * y)
  {
  }

  /** Two scaled points: every half of E, F, G, H takes the factor s t. */
  lemma ScaledHalves(s: int, t: int, p: Pt, q: Pt)
    ensures SumE(Scale(s, p), Scale(t, q)) == (s * t) * SumE(p, q) && SumH(Scale(s, p), Scale(t, q)) == (s * t) * SumH(p, q)
    ensures SumF(Scale(s, p), Scale(t, q)) == (s * t) * SumF(p, q) && SumG(Scale(s, p), Scale(t, q)) == (s * t) * SumG(p, q)
  {
    SumHalves(p, q);
    SumHalves(Scale(s, p), Scale(t, q));
    Swap4(s, t, p.x, q.y);
    Swap4(s, t, p.y, q.x);
    Swap4(s, t, p.y, q.y);
    Swap4(s, t, p.x, q.x);
    Swap4(s, t, p.z, q.z);
    Swap4(s, t, p.t, q.t);
    Factor(s * t, p.x * q.y, p.y * q.x, 1);
    Factor(s * t, p.y * q.y, p.x * q.x, 1);
    Factor(s * t, p.z * q.z, p.t * q.t, D);
  }

  lemma Factor(k: int, a: int, b: int, d: int)
    ensures 2 * (k * a + d * (k * b)) == k * (2 * (a + d * b))
    ensures 2 * (k * a - d * (k * b)) == k * (2 * (a - d * b))
  {
    assert d * (k * b) == k * (d * b);
  }

  lemma ScaledCompleted(k: int, e: int, f: int, g: int, h: int)
    ensures Completed(k * e, k * f, k * g, k * h) == Scale(k * k, Completed(e, f, g, h))
  {
    Swap4(k, k, e, f);
    Swap4(k, k, g, h);
    Swap4(k, k, f, g);
    Swap4(k, k, e, h);
  }

  lemma ScaledSum(s: int, t: int, p: Pt, q: Pt)
    ensures Sum(Scale(s, p), Scale(t, q)) == Scale((s * t) * (s * t), Sum(p, q))
  {
    ScaledHalves(s, t, p, q);
    ScaledCompleted(s * t, SumE(p, q), SumF(p, q), SumG(p, q), SumH(p, q));
  }

  lemma ScaledTwice(c: int, d: int, p: Pt)
    ensures Scale(c, Scale(d, p)) == Scale(c * d, p)
  {
  }

  lemma InverseOfProduct(c: int, i: int, d: int, j: int)
    requires Inverse(c, i) && Inverse(d, j)
    ensures Inverse(c * d, i * j)
  {
    SameMul(c * i, 1, d * j, 1);
    Swap4(c, d, i, j);
  }

  // ----- sums of congruent points -----

  lemma SameProducts(a: int, a': int, b: int, b': int, c: int, c': int, d: int, d': int, k: int)
    requires Same(a, a') && Same(b, b') && Same(c, c') && Same(d, d')
    ensures Same(2 * (a * b + k * (c * d)), 2 * (a' * b' + k * (c' * d')))
    ensures Same(2 * (a * b - k * (c * d)), 2 * (a' * b' - k * (c' * d')))
  {
    SameMul(a, a', b, b');
    SameMul(c, c', d, d');
    SameMul(k, k, c * d, c' * d');
    SameAdd(a * b, a' * b', k * (c * d), k * (c' * d'));
    SameMul(2, 2, a * b + k * (c * d), a' * b' + k * (c' * d'));
    SameMul(2, 2, a * b - k * (c * d), a' * b' - k * (c' * d'));
  }

  lemma SumSame(p: Pt, p': Pt, q: Pt, q': Pt)
    requires PSame(p, p') && PSame(q, q')
    ensures PSame(Sum(p, q), Sum(p', q'))
  {
    SumHalves(p, q);
    SumHalves(p', q');
    SameProducts(p.x, p'.x, q.y, q'.y, p.y, p'.y, q.x, q'.x, 1);
    SameProducts(p.y, p'.y, q.y, q'.y, p.x, p'.x, q.x, q'.x, 1);
    SameProducts(p.z, p'.z, q.z, q'.z, p.t, p'.t, q.t, q'.t, D);
    var e, f, g, h := SumE(p, q), SumF(p, q), SumG(p, q), SumH(p, q);
    var e', f', g', h' := SumE(p', q'), SumF(p', q'), SumG(p', q'), SumH(p', q');
    CompletedSame(e, f, g, h, e', f', g', h');
  }

  lemma CompletedSame(e: int, f: int, g: int, h: int, e': int, f': int, g': int, h': int)
    requires Same(e, e') && Same(f, f') && Same(g, g') && Same(h, h')
    ensures PSame(Completed(e, f, g, h), Completed(e', f', g', h'))
  {
    SameMul(e, e', f, f');
    SameMul(g, g', h, h');
    SameMul(f, f', g, g');
    SameMul(e, e', h, h');
  }

  lemma ScaleSame(c: int, p: Pt, q: Pt)
    requires PSame(p, q)
    ensures PSame(Scale(c, p), Scale(c, q))
  {
    SameMul(c, c, p.x, q.x);
    SameMul(c, c, p.y, q.y);
    SameMul(c, c, p.z, q.z);
    SameMul(c, c, p.t, q.t);
  }

  lemma NegateSame(p: Pt, q: Pt)
    requires PSame(p, q)
    ensures PSame(Negate(p), Negate(q))
  {
    SameAdd(0, 0, p.x, q.x);
    SameAdd(0, 0, p.t, q.t);
  }

  lemma NegateScale(c: int, p: Pt)
    ensures Negate(Scale(c, p)) == Scale(c, Negate(p))
  {
  }

  // ----- the laws -----

  lemma OnTheCurve(p: Pt, k: int, q: Pt)
    requires OnCurve(p) && IsMultiple(p, k, q)
    ensures OnCurve(q)
  {
    var e, c, i :| Represents(p, e, c, i, q) && Weight(e) == k;
    ValueOnCurve(e, p);
    ScaleOnCurve(c, Value(e, p));
    PSameSym(q, Scale(c, Value(e, p)));
    PSameOnCurve(Scale(c, Value(e, p)), q);
  }

  lemma SameMultiple(p: Pt, k: int, q: Pt, q': Pt)
    requires IsMultiple(p, k, q) && PSame(q, q')
    ensures IsMultiple(p, k, q')
  {
    var e, c, i :| Represents(p, e, c, i, q) && Weight(e) == k;
    assert Represents(p, e, c, i, q');
  }

  lemma ScaledMultiple(p: Pt, k: int, c: int, i: int, q: Pt)
    requires IsMultiple(p, k, q) && Inverse(c, i)
    ensures IsMultiple(p, k, Scale(c, q))
  {
    var e, d, j :| Represents(p, e, d, j, q) && Weight(e) == k;
    ScaleSame(c, q, Scale(d, Value(e, p)));
    ScaledTwice(c, d, Value(e, p));
    InverseOfProduct(c, i, d, j);
    assert Represents(p, e, c * d, i * j, Scale(c, q));
  }

  lemma SumOfMultiples(p: Pt, m: int, n: int, q: Pt, r: Pt)
    requires IsMultiple(p, m, q) && IsMultiple(p, n, r)
    ensures IsMultiple(p, m + n, Sum(q, r))
  {
    var e, c, i :| Represents(p, e, c, i, q) && Weight(e) == m;
    var f, d, j :| Represents(p, f, d, j, r) && Weight(f) == n;
    SumSame(q, Scale(c, Value(e, p)), r, Scale(d, Value(f, p)));
    ScaledSum(c, d, Value(e, p), Value(f, p));
    InverseOfProduct(c, i, d, j);
    InverseOfProduct(c * d, i * j, c * d, i * j);
    assert Represents(p, Plus(e, f), (c * d) * (c * d), (i * j) * (i * j), Sum(q, r));
  }

  lemma NegatedMultiple(p: Pt, k: int, q: Pt)
    requires IsMultiple(p, k, q)
    ensures IsMultiple(p, -k, Negate(q))
  {
    var e, c, i :| Represents(p, e, c, i, q) && Weight(e) == k;
    NegateSame(q, Scale(c, Value(e, p)));
    NegateScale(c, Value(e, p));
    assert Represents(p, Minus(e), c, i, Negate(q));
  }

  lemma ItselfAndZero(p: Pt)
    ensures IsMultiple(p, 0, IDENTITY) && IsMultiple(p, 1, p)
  {
    assert Represents(p, Zero, 1, 1, IDENTITY);
    assert Scale(1, p) == p;
    assert Represents(p, Base, 1, 1, p);
  }

  /** The multiples of a point of the curve satisfy every law that scalar multiplication uses. */
  lemma MultiplesAreClosed(p: Pt, R: (int, Pt) -> bool)
    requires OnCurve(p) && forall k, q :: R(k, q) <==> IsMultiple(p, k, q)
    ensures GroupLaw(R) && R(1, p)
  {
    ItselfAndZero(p);
    forall k, q | R(k, q) ensures OnCurve(q) {
      OnTheCurve(p, k, q);
    }
    forall k, q, q' | R(k, q) && PSame(q, q') ensures R(k, q') {
      SameMultiple(p, k, q, q');
    }
    forall k, c, i, q | R(k, q) && Inverse(c, i) ensures R(k, Scale(c, q)) {
      ScaledMultiple(p, k, c, i, q);
    }
    forall m, n, q, r | R(m, q) && R(n, r) ensures R(m + n, Sum(q, r)) {
      SumOfMultiples(p, m, n, q, r);
    }
    forall k, q | R(k, q) ensures R(-k, Negate(q)) {
      NegatedMultiple(p, k, q);
    }
  }

  /** ge25519_scalarmult on a point of the curve: a times that point, and on the curve. */
  method Multiply(a: seq<u8>, p: P3) returns (h: P3)
    requires |a| == 32 && a[31] <= 127 && Bounded3(p) && OnCurve(V3(p))
    ensures Bounded3(h) && OnCurve(V3(h)) && IsMultiple(V3(p), ScalarValue(a), V3(h))
  {
    ghost var base := V3(p);
    ghost var R := (k: int, q: Pt) => IsMultiple(base, k, q);
    MultiplesAreClosed(base, R);
    h := ScalarMult(a, p, R);
  }

  /** Decode and multiply: an accepted encoding leads to a times the decoded point. */
  method DecodeAndMultiply(s: Canonical25519.Bytes32, a: seq<u8>) returns (p: P3, h: P3, ret: int)
    requires |a| == 32 && a[31] <= 127
    ensures Val(p.Y) == Canonical25519.Number(s) % (P + 19) && ret == if Decode25519.CandidatePasses(Val(p.Y)) then 0 else -1
    ensures ret == 0 ==> Bounded3(h) && OnCurve(V3(p)) && OnCurve(V3(h)) && IsMultiple(V3(p), ScalarValue(a), V3(h))
  {
    p, ret := Decode25519.DecodePoint(s);
    h := p;
    if ret == 0 {
      h := Multiply(a, p);
    }
  }
}
