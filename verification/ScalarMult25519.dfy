/**
  Scalar multiplication (bench/shootout-src/ed25519.c): a table of the first eight
  multiples, a signed radix-16 recoding of the scalar, and one selection, one addition
  and four doublings per digit.

  The group law itself is a parameter: R(k, p) reads "p is k times the base point".
  The theorem holds for every relation R that a group law on the curve gives.
 */
module ScalarMult25519 {
  import opened Field25519
  import opened Curve25519
  import opened Group25519
  import Canonical25519
  import Power25519
  import Cmov25519

  ghost predicate Inverse(c: int, i: int) {
    Same(c * i, 1)
  }

  /** What R must satisfy; doubling is not among it, because the curve equation gives it. */
  ghost predicate GroupLaw(R: (int, Pt) -> bool) {
    && R(0, IDENTITY)
    && (forall k, p :: R(k, p) ==> OnCurve(p))
    && (forall k, p, q :: R(k, p) && PSame(p, q) ==> R(k, q))
    && (forall k, c, i, p {:trigger R(k, p), Inverse(c, i), Scale(c, p)} :: R(k, p) && Inverse(c, i) ==> R(k, Scale(c, p)))
    && (forall m, n, p, q {:trigger R(m, p), R(n, q), Sum(p, q)} :: R(m, p) && R(n, q) ==> R(m + n, Sum(p, q)))
    && (forall k, p {:trigger R(k, p), Negate(p)} :: R(k, p) ==> R(-k, Negate(p)))
  }

  lemma DoubleLaw(R: (int, Pt) -> bool, k: int, p: Pt)
    requires GroupLaw(R) && R(k, p)
    ensures R(2 * k, Double(p)) && R(2 * k, Flip(Double(p)))
  {
    var s, d := Sum(p, p), Double(p);
    assert R(k + k, s);
    DoubleIsSum(p);
    ScaleBack(s, d);
    SameBy(1, MINUS_QUARTER * -4, -1);
    ScaleLaw(R, 2 * k, MINUS_QUARTER, -4, s);
    assert R(2 * k, d);
    ScaleLaw(R, 2 * k, -1, -1, d);
    assert Scale(-1, d) == Flip(d);
  }

  lemma ScaleLaw(R: (int, Pt) -> bool, k: int, c: int, i: int, p: Pt)
    requires GroupLaw(R) && R(k, p) && Same(c * i, 1)
    ensures R(k, Scale(c, p))
  {
    assert Inverse(c, i);
  }

  // ----- points tagged with their multiple -----

  ghost predicate Multiple3(R: (int, Pt) -> bool, k: int, p: P3) {
    Bounded3(p) && R(k, V3(p))
  }

  ghost predicate MultipleC(R: (int, Pt) -> bool, k: int, c: Cached) {
    exists v :: IsC(c, v) && R(k, v)
  }

  ghost predicate Multiple2(R: (int, Pt) -> bool, k: int, p: P2) {
    exists v :: Is2(p, v) && R(k, v)
  }

  /** ge25519_add, then ge25519_p1p1_to_p3. */
  method Plus(p: P3, q: Cached, ghost R: (int, Pt) -> bool, ghost m: int, ghost n: int) returns (s: P3)
    requires GroupLaw(R) && Multiple3(R, m, p) && MultipleC(R, n, q)
    ensures Multiple3(R, m + n, s)
  {
    ghost var v := V3(p);
    ghost var w :| IsC(q, w) && R(n, w);
    var r := AddPoints(p, q, v, w);
    s := ToP3(r, SumE(v, w), SumF(v, w), SumG(v, w), SumH(v, w));
    assert R(m + n, Sum(v, w));
    PSameSym(V3(s), Sum(v, w));
  }

  /** ge25519_add, then ge25519_p1p1_to_p2. */
  method PlusP2(p: P3, q: Cached, ghost R: (int, Pt) -> bool, ghost m: int, ghost n: int) returns (s: P2)
    requires GroupLaw(R) && Multiple3(R, m, p) && MultipleC(R, n, q)
    ensures Multiple2(R, m + n, s)
  {
    ghost var v := V3(p);
    ghost var w :| IsC(q, w) && R(n, w);
    var r := AddPoints(p, q, v, w);
    s := ToP2(r, SumE(v, w), SumF(v, w), SumG(v, w), SumH(v, w));
    assert R(m + n, Sum(v, w));
  }

  lemma PSameSym(p: Pt, q: Pt)
    requires PSame(p, q)
    ensures PSame(q, p)
  {
  }

  /** ge25519_p2_dbl, then ge25519_p1p1_to_p2. */
  method TwiceP2(p: P2, ghost R: (int, Pt) -> bool, ghost k: int) returns (q: P2)
    requires GroupLaw(R) && Multiple2(R, k, p)
    ensures Multiple2(R, 2 * k, q)
  {
    ghost var v :| Is2(p, v) && R(k, v);
    var r := DoublePoint(p, v);
    q := ToP2(r, -DblE(v), DblF(v), -DblG(v), DblH(v));
    FlipDouble(v);
    DoubleLaw(R, k, v);
  }

  /** ge25519_p2_dbl, then ge25519_p1p1_to_p3. */
  method TwiceP3(p: P2, ghost R: (int, Pt) -> bool, ghost k: int) returns (q: P3)
    requires GroupLaw(R) && Multiple2(R, k, p)
    ensures Multiple3(R, 2 * k, q)
  {
    ghost var v :| Is2(p, v) && R(k, v);
    var r := DoublePoint(p, v);
    q := ToP3(r, -DblE(v), DblF(v), -DblG(v), DblH(v));
    FlipDouble(v);
    DoubleLaw(R, k, v);
    PSameSym(V3(q), Flip(Double(v)));
  }

  /** ge25519_p3_dbl, then ge25519_p1p1_to_p3. */
  method Twice(p: P3, ghost R: (int, Pt) -> bool, ghost k: int) returns (q: P3)
    requires GroupLaw(R) && Multiple3(R, k, p)
    ensures Multiple3(R, 2 * k, q)
  {
    var p2 := P2(p.X, p.Y, p.Z);
    assert Is2(p2, V3(p));
    q := TwiceP3(p2, R, k);
  }

  method Cache(p: P3, ghost R: (int, Pt) -> bool, ghost k: int) returns (c: Cached)
    requires Multiple3(R, k, p)
    ensures MultipleC(R, k, c)
  {
    c := ToCached(p, V3(p));
  }

  // ----- the table of multiples -----

  ghost predicate IsTable(R: (int, Pt) -> bool, pi: seq<Cached>) {
    |pi| == 8 && forall i :: 0 <= i < 8 ==> MultipleC(R, i + 1, pi[i])
  }

  method Table(p: P3, ghost R: (int, Pt) -> bool) returns (pi: seq<Cached>)
    requires GroupLaw(R) && Multiple3(R, 1, p)
    ensures IsTable(R, pi)
  {
    var c1 := Cache(p, R, 1);
    var p2 := Twice(p, R, 1);
    var c2 := Cache(p2, R, 2);
    var p3 := Plus(p, c2, R, 1, 2);
    var c3 := Cache(p3, R, 3);
    var p4 := Twice(p2, R, 2);
    var c4 := Cache(p4, R, 4);
    var p5 := Plus(p, c4, R, 1, 4);
    var c5 := Cache(p5, R, 5);
    var p6 := Twice(p3, R, 3);
    var c6 := Cache(p6, R, 6);
    var p7 := Plus(p, c6, R, 1, 6);
    var c7 := Cache(p7, R, 7);
    var p8 := Twice(p4, R, 4);
    var c8 := Cache(p8, R, 8);
    pi := [c1, c2, c3, c4, c5, c6, c7, c8];
  }

  // ----- selection -----

  method CmovCached(t: Cached, u: Cached, b: int) returns (r: Cached)
    requires b == 0 || b == 1
    ensures r == if b == 1 then u else t
  {
    var yp := Cmov25519.Cmov(t.YplusX, u.YplusX, b);
    var ym := Cmov25519.Cmov(t.YminusX, u.YminusX, b);
    var z := Cmov25519.Cmov(t.Z, u.Z, b);
    var t2 := Cmov25519.Cmov(t.T2d, u.T2d, b);
    r := Cached(yp, ym, z, t2);
  }

  /** Entry |b| of the table, or the identity. */
  method SelectAbs(pi: seq<Cached>, babs: int) returns (t: Cached)
    requires |pi| == 8 && 0 <= babs <= 8
    ensures t == if babs == 0 then CACHED_ZERO else pi[babs - 1]
  {
    t := CACHED_ZERO;
    var e1 := Cmov25519.Equal(babs, 1);
    t := CmovCached(t, pi[0], e1);
    var e2 := Cmov25519.Equal(babs, 2);
    t := CmovCached(t, pi[1], e2);
    var e3 := Cmov25519.Equal(babs, 3);
    t := CmovCached(t, pi[2], e3);
    var e4 := Cmov25519.Equal(babs, 4);
    t := CmovCached(t, pi[3], e4);
    var e5 := Cmov25519.Equal(babs, 5);
    t := CmovCached(t, pi[4], e5);
    var e6 := Cmov25519.Equal(babs, 6);
    t := CmovCached(t, pi[5], e6);
    var e7 := Cmov25519.Equal(babs, 7);
    t := CmovCached(t, pi[6], e7);
    var e8 := Cmov25519.Equal(babs, 8);
    t := CmovCached(t, pi[7], e8);
  }

  method Minus(t: Cached, ghost R: (int, Pt) -> bool, ghost k: int) returns (m: Cached)
    requires GroupLaw(R) && MultipleC(R, k, t)
    ensures MultipleC(R, -k, m)
  {
    ghost var v :| IsC(t, v) && R(k, v);
    var neg := Neg(t.T2d);
    m := Cached(t.YminusX, t.YplusX, t.Z, neg);
    MinusCached(t, neg, v);
    assert R(-k, Negate(v));
  }

  lemma MinusCached(t: Cached, neg: Fe, v: Pt)
    requires IsC(t, v) && Within(neg, B52) && Same(Val(neg), -Val(t.T2d))
    ensures IsC(Cached(t.YminusX, t.YplusX, t.Z, neg), Negate(v))
  {
    NegatedTwist(Val(t.T2d), Val(neg), v.t);
  }

  lemma NegatedTwist(x: int, neg: int, t: int)
    requires Same(x, 2 * D * t) && Same(neg, -x)
    ensures Same(neg, 2 * D * -t)
  {
    SameAdd(0, 0, x, 2 * D * t);
  }

  /** ge25519_select_cached: b times the base point, for any digit b. */
  method Select(pi: seq<Cached>, b: int, ghost R: (int, Pt) -> bool) returns (t: Cached)
    requires GroupLaw(R) && IsTable(R, pi) && -8 <= b <= 8
    ensures MultipleC(R, b, t)
  {
    var bnegative := Cmov25519.Negative(b);
    var babs := b - (if bnegative == 1 then b else 0) * 2;
    t := SelectAbs(pi, babs);
    assert MultipleC(R, babs, t) by {
      if babs == 0 {
        Zeros();
      }
    }
    var minust := Minus(t, R, babs);
    t := CmovCached(t, minust, bnegative);
  }

  // ----- the signed digits -----

  /** The value of digits in base 16, least significant first. */
  ghost function Radix(e: seq<int>): int {
    if e == [] then 0 else e[0] + 16 * Radix(e[1..])
  }

  ghost function ScalarValue(a: seq<u8>): int {
    if a == [] then 0 else a[0] as int + 256 * ScalarValue(a[1..])
  }

  lemma {:induction false} NibblesValue(a: seq<u8>, e: seq<int>)
    requires |e| == 2 * |a|
    requires forall i :: 0 <= i < |a| ==> e[2 * i] == a[i] % 16 && e[2 * i + 1] == a[i] / 16
    ensures Radix(e) == ScalarValue(a)
  {
    if a != [] {
      forall i | 0 <= i < |a| - 1 ensures e[2..][2 * i] == a[1..][i] % 16 && e[2..][2 * i + 1] == a[1..][i] / 16 {
        assert e[2 * (i + 1)] == a[i + 1] % 16;
      }
      NibblesValue(a[1..], e[2..]);
      assert e[1..][1..] == e[2..] && e[0] == e[2 * 0] && e[1] == e[2 * 0 + 1];
    }
  }

  /** Taking 16 c from a digit and giving c to the next one keeps the value. */
  lemma {:induction false} MoveCarry(e: seq<int>, i: nat, c: int)
    requires i + 1 < |e|
    ensures Radix(e[i := e[i] - 16 * c][i + 1 := e[i + 1] + c]) == Radix(e)
  {
    var f := e[i := e[i] - 16 * c][i + 1 := e[i + 1] + c];
    if i == 0 {
      assert f[1..][1..] == e[1..][1..];
    } else {
      MoveCarry(e[1..], i - 1, c);
      assert f[1..] == e[1..][i - 1 := e[i] - 16 * c][i := e[i + 1] + c];
    }
  }

  type i8 = x: int | -128 <= x < 128

  method Nibbles(a: seq<u8>, e: array<i8>)
    requires |a| == 32 && e.Length == 64
    modifies e
    ensures forall i :: 0 <= i < 32 ==> e[2 * i] == a[i] % 16 && e[2 * i + 1] == a[i] / 16
  {
    for i := 0 to 32
      invariant forall j :: 0 <= j < i ==> e[2 * j] == a[j] % 16 && e[2 * j + 1] == a[j] / 16
    {
      e[2 * i] := a[i] % 16;
      e[2 * i + 1] := a[i] / 16;
    }
  }

  /** The carry loop, in place: digits in [-8, 8], same value, all in signed bytes. */
  method Recode(e: array<i8>)
    requires e.Length == 64 && (forall i :: 0 <= i < 64 ==> 0 <= e[i] < 16) && e[63] < 8
    modifies e
    ensures forall i :: 0 <= i < 64 ==> -8 <= e[i] <= 8
    ensures Radix(e[..]) == old(Radix(e[..]))
  {
    ghost var total := Radix(e[..]);
    var carry: i8 := 0;
    var i := 0;
    assert e[..][0 := e[0] + carry] == e[..];
    while i < 63
      invariant 0 <= i <= 63 && 0 <= carry <= 1
      invariant forall j :: 0 <= j < i ==> -8 <= e[j] <= 8
      invariant forall j :: i <= j < 64 ==> 0 <= e[j] < 16
      invariant e[63] < 8
      invariant Radix(e[..][i := e[i] + carry]) == total
    {
      ghost var s := e[..][i := e[i] + carry];
      e[i] := e[i] + carry;
      carry := (e[i] + 8) / 16;
      e[i] := e[i] - carry * 16;
      MoveCarry(s, i, carry);
      assert s[i := s[i] - 16 * carry][i + 1 := s[i + 1] + carry] == e[..][i + 1 := e[i + 1] + carry];
      i := i + 1;
    }
    e[63] := e[63] + carry;
    assert e[..] == e[..][63 := e[63]];
  }

  /** Signed digits of a scalar below 2^255: in range, and worth the scalar. */
  method SignedDigits(a: seq<u8>) returns (e: array<i8>)
    requires |a| == 32 && a[31] <= 127
    ensures fresh(e) && e.Length == 64
    ensures forall i :: 0 <= i < 64 ==> -8 <= e[i] <= 8
    ensures Radix(e[..]) == ScalarValue(a)
  {
    e := new i8[64];
    Nibbles(a, e);
    NibblesValue(a, e[..]);
    forall i | 0 <= i < 64 ensures 0 <= e[i] < 16 {
      assert e[2 * (i / 2)] == a[i / 2] % 16;
    }
    assert e[2 * 31 + 1] == a[31] / 16;
    Recode(e);
  }

  /** One turn of the main loop: add a digit's multiple, then double four times. */
  method Turn(h: P3, t: Cached, ghost R: (int, Pt) -> bool, ghost m: int, ghost n: int) returns (q: P3)
    requires GroupLaw(R) && Multiple3(R, m, h) && MultipleC(R, n, t)
    ensures Multiple3(R, 16 * (m + n), q)
  {
    var s := PlusP2(h, t, R, m, n);
    s := Quadruple(s, R, m + n);
    s := TwiceP2(s, R, 4 * (m + n));
    q := TwiceP3(s, R, 8 * (m + n));
  }

  method Quadruple(p: P2, ghost R: (int, Pt) -> bool, ghost k: int) returns (q: P2)
    requires GroupLaw(R) && Multiple2(R, k, p)
    ensures Multiple2(R, 4 * k, q)
  {
    q := TwiceP2(p, R, k);
    q := TwiceP2(q, R, 2 * k);
  }

  /** ge25519_scalarmult: for any group law R on the curve, the result is a times the base point. */
  method ScalarMult(a: seq<u8>, p: P3, ghost R: (int, Pt) -> bool) returns (h: P3)
    requires |a| == 32 && a[31] <= 127
    requires GroupLaw(R) && Multiple3(R, 1, p)
    ensures Multiple3(R, ScalarValue(a), h)
  {
    var pi := Table(p, R);
    var e := SignedDigits(a);
    ghost var d: seq<int> := e[..];
    h := P3_ZERO;
    Zeros();
    var i := 63;
    assert d[64..] == [];
    while i != 0
      invariant 0 <= i <= 63 && e[..] == d
      invariant Multiple3(R, 16 * Radix(d[i + 1..]), h)
      decreases i
    {
      var t := Select(pi, e[i], R);
      assert d[i..][1..] == d[i + 1..] && d[i..][0] == e[i];
      h := Turn(h, t, R, 16 * Radix(d[i + 1..]), e[i]);
      i := i - 1;
    }
    var t := Select(pi, e[0], R);
    h := Plus(h, t, R, 16 * Radix(d[1..]), e[0]);
  }

  // ----- what needs no assumption -----

  /** Being on the curve is itself kept by every group operation. */
  lemma CurveIsKept(R: (int, Pt) -> bool)
    requires forall k, p :: R(k, p) <==> OnCurve(p)
    ensures GroupLaw(R)
  {
    assert OnCurve(IDENTITY);
    forall k, p, q | R(k, p) && PSame(p, q) ensures R(k, q) {
      PSameOnCurve(p, q);
    }
    forall k, c, i, p | R(k, p) && Inverse(c, i) ensures R(k, Scale(c, p)) {
      ScaleOnCurve(c, p);
    }
    forall m, n, p, q | R(m, p) && R(n, q) ensures R(m + n, Sum(p, q)) {
      SumOnCurve(p, q);
    }
    forall k, p | R(k, p) ensures R(-k, Negate(p)) {
      NegateOnCurve(p);
    }
  }

  /** ge25519_p3_tobytes: the y coordinate, with the parity of x in the top bit. */
  method EncodePoint(h: P3) returns (s: Canonical25519.Bytes32)
    requires Bounded3(h)
    ensures var recip := Power25519.Pow(Val(h.Z), P - 2);
            Canonical25519.Number(s) == Val(h.Y) * recip % P + Val(h.X) * recip % P % 2 * (P + 19)
  {
    var recip := Power25519.Invert(h.Z);
    ghost var r := Power25519.Pow(Val(h.Z), P - 2);
    var x := MulV(h.X, recip, Val(h.X), r);
    var y := MulV(h.Y, recip, Val(h.Y), r);
    SameIsRemainder(Val(x), Val(h.X) * r);
    SameIsRemainder(Val(y), Val(h.Y) * r);
    s := Canonical25519.ToBytes(y);
    var sign := Canonical25519.IsNegative(x);
    s := SetTop(s, sign);
  }

  method SetTop(s: Canonical25519.Bytes32, sign: int) returns (t: Canonical25519.Bytes32)
    requires Canonical25519.Number(s) < P && 0 <= sign <= 1
    ensures Canonical25519.Number(t) == Canonical25519.Number(s) + sign * (P + 19)
  {
    TopByte(s);
    t := s[31 := s[31] + 128 * sign];
    SameWord(s, t, 0);
    SameWord(s, t, 8);
    SameWord(s, t, 16);
    LastWord(s, t, sign);
  }

  lemma SameWord(s: Canonical25519.Bytes32, t: Canonical25519.Bytes32, i: nat)
    requires i <= 24 && forall j :: i <= j < i + 8 ==> s[j] == t[j]
    ensures Canonical25519.Word(s, i) == Canonical25519.Word(t, i)
  {
  }

  lemma LastWord(s: Canonical25519.Bytes32, t: Canonical25519.Bytes32, sign: int)
    requires t[31] == s[31] + 128 * sign && forall j :: 24 <= j < 31 ==> s[j] == t[j]
    ensures Canonical25519.Word(t, 24) == Canonical25519.Word(s, 24) + sign * 0x8000_0000_0000_0000
  {
  }

  lemma TopByte(s: Canonical25519.Bytes32)
    requires Canonical25519.Number(s) < P
    ensures s[31] < 128
  {
  }

  // ----- byte order -----

  lemma OneByte(s: seq<u8>, i: nat)
    requires i < |s|
    ensures ScalarValue(s[i..]) == s[i] as int + 256 * ScalarValue(s[i + 1..])
  {
    assert s[i..][1..] == s[i + 1..];
  }

  lemma EightBytes(s: seq<u8>, i: nat)
    requires i + 8 <= |s|
    ensures ScalarValue(s[i..]) == Canonical25519.Word(s, i) + 0x1_0000_0000_0000_0000 * ScalarValue(s[i + 8..])
  {
    OneByte(s, i);
    OneByte(s, i + 1);
    OneByte(s, i + 2);
    OneByte(s, i + 3);
    OneByte(s, i + 4);
    OneByte(s, i + 5);
    OneByte(s, i + 6);
    OneByte(s, i + 7);
  }

  /** The number that 32 bytes hold is the one their little-endian digits in base 256 spell. */
  lemma NumberIsLittleEndian(s: Canonical25519.Bytes32)
    ensures Canonical25519.Number(s) == ScalarValue(s)
  {
    assert s[0..] == s && s[32..] == [];
    EightBytes(s, 0);
    EightBytes(s, 8);
    EightBytes(s, 16);
    EightBytes(s, 24);
  }
}
