/**
  When the two regex engines (test/realworld/c/regex_match.c and
  test/realworld/rust/regex/src/main.rs) read a pattern alike: one scans from the left
  and knows escapes, the other scans from the right.
 */
module RegexAgreement {
  import opened Regex
  import opened RegexRust
  import RegexC

  // ----- the exact condition -----

  /** No backslash has a byte behind it that it could escape. */
  ghost predicate NoEscape(p: seq<byte>) {
    forall i :: 0 <= i < |p| - 1 ==> p[i] != RegexC.BACKSLASH
  }

  /** How many quantifiers stand directly before position e. */
  function RunLength(p: seq<byte>, e: nat): (n: nat)
    requires e <= |p|
    ensures n <= e
  {
    if e > 0 && IsQuantifier(p[e - 1]) then 1 + RunLength(p, e - 1) else 0
  }

  /** A run that starts the pattern has even length, any other has odd length. */
  predicate Fits(n: nat, e: nat) {
    n % 2 == if n == e then 0 else 1
  }

  predicate RunFits(p: seq<byte>, e: nat)
    requires e <= |p|
  {
    Fits(RunLength(p, e), e)
  }

  predicate EndsRun(p: seq<byte>, e: nat)
    requires 0 < e <= |p|
  {
    IsQuantifier(p[e - 1]) && (e == |p| || !IsQuantifier(p[e]))
  }

  ghost predicate RunsFit(p: seq<byte>) {
    forall e :: 0 < e <= |p| && EndsRun(p, e) ==> RunFits(p, e)
  }

  ghost predicate Exact(p: seq<byte>) {
    NoEscape(p) && RunsFit(p)
  }

  // ----- the last piece of the left-to-right scan -----

  /** Where the left-to-right scan starts its last token. */
  function LastStart(p: seq<byte>): (k: nat)
    requires p != []
    ensures k < |p|
  {
    var n := RegexC.TokenLength(p);
    if n == |p| then 0 else n + LastStart(p[n..])
  }

  lemma Head(p: seq<byte>)
    requires NoEscape(p) && p != []
    ensures RegexC.TokenLength(p) == if |p| > 1 && IsQuantifier(p[1]) then 2 else 1
    ensures RegexC.FirstToken(p) == TokenOf(p[0], if |p| > 1 then QuantifierOf(p[1]) else One)
  {
    assert |p| > 1 ==> p[0] != RegexC.BACKSLASH;
  }

  lemma NoEscapeSlice(p: seq<byte>, i: nat, j: nat)
    requires NoEscape(p) && i <= j <= |p|
    ensures NoEscape(p[i..j])
  {
    var t := p[i..j];
    forall k | 0 <= k < |t| - 1 ensures t[k] != RegexC.BACKSLASH {
      assert t[k] == p[i + k];
    }
  }

  function PieceToken(p: seq<byte>, k: nat): Token
    requires k < |p|
  {
    TokenOf(p[k], if k + 1 < |p| then QuantifierOf(p[k + 1]) else One)
  }

  lemma {:induction false} LastPiece(p: seq<byte>)
    requires NoEscape(p) && p != []
    ensures RegexC.Tokenize(p) == RegexC.Tokenize(p[..LastStart(p)]) + [PieceToken(p, LastStart(p))]
    decreases |p|
  {
    var n := RegexC.TokenLength(p);
    if n == |p| {
      Head(p);
      assert p[n..] == [] && p[..0] == [];
    } else {
      var rest := p[n..];
      assert rest == p[n..|p|];
      NoEscapeSlice(p, n, |p|);
      LastPiece(rest);
      var k := LastStart(rest);
      PrefixTokens(p, n, k);
      PieceOfTail(p, n, k);
      Around(RegexC.FirstToken(p), RegexC.Tokenize(rest[..k]), PieceToken(p, n + k));
    }
  }

  lemma {:induction false} LastIsShort(p: seq<byte>)
    requires NoEscape(p) && p != []
    ensures |p| - 2 <= LastStart(p) && (LastStart(p) == |p| - 2 ==> IsQuantifier(p[|p| - 1]))
    decreases |p|
  {
    Head(p);
    var n := RegexC.TokenLength(p);
    if n < |p| {
      assert p[n..] == p[n..|p|];
      NoEscapeSlice(p, n, |p|);
      LastIsShort(p[n..]);
    }
  }

  lemma PieceOfTail(p: seq<byte>, n: nat, k: nat)
    requires n + k < |p|
    ensures PieceToken(p[n..], k) == PieceToken(p, n + k)
  {
  }

  lemma PrefixTokens(p: seq<byte>, n: nat, k: nat)
    requires NoEscape(p) && p != [] && n == RegexC.TokenLength(p) && n + k < |p|
    ensures RegexC.Tokenize(p[..n + k]) == [RegexC.FirstToken(p)] + RegexC.Tokenize(p[n..][..k])
  {
    SameStart(p, n + k);
    assert p[..n + k][n..] == p[n..][..k];
  }

  lemma Around(a: Token, ts: seq<Token>, b: Token)
    ensures [a] + (ts + [b]) == [a] + ts + [b]
  {
  }

  /** Cutting the pattern behind its first token does not change that token. */
  lemma SameStart(p: seq<byte>, k: nat)
    requires NoEscape(p) && p != [] && RegexC.TokenLength(p) <= k < |p|
    ensures p[..k] != [] && RegexC.FirstToken(p[..k]) == RegexC.FirstToken(p)
    ensures RegexC.TokenLength(p[..k]) == RegexC.TokenLength(p)
  {
    assert p[..k] == p[0..k];
    NoEscapeSlice(p, 0, k);
    Head(p);
    Head(p[..k]);
    assert p[..k][0] == p[0] && (k > 1 ==> p[..k][1] == p[1]);
  }

  /** One more byte joins the last piece if it is a quantifier and the piece has none yet. */
  lemma {:induction false} StepRight(p: seq<byte>, x: byte)
    requires NoEscape(p + [x]) && p != []
    ensures LastStart(p + [x]) == if IsQuantifier(x) && LastStart(p) == |p| - 1 then |p| - 1 else |p|
    decreases |p|
  {
    var s := p + [x];
    assert s[..|p|] == p && s[0..|p|] == p;
    NoEscapeSlice(s, 0, |p|);
    Head(s);
    Head(p);
    assert s[0] == p[0] && s[1] == if |p| > 1 then p[1] else x;
    var n := RegexC.TokenLength(p);
    if n < |p| {
      assert s[n..] == p[n..] + [x] && s[n..] == s[n..|s|];
      NoEscapeSlice(s, n, |s|);
      StepRight(p[n..], x);
    } else if |p| == 2 || !IsQuantifier(x) {
      assert s[|p|..] == [x];
      assert RegexC.TokenLength([x]) == 1;
    }
  }

  // ----- runs of quantifiers -----

  lemma {:induction false} RunOfPrefix(p: seq<byte>, m: nat, e: nat)
    requires e <= m <= |p|
    ensures RunLength(p[..m], e) == RunLength(p, e)
    decreases e
  {
    if e > 0 {
      RunOfPrefix(p, m, e - 1);
    }
  }

  /** The last piece is a single byte exactly by the parity of the run that ends the pattern. */
  lemma {:induction false} SingleByParity(p: seq<byte>)
    requires NoEscape(p) && p != []
    ensures LastStart(p) == |p| - 1 <==> RunLength(p, |p|) == 0 || !RunFits(p, |p|)
    decreases |p|
  {
    if |p| == 1 {
      assert RunLength(p, 0) == 0;
    } else {
      var m := |p| - 1;
      SingleStep(p);
      SingleByParity(p[..m]);
      RunStep(p);
      ParityStep(RunLength(p[..m], m), m);
    }
  }

  lemma SingleStep(p: seq<byte>)
    requires NoEscape(p) && |p| > 1
    ensures var q := p[..|p| - 1];
      NoEscape(q) && (LastStart(p) == |p| - 1 <==> !IsQuantifier(p[|p| - 1]) || LastStart(q) != |q| - 1)
  {
    var m := |p| - 1;
    var q := p[..m];
    assert p == q + [p[m]] && q == p[0..m];
    StepRight(q, p[m]);
    NoEscapeSlice(p, 0, m);
  }

  lemma RunStep(p: seq<byte>)
    requires p != []
    ensures var m := |p| - 1;
      RunLength(p, |p|) == if IsQuantifier(p[m]) then RunLength(p[..m], m) + 1 else 0
  {
    RunOfPrefix(p, |p| - 1, |p| - 1);
  }

  lemma ParityStep(r: nat, m: nat)
    requires r <= m && m > 0
    ensures Fits(r + 1, m + 1) <==> r == 0 || !Fits(r, m)
  {
  }

  lemma RunsWithoutLast(p: seq<byte>)
    requires p != [] && !IsQuantifier(p[|p| - 1])
    ensures RunsFit(p) <==> RunsFit(p[..|p| - 1])
  {
    var m := |p| - 1;
    forall e | 0 < e <= m ensures EndsRun(p, e) == EndsRun(p[..m], e) && RunFits(p, e) == RunFits(p[..m], e) {
      RunOfPrefix(p, m, e);
    }
    assert !EndsRun(p, |p|);
  }

  lemma RunsWithoutTwo(p: seq<byte>)
    requires |p| >= 2 && IsQuantifier(p[|p| - 1])
    ensures RunsFit(p) <==> RunFits(p, |p|) && RunsFit(p[..|p| - 2])
  {
    var m := |p| - 2;
    var q := p[..m];
    assert EndsRun(p, |p|);
    forall e | 0 < e <= m ensures RunFits(p, e) == RunFits(q, e) {
      RunOfPrefix(p, m, e);
    }
    forall e | 0 < e < m ensures EndsRun(p, e) == EndsRun(q, e) {
    }
    if m > 0 && IsQuantifier(p[m - 1]) {
      TwoLess(p);
    }
    if RunsFit(p) {
      forall e | 0 < e <= m && EndsRun(q, e) ensures RunFits(q, e) {
        if e < m {
          assert EndsRun(p, e);
        }
      }
    }
    if RunFits(p, |p|) && RunsFit(q) {
      forall e | 0 < e <= |p| && EndsRun(p, e) ensures RunFits(p, e) {
        if e < m {
          assert EndsRun(q, e);
        } else if e == m {
          assert EndsRun(q, e);
        }
      }
    }
  }

  /** Two quantifiers less at the end: the run keeps its parity, or ends where an inner run ended. */
  lemma TwoLess(p: seq<byte>)
    requires |p| > 2 && IsQuantifier(p[|p| - 1]) && IsQuantifier(p[|p| - 3])
    ensures if IsQuantifier(p[|p| - 2]) then RunFits(p, |p|) == RunFits(p, |p| - 2) else EndsRun(p, |p| - 2)
  {
    if IsQuantifier(p[|p| - 2]) {
      assert RunLength(p, |p|) == 1 + RunLength(p, |p| - 1);
      assert RunLength(p, |p| - 1) == 1 + RunLength(p, |p| - 2);
    }
  }

  // ----- patterns without escapes -----

  lemma {:induction false} SameUnescaped(p: seq<byte>)
    requires NoEscape(p)
    ensures TokensFromRight(p) == RegexC.Tokenize(p) <==> RunsFit(p)
    decreases |p|
  {
    var n := |p|;
    if n > 0 && !IsQuantifier(p[n - 1]) {
      assert p[..n - 1] == p[0..n - 1];
      NoEscapeSlice(p, 0, n - 1);
      SameUnescaped(p[..n - 1]);
      EndsWithOne(p);
    } else if n == 1 {
      LoneQuantifier(p);
    } else if n > 1 {
      assert p[..n - 2] == p[0..n - 2];
      NoEscapeSlice(p, 0, n - 2);
      SameUnescaped(p[..n - 2]);
      EndsWithTwo(p);
    }
  }

  lemma EndsWithOne(p: seq<byte>)
    requires NoEscape(p) && p != [] && !IsQuantifier(p[|p| - 1])
    ensures RunsFit(p) <==> RunsFit(p[..|p| - 1])
    ensures TokensFromRight(p) == RegexC.Tokenize(p) <==> TokensFromRight(p[..|p| - 1]) == RegexC.Tokenize(p[..|p| - 1])
  {
    var n, last := |p|, p[|p| - 1];
    LastPiece(p);
    SingleByParity(p);
    assert RunLength(p, n) == 0;
    RunsWithoutLast(p);
    FromRightUnfolds(p);
    SameEnds(TokensFromRight(p[..n - 1]), RegexC.Tokenize(p[..n - 1]), TokenOf(last, One), TokenOf(last, One));
  }

  lemma EndsWithTwo(p: seq<byte>)
    requires NoEscape(p) && |p| > 1 && IsQuantifier(p[|p| - 1])
    ensures RunsFit(p) <==> RunFits(p, |p|) && RunsFit(p[..|p| - 2])
    ensures TokensFromRight(p) == RegexC.Tokenize(p)
       <==> RunFits(p, |p|) && TokensFromRight(p[..|p| - 2]) == RegexC.Tokenize(p[..|p| - 2])
  {
    var n, last := |p|, p[|p| - 1];
    LastPiece(p);
    LastIsShort(p);
    SingleByParity(p);
    RunStep(p);
    RunsWithoutTwo(p);
    FromRightUnfolds(p);
    SameEnds(TokensFromRight(p[..n - 2]), RegexC.Tokenize(p[..LastStart(p)]),
             TokenOf(p[n - 2], QuantifierOf(last)), PieceToken(p, LastStart(p)));
  }

  lemma LoneQuantifier(p: seq<byte>)
    requires |p| == 1 && IsQuantifier(p[0])
    ensures TokensFromRight(p) == [] && RegexC.Tokenize(p) != [] && !RunsFit(p)
  {
    assert RunLength(p, 0) == 0 && RunLength(p, 1) == 1;
    assert EndsRun(p, 1) && !RunFits(p, 1);
  }

  lemma SameEnds(a: seq<Token>, b: seq<Token>, s: Token, t: Token)
    ensures a + [s] == b + [t] <==> a == b && s == t
  {
    if a + [s] == b + [t] {
      assert (a + [s])[..|a|] == a && (b + [t])[..|b|] == b;
      assert (a + [s])[|a|] == s && (b + [t])[|b|] == t;
    }
  }

  // ----- patterns with escapes -----

  function QuantifierBytes(q: Quantifier): seq<byte> {
    match q
    case One => []
    case Star => [RegexC.STAR]
    case Plus => [RegexC.PLUS]
    case Optional => [RegexC.QUESTION]
  }

  /** A token written without a backslash. */
  function Flat(t: Token): seq<byte> {
    [if t.any then RegexC.DOT else t.ch] + QuantifierBytes(t.quantifier)
  }

  function FlatAll(ts: seq<Token>): seq<byte> {
    if ts == [] then [] else Flat(ts[0]) + FlatAll(ts[1..])
  }

  lemma {:induction false} FlatMore(ts: seq<Token>, t: Token)
    ensures FlatAll(ts + [t]) == FlatAll(ts) + Flat(t)
  {
    if ts == [] {
      assert [t][1..] == [];
    } else {
      assert (ts + [t])[1..] == ts[1..] + [t];
      FlatMore(ts[1..], t);
    }
  }

  /** f is p, except for a leading quantifier that may be missing. */
  ghost predicate Keeps(p: seq<byte>, f: seq<byte>) {
    f == p || (p != [] && IsQuantifier(p[0]) && f == p[1..])
  }

  lemma KeepsEnd(p: seq<byte>, k: nat, f: seq<byte>, w: seq<byte>)
    requires k < |p| && w == p[k..] && Keeps(p[..k], f)
    ensures Keeps(p, f + w)
  {
    assert p == p[..k] + w;
    if f != p[..k] {
      assert p[..k][1..] + w == p[1..];
    }
  }

  lemma FlatOf(c: byte, x: byte)
    ensures Flat(TokenOf(c, One)) == [c]
    ensures IsQuantifier(x) ==> Flat(TokenOf(c, QuantifierOf(x))) == [c, x]
  {
  }

  lemma FromRightUnfolds(p: seq<byte>)
    ensures var n := |p|;
      && (n > 0 && !IsQuantifier(p[n - 1]) ==> TokensFromRight(p) == TokensFromRight(p[..n - 1]) + [TokenOf(p[n - 1], One)])
      && (n > 1 && IsQuantifier(p[n - 1]) ==>
            TokensFromRight(p) == TokensFromRight(p[..n - 2]) + [TokenOf(p[n - 2], QuantifierOf(p[n - 1]))])
  {
  }

  /** The right-to-left scan keeps every byte, except a leading quantifier that it drops. */
  lemma {:induction false} FlatFromRight(p: seq<byte>)
    ensures Keeps(p, FlatAll(TokensFromRight(p)))
    decreases |p|
  {
    var n := |p|;
    FromRightUnfolds(p);
    if n > 0 && !IsQuantifier(p[n - 1]) {
      FlatFromRight(p[..n - 1]);
      FlatMore(TokensFromRight(p[..n - 1]), TokenOf(p[n - 1], One));
      FlatOf(p[n - 1], 0);
      KeepsEnd(p, n - 1, FlatAll(TokensFromRight(p[..n - 1])), [p[n - 1]]);
    } else if n > 1 {
      FlatFromRight(p[..n - 2]);
      FlatMore(TokensFromRight(p[..n - 2]), TokenOf(p[n - 2], QuantifierOf(p[n - 1])));
      FlatOf(p[n - 2], p[n - 1]);
      KeepsEnd(p, n - 2, FlatAll(TokensFromRight(p[..n - 2])), [p[n - 2], p[n - 1]]);
    }
  }

  /** The left-to-right scan keeps every byte but the backslashes that escape one. */
  lemma {:induction false} FlatLength(p: seq<byte>)
    ensures |FlatAll(RegexC.Tokenize(p))| <= |p|
    ensures !NoEscape(p) ==> |FlatAll(RegexC.Tokenize(p))| < |p|
    decreases |p|
  {
    if p != [] {
      FlatLength(p[RegexC.TokenLength(p)..]);
      HeadLength(p);
      if RegexC.AtomLength(p) == 1 && !NoEscape(p) {
        EscapeLater(p);
      }
    }
  }

  lemma HeadLength(p: seq<byte>)
    requires p != []
    ensures |Flat(RegexC.FirstToken(p))| + RegexC.AtomLength(p) == RegexC.TokenLength(p) + 1
    ensures |FlatAll(RegexC.Tokenize(p))|
         == |Flat(RegexC.FirstToken(p))| + |FlatAll(RegexC.Tokenize(p[RegexC.TokenLength(p)..]))|
  {
    var rest := RegexC.Tokenize(p[RegexC.TokenLength(p)..]);
    assert RegexC.Tokenize(p)[1..] == rest;
  }

  lemma EscapeLater(p: seq<byte>)
    requires p != [] && RegexC.AtomLength(p) == 1 && !NoEscape(p)
    ensures !NoEscape(p[RegexC.TokenLength(p)..])
  {
    var n := RegexC.TokenLength(p);
    var i :| 0 <= i < |p| - 1 && p[i] == RegexC.BACKSLASH;
    assert i >= n && p[n..][i - n] == RegexC.BACKSLASH;
  }

  lemma {:induction false} FlatPrefix(p: seq<byte>, b: nat)
    requires b < |p| && p[b] == RegexC.BACKSLASH && forall i :: 0 <= i < b ==> p[i] != RegexC.BACKSLASH
    ensures b <= |FlatAll(RegexC.Tokenize(p))| && FlatAll(RegexC.Tokenize(p))[..b] == p[..b]
    decreases |p|
  {
    if b > 0 {
      var n := RegexC.TokenLength(p);
      FlatHead(p);
      assert n <= b;
      FlatPrefix(p[n..], b - n);
      Glue(p, n, b, FlatAll(RegexC.Tokenize(p[n..])));
    }
  }

  lemma Glue(p: seq<byte>, n: nat, b: nat, f: seq<byte>)
    requires n <= b <= |p| && b - n <= |f| && f[..b - n] == p[n..][..b - n]
    ensures (p[..n] + f)[..b] == p[..b]
  {
    assert (p[..n] + f)[..b] == p[..n] + f[..b - n];
    assert p[..n] + p[n..][..b - n] == p[..b];
  }

  lemma FlatHead(p: seq<byte>)
    requires p != [] && p[0] != RegexC.BACKSLASH
    ensures var n := RegexC.TokenLength(p);
      FlatAll(RegexC.Tokenize(p)) == p[..n] + FlatAll(RegexC.Tokenize(p[n..])) && (n == 2 ==> IsQuantifier(p[1])) && n <= 2
  {
    var n := RegexC.TokenLength(p);
    FlatFirst(p);
    assert RegexC.Tokenize(p)[1..] == RegexC.Tokenize(p[n..]);
  }

  lemma FlatFirst(p: seq<byte>)
    requires p != [] && p[0] != RegexC.BACKSLASH
    ensures Flat(RegexC.FirstToken(p)) == p[..RegexC.TokenLength(p)]
  {
  }

  lemma {:induction false} ShiftedIsConstant(p: seq<byte>, b: nat)
    requires b < |p| && forall i :: 0 <= i < b ==> p[i] == p[i + 1]
    ensures p[b] == p[0]
  {
    if b > 0 {
      ShiftedIsConstant(p, b - 1);
    }
  }

  lemma FirstBackslash(p: seq<byte>) returns (b: nat)
    requires !NoEscape(p)
    ensures b < |p| - 1 && p[b] == RegexC.BACKSLASH && forall i :: 0 <= i < b ==> p[i] != RegexC.BACKSLASH
  {
    b := 0;
    while p[b] != RegexC.BACKSLASH
      invariant b < |p| - 1 && forall i :: 0 <= i < b ==> p[i] != RegexC.BACKSLASH
      decreases |p| - b
    {
      b := b + 1;
    }
  }

  lemma EscapesDiffer(p: seq<byte>)
    requires !NoEscape(p)
    ensures TokensFromRight(p) != RegexC.Tokenize(p)
  {
    var f := FlatAll(RegexC.Tokenize(p));
    FlatFromRight(p);
    FlatLength(p);
    if f == p[1..] && IsQuantifier(p[0]) {
      var b := FirstBackslash(p);
      FlatPrefix(p, b);
      forall i | 0 <= i < b ensures p[i] == p[i + 1] {
        assert f[..b][i] == p[..b][i] && f[i] == p[1..][i];
      }
      ShiftedIsConstant(p, b);
    }
  }

  // ----- the engines -----

  /** Both compilers see the same tokens exactly when no backslash escapes and every run of quantifiers fits. */
  lemma SameTokens(p: seq<byte>)
    ensures TokensFromRight(p) == RegexC.Tokenize(p) <==> Exact(p)
  {
    if NoEscape(p) {
      SameUnescaped(p);
    } else {
      EscapesDiffer(p);
    }
  }

  /** No backslash, no leading quantifier, no doubled quantifier. */
  ghost predicate Plain(p: seq<byte>) {
    && RegexC.BACKSLASH !in p
    && (p != [] ==> !IsQuantifier(p[0]))
    && forall i, j :: 0 <= i < j < |p| && j == i + 1 ==> !(IsQuantifier(p[i]) && IsQuantifier(p[j]))
  }

  lemma PlainIsExact(p: seq<byte>)
    requires Plain(p)
    ensures Exact(p)
  {
    forall e | 0 < e <= |p| && EndsRun(p, e) ensures RunFits(p, e) {
      assert e > 1 && !IsQuantifier(p[e - 2]);
      assert RunLength(p, e - 1) == 0;
    }
  }

  /** Outside the condition the engines can differ: a lone `*` is a literal for one and nothing for the other. */
  lemma EnginesCanDiffer()
    ensures InLanguage(RegexC.Tokenize([RegexC.STAR]), [RegexC.STAR])
    ensures !InLanguage(TokensFromRight([RegexC.STAR]), [RegexC.STAR])
  {
    var p := [RegexC.STAR];
    var ts := RegexC.Tokenize(p);
    assert RegexC.TokenLength(p) == 1 && p[1..] == [];
    assert RegexC.Tokenize(p[1..]) == [];
    assert RegexC.FirstToken(p) == Token(false, RegexC.STAR, One);
    assert ts == [Token(false, RegexC.STAR, One)];
    assert Repeats(ts[0], p, 1) && InLanguage(ts[1..], p[1..]);
  }

  /** On exact patterns and NUL-free texts the two engines give the same answer. */
  method BothEngines(e: RegexC.Engine, nfa: Nfa, pattern: seq<byte>, text: seq<byte>) returns (c: bool, r: bool)
    requires e.Valid() && nfa.Valid() && Exact(pattern) && 0 !in pattern && 0 !in text
    requires |LayOut(RegexC.Tokenize(pattern), 0).tab| <= MAX_STATES
    modifies e, e.states, nfa, nfa.states
    ensures e.Valid() && nfa.Valid() && c == r
  {
    SameTokens(pattern);
    SameSize(RegexC.Tokenize(pattern), 0, -1);
    c := RegexC.MatchPattern(e, pattern, text);
    r := MatchPattern(nfa, pattern, text);
  }

  lemma {:induction false} SameSize(ts: seq<Token>, none: int, none': int)
    ensures |LayOut(ts, none).tab| == |LayOut(ts, none').tab|
  {
    if ts != [] {
      SameSize(ts[1..], none, none');
    }
  }
}
