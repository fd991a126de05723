/**
  What each character of a pattern means to the two regex engines
  (test/realworld/c/regex_match.c and test/realworld/rust/regex/src/main.rs), told with
  the characters themselves and the texts that match.
 */
module RegexPatterns {
  import opened Regex
  import RegexC
  import RegexRust

  predicate IsQuantifierChar(c: byte) {
    c == '*' as int || c == '+' as int || c == '?' as int
  }

  /** A character that stands for itself. */
  predicate PlainByte(c: byte) {
    !IsQuantifierChar(c) && c != '.' as int && c != '\\' as int
  }

  /** The first k bytes of s are all c. */
  ghost predicate AllAre(s: seq<byte>, k: int, c: byte) {
    0 <= k <= |s| && forall j :: 0 <= j < k ==> s[j] == c
  }

  // ----- the C engine, from the left -----

  /** A text matches the tokens of a pattern that starts with the token t and goes on with rest. */
  ghost predicate StartsWith(t: Token, rest: seq<byte>, s: seq<byte>) {
    exists k :: Repeats(t, s, k) && Allowed(t.quantifier, k) && InLanguage(RegexC.Tokenize(rest), s[k..])
  }

  lemma FirstPiece(w: seq<byte>, rest: seq<byte>, t: Token, s: seq<byte>)
    requires w != [] && RegexC.FirstToken(w + rest) == t && RegexC.TokenLength(w + rest) == |w|
    ensures InLanguage(RegexC.Tokenize(w + rest), s) <==> StartsWith(t, rest, s)
  {
    var ts := RegexC.Tokenize(w + rest);
    assert (w + rest)[|w|..] == rest;
    assert ts[0] == t && ts[1..] == RegexC.Tokenize(rest);
  }

  lemma PieceWithQuantifier(c: byte, q: byte, rest: seq<byte>, quantifier: Quantifier)
    requires c != '\\' as int
    requires (q == '*' as int && quantifier == Star) || (q == '+' as int && quantifier == Plus)
             || (q == '?' as int && quantifier == Optional)
    ensures RegexC.FirstToken([c, q] + rest) == RegexRust.TokenOf(c, quantifier) && RegexC.TokenLength([c, q] + rest) == 2
  {
    var p := [c, q] + rest;
    assert p[0] == c && p[1] == q;
  }

  lemma PieceAlone(c: byte, rest: seq<byte>)
    requires c != '\\' as int && (rest != [] ==> !IsQuantifierChar(rest[0]))
    ensures RegexC.FirstToken([c] + rest) == RegexRust.TokenOf(c, One) && RegexC.TokenLength([c] + rest) == 1
  {
    var p := [c] + rest;
    assert p[0] == c && (rest != [] ==> p[1] == rest[0]);
  }

  /** "c*": any number of c, then the rest. */
  lemma StarMeans(c: byte, rest: seq<byte>, s: seq<byte>)
    requires PlainByte(c)
    ensures InLanguage(RegexC.Tokenize([c, '*' as int] + rest), s)
       <==> exists k :: AllAre(s, k, c) && InLanguage(RegexC.Tokenize(rest), s[k..])
  {
    PieceWithQuantifier(c, '*' as int, rest, Star);
    FirstPiece([c, '*' as int], rest, RegexRust.TokenOf(c, Star), s);
    CountsAre(c, Star, rest, s);
  }

  /** "c+": one or more c, then the rest. */
  lemma PlusMeans(c: byte, rest: seq<byte>, s: seq<byte>)
    requires PlainByte(c)
    ensures InLanguage(RegexC.Tokenize([c, '+' as int] + rest), s)
       <==> exists k :: AllAre(s, k, c) && k >= 1 && InLanguage(RegexC.Tokenize(rest), s[k..])
  {
    PieceWithQuantifier(c, '+' as int, rest, Plus);
    FirstPiece([c, '+' as int], rest, RegexRust.TokenOf(c, Plus), s);
    CountsAre(c, Plus, rest, s);
  }

  /** "c?": c or nothing, then the rest. */
  lemma OptionalMeans(c: byte, rest: seq<byte>, s: seq<byte>)
    requires PlainByte(c)
    ensures InLanguage(RegexC.Tokenize([c, '?' as int] + rest), s)
       <==> exists k :: AllAre(s, k, c) && k <= 1 && InLanguage(RegexC.Tokenize(rest), s[k..])
  {
    PieceWithQuantifier(c, '?' as int, rest, Optional);
    FirstPiece([c, '?' as int], rest, RegexRust.TokenOf(c, Optional), s);
    CountsAre(c, Optional, rest, s);
  }

  /** A token of a plain byte repeats that byte. */
  lemma CountsAre(c: byte, q: Quantifier, rest: seq<byte>, s: seq<byte>)
    requires PlainByte(c)
    ensures StartsWith(RegexRust.TokenOf(c, q), rest, s)
       <==> exists k :: AllAre(s, k, c) && Allowed(q, k) && InLanguage(RegexC.Tokenize(rest), s[k..])
  {
    var t := RegexRust.TokenOf(c, q);
    forall k ensures Repeats(t, s, k) <==> AllAre(s, k, c) {
    }
    if StartsWith(t, rest, s) {
      var k :| Repeats(t, s, k) && Allowed(q, k) && InLanguage(RegexC.Tokenize(rest), s[k..]);
      assert AllAre(s, k, c);
    }
    if exists k :: AllAre(s, k, c) && Allowed(q, k) && InLanguage(RegexC.Tokenize(rest), s[k..]) {
      var k :| AllAre(s, k, c) && Allowed(q, k) && InLanguage(RegexC.Tokenize(rest), s[k..]);
      assert Repeats(t, s, k);
    }
  }

  /** A single byte that t fits, then the rest. */
  lemma OneMeans(t: Token, rest: seq<byte>, s: seq<byte>)
    requires t.quantifier == One
    ensures StartsWith(t, rest, s) <==> s != [] && Fits(t, s[0]) && InLanguage(RegexC.Tokenize(rest), s[1..])
  {
    if s != [] && Fits(t, s[0]) && InLanguage(RegexC.Tokenize(rest), s[1..]) {
      assert Repeats(t, s, 1);
    }
  }

  /** "c" itself, if no quantifier follows. */
  lemma PlainMeans(c: byte, rest: seq<byte>, s: seq<byte>)
    requires PlainByte(c) && (rest != [] ==> !IsQuantifierChar(rest[0]))
    ensures InLanguage(RegexC.Tokenize([c] + rest), s)
       <==> s != [] && s[0] == c && InLanguage(RegexC.Tokenize(rest), s[1..])
  {
    PieceAlone(c, rest);
    FirstPiece([c], rest, RegexRust.TokenOf(c, One), s);
    OneMeans(RegexRust.TokenOf(c, One), rest, s);
  }

  /** ".": any byte. */
  lemma DotMeans(rest: seq<byte>, s: seq<byte>)
    requires rest != [] ==> !IsQuantifierChar(rest[0])
    ensures InLanguage(RegexC.Tokenize(['.' as int] + rest), s) <==> s != [] && InLanguage(RegexC.Tokenize(rest), s[1..])
  {
    PieceAlone('.' as int, rest);
    FirstPiece(['.' as int], rest, RegexRust.TokenOf('.' as int, One), s);
    OneMeans(RegexRust.TokenOf('.' as int, One), rest, s);
  }

  /** A backslash makes any byte stand for itself. */
  lemma EscapeMeans(c: byte, rest: seq<byte>, s: seq<byte>)
    requires rest != [] ==> !IsQuantifierChar(rest[0])
    ensures InLanguage(RegexC.Tokenize(['\\' as int, c] + rest), s)
       <==> s != [] && s[0] == c && InLanguage(RegexC.Tokenize(rest), s[1..])
  {
    var p := ['\\' as int, c] + rest;
    assert p[0] == '\\' as int && p[1] == c && (rest != [] ==> p[2] == rest[0]);
    FirstPiece(['\\' as int, c], rest, Token(false, c, One), s);
    OneMeans(Token(false, c, One), rest, s);
  }

  // ----- the Rust engine, from the right -----

  /** A text matches ts and then t exactly when some end of it matches t. */
  ghost predicate EndsWith(ts: seq<Token>, t: Token, s: seq<byte>) {
    exists k :: 0 <= k <= |s| && Ends(ts, t, s, k)
  }

  ghost predicate Ends(ts: seq<Token>, t: Token, s: seq<byte>, k: nat)
    requires k <= |s|
  {
    InLanguage(ts, s[..k]) && Repeats(t, s[k..], |s| - k) && Allowed(t.quantifier, |s| - k)
  }

  lemma {:induction false} LastToken(ts: seq<Token>, t: Token, s: seq<byte>)
    ensures InLanguage(ts + [t], s) <==> EndsWith(ts, t, s)
    decreases |ts|
  {
    if ts == [] {
      LastOnly(t, s);
    } else {
      var u, more := ts[0], ts[1..];
      assert (ts + [t])[0] == u && (ts + [t])[1..] == more + [t];
      if InLanguage(ts + [t], s) {
        var j :| Repeats(u, s, j) && Allowed(u.quantifier, j) && InLanguage(more + [t], s[j..]);
        LastToken(more, t, s[j..]);
        var k :| 0 <= k <= |s[j..]| && Ends(more, t, s[j..], k);
        Later(ts, t, s, j, k);
      }
      if EndsWith(ts, t, s) {
        var k :| 0 <= k <= |s| && Ends(ts, t, s, k);
        var j :| Repeats(u, s[..k], j) && Allowed(u.quantifier, j) && InLanguage(more, s[..k][j..]);
        Earlier(more, t, s, j, k);
        LastToken(more, t, s[j..]);
        Repeated(u, s, j, k);
      }
    }
  }

  lemma LastOnly(t: Token, s: seq<byte>)
    ensures InLanguage([t], s) <==> EndsWith([], t, s)
  {
    assert [t][1..] == [];
    if InLanguage([t], s) {
      var j :| Repeats(t, s, j) && Allowed(t.quantifier, j) && InLanguage([], s[j..]);
      assert s[0..] == s && s[..0] == [];
      assert Ends([], t, s, 0);
    }
    if EndsWith([], t, s) {
      var k :| 0 <= k <= |s| && Ends([], t, s, k);
      assert s[..k] == [] && s[k..] == s;
      assert s[|s|..] == [];
    }
  }

  lemma Later(ts: seq<Token>, t: Token, s: seq<byte>, j: nat, k: nat)
    requires ts != [] && j <= |s| && k <= |s[j..]|
    requires Repeats(ts[0], s, j) && Allowed(ts[0].quantifier, j) && Ends(ts[1..], t, s[j..], k)
    ensures EndsWith(ts, t, s)
  {
    var head := s[..j + k];
    assert head[j..] == s[j..][..k] && s[j + k..] == s[j..][k..];
    assert Repeats(ts[0], head, j);
    assert InLanguage(ts, head);
    assert Ends(ts, t, s, j + k);
  }

  lemma Earlier(more: seq<Token>, t: Token, s: seq<byte>, j: nat, k: nat)
    requires j <= k <= |s| && InLanguage(more, s[..k][j..])
    requires Repeats(t, s[k..], |s| - k) && Allowed(t.quantifier, |s| - k)
    ensures EndsWith(more, t, s[j..])
  {
    var r := s[j..];
    assert r[..k - j] == s[..k][j..] && r[k - j..] == s[k..];
    assert Ends(more, t, r, k - j);
  }

  lemma Repeated(u: Token, s: seq<byte>, j: nat, k: nat)
    requires k <= |s| && Repeats(u, s[..k], j)
    ensures Repeats(u, s, j)
  {
    forall i | 0 <= i < j ensures Fits(u, s[i]) {
      assert s[..k][i] == s[i];
    }
  }

  /** s from k on is nothing but c. */
  ghost predicate OnlyFrom(s: seq<byte>, k: int, c: byte) {
    0 <= k <= |s| && forall j :: k <= j < |s| ==> s[j] == c
  }

  lemma EndOfPlain(ts: seq<Token>, c: byte, q: Quantifier, s: seq<byte>)
    requires PlainByte(c)
    ensures EndsWith(ts, RegexRust.TokenOf(c, q), s)
       <==> exists k :: OnlyFrom(s, k, c) && Allowed(q, |s| - k) && InLanguage(ts, s[..k])
  {
    var t := RegexRust.TokenOf(c, q);
    if EndsWith(ts, t, s) {
      var k :| 0 <= k <= |s| && Ends(ts, t, s, k);
      forall j | k <= j < |s| ensures s[j] == c {
        assert Fits(t, s[k..][j - k]);
      }
      assert OnlyFrom(s, k, c);
    }
    if exists k :: OnlyFrom(s, k, c) && Allowed(q, |s| - k) && InLanguage(ts, s[..k]) {
      var k :| OnlyFrom(s, k, c) && Allowed(q, |s| - k) && InLanguage(ts, s[..k]);
      assert Ends(ts, t, s, k);
    }
  }

  lemma LastPiece(p: seq<byte>, c: byte, q: byte)
    ensures q == '*' as int ==>
      RegexRust.TokensFromRight(p + [c, q]) == RegexRust.TokensFromRight(p) + [RegexRust.TokenOf(c, Star)]
    ensures q == '+' as int ==>
      RegexRust.TokensFromRight(p + [c, q]) == RegexRust.TokensFromRight(p) + [RegexRust.TokenOf(c, Plus)]
    ensures q == '?' as int ==>
      RegexRust.TokensFromRight(p + [c, q]) == RegexRust.TokensFromRight(p) + [RegexRust.TokenOf(c, Optional)]
  {
    var w := p + [c, q];
    assert w[..|w| - 2] == p && w[|w| - 2] == c && w[|w| - 1] == q;
  }

  lemma LastAlone(p: seq<byte>, c: byte)
    requires !IsQuantifierChar(c)
    ensures RegexRust.TokensFromRight(p + [c]) == RegexRust.TokensFromRight(p) + [RegexRust.TokenOf(c, One)]
  {
    var w := p + [c];
    assert w[..|w| - 1] == p && w[|w| - 1] == c;
  }

  /** "c*" at the end: the text ends with any number of c. */
  lemma StarEnds(p: seq<byte>, c: byte, s: seq<byte>)
    requires PlainByte(c)
    ensures InLanguage(RegexRust.TokensFromRight(p + [c, '*' as int]), s)
       <==> exists k :: OnlyFrom(s, k, c) && InLanguage(RegexRust.TokensFromRight(p), s[..k])
  {
    LastPiece(p, c, '*' as int);
    LastToken(RegexRust.TokensFromRight(p), RegexRust.TokenOf(c, Star), s);
    EndOfPlain(RegexRust.TokensFromRight(p), c, Star, s);
  }

  /** "c+" at the end: the text ends with one or more c. */
  lemma PlusEnds(p: seq<byte>, c: byte, s: seq<byte>)
    requires PlainByte(c)
    ensures InLanguage(RegexRust.TokensFromRight(p + [c, '+' as int]), s)
       <==> exists k :: OnlyFrom(s, k, c) && k < |s| && InLanguage(RegexRust.TokensFromRight(p), s[..k])
  {
    LastPiece(p, c, '+' as int);
    LastToken(RegexRust.TokensFromRight(p), RegexRust.TokenOf(c, Plus), s);
    EndOfPlain(RegexRust.TokensFromRight(p), c, Plus, s);
  }

  /** "c?" at the end: the text ends with c or not. */
  lemma OptionalEnds(p: seq<byte>, c: byte, s: seq<byte>)
    requires PlainByte(c)
    ensures InLanguage(RegexRust.TokensFromRight(p + [c, '?' as int]), s)
       <==> exists k :: OnlyFrom(s, k, c) && k >= |s| - 1 && InLanguage(RegexRust.TokensFromRight(p), s[..k])
  {
    LastPiece(p, c, '?' as int);
    LastToken(RegexRust.TokensFromRight(p), RegexRust.TokenOf(c, Optional), s);
    EndOfPlain(RegexRust.TokensFromRight(p), c, Optional, s);
  }

  lemma OneEnds(ts: seq<Token>, t: Token, s: seq<byte>)
    requires t.quantifier == One
    ensures EndsWith(ts, t, s) <==> s != [] && Fits(t, s[|s| - 1]) && InLanguage(ts, s[..|s| - 1])
  {
    if EndsWith(ts, t, s) {
      var k :| 0 <= k <= |s| && Ends(ts, t, s, k);
      assert Fits(t, s[k..][0]);
    }
    if s != [] && Fits(t, s[|s| - 1]) && InLanguage(ts, s[..|s| - 1]) {
      assert Ends(ts, t, s, |s| - 1);
    }
  }

  /** "c" or a backslash at the end stands for itself, "." for any byte. */
  lemma ByteEnds(p: seq<byte>, c: byte, s: seq<byte>)
    requires !IsQuantifierChar(c)
    ensures InLanguage(RegexRust.TokensFromRight(p + [c]), s)
       <==> s != [] && (c == '.' as int || s[|s| - 1] == c) && InLanguage(RegexRust.TokensFromRight(p), s[..|s| - 1])
  {
    LastAlone(p, c);
    LastToken(RegexRust.TokensFromRight(p), RegexRust.TokenOf(c, One), s);
    OneEnds(RegexRust.TokensFromRight(p), RegexRust.TokenOf(c, One), s);
  }

  // ----- a whole pattern -----

  /** The pattern "c*" matches exactly the texts of nothing but c, for both engines. */
  lemma StarAlone(c: byte, s: seq<byte>)
    requires PlainByte(c)
    ensures InLanguage(RegexC.Tokenize([c, '*' as int]), s) <==> forall i :: 0 <= i < |s| ==> s[i] == c
    ensures InLanguage(RegexRust.TokensFromRight([c, '*' as int]), s) <==> forall i :: 0 <= i < |s| ==> s[i] == c
  {
    var p: seq<byte> := [c, '*' as int];
    assert p + [] == p && [] + p == p;
    StarFirst(c, s);
    StarLast(c, s);
  }

  lemma StarFirst(c: byte, s: seq<byte>)
    requires PlainByte(c)
    ensures InLanguage(RegexC.Tokenize([c, '*' as int] + []), s) <==> forall i :: 0 <= i < |s| ==> s[i] == c
  {
    StarMeans(c, [], s);
    if forall i :: 0 <= i < |s| ==> s[i] == c {
      assert AllAre(s, |s|, c) && s[|s|..] == [];
    }
  }

  lemma StarLast(c: byte, s: seq<byte>)
    requires PlainByte(c)
    ensures InLanguage(RegexRust.TokensFromRight([] + [c, '*' as int]), s) <==> forall i :: 0 <= i < |s| ==> s[i] == c
  {
    StarEnds([], c, s);
    if forall i :: 0 <= i < |s| ==> s[i] == c {
      assert OnlyFrom(s, 0, c) && s[..0] == [];
    }
  }
}
