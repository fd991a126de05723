/**
  What the two regex engines (test/realworld/c/regex_match.c and
  test/realworld/rust/regex/src/main.rs) have in common: tokens and the language they
  denote, automata as state tables, epsilon closure, and the table the compilers lay
  out for a token list.
 */
module Regex {

  type byte = x: int | 0 <= x < 256

  // ----- tokens and their language -----

  datatype Quantifier = One | Star | Plus | Optional

  datatype Token = Token(any: bool, ch: byte, quantifier: Quantifier)

  predicate Fits(t: Token, c: byte) {
    t.any || c == t.ch
  }

  /** The first k bytes of s all fit t. */
  ghost predicate Repeats(t: Token, s: seq<byte>, k: int) {
    0 <= k <= |s| && forall j :: 0 <= j < k ==> Fits(t, s[j])
  }

  ghost predicate Allowed(q: Quantifier, k: int) {
    match q
    case One => k == 1
    case Star => k >= 0
    case Plus => k >= 1
    case Optional => 0 <= k <= 1
  }

  /** s splits into one run of fitting bytes per token, each of an allowed length. */
  ghost predicate InLanguage(ts: seq<Token>, s: seq<byte>) {
    if ts == [] then s == []
    else exists k :: Repeats(ts[0], s, k) && Allowed(ts[0].quantifier, k) && InLanguage(ts[1..], s[k..])
  }

  // ----- automata -----

  datatype Kind = Split | Literal | Any | Accept

  datatype State = State(kind: Kind, ch: byte, out1: int, out2: int)

  type Table = seq<State>

  predicate Reads(st: State, c: byte) {
    st.kind == Any || (st.kind == Literal && st.ch == c)
  }

  /** Every edge stays in the table, and epsilon edges go to lower states. */
  ghost predicate Ranked(tab: Table) {
    forall i :: 0 <= i < |tab| ==>
      match tab[i].kind
      case Split => 0 <= tab[i].out1 < i && 0 <= tab[i].out2 < i
      case Accept => true
      case _ => 0 <= tab[i].out1 < |tab|
  }

  /** From state st the automaton can read exactly s and stop in an accepting state. */
  ghost predicate Accepts(tab: Table, st: int, s: seq<byte>)
    requires Ranked(tab) && 0 <= st < |tab|
    decreases |s|, st
  {
    match tab[st].kind
    case Split => Accepts(tab, tab[st].out1, s) || Accepts(tab, tab[st].out2, s)
    case Accept => s == []
    case _ => s != [] && Reads(tab[st], s[0]) && Accepts(tab, tab[st].out1, s[1..])
  }

  // ----- epsilon closure, for any table -----

  ghost predicate Edge(tab: Table, a: int, b: int) {
    && 0 <= a < |tab| && 0 <= b < |tab|
    && tab[a].kind == Split && (b == tab[a].out1 || b == tab[a].out2)
  }

  ghost predicate IsPath(tab: Table, p: seq<int>) {
    |p| >= 1 && forall i, j :: 0 <= i < j < |p| && j == i + 1 ==> Edge(tab, p[i], p[j])
  }

  ghost predicate Reaches(tab: Table, a: int, b: int) {
    exists p :: IsPath(tab, p) && p[0] == a && p[|p| - 1] == b
  }

  ghost predicate Closed(tab: Table, s: set<int>) {
    forall a, b :: a in s && Edge(tab, a, b) ==> b in s
  }

  lemma ReachesSelf(tab: Table, a: int)
    ensures Reaches(tab, a, a)
  {
    assert IsPath(tab, [a]);
  }

  lemma ReachesStep(tab: Table, a: int, b: int, c: int)
    requires Edge(tab, a, b) && Reaches(tab, b, c)
    ensures Reaches(tab, a, c)
  {
    var p :| IsPath(tab, p) && p[0] == b && p[|p| - 1] == c;
    var q := [a] + p;
    forall i, j | 0 <= i < j < |q| && j == i + 1 ensures Edge(tab, q[i], q[j]) {
      if i > 0 {
        assert Edge(tab, p[i - 1], p[j - 1]);
      }
    }
    assert IsPath(tab, q);
  }

  lemma PathTail(tab: Table, p: seq<int>)
    requires IsPath(tab, p) && |p| > 1
    ensures IsPath(tab, p[1..])
  {
    var q := p[1..];
    forall i, j | 0 <= i < j < |q| && j == i + 1 ensures Edge(tab, q[i], q[j]) {
      assert Edge(tab, p[i + 1], p[j + 1]);
    }
  }

  lemma {:induction false} PathStaysInside(tab: Table, s: set<int>, p: seq<int>)
    requires Closed(tab, s) && IsPath(tab, p) && p[0] in s
    ensures p[|p| - 1] in s
    decreases |p|
  {
    if |p| > 1 {
      assert Edge(tab, p[0], p[1]);
      PathTail(tab, p);
      PathStaysInside(tab, s, p[1..]);
    }
  }

  lemma ClosedContains(tab: Table, s: set<int>, a: int, b: int)
    requires Closed(tab, s) && a in s && Reaches(tab, a, b)
    ensures b in s
  {
    var p :| IsPath(tab, p) && p[0] == a && p[|p| - 1] == b;
    PathStaysInside(tab, s, p);
  }

  /** Following epsilon edges backwards keeps acceptance. */
  lemma {:induction false} PathAccepts(tab: Table, p: seq<int>, s: seq<byte>)
    requires Ranked(tab) && IsPath(tab, p) && 0 <= p[0] < |tab| && 0 <= p[|p| - 1] < |tab|
    requires Accepts(tab, p[|p| - 1], s)
    ensures Accepts(tab, p[0], s)
    decreases |p|
  {
    if |p| > 1 {
      assert Edge(tab, p[0], p[1]);
      PathTail(tab, p);
      PathAccepts(tab, p[1..], s);
    }
  }

  // ----- sets of states -----

  ghost predicate SetAccepts(tab: Table, xs: set<int>, s: seq<byte>)
    requires Ranked(tab)
  {
    exists x :: x in xs && 0 <= x < |tab| && Accepts(tab, x, s)
  }

  ghost predicate ComesFrom(tab: Table, xs: set<int>, c: byte, y: int) {
    exists x :: x in xs && 0 <= x < |tab| && Reads(tab[x], c) && Reaches(tab, tab[x].out1, y)
  }

  /** ys is what xs becomes on reading c. */
  ghost predicate Moves(tab: Table, xs: set<int>, c: byte, ys: set<int>) {
    && Closed(tab, ys)
    && (forall x :: x in xs && 0 <= x < |tab| && Reads(tab[x], c) ==> tab[x].out1 in ys)
    && (forall y :: y in ys ==> ComesFrom(tab, xs, c, y))
  }

  /** In a closed set, an accepting state leads down to one that does the next thing itself. */
  lemma {:induction false} Descend(tab: Table, xs: set<int>, x: int, s: seq<byte>) returns (y: int)
    requires Ranked(tab) && Closed(tab, xs) && x in xs && 0 <= x < |tab| && Accepts(tab, x, s)
    ensures y in xs && 0 <= y < |tab| && Accepts(tab, y, s) && tab[y].kind != Split
    decreases x
  {
    y := x;
    if tab[x].kind == Split {
      var z := if Accepts(tab, tab[x].out1, s) then tab[x].out1 else tab[x].out2;
      assert Edge(tab, x, z);
      y := Descend(tab, xs, z, s);
    }
  }

  lemma MovesForward(tab: Table, x: int, c: byte, s: seq<byte>)
    requires Ranked(tab) && 0 <= x < |tab| && tab[x].kind != Split && Accepts(tab, x, [c] + s)
    ensures Reads(tab[x], c) && 0 <= tab[x].out1 < |tab| && Accepts(tab, tab[x].out1, s)
  {
    assert ([c] + s)[1..] == s;
  }

  lemma MovesBackward(tab: Table, x: int, c: byte, y: int, s: seq<byte>)
    requires Ranked(tab) && 0 <= x < |tab| && Reads(tab[x], c) && Reaches(tab, tab[x].out1, y)
    requires 0 <= y < |tab| && Accepts(tab, y, s)
    ensures Accepts(tab, x, [c] + s)
  {
    assert ([c] + s)[1..] == s;
    var p :| IsPath(tab, p) && p[0] == tab[x].out1 && p[|p| - 1] == y;
    PathAccepts(tab, p, s);
  }

  lemma SourceOf(tab: Table, xs: set<int>, c: byte, ys: set<int>, y: int) returns (x: int)
    requires Moves(tab, xs, c, ys) && y in ys
    ensures x in xs && 0 <= x < |tab| && Reads(tab[x], c) && Reaches(tab, tab[x].out1, y)
  {
    assert ComesFrom(tab, xs, c, y);
    x :| x in xs && 0 <= x < |tab| && Reads(tab[x], c) && Reaches(tab, tab[x].out1, y);
  }

  lemma SetAcceptsBy(tab: Table, xs: set<int>, x: int, s: seq<byte>)
    requires Ranked(tab) && x in xs && 0 <= x < |tab| && Accepts(tab, x, s)
    ensures SetAccepts(tab, xs, s)
  {
  }

  lemma MovesAccepts(tab: Table, xs: set<int>, c: byte, ys: set<int>, s: seq<byte>)
    requires Ranked(tab) && Closed(tab, xs) && Moves(tab, xs, c, ys)
    ensures SetAccepts(tab, xs, [c] + s) <==> SetAccepts(tab, ys, s)
  {
    var cs := [c] + s;
    if SetAccepts(tab, xs, cs) {
      var x0 :| x0 in xs && 0 <= x0 < |tab| && Accepts(tab, x0, cs);
      var x := Descend(tab, xs, x0, cs);
      MovesForward(tab, x, c, s);
      SetAcceptsBy(tab, ys, tab[x].out1, s);
    } else if SetAccepts(tab, ys, s) {
      var y :| y in ys && 0 <= y < |tab| && Accepts(tab, y, s);
      var x := SourceOf(tab, xs, c, ys, y);
      MovesBackward(tab, x, c, y, s);
      SetAcceptsBy(tab, xs, x, cs);
    }
  }

  lemma EmptyAccepts(tab: Table, xs: set<int>)
    requires Ranked(tab) && Closed(tab, xs)
    ensures SetAccepts(tab, xs, []) <==> exists x :: x in xs && 0 <= x < |tab| && tab[x].kind == Accept
  {
    if SetAccepts(tab, xs, []) {
      var x0 :| x0 in xs && 0 <= x0 < |tab| && Accepts(tab, x0, []);
      var x := Descend(tab, xs, x0, []);
    }
    if exists x :: x in xs && 0 <= x < |tab| && tab[x].kind == Accept {
      var x :| x in xs && 0 <= x < |tab| && tab[x].kind == Accept;
      assert Accepts(tab, x, []);
    }
  }

  /** The closure of one state accepts what the state accepts. */
  lemma ClosureAccepts(tab: Table, st: int, xs: set<int>, s: seq<byte>)
    requires Ranked(tab) && 0 <= st < |tab|
    requires forall x :: x in xs <==> Reaches(tab, st, x)
    ensures SetAccepts(tab, xs, s) <==> Accepts(tab, st, s)
  {
    if Accepts(tab, st, s) {
      ReachesSelf(tab, st);
    }
    if SetAccepts(tab, xs, s) {
      var x :| x in xs && 0 <= x < |tab| && Accepts(tab, x, s);
      var p :| IsPath(tab, p) && p[0] == st && p[|p| - 1] == x;
      PathAccepts(tab, p, s);
    }
  }

  // ----- depth-first insertion into a set, for both engines -----

  ghost function Range(n: nat): (r: set<int>)
    ensures |r| == n && forall x :: x in r <==> 0 <= x < n
  {
    if n == 0 then {} else Range(n - 1) + {n - 1}
  }

  /** What a depth-first insertion of st adds to the set `before`. */
  ghost predicate Added(tab: Table, st: int, before: set<int>, after: set<int>) {
    && before <= after
    && (0 <= st < |tab| ==> st in after)
    && (forall x :: x in after && x !in before ==> 0 <= x < |tab| && Reaches(tab, st, x))
    && (forall a, b :: a in after && a !in before && Edge(tab, a, b) ==> b in after)
  }

  /** The pieces of one insertion: the state itself, then its two successors. */
  lemma AddedBoth(tab: Table, st: int, s0: set<int>, s1: set<int>, s2: set<int>)
    requires 0 <= st < |tab| && tab[st].kind == Split && st !in s0
    requires Added(tab, tab[st].out1, s0 + {st}, s1) && Added(tab, tab[st].out2, s1, s2)
    ensures Added(tab, st, s0, s2)
  {
    var st0 := tab[st];
    forall x | x in s2 && x !in s0 ensures Reaches(tab, st, x) {
      if x == st {
        ReachesSelf(tab, st);
      } else if x in s1 {
        OutReaches(tab, st, st0.out1, x);
      } else {
        OutReaches(tab, st, st0.out2, x);
      }
    }
    forall a, b | a in s2 && a !in s0 && Edge(tab, a, b) ensures b in s2 {
    }
  }

  lemma OutReaches(tab: Table, st: int, out: int, x: int)
    requires 0 <= st < |tab| && tab[st].kind == Split && (out == tab[st].out1 || out == tab[st].out2)
    requires Reaches(tab, out, x) && 0 <= x < |tab|
    ensures Reaches(tab, st, x)
  {
    assert 0 <= out < |tab| by {
      var p :| IsPath(tab, p) && p[0] == out && p[|p| - 1] == x;
      if |p| > 1 {
        assert Edge(tab, p[0], p[1]);
      }
    }
    assert Edge(tab, st, out);
    ReachesStep(tab, st, out, x);
  }

  /** From a closed set, an insertion adds exactly what the state reaches. */
  lemma AddedIsClosure(tab: Table, st: int, before: set<int>, after: set<int>)
    requires Closed(tab, before) && 0 <= st < |tab| && Added(tab, st, before, after)
    ensures Closed(tab, after)
    ensures forall x :: x in after <==> x in before || Reaches(tab, st, x)
  {
    forall a, b | a in after && Edge(tab, a, b) ensures b in after {
    }
    forall x | Reaches(tab, st, x) ensures x in after {
      ClosedContains(tab, after, st, x);
    }
  }

  lemma MovesMore(tab: Table, xs: set<int>, x: int, c: byte, ys: set<int>, ys': set<int>)
    requires Ranked(tab) && 0 <= x < |tab| && Moves(tab, xs, c, ys)
    requires if Reads(tab[x], c) then Added(tab, tab[x].out1, ys, ys') else ys' == ys
    ensures Moves(tab, xs + {x}, c, ys')
  {
    var xs' := xs + {x};
    if Reads(tab[x], c) {
      AddedIsClosure(tab, tab[x].out1, ys, ys');
    }
    forall y | y in ys' ensures ComesFrom(tab, xs', c, y) {
      if y in ys {
        var z := SourceOf(tab, xs, c, ys, y);
        assert z in xs';
      } else {
        assert x in xs';
      }
    }
  }

  // ----- the table for a token list -----

  datatype Layout = Layout(tab: Table, entry: int)

  function ReadState(t: Token, out: int, none: int): State {
    State(if t.any then Any else Literal, t.ch, out, none)
  }

  /** One token in front of an automaton: a reading state, and a split for a quantifier. */
  function Prepend(t: Token, rest: Layout, none: int): Layout {
    var m := |rest.tab|;
    match t.quantifier
    case One => Layout(rest.tab + [ReadState(t, rest.entry, none)], m)
    case Star => Layout(rest.tab + [ReadState(t, m + 1, none), State(Split, 0, m, rest.entry)], m + 1)
    case Plus => Layout(rest.tab + [ReadState(t, m + 1, none), State(Split, 0, m, rest.entry)], m)
    case Optional => Layout(rest.tab + [ReadState(t, rest.entry, none), State(Split, 0, m, rest.entry)], m + 1)
  }

  /** The whole table, built from the last token to the first. */
  function LayOut(ts: seq<Token>, none: int): Layout {
    if ts == [] then Layout([State(Accept, 0, none, none)], 0) else Prepend(ts[0], LayOut(ts[1..], none), none)
  }

  ghost predicate Sound(l: Layout) {
    Ranked(l.tab) && 0 <= l.entry < |l.tab|
  }

  lemma {:induction false} LayOutSound(ts: seq<Token>, none: int)
    ensures Sound(LayOut(ts, none))
  {
    if ts != [] {
      LayOutSound(ts[1..], none);
    }
  }

  /** Appending states changes nothing for the states already there. */
  lemma {:induction false} AcceptsPrefix(tab: Table, big: Table, st: int, s: seq<byte>)
    requires Ranked(tab) && Ranked(big) && tab <= big && 0 <= st < |tab|
    ensures Accepts(tab, st, s) <==> Accepts(big, st, s)
    decreases |s|, st
  {
    assert big[st] == tab[st];
    match tab[st].kind
    case Split =>
      AcceptsPrefix(tab, big, tab[st].out1, s);
      AcceptsPrefix(tab, big, tab[st].out2, s);
    case Accept =>
    case _ =>
      if s != [] {
        AcceptsPrefix(tab, big, tab[st].out1, s[1..]);
      }
  }

  /** A run of at least `least` fitting bytes, then the rest. */
  ghost predicate RunThen(t: Token, tab: Table, entry: int, s: seq<byte>, least: int)
    requires Ranked(tab) && 0 <= entry < |tab|
  {
    exists k :: Repeats(t, s, k) && k >= least && Accepts(tab, entry, s[k..])
  }

  lemma RunThenStep(t: Token, tab: Table, entry: int, s: seq<byte>)
    requires Ranked(tab) && 0 <= entry < |tab|
    ensures RunThen(t, tab, entry, s, 1) <==> s != [] && Fits(t, s[0]) && RunThen(t, tab, entry, s[1..], 0)
    ensures RunThen(t, tab, entry, s, 0) <==> RunThen(t, tab, entry, s, 1) || Accepts(tab, entry, s)
  {
    assert s[0..] == s;
    assert Repeats(t, s, 0);
    if RunThen(t, tab, entry, s, 1) {
      var k :| Repeats(t, s, k) && k >= 1 && Accepts(tab, entry, s[k..]);
      assert s[1..][k - 1..] == s[k..];
      assert Repeats(t, s[1..], k - 1);
    }
    if s != [] && Fits(t, s[0]) && RunThen(t, tab, entry, s[1..], 0) {
      var k :| Repeats(t, s[1..], k) && k >= 0 && Accepts(tab, entry, s[1..][k..]);
      assert s[1..][k..] == s[k + 1..];
      forall j | 0 <= j < k + 1 ensures Fits(t, s[j]) {
        if j > 0 {
          assert s[j] == s[1..][j - 1];
        }
      }
      assert Repeats(t, s, k + 1);
    }
  }

  /** The loop of `*` and `+`: state m reads and goes to m + 1, which loops or leaves. */
  lemma {:induction false} LoopAccepts(t: Token, rest: Layout, big: Table, s: seq<byte>)
    requires Sound(rest) && Ranked(big) && rest.tab <= big && |big| == |rest.tab| + 2
    requires var m := |rest.tab|; big[m].out1 == m + 1 && big[m].kind == (if t.any then Any else Literal) && big[m].ch == t.ch
    requires var m := |rest.tab|; big[m + 1].kind == Split && big[m + 1].out1 == m && big[m + 1].out2 == rest.entry
    ensures Accepts(big, |rest.tab|, s) <==> RunThen(t, rest.tab, rest.entry, s, 1)
    ensures Accepts(big, |rest.tab| + 1, s) <==> RunThen(t, rest.tab, rest.entry, s, 0)
    decreases |s|
  {
    RunThenStep(t, rest.tab, rest.entry, s);
    AcceptsPrefix(rest.tab, big, rest.entry, s);
    if s != [] {
      LoopAccepts(t, rest, big, s[1..]);
    }
  }

  /** A run whose length the quantifier allows, then the rest. */
  ghost predicate QuantifiedThen(t: Token, rest: Layout, s: seq<byte>)
    requires Sound(rest)
  {
    exists k :: Repeats(t, s, k) && Allowed(t.quantifier, k) && Accepts(rest.tab, rest.entry, s[k..])
  }

  lemma OnceThen(t: Token, rest: Layout, s: seq<byte>)
    requires Sound(rest)
    ensures t.quantifier == One ==> (QuantifiedThen(t, rest, s) <==> Once(t, rest, s))
    ensures t.quantifier == Optional ==> (QuantifiedThen(t, rest, s) <==> Once(t, rest, s) || Accepts(rest.tab, rest.entry, s))
  {
    assert s[0..] == s;
    assert Repeats(t, s, 0);
    if Once(t, rest, s) {
      assert Repeats(t, s, 1);
    }
  }

  ghost predicate Once(t: Token, rest: Layout, s: seq<byte>)
    requires Sound(rest)
  {
    s != [] && Fits(t, s[0]) && Accepts(rest.tab, rest.entry, s[1..])
  }

  lemma PrependOnce(t: Token, rest: Layout, none: int, s: seq<byte>)
    requires Sound(rest) && (t.quantifier == One || t.quantifier == Optional)
    ensures Sound(Prepend(t, rest, none))
    ensures Accepts(Prepend(t, rest, none).tab, Prepend(t, rest, none).entry, s) <==> QuantifiedThen(t, rest, s)
  {
    var l := Prepend(t, rest, none);
    OnceThen(t, rest, s);
    AcceptsPrefix(rest.tab, l.tab, rest.entry, s);
    if s != [] {
      AcceptsPrefix(rest.tab, l.tab, rest.entry, s[1..]);
    }
    assert Accepts(l.tab, |rest.tab|, s) <==> Once(t, rest, s);
  }

  lemma PrependLoop(t: Token, rest: Layout, none: int, s: seq<byte>)
    requires Sound(rest) && (t.quantifier == Star || t.quantifier == Plus)
    ensures Sound(Prepend(t, rest, none))
    ensures Accepts(Prepend(t, rest, none).tab, Prepend(t, rest, none).entry, s) <==> QuantifiedThen(t, rest, s)
  {
    LoopAccepts(t, rest, Prepend(t, rest, none).tab, s);
  }

  /** The table laid out for a token list accepts exactly the language of the list. */
  lemma {:induction false} LayOutAccepts(ts: seq<Token>, none: int, s: seq<byte>)
    ensures Sound(LayOut(ts, none))
    ensures Accepts(LayOut(ts, none).tab, LayOut(ts, none).entry, s) <==> InLanguage(ts, s)
    decreases |ts|
  {
    LayOutSound(ts, none);
    if ts != [] {
      var t, rest := ts[0], LayOut(ts[1..], none);
      LayOutSound(ts[1..], none);
      if t.quantifier == One || t.quantifier == Optional {
        PrependOnce(t, rest, none, s);
      } else {
        PrependLoop(t, rest, none, s);
      }
      forall k | Repeats(t, s, k)
        ensures Accepts(rest.tab, rest.entry, s[k..]) <==> InLanguage(ts[1..], s[k..])
      {
        LayOutAccepts(ts[1..], none, s[k..]);
      }
    }
  }

  // ----- the layouts of all suffixes, as the compilers pass through them -----

  lemma {:induction false} LayOutGrows(ts: seq<Token>, none: int, i: nat)
    requires i <= |ts|
    ensures |LayOut(ts[i..], none).tab| <= |LayOut(ts, none).tab|
    decreases i
  {
    if i > 0 {
      LayOutGrows(ts[1..], none, i - 1);
      assert ts[1..][i - 1..] == ts[i..];
    } else {
      assert ts[0..] == ts;
    }
  }

  lemma LayOutAt(ts: seq<Token>, none: int, i: nat)
    requires i < |ts|
    ensures LayOut(ts[i..], none) == Prepend(ts[i], LayOut(ts[i + 1..], none), none)
    ensures |LayOut(ts[i..], none).tab| <= |LayOut(ts, none).tab|
  {
    LayOutGrows(ts, none, i);
    assert ts[i..][1..] == ts[i + 1..] && ts[i..][0] == ts[i];
  }

  /** The layouts of all suffixes of a token list that fits the table. */
  ghost predicate AreStages(ts: seq<Token>, none: int, max: nat, stages: seq<Layout>) {
    |stages| == |ts| + 1 &&
    forall i, j :: 0 <= i < |ts| && j == i + 1 ==>
      stages[i] == Prepend(ts[i], stages[j], none) && |stages[i].tab| <= max
  }

  lemma Stages(ts: seq<Token>, none: int, max: nat) returns (stages: seq<Layout>)
    requires |LayOut(ts, none).tab| <= max
    ensures AreStages(ts, none, max, stages) && stages[|ts|] == LayOut([], none) && stages[0] == LayOut(ts, none)
  {
    stages := seq(|ts| + 1, i requires 0 <= i <= |ts| => LayOut(ts[i..], none));
    assert ts[|ts|..] == [] && ts[0..] == ts;
    forall i, j | 0 <= i < |ts| && j == i + 1
      ensures stages[i] == Prepend(ts[i], stages[j], none) && |stages[i].tab| <= max
    {
      LayOutAt(ts, none, i);
    }
  }
}
