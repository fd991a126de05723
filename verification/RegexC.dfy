/**
  The C regex engine (test/realworld/c/regex_match.c): left-to-right tokens, a global
  state table patched while it grows, and a simulation on lists of states.
 */
module RegexC {
  import opened Regex

  const MAX_STATES := 256

  const DOT: byte := 46
  const BACKSLASH: byte := 92
  const STAR: byte := 42
  const PLUS: byte := 43
  const QUESTION: byte := 63

  // ----- tokens -----

  function AtomLength(p: seq<byte>): (k: nat)
    requires p != []
    ensures 1 <= k <= |p|
  {
    if p[0] == BACKSLASH && |p| > 1 then 2 else 1
  }

  function QuantifierAt(p: seq<byte>, k: nat): Quantifier {
    if k >= |p| then One
    else if p[k] == STAR then Star
    else if p[k] == PLUS then Plus
    else if p[k] == QUESTION then Optional
    else One
  }

  function FirstToken(p: seq<byte>): Token
    requires p != []
  {
    var k := AtomLength(p);
    Token(p[0] == DOT, if p[0] == DOT then 0 else p[k - 1], QuantifierAt(p, k))
  }

  function TokenLength(p: seq<byte>): (n: nat)
    requires p != []
    ensures 1 <= n <= |p|
  {
    var k := AtomLength(p);
    if QuantifierAt(p, k) == One then k else k + 1
  }

  function Tokenize(p: seq<byte>): seq<Token> {
    if p == [] then [] else [FirstToken(p)] + Tokenize(p[TokenLength(p)..])
  }

  /** A pattern for a token: '.', or the byte behind a backslash, and the quantifier. */
  function Spell(t: Token): seq<byte> {
    (if t.any then [DOT] else [BACKSLASH, t.ch])
    + match t.quantifier
      case One => []
      case Star => [STAR]
      case Plus => [PLUS]
      case Optional => [QUESTION]
  }

  function SpellAll(ts: seq<Token>): seq<byte> {
    if ts == [] then [] else Spell(ts[0]) + SpellAll(ts[1..])
  }

  /** Every token list has a pattern that reads back as that list. */
  lemma {:induction false} SpellRoundTrip(ts: seq<Token>)
    requires forall t :: t in ts && t.any ==> t.ch == 0
    ensures Tokenize(SpellAll(ts)) == ts
  {
    if ts != [] {
      var t, rest := ts[0], SpellAll(ts[1..]);
      var p := Spell(t) + rest;
      SpellRoundTrip(ts[1..]);
      assert rest != [] ==> rest[0] == DOT || rest[0] == BACKSLASH by {
        if ts[1..] != [] {
          assert rest[0] == Spell(ts[1])[0];
        }
      }
      FirstOfSpelled(t, rest);
      assert p[|Spell(t)|..] == rest;
      assert ts == [t] + ts[1..];
    }
  }

  lemma FirstOfSpelled(t: Token, rest: seq<byte>)
    requires t.any ==> t.ch == 0
    requires rest != [] ==> rest[0] == DOT || rest[0] == BACKSLASH
    ensures FirstToken(Spell(t) + rest) == t && TokenLength(Spell(t) + rest) == |Spell(t)|
  {
    var p := Spell(t) + rest;
    var k := if t.any then 1 else 2;
    assert AtomLength(p) == k;
    assert k < |p| ==> p[k] == if k < |Spell(t)| then Spell(t)[k] else rest[0];
  }

  /** One turn of the tokenizing loop. */
  method ParseToken(pattern: seq<byte>, at: nat) returns (t: Token, i: nat)
    requires at < |pattern|
    ensures t == FirstToken(pattern[at..]) && i == at + TokenLength(pattern[at..])
  {
    ghost var p := pattern[at..];
    assert p[0] == pattern[at];
    assert at + 1 < |pattern| ==> p[1] == pattern[at + 1];
    assert at + 2 < |pattern| ==> p[2] == pattern[at + 2];
    i := at;
    var any, ch: byte := false, 0;
    if pattern[i] == DOT {
      any := true;
    } else if pattern[i] == BACKSLASH && i + 1 < |pattern| {
      i := i + 1;
      ch := pattern[i];
    } else {
      ch := pattern[i];
    }
    var quantifier := One;
    if i + 1 < |pattern| && pattern[i + 1] == STAR {
      quantifier := Star;
      i := i + 1;
    } else if i + 1 < |pattern| && pattern[i + 1] == PLUS {
      quantifier := Plus;
      i := i + 1;
    } else if i + 1 < |pattern| && pattern[i + 1] == QUESTION {
      quantifier := Optional;
      i := i + 1;
    }
    t := Token(any, ch, quantifier);
    i := i + 1;
  }

  method Parse(pattern: seq<byte>) returns (tokens: seq<Token>)
    ensures tokens == Tokenize(pattern)
  {
    tokens := [];
    var i := 0;
    assert pattern[0..] == pattern;
    while i < |pattern|
      invariant 0 <= i <= |pattern|
      invariant tokens + Tokenize(pattern[i..]) == Tokenize(pattern)
    {
      ghost var p := pattern[i..];
      var t, j := ParseToken(pattern, i);
      assert tokens + Tokenize(p) == (tokens + [t]) + Tokenize(p[TokenLength(p)..]);
      assert pattern[j..] == p[TokenLength(p)..];
      tokens := tokens + [t];
      i := j;
    }
  }

  // ----- the state table -----

  class Engine {
    const states: array<State>
    var nstates: nat

    ghost predicate Valid()
      reads this
    {
      states.Length == MAX_STATES && nstates <= MAX_STATES
    }

    ghost function Tab(): Table
      requires Valid()
      reads this, states
    {
      states[..nstates]
    }

    constructor ()
      ensures Valid() && Tab() == [] && fresh(states)
    {
      states := new State[MAX_STATES](_ => State(Accept, 0, 0, 0));
      nstates := 0;
    }

    method NewState(st: State) returns (id: nat)
      requires Valid() && nstates < MAX_STATES
      modifies this, states
      ensures Valid() && id == old(nstates) && Tab() == old(Tab()) + [st]
    {
      id := nstates;
      states[id] := st;
      nstates := nstates + 1;
    }

    /** One token in front of the automaton at `next`; returns the new entry. */
    method AddToken(t: Token, next: int) returns (entry: int)
      requires Valid() && |Prepend(t, Layout(Tab(), next), -1).tab| <= MAX_STATES
      modifies this, states
      ensures Valid() && Layout(Tab(), entry) == Prepend(t, Layout(old(Tab()), next), -1)
    {
      var matchState := NewState(ReadState(t, next, -1));
      if t.quantifier == Star {
        var split := NewState(State(Split, 0, matchState, next));
        states[matchState] := states[matchState].(out1 := split);
        entry := split;
      } else if t.quantifier == Plus {
        var split := NewState(State(Split, 0, matchState, next));
        states[matchState] := states[matchState].(out1 := split);
        entry := matchState;
      } else if t.quantifier == Optional {
        var split := NewState(State(Split, 0, matchState, next));
        entry := split;
      } else {
        entry := matchState;
      }
    }

    /** build_simple_nfa */
    method Build(pattern: seq<byte>) returns (start: int)
      requires Valid() && 0 !in pattern && |LayOut(Tokenize(pattern), -1).tab| <= MAX_STATES
      modifies this, states
      ensures Valid() && Layout(Tab(), start) == LayOut(Tokenize(pattern), -1)
    {
      nstates := 0;
      start := NewState(State(Accept, 0, -1, -1));
      var tokens := Parse(pattern);
      ghost var stages := Stages(tokens, -1, MAX_STATES);
      start := AddTokens(tokens, start, stages);
    }

    /** The tokens, last to first, in front of the accepting state. */
    method AddTokens(tokens: seq<Token>, accept: int, ghost stages: seq<Layout>) returns (start: int)
      requires Valid() && AreStages(tokens, -1, MAX_STATES, stages) && Layout(Tab(), accept) == stages[|tokens|]
      modifies this, states
      ensures Valid() && Layout(Tab(), start) == stages[0]
    {
      start := accept;
      var i := |tokens|;
      while i > 0
        invariant 0 <= i <= |tokens| && Valid() && Layout(Tab(), start) == stages[i]
      {
        i := i - 1;
        assert stages[i] == Prepend(tokens[i], stages[i + 1], -1);
        start := AddToken(tokens[i], start);
      }
    }
  }

  // ----- sets of states -----

  function Elements(list: seq<int>): set<int> {
    set x | x in list
  }

  /** Flags and list agree, and the list has no duplicates. */
  ghost predicate Agree(inSet: seq<bool>, list: seq<int>) {
    && (forall i :: 0 <= i < |list| ==> 0 <= list[i] < |inSet| && inSet[list[i]])
    && (forall x :: 0 <= x < |inSet| && inSet[x] ==> x in list)
    && (forall i, j :: 0 <= i < j < |list| ==> list[i] != list[j])
  }

  /** A list without duplicates never outgrows the flags: the fixed buffer suffices. */
  lemma ListFits(inSet: seq<bool>, list: seq<int>)
    requires Agree(inSet, list)
    ensures |list| <= |inSet|
  {
    Distinct(list);
    SubsetSize(Elements(list), Range(|inSet|));
  }

  lemma {:induction false} Distinct(list: seq<int>)
    requires forall i, j :: 0 <= i < j < |list| ==> list[i] != list[j]
    ensures |Elements(list)| == |list|
  {
    if list != [] {
      var init, x := list[..|list| - 1], list[|list| - 1];
      Distinct(init);
      assert Elements(list) == Elements(init) + {x};
    }
  }

  lemma SubsetSize(a: set<int>, b: set<int>)
    requires a <= b
    ensures |a| <= |b|
  {
    assert b == a + (b - a);
  }

  class StateSet {
    var inSet: seq<bool>
    var list: seq<int>

    ghost predicate Valid(tab: Table)
      reads this
    {
      |inSet| == |tab| && Agree(inSet, list)
    }

    ghost function Members(): set<int>
      reads this
    {
      Elements(list)
    }

    constructor (n: nat)
      ensures |inSet| == n && Agree(inSet, list) && Members() == {}
    {
      inSet := seq(n, _ => false);
      list := [];
    }

    /** set_clear */
    method Clear(n: nat)
      modifies this
      ensures |inSet| == n && Agree(inSet, list) && Members() == {}
    {
      inSet := seq(n, _ => false);
      list := [];
    }

    method Mark(st: int)
      requires Agree(inSet, list) && 0 <= st < |inSet| && !inSet[st]
      modifies this
      ensures |inSet| == old(|inSet|) && Agree(inSet, list) && Members() == old(Members()) + {st}
    {
      inSet := inSet[st := true];
      list := list + [st];
    }

    /** set_add: marks st and everything it reaches by epsilon edges, on any table, cycles included. */
    method Add(tab: Table, st: int)
      requires Valid(tab)
      modifies this
      ensures Valid(tab) && Added(tab, st, old(Members()), Members())
      decreases Range(|tab|) - Members()
    {
      if st < 0 || st >= |tab| || inSet[st] {
        return;
      }
      ghost var s0 := Members();
      Mark(st);
      if tab[st].kind == Split {
        Add(tab, tab[st].out1);
        ghost var s1 := Members();
        Add(tab, tab[st].out2);
        AddedBoth(tab, st, s0, s1, Members());
      } else {
        ReachesSelf(tab, st);
      }
    }
  }

  /** One state of the current set reads c. */
  method MoveOne(tab: Table, st: int, next: StateSet, c: byte, ghost xs: set<int>)
    requires Ranked(tab) && 0 <= st < |tab| && next.Valid(tab) && Moves(tab, xs, c, next.Members())
    modifies next
    ensures next.Valid(tab) && Moves(tab, xs + {st}, c, next.Members())
  {
    ghost var ys := next.Members();
    if tab[st].kind == Literal && tab[st].ch == c {
      next.Add(tab, tab[st].out1);
    } else if tab[st].kind == Any {
      next.Add(tab, tab[st].out1);
    }
    MovesMore(tab, xs, st, c, ys, next.Members());
  }

  /** The inner loop of nfa_match: one byte moves the whole set. */
  method Move(tab: Table, current: StateSet, next: StateSet, c: byte)
    requires Ranked(tab) && current.Valid(tab) && current != next
    modifies next
    ensures next.Valid(tab) && Moves(tab, current.Members(), c, next.Members())
  {
    next.Clear(|tab|);
    ghost var xs: set<int> := {};
    var i := 0;
    while i < |current.list|
      invariant 0 <= i <= |current.list| && xs == Elements(current.list[..i])
      invariant next.Valid(tab) && Moves(tab, xs, c, next.Members())
    {
      MoveOne(tab, current.list[i], next, c, xs);
      assert current.list[..i + 1] == current.list[..i] + [current.list[i]];
      xs := xs + {current.list[i]};
      i := i + 1;
    }
    assert current.list[..i] == current.list;
  }

  method HasAccept(tab: Table, list: seq<int>) returns (r: bool)
    requires forall i :: 0 <= i < |list| ==> 0 <= list[i] < |tab|
    ensures r <==> exists x :: x in Elements(list) && 0 <= x < |tab| && tab[x].kind == Accept
  {
    for i := 0 to |list|
      invariant forall j :: 0 <= j < i ==> tab[list[j]].kind != Accept
    {
      if tab[list[i]].kind == Accept {
        assert list[i] in Elements(list);
        return true;
      }
    }
    return false;
  }

  /** The initial set: the closure of the start state. */
  method StartSet(tab: Table, start: int, ghost text: seq<byte>) returns (current: StateSet)
    requires Ranked(tab) && 0 <= start < |tab|
    ensures fresh(current) && current.Valid(tab) && Closed(tab, current.Members())
    ensures SetAccepts(tab, current.Members(), text) <==> Accepts(tab, start, text)
  {
    current := new StateSet(|tab|);
    current.Add(tab, start);
    AddedIsClosure(tab, start, {}, current.Members());
    ClosureAccepts(tab, start, current.Members(), text);
  }

  /** One character: what the rest of the text must match is handed to the next set. */
  method Consume(tab: Table, current: StateSet, next: StateSet, text: seq<byte>, k: nat)
    requires Ranked(tab) && current.Valid(tab) && Closed(tab, current.Members()) && current != next
    requires k < |text| && text[k] != 0
    modifies next
    ensures next.Valid(tab) && Closed(tab, next.Members())
    ensures SetAccepts(tab, next.Members(), text[k + 1..]) <==> SetAccepts(tab, current.Members(), text[k..])
  {
    Move(tab, current, next, text[k]);
    assert text[k..] == [text[k]] + text[k + 1..];
    MovesAccepts(tab, current.Members(), text[k], next.Members(), text[k + 1..]);
  }

  /** nfa_match on the table: the simulation decides acceptance. */
  method Match(tab: Table, start: int, text: seq<byte>) returns (r: bool)
    requires Ranked(tab) && 0 <= start < |tab| && 0 !in text
    ensures r <==> Accepts(tab, start, text)
  {
    var current := StartSet(tab, start, text);
    var next := new StateSet(|tab|);
    var k := 0;
    assert text[0..] == text;
    while k < |text|
      invariant 0 <= k <= |text| && fresh(current) && fresh(next) && current != next
      invariant current.Valid(tab) && Closed(tab, current.Members())
      invariant SetAccepts(tab, current.Members(), text[k..]) <==> Accepts(tab, start, text)
    {
      Consume(tab, current, next, text, k);
      current.inSet, current.list := next.inSet, next.list;
      k := k + 1;
    }
    assert text[k..] == [];
    EmptyAccepts(tab, current.Members());
    r := HasAccept(tab, current.list);
  }

  /** Build, then match: 1 exactly for the texts in the language of the pattern's tokens. */
  method MatchPattern(e: Engine, pattern: seq<byte>, text: seq<byte>) returns (r: bool)
    requires e.Valid() && 0 !in pattern && 0 !in text && |LayOut(Tokenize(pattern), -1).tab| <= MAX_STATES
    modifies e, e.states
    ensures e.Valid() && (r <==> InLanguage(Tokenize(pattern), text))
  {
    var start := e.Build(pattern);
    LayOutAccepts(Tokenize(pattern), -1, text);
    r := Match(e.states[..e.nstates], start, text);
  }
}
