/**
  The Rust regex engine (test/realworld/rust/regex/src/main.rs): tokens read from the
  right while the table is laid out, and a simulation on arrays of flags.
 */
module RegexRust {
  import opened Regex
  import RegexC

  const MAX_STATES := 128

  predicate IsQuantifier(c: byte) {
    c == RegexC.STAR || c == RegexC.PLUS || c == RegexC.QUESTION
  }

  function QuantifierOf(c: byte): Quantifier {
    if c == RegexC.STAR then Star else if c == RegexC.PLUS then Plus else if c == RegexC.QUESTION then Optional else One
  }

  function TokenOf(c: byte, q: Quantifier): Token {
    Token(c == RegexC.DOT, if c == RegexC.DOT then 0 else c, q)
  }

  /** Tokens as the compiler meets them from the right; a lone leading quantifier ends the scan. */
  function TokensFromRight(p: seq<byte>): seq<Token> {
    var n := |p|;
    if n == 0 then []
    else if !IsQuantifier(p[n - 1]) then TokensFromRight(p[..n - 1]) + [TokenOf(p[n - 1], One)]
    else if n == 1 then []
    else TokensFromRight(p[..n - 2]) + [TokenOf(p[n - 2], QuantifierOf(p[n - 1]))]
  }

  // ----- the compiler -----

  class Nfa {
    const states: array<State>
    var nstates: nat
    var start: int

    ghost predicate Valid()
      reads this
    {
      states.Length == MAX_STATES && nstates <= MAX_STATES
    }

    ghost function Tab(): Table
      requires Valid()
      reads this, states
    {
      states[..nstates]
    }

    constructor ()
      ensures Valid() && Tab() == [] && fresh(states)
    {
      states := new State[MAX_STATES](_ => State(Accept, 0, 0, 0));
      nstates := 0;
      start := 0;
    }

    method AddState(st: State) returns (id: nat)
      requires Valid() && nstates < MAX_STATES
      modifies this`nstates, states
      ensures Valid() && id == old(nstates) && Tab() == old(Tab()) + [st]
    {
      id := nstates;
      states[id] := st;
      nstates := nstates + 1;
    }

    method AddToken(t: Token, next: int) returns (entry: int)
      requires Valid() && |Prepend(t, Layout(Tab(), next), 0).tab| <= MAX_STATES
      modifies this`nstates, states
      ensures Valid() && Layout(Tab(), entry) == Prepend(t, Layout(old(Tab()), next), 0)
    {
      var matchId := AddState(ReadState(t, next, 0));
      entry := matchId;
      if t.quantifier == Star {
        var splitId := AddState(State(Split, 0, matchId, next));
        states[matchId] := states[matchId].(out1 := splitId);
        entry := splitId;
      } else if t.quantifier == Plus {
        var splitId := AddState(State(Split, 0, matchId, next));
        states[matchId] := states[matchId].(out1 := splitId);
      } else if t.quantifier == Optional {
        var splitId := AddState(State(Split, 0, matchId, next));
        entry := splitId;
      }
    }

    /** compile: tokens from the right, each put in front of what is already there. */
    method Compile(pattern: seq<byte>)
      requires Valid() && |LayOut(TokensFromRight(pattern), 0).tab| <= MAX_STATES
      modifies this, states
      ensures Valid() && Layout(Tab(), start) == LayOut(TokensFromRight(pattern), 0)
    {
      nstates := 0;
      var accept := AddState(State(Accept, 0, 0, 0));
      ghost var stages := Stages(TokensFromRight(pattern), 0, MAX_STATES);
      start := AddTokens(pattern, accept, stages);
    }

    method AddTokens(pattern: seq<byte>, accept: int, ghost stages: seq<Layout>) returns (next: int)
      requires Valid() && AreStages(TokensFromRight(pattern), 0, MAX_STATES, stages)
      requires Layout(Tab(), accept) == stages[|TokensFromRight(pattern)|]
      modifies this`nstates, states
      ensures Valid() && Layout(Tab(), next) == stages[0]
    {
      ghost var ts := TokensFromRight(pattern);
      ghost var j := |ts|;
      next := accept;
      var i := |pattern|;
      assert pattern[..i] == pattern && ts[..j] == ts;
      while i > 0
        invariant 0 <= i <= |pattern| && 0 <= j <= |ts| && ts[..j] == TokensFromRight(pattern[..i])
        invariant Valid() && Layout(Tab(), next) == stages[j]
      {
        var t, stop;
        t, i, stop := ScanToken(pattern, i);
        if stop {
          return;
        }
        LastToken(ts, j, TokensFromRight(pattern[..i]), t);
        j := j - 1;
        assert stages[j] == Prepend(ts[j], stages[j + 1], 0);
        next := AddToken(t, next);
      }
    }
  }

  lemma LastToken(ts: seq<Token>, j: nat, init: seq<Token>, t: Token)
    requires j <= |ts| && ts[..j] == init + [t]
    ensures j > 0 && ts[j - 1] == t && ts[..j - 1] == init
  {
    assert ts[..j][j - 1] == t;
    assert ts[..j - 1] == ts[..j][..j - 1];
  }

  /** The body of the scan: an optional quantifier, then the atom before it. */
  method ScanToken(pattern: seq<byte>, at: nat) returns (t: Token, i: nat, stop: bool)
    requires 0 < at <= |pattern|
    ensures stop ==> TokensFromRight(pattern[..at]) == []
    ensures !stop ==> i < at && TokensFromRight(pattern[..at]) == TokensFromRight(pattern[..i]) + [t]
  {
    ghost var p := pattern[..at];
    i := at - 1;
    t, stop := TokenOf(pattern[i], One), false;
    var quant: byte := 0;
    if pattern[i] == RegexC.STAR || pattern[i] == RegexC.PLUS || pattern[i] == RegexC.QUESTION {
      quant := pattern[i];
      if i == 0 {
        return t, i, true;
      }
      i := i - 1;
    }
    t := TokenOf(pattern[i], QuantifierOf(quant));
    assert p[..i] == pattern[..i];
  }

  // ----- the simulation -----

  function Marked(flags: seq<bool>): set<int> {
    set x | 0 <= x < |flags| && flags[x]
  }

  /** epsilon_close */
  method EpsilonClose(tab: Table, state: int, flags: array<bool>)
    requires |tab| <= flags.Length && 0 <= state && Marked(flags[..]) <= Range(|tab|)
    requires forall i :: 0 <= i < |tab| && tab[i].kind == Split ==> tab[i].out1 >= 0 && tab[i].out2 >= 0
    modifies flags
    ensures Marked(flags[..]) <= Range(|tab|)
    ensures Added(tab, state, old(Marked(flags[..])), Marked(flags[..]))
    decreases Range(|tab|) - Marked(flags[..])
  {
    if state >= |tab| || flags[state] {
      return;
    }
    ghost var s0 := Marked(flags[..]);
    flags[state] := true;
    assert Marked(flags[..]) == s0 + {state};
    if tab[state].kind == Split {
      EpsilonClose(tab, tab[state].out1, flags);
      ghost var s1 := Marked(flags[..]);
      EpsilonClose(tab, tab[state].out2, flags);
      AddedBoth(tab, state, s0, s1, Marked(flags[..]));
    } else {
      ReachesSelf(tab, state);
    }
  }

  /** One state of the current set reads c. */
  method MoveOne(tab: Table, st: nat, nxt: array<bool>, c: byte, ghost xs: set<int>)
    requires Ranked(tab) && st < |tab| <= nxt.Length && Marked(nxt[..]) <= Range(|tab|)
    requires Moves(tab, xs, c, Marked(nxt[..]))
    modifies nxt
    ensures Marked(nxt[..]) <= Range(|tab|) && Moves(tab, xs + {st}, c, Marked(nxt[..]))
  {
    ghost var ys := Marked(nxt[..]);
    match tab[st].kind {
      case Literal =>
        if c == tab[st].ch {
          EpsilonClose(tab, tab[st].out1, nxt);
        }
      case Any =>
        EpsilonClose(tab, tab[st].out1, nxt);
      case _ =>
    }
    MovesMore(tab, xs, st, c, ys, Marked(nxt[..]));
  }

  /** All states of the current set read c. */
  method Move(tab: Table, cur: array<bool>, c: byte) returns (nxt: array<bool>)
    requires Ranked(tab) && |tab| <= MAX_STATES && cur.Length == MAX_STATES && Marked(cur[..]) <= Range(|tab|)
    ensures fresh(nxt) && nxt.Length == MAX_STATES && Marked(nxt[..]) <= Range(|tab|)
    ensures Moves(tab, Marked(cur[..]), c, Marked(nxt[..]))
  {
    nxt := new bool[MAX_STATES](_ => false);
    ghost var flags := cur[..];
    ghost var xs: set<int> := {};
    assert Marked(nxt[..]) == {};
    var s := 0;
    while s < |tab|
      invariant 0 <= s <= |tab| && cur[..] == flags && xs == Marked(flags[..s])
      invariant Marked(nxt[..]) <= Range(|tab|) && Moves(tab, xs, c, Marked(nxt[..]))
    {
      if cur[s] {
        MoveOne(tab, s, nxt, c, xs);
        xs := xs + {s};
      }
      MarkedStep(flags, s);
      s := s + 1;
    }
    MarkedAll(flags, |tab|);
  }

  lemma MarkedStep(flags: seq<bool>, s: nat)
    requires s < |flags|
    ensures Marked(flags[..s + 1]) == Marked(flags[..s]) + if flags[s] then {s} else {}
  {
  }

  lemma MarkedAll(flags: seq<bool>, n: nat)
    requires n <= |flags| && Marked(flags) <= Range(n)
    ensures Marked(flags[..n]) == Marked(flags)
  {
  }

  method HasAccept(tab: Table, cur: array<bool>) returns (r: bool)
    requires |tab| <= cur.Length
    ensures r <==> exists x :: x in Marked(cur[..]) && 0 <= x < |tab| && tab[x].kind == Accept
  {
    for s := 0 to |tab|
      invariant forall x :: 0 <= x < s && cur[x] ==> tab[x].kind != Accept
    {
      if cur[s] && tab[s].kind == Accept {
        assert s in Marked(cur[..]);
        return true;
      }
    }
    return false;
  }

  method StartSet(tab: Table, start: int, ghost text: seq<byte>) returns (cur: array<bool>)
    requires Ranked(tab) && |tab| <= MAX_STATES && 0 <= start < |tab|
    ensures fresh(cur) && cur.Length == MAX_STATES && Marked(cur[..]) <= Range(|tab|)
    ensures Closed(tab, Marked(cur[..]))
    ensures SetAccepts(tab, Marked(cur[..]), text) <==> Accepts(tab, start, text)
  {
    cur := new bool[MAX_STATES](_ => false);
    assert Marked(cur[..]) == {};
    EpsilonClose(tab, start, cur);
    AddedIsClosure(tab, start, {}, Marked(cur[..]));
    ClosureAccepts(tab, start, Marked(cur[..]), text);
  }

  method Consume(tab: Table, cur: array<bool>, text: seq<byte>, k: nat) returns (nxt: array<bool>)
    requires Ranked(tab) && |tab| <= MAX_STATES && cur.Length == MAX_STATES && Marked(cur[..]) <= Range(|tab|)
    requires k < |text| && Closed(tab, Marked(cur[..]))
    ensures nxt.Length == MAX_STATES && Marked(nxt[..]) <= Range(|tab|) && Closed(tab, Marked(nxt[..]))
    ensures SetAccepts(tab, Marked(nxt[..]), text[k + 1..]) <==> SetAccepts(tab, Marked(cur[..]), text[k..])
  {
    nxt := Move(tab, cur, text[k]);
    assert text[k..] == [text[k]] + text[k + 1..];
    MovesAccepts(tab, Marked(cur[..]), text[k], Marked(nxt[..]), text[k + 1..]);
  }

  /** run: the simulation decides acceptance. */
  method Run(tab: Table, start: int, text: seq<byte>) returns (r: bool)
    requires Ranked(tab) && |tab| <= MAX_STATES && 0 <= start < |tab|
    ensures r <==> Accepts(tab, start, text)
  {
    var cur := StartSet(tab, start, text);
    var k := 0;
    assert text[0..] == text;
    while k < |text|
      invariant 0 <= k <= |text| && cur.Length == MAX_STATES && Marked(cur[..]) <= Range(|tab|)
      invariant Closed(tab, Marked(cur[..]))
      invariant SetAccepts(tab, Marked(cur[..]), text[k..]) <==> Accepts(tab, start, text)
    {
      cur := Consume(tab, cur, text, k);
      k := k + 1;
    }
    assert text[k..] == [];
    EmptyAccepts(tab, Marked(cur[..]));
    r := HasAccept(tab, cur);
  }

  /** Compile, then run: true exactly for the texts in the language of the tokens. */
  method MatchPattern(nfa: Nfa, pattern: seq<byte>, text: seq<byte>) returns (r: bool)
    requires nfa.Valid() && |LayOut(TokensFromRight(pattern), 0).tab| <= MAX_STATES
    modifies nfa, nfa.states
    ensures nfa.Valid() && (r <==> InLanguage(TokensFromRight(pattern), text))
  {
    nfa.Compile(pattern);
    LayOutAccepts(TokensFromRight(pattern), 0, text);
    r := Run(nfa.states[..nfa.nstates], nfa.start, text);
  }
}
