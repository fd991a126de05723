/**
  The rate limiter (bench/shootout-src/ratelimit.c): counters in a table, two slots per
  address, and one counter halved per call as a cursor sweeps the table.

  The keyed hash is not modelled: an address is any pair of slots.
 */
module RateLimit {

  type u32 = x: int | 0 <= x < 0x1_0000_0000

  // ----- one call, on values -----

  datatype State = State(slots: seq<u32>, pos: nat)

  /** Hits of one address always use the same two slots. */
  datatype Address = Address(i: nat, j: nat)

  function Decay(slots: seq<u32>, pos: nat): (r: seq<u32>)
    ensures |r| == |slots|
  {
    if pos < |slots| then slots[pos := slots[pos] / 2] else slots
  }

  function Advance(pos: nat, period: nat): nat {
    if pos + 1 >= period then 0 else pos + 1
  }

  /** Counts one more in a slot below the peak, in 32-bit arithmetic. */
  function Bump(slots: seq<u32>, i: nat, peak: nat): (r: seq<u32>)
    requires i < |slots|
    ensures |r| == |slots|
  {
    if slots[i] < peak then slots[i := (slots[i] as int + 1) % 0x1_0000_0000] else slots
  }

  function AfterHit(s: State, period: nat, a: Address, peak: nat): (r: State)
    requires a.i < |s.slots| && a.j < |s.slots|
    ensures |r.slots| == |s.slots|
  {
    State(Bump(Bump(Decay(s.slots, s.pos), a.i, peak), a.j, peak), Advance(s.pos, period))
  }

  /** Whether the call returns 0. */
  predicate Accepted(s: State, a: Address, peak: nat)
    requires a.i < |s.slots| && a.j < |s.slots|
  {
    var d := Decay(s.slots, s.pos);
    d[a.i] < peak || Bump(d, a.i, peak)[a.j] < peak
  }

  // ----- whole runs -----

  predicate InTable(hits: seq<Address>, n: nat) {
    forall k :: 0 <= k < |hits| ==> hits[k].i < n && hits[k].j < n
  }

  function Run(s: State, period: nat, hits: seq<Address>, peak: nat): (r: State)
    requires InTable(hits, |s.slots|)
    ensures |r.slots| == |s.slots|
    decreases |hits|
  {
    if hits == [] then s else Run(AfterHit(s, period, hits[0], peak), period, hits[1..], peak)
  }

  /** How many hits of address a are accepted. */
  function AcceptedHits(s: State, period: nat, hits: seq<Address>, peak: nat, a: Address): nat
    requires InTable(hits, |s.slots|)
    decreases |hits|
  {
    if hits == [] then 0
    else
      (if hits[0] == a && Accepted(s, a, peak) then 1 else 0)
      + AcceptedHits(AfterHit(s, period, hits[0], peak), period, hits[1..], peak, a)
  }

  /** How often slot x is halved in n calls from position pos. */
  function Halvings(x: nat, pos: nat, period: nat, n: nat): nat
    decreases n
  {
    if n == 0 then 0 else (if pos == x then 1 else 0) + Halvings(x, Advance(pos, period), period, n - 1)
  }

  // ----- the sweep -----

  function Distance(x: nat, pos: nat, period: nat): nat
    requires x < period && pos < period
  {
    if pos <= x then x - pos else x - pos + period
  }

  /** Within one period the cursor meets a slot once, after its distance. */
  lemma {:induction false} FirstHalving(x: nat, pos: nat, period: nat, n: nat)
    requires x < period && pos < period && n <= period
    ensures Halvings(x, pos, period, n) == if n <= Distance(x, pos, period) then 0 else 1
    decreases n
  {
    if n > 0 {
      FirstHalving(x, Advance(pos, period), period, n - 1);
    }
  }

  /** Any window of `period` calls halves each slot exactly once. */
  lemma OncePerPeriod(x: nat, pos: nat, period: nat)
    requires x < period && pos < period
    ensures Halvings(x, pos, period, period) == 1
  {
    FirstHalving(x, pos, period, period);
  }

  function Position(pos: nat, period: nat, n: nat): nat
    decreases n
  {
    if n == 0 then pos else Position(Advance(pos, period), period, n - 1)
  }

  lemma {:induction false} HalvingsSplit(x: nat, pos: nat, period: nat, n: nat, m: nat)
    requires pos < period
    ensures Position(pos, period, n) < period
    ensures Halvings(x, pos, period, n + m) == Halvings(x, pos, period, n) + Halvings(x, Position(pos, period, n), period, m)
    decreases n
  {
    if n > 0 {
      HalvingsSplit(x, Advance(pos, period), period, n - 1, m);
    }
  }

  /** n / d rounded up. */
  function CeilDiv(n: nat, d: nat): (c: nat)
    requires d > 0
    ensures n <= c * d < n + d
  {
    if n == 0 then 0 else if n <= d then 1 else
      assert (1 + CeilDiv(n - d, d)) * d == d + CeilDiv(n - d, d) * d;
      1 + CeilDiv(n - d, d)
  }

  lemma {:induction false} HalvingsBound(x: nat, pos: nat, period: nat, n: nat)
    requires x < period && pos < period
    ensures Halvings(x, pos, period, n) <= CeilDiv(n, period)
    decreases n
  {
    if n <= period {
      FirstHalving(x, pos, period, n);
    } else {
      HalvingsSplit(x, pos, period, period, n - period);
      OncePerPeriod(x, pos, period);
      HalvingsBound(x, Position(pos, period, period), period, n - period);
    }
  }

  // ----- no slot exceeds the peak -----

  predicate Below(slots: seq<u32>, peak: nat) {
    forall x :: 0 <= x < |slots| ==> slots[x] <= peak
  }

  lemma {:induction false} PeakIsKept(s: State, period: nat, hits: seq<Address>, peak: u32)
    requires InTable(hits, |s.slots|) && Below(s.slots, peak)
    ensures Below(Run(s, period, hits, peak).slots, peak)
    decreases |hits|
  {
    if hits != [] {
      PeakIsKept(AfterHit(s, period, hits[0], peak), period, hits[1..], peak);
    }
  }

  // ----- the guarantee -----

  /** Increments of slot x over a run. */
  function Increments(s: State, period: nat, hits: seq<Address>, peak: nat, x: nat): nat
    requires InTable(hits, |s.slots|)
    decreases |hits|
  {
    if hits == [] then 0
    else
      var d := Decay(s.slots, s.pos);
      (if hits[0].i == x && d[x] < peak then 1 else 0)
      + (if hits[0].j == x && Bump(d, hits[0].i, peak)[x] < peak then 1 else 0)
      + Increments(AfterHit(s, period, hits[0], peak), period, hits[1..], peak, x)
  }

  /** peak / 2 rounded up. */
  function HalfUp(peak: nat): nat {
    (peak + 1) / 2
  }

  /** q for each halving of slot x. */
  function Losses(x: nat, pos: nat, period: nat, n: nat, q: nat): nat
    decreases n
  {
    if n == 0 then 0 else (if pos == x then q else 0) + Losses(x, Advance(pos, period), period, n - 1, q)
  }

  lemma {:induction false} LossesAreHalvings(x: nat, pos: nat, period: nat, n: nat, q: nat)
    ensures Losses(x, pos, period, n, q) == Halvings(x, pos, period, n) * q
    decreases n
  {
    if n > 0 {
      LossesAreHalvings(x, Advance(pos, period), period, n - 1, q);
      OneMore(Halvings(x, Advance(pos, period), period, n - 1), q);
    }
  }

  lemma OneMore(h: nat, q: nat)
    ensures (1 + h) * q == q + h * q
  {
  }

  lemma TimesMono(h: nat, c: nat, q: nat)
    requires h <= c
    ensures h * q <= c * q
  {
  }

  lemma DecayChanges(slots: seq<u32>, pos: nat, peak: u32, x: nat)
    requires Below(slots, peak) && x < |slots|
    ensures Below(Decay(slots, pos), peak)
    ensures slots[x] <= Decay(slots, pos)[x] + (if pos == x then HalfUp(peak) else 0)
  {
  }

  lemma BumpChanges(slots: seq<u32>, i: nat, peak: u32, x: nat)
    requires Below(slots, peak) && i < |slots| && x < |slots|
    ensures Below(Bump(slots, i, peak), peak)
    ensures Bump(slots, i, peak)[x] == slots[x] + (if i == x && slots[x] < peak then 1 else 0)
  {
  }

  /** One call changes a slot by its halving and its increments. */
  lemma HitChanges(s: State, period: nat, a: Address, peak: u32, x: nat)
    requires a.i < |s.slots| && a.j < |s.slots| && Below(s.slots, peak) && x < |s.slots|
    ensures var d := Decay(s.slots, s.pos);
      && AfterHit(s, period, a, peak).slots[x] == d[x] + (if a.i == x && d[x] < peak then 1 else 0)
                                                  + (if a.j == x && Bump(d, a.i, peak)[x] < peak then 1 else 0)
      && s.slots[x] <= d[x] + (if s.pos == x then HalfUp(peak) else 0)
      && Below(AfterHit(s, period, a, peak).slots, peak)
  {
    var d := Decay(s.slots, s.pos);
    DecayChanges(s.slots, s.pos, peak, x);
    BumpChanges(d, a.i, peak, x);
    BumpChanges(Bump(d, a.i, peak), a.j, peak, x);
  }

  /** A halving loses at most half the peak, rounded up: what went in is what is left plus what was lost. */
  lemma {:induction false} IncrementsBound(s: State, period: nat, hits: seq<Address>, peak: u32, x: nat)
    requires InTable(hits, |s.slots|) && Below(s.slots, peak) && x < |s.slots| <= period && s.pos < period
    ensures s.slots[x] + Increments(s, period, hits, peak, x)
         <= Run(s, period, hits, peak).slots[x] + Losses(x, s.pos, period, |hits|, HalfUp(peak))
    decreases |hits|
  {
    if hits != [] {
      var s' := AfterHit(s, period, hits[0], peak);
      HitChanges(s, period, hits[0], peak, x);
      IncrementsBound(s', period, hits[1..], peak, x);
    }
  }

  lemma {:induction false} AcceptedAreIncrements(s: State, period: nat, hits: seq<Address>, peak: u32, a: Address)
    requires InTable(hits, |s.slots|) && a.i < |s.slots| && a.j < |s.slots|
    ensures AcceptedHits(s, period, hits, peak, a)
         <= Increments(s, period, hits, peak, a.i) + Increments(s, period, hits, peak, a.j)
    decreases |hits|
  {
    if hits != [] {
      AcceptedAreIncrements(AfterHit(s, period, hits[0], peak), period, hits[1..], peak, a);
    }
  }

  /** Over any run of N hits, an address gets at most 2 (peak + ceil(N / period) ceil(peak / 2)) of its hits accepted. */
  lemma AddressIsLimited(s: State, period: nat, hits: seq<Address>, peak: u32, a: Address)
    requires InTable(hits, |s.slots|) && Below(s.slots, peak) && |s.slots| <= period && s.pos < period
    requires a.i < |s.slots| && a.j < |s.slots|
    ensures AcceptedHits(s, period, hits, peak, a) <= 2 * (peak + CeilDiv(|hits|, period) * HalfUp(peak))
  {
    AcceptedAreIncrements(s, period, hits, peak, a);
    SlotIsLimited(s, period, hits, peak, a.i);
    SlotIsLimited(s, period, hits, peak, a.j);
  }

  lemma SlotIsLimited(s: State, period: nat, hits: seq<Address>, peak: u32, x: nat)
    requires InTable(hits, |s.slots|) && Below(s.slots, peak) && x < |s.slots| <= period && s.pos < period
    ensures Increments(s, period, hits, peak, x) <= peak + CeilDiv(|hits|, period) * HalfUp(peak)
  {
    IncrementsBound(s, period, hits, peak, x);
    PeakIsKept(s, period, hits, peak);
    HalvingsBound(x, s.pos, period, |hits|);
    LossesAreHalvings(x, s.pos, period, |hits|, HalfUp(peak));
    TimesMono(Halvings(x, s.pos, period, |hits|), CeilDiv(|hits|, period), HalfUp(peak));
  }

  // ----- the table in memory -----

  // ----- a hit is refused only for good reason -----

  /** A hit is refused exactly when both of its slots stand at the peak after the halving. */
  lemma RefusedIff(s: State, a: Address, peak: nat)
    requires a.i < |s.slots| && a.j < |s.slots|
    ensures !Accepted(s, a, peak) <==> Decay(s.slots, s.pos)[a.i] >= peak && Decay(s.slots, s.pos)[a.j] >= peak
  {
  }

  /** How often hits use a slot, both slots of an address counted. */
  function Uses(hits: seq<Address>, x: nat): nat {
    if hits == [] then 0
    else (if hits[0].i == x then 1 else 0) + (if hits[0].j == x then 1 else 0) + Uses(hits[1..], x)
  }

  lemma {:induction false} RaisedByUse(s: State, period: nat, hits: seq<Address>, peak: nat, x: nat)
    requires InTable(hits, |s.slots|) && x < |s.slots|
    ensures Run(s, period, hits, peak).slots[x] <= s.slots[x] as int + Uses(hits, x)
    decreases |hits|
  {
    if hits != [] {
      OneHit(s, period, hits[0], peak, x);
      RaisedByUse(AfterHit(s, period, hits[0], peak), period, hits[1..], peak, x);
    }
  }

  /** What one hit can do to a slot. */
  lemma OneHit(s: State, period: nat, a: Address, peak: nat, x: nat)
    requires a.i < |s.slots| && a.j < |s.slots| && x < |s.slots|
    ensures AfterHit(s, period, a, peak).slots[x] <= s.slots[x] as int + (if a.i == x then 1 else 0) + if a.j == x then 1 else 0
    ensures a.i != x && a.j != x ==>
      AfterHit(s, period, a, peak).slots[x] == if s.pos == x then s.slots[x] / 2 else s.slots[x]
  {
    var d := Decay(s.slots, s.pos);
    OneBump(d, a.i, peak, x);
    OneBump(Bump(d, a.i, peak), a.j, peak, x);
  }

  lemma OneBump(slots: seq<u32>, i: nat, peak: nat, x: nat)
    requires i < |slots| && x < |slots|
    ensures Bump(slots, i, peak)[x] <= slots[x] as int + if i == x then 1 else 0
    ensures i != x ==> Bump(slots, i, peak)[x] == slots[x]
  {
  }

  /** From a fresh table, a hit is refused only if each of its slots was used at least peak times before. */
  lemma RefusedAfterPeak(s: State, period: nat, hits: seq<Address>, peak: nat, a: Address)
    requires InTable(hits, |s.slots|) && a.i < |s.slots| && a.j < |s.slots|
    requires forall x :: 0 <= x < |s.slots| ==> s.slots[x] == 0
    requires !Accepted(Run(s, period, hits, peak), a, peak)
    ensures Uses(hits, a.i) >= peak && Uses(hits, a.j) >= peak
  {
    RefusedIff(Run(s, period, hits, peak), a, peak);
    RaisedByUse(s, period, hits, peak, a.i);
    RaisedByUse(s, period, hits, peak, a.j);
  }

  // ----- quiet slots are forgotten -----

  function TwoTo(n: nat): (r: nat)
    ensures r > 0
  {
    if n == 0 then 1 else 2 * TwoTo(n - 1)
  }

  lemma HalfThen(v: nat, m: nat)
    requires m > 0
    ensures v / 2 / m == v / (2 * m)
  {
    var q, r := v / 2 / m, v / 2 % m;
    Pieces(v / 2, q, r, m);
    Division(v, q, 2 * r + v % 2, 2 * m);
  }

  lemma Pieces(h: nat, q: nat, r: nat, m: nat)
    requires m > 0 && q == h / m && r == h % m
    ensures h == q * m + r && 2 * h == q * (2 * m) + 2 * r
  {
  }

  lemma Division(v: nat, q: nat, r: nat, m: nat)
    requires m > 0 && v == q * m + r && r < m
    ensures v / m == q
  {
    var d := v / m - q;
    assert m * d == r - v % m;
    NoMultiple(m, d);
  }

  lemma NoMultiple(m: int, d: int)
    requires -m < m * d < m
    ensures d == 0
  {
  }

  ghost predicate Quiet(hits: seq<Address>, x: nat) {
    forall k :: 0 <= k < |hits| ==> hits[k].i != x && hits[k].j != x
  }

  /** A slot that is not used loses one bit per halving. */
  lemma {:induction false} QuietSlot(s: State, period: nat, hits: seq<Address>, peak: nat, x: nat)
    requires InTable(hits, |s.slots|) && x < |s.slots| && Quiet(hits, x)
    ensures Run(s, period, hits, peak).slots[x] == s.slots[x] / TwoTo(Halvings(x, s.pos, period, |hits|))
    decreases |hits|
  {
    if hits != [] {
      var t := AfterHit(s, period, hits[0], peak);
      OneHit(s, period, hits[0], peak, x);
      QuietSlot(t, period, hits[1..], peak, x);
      var h := Halvings(x, t.pos, period, |hits| - 1);
      HalfThen(s.slots[x], TwoTo(h));
      assert Halvings(x, s.pos, period, |hits|) == if s.pos == x then 1 + h else h;
    }
  }

  lemma {:induction false} WholePeriods(x: nat, pos: nat, period: nat, k: nat)
    requires x < period && pos < period
    ensures Halvings(x, pos, period, k * period) == k
    decreases k
  {
    if k > 0 {
      assert k * period == period + (k - 1) * period;
      HalvingsSplit(x, pos, period, period, (k - 1) * period);
      OncePerPeriod(x, pos, period);
      WholePeriods(x, Position(pos, period, period), period, k - 1);
    }
  }

  /** After k periods without use a slot below 2^k is empty, and its addresses are accepted again. */
  lemma RecoversAfterQuiet(s: State, period: nat, hits: seq<Address>, peak: nat, a: Address, k: nat)
    requires InTable(hits, |s.slots|) && a.i < |s.slots| <= period && a.j < |s.slots| && s.pos < period
    requires Quiet(hits, a.i) && |hits| == k * period && s.slots[a.i] < TwoTo(k) && peak > 0
    ensures Run(s, period, hits, peak).slots[a.i] == 0 && Accepted(Run(s, period, hits, peak), a, peak)
  {
    QuietSlot(s, period, hits, peak, a.i);
    WholePeriods(a.i, s.pos, period, k);
    Division(s.slots[a.i], 0, s.slots[a.i], TwoTo(k));
    RefusedIff(Run(s, period, hits, peak), a, peak);
  }

  class Limiter {
    const slots: array<u32>
    const period: nat
    var pos: nat

    ghost predicate Valid()
      reads this
    {
      0 < slots.Length <= period && pos < period
    }

    ghost function View(): State
      reads this, slots
    {
      State(slots[..], pos)
    }

    /** ratelimiter_init: a period shorter than the table is lengthened to it. */
    constructor (slotsLen: nat, wanted: nat)
      requires slotsLen > 0
      ensures Valid() && fresh(slots) && slots.Length == slotsLen
      ensures period == if wanted < slotsLen then slotsLen else wanted
      ensures View().pos == 0 && forall x :: 0 <= x < slotsLen ==> View().slots[x] == 0
    {
      slots := new u32[slotsLen](_ => 0);
      period := if wanted < slotsLen then slotsLen else wanted;
      pos := 0;
    }

    /** ratelimiter_hit */
    method Hit(a: Address, peak: nat) returns (ret: int)
      requires Valid() && a.i < slots.Length && a.j < slots.Length
      modifies this, slots
      ensures Valid() && View() == AfterHit(old(View()), period, a, peak)
      ensures ret == if Accepted(old(View()), a, peak) then 0 else 1
      ensures ret == 1 <==> var d := Decay(old(slots[..]), old(pos)); d[a.i] >= peak && d[a.j] >= peak
    {
      RefusedIff(View(), a, peak);
      ghost var d := Decay(slots[..], pos);
      if pos <= slots.Length - 1 {
        slots[pos] := slots[pos] / 2;
      }
      assert slots[..] == d;
      pos := pos + 1;
      if pos >= period {
        pos := 0;
      }
      if slots[a.i] < peak {
        slots[a.i] := (slots[a.i] as int + 1) % 0x1_0000_0000;
        ret := 0;
      } else {
        ret := 1;
      }
      assert slots[..] == Bump(d, a.i, peak);
      if slots[a.j] < peak {
        slots[a.j] := (slots[a.j] as int + 1) % 0x1_0000_0000;
        ret := 0;
      }
      assert slots[..] == Bump(Bump(d, a.i, peak), a.j, peak);
    }
  }
}
