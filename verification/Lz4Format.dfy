/**
  The numbers of the LZ4-style format and the choice of matches
  (test/realworld/c/lz4_compress.c), told apart from the encoder and the decoder.
 */
module Lz4Format {
  import opened Lz4

  // ----- the format -----

  /** A length in a token's half and the bytes behind it: up to 14 in the half itself, else 15, bytes 255 and a smaller one. */
  predicate Spells(half: nat, bytes: seq<byte>, len: nat) {
    if half < 15 then bytes == [] && len == half
    else half == 15 && bytes != [] && LongBytes(bytes, len - 15)
  }

  predicate LongBytes(bytes: seq<byte>, n: int)
    requires bytes != []
  {
    if |bytes| == 1 then bytes[0] < 255 && n == bytes[0] else bytes[0] == 255 && LongBytes(bytes[1..], n - 255)
  }

  lemma {:induction false} LongIsExtra(bytes: seq<byte>, n: int)
    requires bytes != [] && LongBytes(bytes, n)
    ensures n >= 0 && bytes == Extra(n)
  {
    if |bytes| == 1 {
      assert bytes == [bytes[0]];
    } else {
      LongIsExtra(bytes[1..], n - 255);
      assert bytes == [255] + bytes[1..];
    }
  }

  lemma SpellsIsTail(half: nat, bytes: seq<byte>, len: nat)
    requires Spells(half, bytes, len)
    ensures half == Nibble(len) && bytes == Tail(len)
  {
    if half == 15 {
      LongIsExtra(bytes, len - 15);
    }
  }

  /** Token, literal length, literals, offset with the low byte first, copy length less 4. */
  function BlockBytes(n: nat, ls: seq<byte>, lits: seq<byte>, m: nat, lo: byte, hi: byte, ms: seq<byte>): seq<byte>
    requires n < 16 && m < 16
  {
    [n * 16 + m] + ls + lits + ([lo, hi] + ms)
  }

  /** One block appends its literals and a copy of 4 or more bytes from lo + 256 hi back. */
  lemma BlockMeans(n: nat, ls: seq<byte>, lits: seq<byte>, m: nat, lo: byte, hi: byte, ms: seq<byte>, extra: nat,
                   rest: seq<byte>, out: seq<byte>, cap: nat)
    requires n < 16 && m < 16 && Spells(n, ls, |lits|) && Spells(m, ms, extra)
    requires 1 <= lo + 256 * hi <= |out| + |lits| && |out| + |lits| + extra + 4 <= cap
    ensures Decode(BlockBytes(n, ls, lits, m, lo, hi, ms) + rest, out, cap)
         == Decode(rest, Copy(out + lits, lo + 256 * hi, extra + 4), cap)
  {
    var offset := lo + 256 * hi;
    SpellsIsTail(n, ls, |lits|);
    SpellsIsTail(m, ms, extra);
    BlockBytesAre(n, ls, lits, m, lo, hi, ms, offset, extra, rest);
    PartsRoundTrip(lits, offset, extra, extra + 4, rest, out, cap);
    DecodeGoesOn(EncodeLiterals(lits, m) + (EncodeMatch(offset, extra) + rest), out, cap, rest,
                 Copy(out + lits, offset, extra + 4));
  }

  lemma BlockBytesAre(n: nat, ls: seq<byte>, lits: seq<byte>, m: nat, lo: byte, hi: byte, ms: seq<byte>,
                      offset: nat, extra: nat, rest: seq<byte>)
    requires n == Nibble(|lits|) && ls == Tail(|lits|) && m == Nibble(extra) && ms == Tail(extra) && offset == lo + 256 * hi
    ensures BlockBytes(n, ls, lits, m, lo, hi, ms) + rest == EncodeLiterals(lits, m) + (EncodeMatch(offset, extra) + rest)
  {
    assert offset % 256 == lo && offset / 256 == hi;
    assert OffsetBytes(offset) == [lo, hi];
    Assoc(EncodeLiterals(lits, m), EncodeMatch(offset, extra), rest);
  }

  /** A text that ends behind literals ends with them. */
  lemma EndMeans(n: nat, ls: seq<byte>, lits: seq<byte>, m: nat, out: seq<byte>, cap: nat)
    requires n < 16 && m < 16 && Spells(n, ls, |lits|) && |out| + |lits| <= cap
    ensures Decode([n * 16 + m] + ls + lits, out, cap) == Done(out + lits)
  {
    SpellsIsTail(n, ls, |lits|);
    LiteralsRoundTrip(lits, m, [], out, cap);
    assert EncodeLiterals(lits, m) + [] == [n * 16 + m] + ls + lits;
  }

  /** Every copied byte is the one offset before it, also where that one was just copied. */
  lemma {:induction false} CopyMeans(out: seq<byte>, offset: nat, count: nat, i: nat)
    requires 1 <= offset <= |out| <= i < |out| + count
    ensures Copy(out, offset, count)[i] == Copy(out, offset, count)[i - offset]
    decreases count
  {
    var next := out + [out[|out| - offset]];
    if i > |out| {
      CopyMeans(next, offset, count - 1, i);
    } else {
      var r := Copy(next, offset, count - 1);
      assert next <= r;
      assert r[i] == next[i] && r[i - offset] == next[i - offset];
    }
  }

  lemma {:induction false} CopyOfByte(out: seq<byte>, b: byte, count: nat, k: nat)
    requires out == [b] && k <= count
    ensures Copy(out, 1, count)[k] == b
    decreases k
  {
    if k > 0 {
      CopyOfByte(out, b, count, k - 1);
      CopyMeans(out, 1, count, k);
    }
  }

  function Times(b: byte, n: nat): (s: seq<byte>)
    ensures |s| == n && forall i :: 0 <= i < n ==> s[i] == b
  {
    seq(n, _ => b)
  }

  lemma CopiesOfByte(out: seq<byte>, b: byte, count: nat)
    requires out == [b]
    ensures Copy(out, 1, count) == Times(b, count + 1)
  {
    forall k: nat | k < count + 1 ensures Copy(out, 1, count)[k] == b {
      CopyOfByte(out, b, count, k);
    }
  }

  lemma RunText(b: byte, out: seq<byte>, m: nat, text: seq<byte>, none: seq<byte>)
    requires m < 15 && out == [b] && text == [0x10 + m, b, 1, 0] && none == []
    ensures BlockBytes(1, none, out, m, 1, 0, none) + none == text && none + out == out
  {
  }

  lemma AfterRun(none: seq<byte>, out: seq<byte>, cap: nat)
    requires none == []
    ensures Decode(none, out, cap) == Done(out)
  {
  }

  /** A literal b and a short copy, one back: b again and again, five times at least. */
  lemma RunOfByte(b: byte, m: nat, text: seq<byte>, none: seq<byte>, cap: nat)
    requires m < 15 && text == [0x10 + m, b, 1, 0] && none == [] && m + 5 <= cap
    ensures Decode(text, none, cap) == Done(Times(b, m + 5))
  {
    var out := [b];
    RunText(b, out, m, text, none);
    BlockMeans(1, none, out, m, 1, 0, none, m, none, none, cap);
    CopiesOfByte(out, b, m + 4);
    AfterRun(none, Times(b, m + 5), cap);
  }

  // ----- the choice of matches -----

  /** The top twelve bits of 2654435761 times each power of 256, kept to 32 bits. */
  lemma HashOfByte(i: nat, s: seq<byte>)
    requires i < 4 && |s| == 4 && forall j :: 0 <= j < 4 ==> s[j] == if j == i then 1 else 0
    ensures Hash4(s) == if i == 0 then 0x9E3 else if i == 1 then 0x377 else if i == 2 then 0x79B else 0xB10
  {
    assert s[0] == if i == 0 then 1 else 0;
  }

  lemma {:induction false} GreedyPrefix(src: seq<byte>, tr: seq<Probed>, k: nat)
    requires Greedy(src, tr) && k < |tr|
    ensures Greedy(src, tr[..k]) && Chosen(src, tr[..k], tr[k])
    decreases |tr|
  {
    var init := tr[..|tr| - 1];
    if k < |init| {
      GreedyPrefix(src, init, k);
      assert init[..k] == tr[..k] && init[k] == tr[k];
    }
  }

  /** The turns of i and of everything after it up to the end have other hashes than h, except i. */
  ghost predicate IsLast(src: seq<byte>, tr: seq<Probed>, h: nat, i: int) {
    && InSource(src, tr) && 0 <= i < |tr| && HashAt(src, tr[i].at) == h
    && forall j :: i < j < |tr| ==> HashAt(src, tr[j].at) != h
  }

  /** What the table holds is the last turn with the hash, if there is one. */
  lemma {:induction false} LastIs(src: seq<byte>, tr: seq<Probed>, h: nat, i: int)
    requires IsLast(src, tr, h, i)
    ensures LastSame(src, tr, h) == tr[i].at
    decreases |tr|
  {
    var init := tr[..|tr| - 1];
    if i < |init| {
      assert HashAt(src, tr[|tr| - 1].at) != h;
      assert forall j :: i < j < |init| ==> init[j] == tr[j];
      LastIs(src, init, h, i);
    }
  }

  lemma {:induction false} SomeLast(src: seq<byte>, tr: seq<Probed>, h: nat) returns (i: int)
    requires InSource(src, tr) && LastSame(src, tr, h) >= 0
    ensures IsLast(src, tr, h, i)
    decreases |tr|
  {
    i := |tr| - 1;
    if HashAt(src, tr[i].at) != h {
      var init := tr[..i];
      i := SomeLast(src, init, h);
      assert forall j :: i < j < |init| ==> init[j] == tr[j];
    }
  }

  /** Turn i is the last before turn k with its hash, at most 65535 back and with the same four bytes. */
  ghost predicate Matches(src: seq<byte>, tr: seq<Probed>, k: nat, i: int) {
    && k < |tr| && InSource(src, tr) && IsLast(src, tr[..k], HashAt(src, tr[k].at), i)
    && Usable(src, tr[i].at, tr[k].at)
  }

  /** The greedy rule: a turn takes a match exactly if the last turn with its hash matches, and copies from there. */
  lemma TurnRule(src: seq<byte>, tr: seq<Probed>, k: nat)
    requires Greedy(src, tr) && k < |tr|
    ensures tr[k].len > 0 <==> exists i :: Matches(src, tr, k, i)
    ensures forall i :: Matches(src, tr, k, i) ==> tr[k].ref == tr[i].at && Longest(src, tr[i].at, tr[k].at, tr[k].len)
  {
    GreedyPrefix(src, tr, k);
    var h := HashAt(src, tr[k].at);
    forall i | Matches(src, tr, k, i) ensures tr[k].ref == tr[i].at && Longest(src, tr[i].at, tr[k].at, tr[k].len) {
      LastIs(src, tr[..k], h, i);
    }
    if tr[k].len > 0 {
      var i := SomeLast(src, tr[..k], h);
      LastIs(src, tr[..k], h, i);
      assert Matches(src, tr, k, i);
    }
  }

  /** The turns leave out nothing: every position before the cursor is a turn's own or inside its match. */
  lemma {:induction false} TurnsTile(src: seq<byte>, tr: seq<Probed>, p: nat) returns (k: nat)
    requires Greedy(src, tr) && p < Cursor(tr)
    ensures k < |tr| && tr[k].at <= p < EndOf(tr[k])
    decreases |tr|
  {
    k := |tr| - 1;
    if p < tr[k].at {
      k := TurnsTile(src, tr[..k], p);
    }
  }

  lemma AgreesFurther(src: seq<byte>, ref: nat, p: nat, len: nat, n: nat)
    requires Longest(src, ref, p, len) && n < len
    ensures src[ref + n] == src[p + n]
  {
    assert src[ref..ref + len][n] == src[p..p + len][n];
  }

  lemma LongestIsUnique(src: seq<byte>, ref: nat, p: nat, len: nat, len': nat)
    requires Longest(src, ref, p, len) && Longest(src, ref, p, len')
    ensures len == len'
  {
    var most, least := if len < len' then len' else len, if len < len' then len else len';
    if least < most {
      AgreesFurther(src, ref, p, most, least);
    }
  }

  lemma {:induction false} SameTurns(src: seq<byte>, tr: seq<Probed>, tr': seq<Probed>)
    requires Greedy(src, tr) && Greedy(src, tr') && |tr| <= |tr'|
    ensures tr == tr'[..|tr|]
    decreases |tr|
  {
    if tr != [] {
      var k := |tr| - 1;
      SameTurns(src, tr[..k], tr');
      GreedyPrefix(src, tr', k);
      var s, s' := tr[k], tr'[k];
      if s.len > 0 {
        LongestIsUnique(src, s.ref, s.at, s.len, s'.len);
      }
      assert s == s';
      assert tr == tr[..k] + [s];
    }
  }

  lemma NoMoreTurns(src: seq<byte>, tr: seq<Probed>, tr': seq<Probed>)
    requires Greedy(src, tr) && Cursor(tr) + 4 > |src| && Greedy(src, tr') && tr <= tr'
    ensures tr == tr'
  {
    if |tr| < |tr'| {
      assert tr'[..|tr|] == tr;
      GreedyPrefix(src, tr', |tr|);
    }
  }

  lemma SameEnd(src: seq<byte>, tr: seq<Probed>, tr': seq<Probed>)
    requires Greedy(src, tr) && Cursor(tr) + 4 > |src| && Greedy(src, tr') && Cursor(tr') + 4 > |src|
    ensures tr == tr'
  {
    if |tr| <= |tr'| {
      SameTurns(src, tr, tr');
      NoMoreTurns(src, tr, tr');
    } else {
      SameTurns(src, tr', tr);
      NoMoreTurns(src, tr', tr);
    }
  }

  /** The greedy text is a function of the source: no two turn lists give two texts. */
  lemma GreedyTextIsUnique(src: seq<byte>, tr: seq<Probed>, text: seq<byte>, tr': seq<Probed>, text': seq<byte>)
    requires GreedyText(src, tr, text) && GreedyText(src, tr', text')
    ensures tr == tr' && text == text'
  {
    SameEnd(src, tr, tr');
  }
}
