/**
  Which texts the LZ4-style decompressor accepts (test/realworld/c/lz4_compress.c),
  told as a grammar instead of a reading process.

  A text is any number of blocks and an ending.  Besides the literals the compressor ends
  with, the decompressor takes an ending of nothing, of one stray byte behind literals
  with any match nibble, and of a match whose length field the end of the text cuts off.
 */
module Lz4Texts {
  import opened Lz4

  /** Literals, then a copy of length extra + MIN_MATCH. */
  datatype Part = Part(literals: seq<byte>, offset: nat, extra: nat)

  datatype Ending =
    | Nothing
    | Last(literals: seq<byte>, nibble: nat, stray: seq<byte>)
    | Cut(literals: seq<byte>, offset: nat, ones: nat)

  function Ones(n: nat): (s: seq<byte>)
    ensures |s| == n && forall i :: 0 <= i < n ==> s[i] == 255
  {
    seq(n, _ => 255)
  }

  predicate PartOk(b: Part) {
    1 <= b.offset < 65536
  }

  predicate EndingOk(e: Ending) {
    match e
    case Nothing => true
    case Last(_, nibble, stray) => nibble < 16 && |stray| <= 1
    case Cut(_, offset, _) => 1 <= offset < 65536
  }

  predicate AllOk(bs: seq<Part>, e: Ending) {
    EndingOk(e) && forall b :: b in bs ==> PartOk(b)
  }

  // ----- spelling -----

  function SpellPart(b: Part): seq<byte>
    requires PartOk(b)
  {
    EncodeLiterals(b.literals, Nibble(b.extra)) + EncodeMatch(b.offset, b.extra)
  }

  function SpellEnding(e: Ending): seq<byte>
    requires EndingOk(e)
  {
    match e
    case Nothing => []
    case Last(literals, nibble, stray) => EncodeLiterals(literals, nibble) + stray
    case Cut(literals, offset, ones) => EncodeLiterals(literals, 15) + (OffsetBytes(offset) + Ones(ones))
  }

  function Spell(bs: seq<Part>, e: Ending): seq<byte>
    requires AllOk(bs, e)
  {
    if bs == [] then SpellEnding(e) else SpellPart(bs[0]) + Spell(bs[1..], e)
  }

  // ----- meaning -----

  /** The literals fit, the offset stays inside the output, and the copy fits. */
  predicate CopyAllowed(literals: seq<byte>, offset: nat, len: nat, out: seq<byte>, cap: nat) {
    1 <= offset <= |out| + |literals| && |out| + |literals| + len <= cap
  }

  function After(b: Part, out: seq<byte>): seq<byte>
    requires 1 <= b.offset <= |out| + |b.literals|
  {
    Copy(out + b.literals, b.offset, b.extra + MIN_MATCH)
  }

  predicate EndAllowed(e: Ending, out: seq<byte>, cap: nat) {
    match e
    case Nothing => true
    case Last(literals, _, _) => |out| + |literals| <= cap
    case Cut(literals, offset, ones) => CopyAllowed(literals, offset, 15 + 255 * ones + MIN_MATCH, out, cap)
  }

  function EndMeaning(e: Ending, out: seq<byte>, cap: nat): seq<byte>
    requires EndAllowed(e, out, cap)
  {
    match e
    case Nothing => out
    case Last(literals, _, _) => out + literals
    case Cut(literals, offset, ones) => Copy(out + literals, offset, 15 + 255 * ones + MIN_MATCH)
  }

  predicate Allowed(bs: seq<Part>, e: Ending, out: seq<byte>, cap: nat)
    decreases |bs|
  {
    if bs == [] then EndAllowed(e, out, cap)
    else
      var b := bs[0];
      && CopyAllowed(b.literals, b.offset, b.extra + MIN_MATCH, out, cap)
      && Allowed(bs[1..], e, After(b, out), cap)
  }

  function Meaning(bs: seq<Part>, e: Ending, out: seq<byte>, cap: nat): seq<byte>
    requires Allowed(bs, e, out, cap)
    decreases |bs|
  {
    if bs == [] then EndMeaning(e, out, cap)
    else
      Meaning(bs[1..], e, After(bs[0], out), cap)
  }

  // ----- every such text is accepted -----

  lemma {:induction false} OnesAreCut(n: nat)
    ensures ExtraCount(Ones(n)) == n && ExtraSum(Ones(n)) == 255 * n
  {
    if n > 0 {
      assert Ones(n)[1..] == Ones(n - 1);
      OnesAreCut(n - 1);
    }
  }

  lemma DecodeStops(s: seq<byte>, out: seq<byte>, cap: nat, result: seq<byte>)
    requires s != [] && DecodeBlock(s, out, cap) == Stop(result)
    ensures Decode(s, out, cap) == Done(result)
  {
  }

  lemma LastIsDone(e: Ending, out: seq<byte>, cap: nat)
    requires e.Last? && EndingOk(e) && EndAllowed(e, out, cap)
    ensures Decode(SpellEnding(e), out, cap) == Done(EndMeaning(e, out, cap))
  {
    LiteralsRoundTrip(e.literals, e.nibble, e.stray, out, cap);
    DecodeStops(SpellEnding(e), out, cap, out + e.literals);
  }

  lemma CutIsDone(e: Ending, out: seq<byte>, cap: nat)
    requires e.Cut? && EndingOk(e) && EndAllowed(e, out, cap)
    ensures Decode(SpellEnding(e), out, cap) == Done(EndMeaning(e, out, cap))
  {
    CutEnds(e.literals, e.offset, e.ones, out, cap);
  }

  lemma CutEnds(literals: seq<byte>, offset: nat, ones: nat, out: seq<byte>, cap: nat)
    requires offset < 65536 && CopyAllowed(literals, offset, 15 + 255 * ones + MIN_MATCH, out, cap)
    ensures Decode(EncodeLiterals(literals, 15) + (OffsetBytes(offset) + Ones(ones)), out, cap)
         == Done(Copy(out + literals, offset, 15 + 255 * ones + MIN_MATCH))
  {
    CutBlock(literals, offset, ones, out, cap);
    DecodeEnds(EncodeLiterals(literals, 15) + (OffsetBytes(offset) + Ones(ones)), out, cap,
               Copy(out + literals, offset, 15 + 255 * ones + MIN_MATCH));
  }

  lemma CutBlock(literals: seq<byte>, offset: nat, ones: nat, out: seq<byte>, cap: nat)
    requires offset < 65536 && CopyAllowed(literals, offset, 15 + 255 * ones + MIN_MATCH, out, cap)
    ensures EncodeLiterals(literals, 15) + (OffsetBytes(offset) + Ones(ones)) != []
    ensures DecodeBlock(EncodeLiterals(literals, 15) + (OffsetBytes(offset) + Ones(ones)), out, cap)
         == More([], Copy(out + literals, offset, 15 + 255 * ones + MIN_MATCH))
  {
    LiteralsRoundTrip(literals, 15, OffsetBytes(offset) + Ones(ones), out, cap);
    MatchRead(15, offset, Ones(ones), out + literals, cap);
    CutCopy(offset, ones, out + literals, cap);
  }

  lemma DecodeEnds(s: seq<byte>, out: seq<byte>, cap: nat, result: seq<byte>)
    requires s != [] && DecodeBlock(s, out, cap) == More([], result)
    ensures Decode(s, out, cap) == Done(result)
  {
    DecodeGoesOn(s, out, cap, [], result);
  }

  lemma CutCopy(offset: nat, ones: nat, out: seq<byte>, cap: nat)
    requires 1 <= offset <= |out| && |out| + 15 + 255 * ones + MIN_MATCH <= cap
    ensures DecodeCopy(15, offset, Ones(ones), out, cap) == More([], Copy(out, offset, 15 + 255 * ones + MIN_MATCH))
  {
    OnesAreCut(ones);
    assert Ones(ones)[ones..] == [];
  }

  lemma PartIsRead(b: Part, rest: seq<byte>, out: seq<byte>, cap: nat)
    requires PartOk(b) && CopyAllowed(b.literals, b.offset, b.extra + MIN_MATCH, out, cap)
    ensures Decode(SpellPart(b) + rest, out, cap) == Decode(rest, After(b, out), cap)
  {
    PartText(b, rest);
    PartsRoundTrip(b.literals, b.offset, b.extra, b.extra + MIN_MATCH, rest, out, cap);
    DecodeGoesOn(EncodeLiterals(b.literals, Nibble(b.extra)) + (EncodeMatch(b.offset, b.extra) + rest), out, cap,
                 rest, After(b, out));
  }

  lemma PartText(b: Part, rest: seq<byte>)
    requires PartOk(b)
    ensures SpellPart(b) + rest == EncodeLiterals(b.literals, Nibble(b.extra)) + (EncodeMatch(b.offset, b.extra) + rest)
  {
    Assoc(EncodeLiterals(b.literals, Nibble(b.extra)), EncodeMatch(b.offset, b.extra), rest);
  }

  lemma {:induction false} SpelledIsDone(bs: seq<Part>, e: Ending, out: seq<byte>, cap: nat)
    requires AllOk(bs, e) && Allowed(bs, e, out, cap)
    ensures Decode(Spell(bs, e), out, cap) == Done(Meaning(bs, e, out, cap))
    decreases |bs|
  {
    if bs == [] {
      EndingIsDone(e, out, cap);
    } else {
      var b := bs[0];
      assert b in bs;
      SpelledIsDone(bs[1..], e, After(b, out), cap);
      PartThenRest(b, bs, e, out, cap);
    }
  }

  lemma PartThenRest(b: Part, bs: seq<Part>, e: Ending, out: seq<byte>, cap: nat)
    requires AllOk(bs, e) && Allowed(bs, e, out, cap) && bs != [] && b == bs[0] && PartOk(b)
    ensures Decode(Spell(bs, e), out, cap) == Decode(Spell(bs[1..], e), After(b, out), cap)
  {
    PartIsRead(b, Spell(bs[1..], e), out, cap);
  }

  lemma EndingIsDone(e: Ending, out: seq<byte>, cap: nat)
    requires EndingOk(e) && EndAllowed(e, out, cap)
    ensures Decode(SpellEnding(e), out, cap) == Done(EndMeaning(e, out, cap))
  {
    if e.Last? {
      LastIsDone(e, out, cap);
    } else if e.Cut? {
      CutIsDone(e, out, cap);
    }
  }

  // ----- every accepted text is of this form -----

  /** A length field is spelled by Extra, or it is cut off by the end of the text. */
  lemma {:induction false} FieldIsExtra(s: seq<byte>)
    ensures s == Extra(ExtraSum(s)) + s[ExtraCount(s)..] || (s == Ones(|s|) && ExtraCount(s) == |s| && ExtraSum(s) == 255 * |s|)
  {
    if s != [] {
      if s[0] < 255 {
        assert s == [s[0]] + s[1..];
      } else {
        FieldIsExtra(s[1..]);
        FieldGrows(s);
      }
    }
  }

  lemma FieldGrows(s: seq<byte>)
    requires s != [] && s[0] == 255
    requires var t := s[1..];
      t == Extra(ExtraSum(t)) + t[ExtraCount(t)..] || (t == Ones(|t|) && ExtraCount(t) == |t| && ExtraSum(t) == 255 * |t|)
    ensures s == Extra(ExtraSum(s)) + s[ExtraCount(s)..] || (s == Ones(|s|) && ExtraCount(s) == |s| && ExtraSum(s) == 255 * |s|)
  {
    var t := s[1..];
    assert s == [255] + t;
    if t == Extra(ExtraSum(t)) + t[ExtraCount(t)..] {
      assert s[ExtraCount(s)..] == t[ExtraCount(t)..];
      Assoc([255], Extra(ExtraSum(t)), t[ExtraCount(t)..]);
    }
  }

  lemma TailIsField(nibble: nat, s: seq<byte>)
    requires nibble < 16
    ensures var len := TailSum(nibble, s);
      || (s == Tail(len) + s[TailCount(nibble, s)..] && nibble == Nibble(len))
      || (nibble == 15 && s == Ones(|s|) && TailCount(nibble, s) == |s| && len == 15 + 255 * |s|)
  {
    if nibble == 15 {
      FieldIsExtra(s);
    } else {
      assert s == [] + s;
    }
  }

  /** A block that does not fail starts with encoded literals. */
  lemma LiteralsOf(s: seq<byte>, out: seq<byte>, cap: nat) returns (lits: seq<byte>, rest: seq<byte>)
    requires s != [] && !DecodeBlock(s, out, cap).Fail?
    ensures s == EncodeLiterals(lits, s[0] % 16) + rest && |out| + |lits| <= cap
    ensures DecodeBlock(s, out, cap) == DecodeMatch(s[0] % 16, rest, out + lits, cap)
  {
    var len := TailSum(s[0] / 16, s[1..]);
    var t := s[1..][TailCount(s[0] / 16, s[1..])..];
    LiteralsFit(s[0] % 16, len, t, out, cap);
    lits, rest := t[..len], t[len..];
    TailIsField(s[0] / 16, s[1..]);
    assert t == lits + rest;
    Spelled(s, len, lits, rest);
  }

  lemma LiteralsFit(nibble: nat, len: nat, t: seq<byte>, out: seq<byte>, cap: nat)
    requires !DecodeLiterals(nibble, len, t, out, cap).Fail?
    ensures |out| + len <= cap && len <= |t|
    ensures DecodeLiterals(nibble, len, t, out, cap) == DecodeMatch(nibble, t[len..], out + t[..len], cap)
  {
  }

  lemma Spelled(s: seq<byte>, len: nat, lits: seq<byte>, rest: seq<byte>)
    requires s != [] && s[1..] == Tail(len) + (lits + rest) && |lits| == len && s[0] / 16 == Nibble(len)
    ensures s == EncodeLiterals(lits, s[0] % 16) + rest
  {
    assert s[0] == Nibble(len) * 16 + s[0] % 16;
    assert s == [s[0]] + s[1..];
    Assoc([s[0]], Tail(len), lits + rest);
    Assoc([s[0]] + Tail(len), lits, rest);
  }

  /** What follows the literals of a block that does not fail. */
  lemma MatchOf(nibble: nat, s: seq<byte>, out: seq<byte>, cap: nat)
    returns (offset: nat, extra: nat, rest: seq<byte>, whole: bool, ones: nat)
    requires nibble < 16 && |s| >= 2 && !DecodeMatch(nibble, s, out, cap).Fail?
    ensures 1 <= offset < 65536 && offset <= |out| && |out| + extra + MIN_MATCH <= cap
    ensures DecodeMatch(nibble, s, out, cap) == More(rest, Copy(out, offset, extra + MIN_MATCH))
    ensures whole ==> s == EncodeMatch(offset, extra) + rest && nibble == Nibble(extra)
    ensures !whole ==> nibble == 15 && rest == [] && extra == 15 + 255 * ones && s == OffsetBytes(offset) + Ones(ones)
  {
    offset := Offset(s[0], s[1]);
    extra := TailSum(nibble, s[2..]);
    rest := s[2..][TailCount(nibble, s[2..])..];
    TailIsField(nibble, s[2..]);
    assert s == [s[0], s[1]] + s[2..];
    assert s[0] == offset % 256 && s[1] == offset / 256;
    whole, ones := s[2..] == Tail(extra) + rest && nibble == Nibble(extra), |s[2..]|;
    if whole {
      Assoc([s[0], s[1]], Tail(extra), rest);
    } else {
      assert s[2..][|s[2..]|..] == [];
    }
  }

  lemma PartOf(s: seq<byte>, out: seq<byte>, cap: nat, b: Part, t: seq<byte>, rest: seq<byte>)
    requires PartOk(b) && CopyAllowed(b.literals, b.offset, b.extra + MIN_MATCH, out, cap)
    requires s == EncodeLiterals(b.literals, Nibble(b.extra)) + t && t == EncodeMatch(b.offset, b.extra) + rest
    ensures s == SpellPart(b) + rest && |rest| < |s| && Decode(s, out, cap) == Decode(rest, After(b, out), cap)
  {
    PartText(b, rest);
    PartIsRead(b, rest, out, cap);
  }

  /** The first part of an accepted text, or its ending. */
  lemma FirstPart(s: seq<byte>, out: seq<byte>, cap: nat)
    returns (more: bool, b: Part, rest: seq<byte>, out': seq<byte>, e: Ending)
    requires s != [] && Decode(s, out, cap).Done?
    ensures more ==>
      && PartOk(b) && CopyAllowed(b.literals, b.offset, b.extra + MIN_MATCH, out, cap)
      && s == SpellPart(b) + rest && |rest| < |s|
      && out' == After(b, out) && Decode(s, out, cap) == Decode(rest, out', cap)
    ensures !more ==> EndingOk(e) && EndAllowed(e, out, cap) && s == SpellEnding(e)
  {
    var lits, t := LiteralsOf(s, out, cap);
    more, b, rest, out', e := false, Part(lits, 1, 0), [], out, Nothing;
    if |t| < 2 {
      e := Last(lits, s[0] % 16, t);
    } else {
      var offset, extra, whole, ones;
      offset, extra, rest, whole, ones := MatchOf(s[0] % 16, t, out + lits, cap);
      if whole {
        more, b := true, Part(lits, offset, extra);
        PartOf(s, out, cap, b, t, rest);
        out' := After(b, out);
      } else {
        e := Cut(lits, offset, ones);
      }
    }
  }

  lemma {:induction false} DoneIsSpelled(s: seq<byte>, out: seq<byte>, cap: nat) returns (bs: seq<Part>, e: Ending)
    requires Decode(s, out, cap).Done?
    ensures AllOk(bs, e) && Allowed(bs, e, out, cap) && s == Spell(bs, e)
    decreases |s|
  {
    bs, e := [], Nothing;
    if s != [] {
      var more, b, rest, out';
      more, b, rest, out', e := FirstPart(s, out, cap);
      if more {
        bs, e := DoneIsSpelled(rest, out', cap);
        OneMorePart(b, bs, e, out, cap);
        bs := [b] + bs;
      }
    }
  }

  lemma OneMorePart(b: Part, bs: seq<Part>, e: Ending, out: seq<byte>, cap: nat)
    requires PartOk(b) && AllOk(bs, e) && CopyAllowed(b.literals, b.offset, b.extra + MIN_MATCH, out, cap)
    requires Allowed(bs, e, After(b, out), cap)
    ensures AllOk([b] + bs, e) && Allowed([b] + bs, e, out, cap) && Spell([b] + bs, e) == SpellPart(b) + Spell(bs, e)
  {
    assert ([b] + bs)[1..] == bs;
  }

  ghost predicate IsText(s: seq<byte>, cap: nat, result: seq<byte>) {
    exists bs, e :: AllOk(bs, e) && Allowed(bs, e, [], cap) && s == Spell(bs, e) && result == Meaning(bs, e, [], cap)
  }

  /** The decoder accepts exactly the texts of the grammar, and gives their meaning. */
  lemma AcceptsTexts(s: seq<byte>, cap: nat, result: seq<byte>)
    ensures Decode(s, [], cap) == Done(result) <==> IsText(s, cap, result)
  {
    if Decode(s, [], cap) == Done(result) {
      var bs, e := DoneIsSpelled(s, [], cap);
      SpelledIsDone(bs, e, [], cap);
    }
    if IsText(s, cap, result) {
      var bs, e :| AllOk(bs, e) && Allowed(bs, e, [], cap) && s == Spell(bs, e) && result == Meaning(bs, e, [], cap);
      SpelledIsDone(bs, e, [], cap);
    }
  }
}
