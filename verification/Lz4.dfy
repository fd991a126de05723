/**
  The LZ4-style block format (test/realworld/c/lz4_compress.c): its encoding, its
  meaning, the greedy compressor and the decompressor.

  A compressed text is a list of blocks, each some literal bytes followed by a copy
  from earlier output, and a final run of literals.
 */
module Lz4 {

  type byte = x: int | 0 <= x < 256

  const MIN_MATCH := 4
  const MAX_MATCH := 255
  const HASH_SIZE := 4096

  // ----- the format -----

  datatype Block = Block(literals: seq<byte>, offset: nat, length: nat)

  /** Extra length bytes: as many 255 as fit, then the rest. */
  function Extra(rem: nat): (s: seq<byte>)
    ensures |s| == rem / 255 + 1
  {
    if rem < 255 then [rem] else [255] + Extra(rem - 255)
  }

  function Tail(len: nat): (s: seq<byte>)
    ensures |s| == if len < 15 then 0 else (len - 15) / 255 + 1
  {
    if len < 15 then [] else Extra(len - 15)
  }

  function Nibble(len: nat): (t: nat)
    ensures t < 16
  {
    if len < 15 then len else 15
  }

  function EncodeLiterals(lits: seq<byte>, matchNibble: nat): (s: seq<byte>)
    requires matchNibble < 16
    ensures |s| == 1 + |Tail(|lits|)| + |lits|
  {
    [Nibble(|lits|) * 16 + matchNibble] + Tail(|lits|) + lits
  }

  predicate InRange(b: Block) {
    1 <= b.offset <= 65535 && MIN_MATCH <= b.length <= MAX_MATCH + MIN_MATCH
  }

  /** The offset, little-endian. */
  function OffsetBytes(offset: nat): (s: seq<byte>)
    requires offset < 65536
    ensures |s| == 2 && s[0] == offset % 256 && s[1] == offset / 256
  {
    [offset % 256, offset / 256]
  }

  function EncodeMatch(offset: nat, extra: nat): (s: seq<byte>)
    requires offset < 65536
    ensures |s| == 2 + |Tail(extra)|
  {
    OffsetBytes(offset) + Tail(extra)
  }

  function EncodeBlock(b: Block): (s: seq<byte>)
    requires InRange(b)
  {
    EncodeLiterals(b.literals, Nibble(b.length - MIN_MATCH)) + EncodeMatch(b.offset, b.length - MIN_MATCH)
  }

  function EncodeBlocks(bs: seq<Block>): (s: seq<byte>)
    requires WellFormed(bs)
  {
    if bs == [] then [] else EncodeBlocks(bs[..|bs| - 1]) + EncodeBlock(bs[|bs| - 1])
  }

  // ----- the meaning of blocks -----

  /** Copies byte by byte, so a copy may read what it has just written. */
  function Copy(out: seq<byte>, offset: nat, count: nat): (r: seq<byte>)
    requires 1 <= offset <= |out|
    ensures |r| == |out| + count && out <= r
    decreases count
  {
    if count == 0 then out else Copy(out + [out[|out| - offset]], offset, count - 1)
  }

  /** Blocks whose offsets never reach before the start of the output. */
  predicate WellFormed(bs: seq<Block>)
    decreases |bs|, 0
  {
    bs == [] ||
    var (init, b) := (bs[..|bs| - 1], bs[|bs| - 1]);
    InRange(b) && WellFormed(init) && b.offset <= |Expand(init)| + |b.literals|
  }

  function Expand(bs: seq<Block>): (out: seq<byte>)
    requires WellFormed(bs)
    decreases |bs|, 1
  {
    if bs == [] then []
    else
      var (init, b) := (bs[..|bs| - 1], bs[|bs| - 1]);
      Copy(Expand(init) + b.literals, b.offset, b.length)
  }

  // ----- the decoder, as a function -----

  /** Outcome of one block: an error, the end of the text, or more to read. */
  datatype Step = Fail | Stop(out: seq<byte>) | More(rest: seq<byte>, out: seq<byte>)

  datatype Result = Failed | Done(out: seq<byte>)

  /** How many extra length bytes are read: up to and including the first below 255. */
  function ExtraCount(s: seq<byte>): (k: nat)
    ensures k <= |s|
  {
    if s == [] then 0 else if s[0] < 255 then 1 else 1 + ExtraCount(s[1..])
  }

  function ExtraSum(s: seq<byte>): (n: nat) {
    if s == [] then 0 else if s[0] < 255 then s[0] else 255 + ExtraSum(s[1..])
  }

  function TailCount(nibble: nat, s: seq<byte>): (k: nat)
    ensures k <= |s|
  {
    if nibble == 15 then ExtraCount(s) else 0
  }

  function TailSum(nibble: nat, s: seq<byte>): nat {
    if nibble == 15 then 15 + ExtraSum(s) else nibble
  }

  function Offset(lo: byte, hi: byte): (n: nat) {
    lo as int + 256 * (hi as int)
  }

  /** The copy, once its length is known and `rest` is left. */
  function CopyStep(offset: nat, len: nat, rest: seq<byte>, out: seq<byte>, cap: nat): (r: Step)
    requires 1 <= offset <= |out|
    ensures r.More? ==> r.rest == rest
  {
    if |out| + len > cap then Fail else More(rest, Copy(out, offset, len))
  }

  /** After the offset: the rest of the length, and the copy. */
  function DecodeCopy(nibble: nat, offset: nat, s: seq<byte>, out: seq<byte>, cap: nat): (r: Step)
    ensures r.More? ==> |r.rest| <= |s|
  {
    if offset == 0 || |out| < offset then Fail
    else CopyStep(offset, TailSum(nibble, s) + MIN_MATCH, s[TailCount(nibble, s)..], out, cap)
  }

  /** After the literals: the end of the text, or an offset, a length and a copy. */
  function DecodeMatch(nibble: nat, s: seq<byte>, out: seq<byte>, cap: nat): (r: Step)
    ensures r.More? ==> |r.rest| < |s|
  {
    if |s| < 2 then Stop(out) else DecodeCopy(nibble, Offset(s[0], s[1]), s[2..], out, cap)
  }

  /** After the literal length: the literals and the match. */
  function DecodeLiterals(nibble: nat, len: nat, t: seq<byte>, out: seq<byte>, cap: nat): (r: Step)
    ensures r.More? ==> |r.rest| < |t|
  {
    if |out| + len > cap || len > |t| then Fail else DecodeMatch(nibble, t[len..], out + t[..len], cap)
  }

  function DecodeBlock(s: seq<byte>, out: seq<byte>, cap: nat): (r: Step)
    requires s != []
    ensures r.More? ==> |r.rest| < |s|
  {
    DecodeLiterals(s[0] % 16, TailSum(s[0] / 16, s[1..]), s[1..][TailCount(s[0] / 16, s[1..])..], out, cap)
  }

  function Decode(s: seq<byte>, out: seq<byte>, cap: nat): (r: Result) {
    if s == [] then Done(out)
    else
      match DecodeBlock(s, out, cap)
      case Fail => Failed
      case Stop(o) => Done(o)
      case More(rest, o) => Decode(rest, o, cap)
  }

  // ----- decoding undoes encoding -----

  lemma {:induction false} ExtraRoundTrip(rem: nat, rest: seq<byte>)
    ensures ExtraCount(Extra(rem) + rest) == |Extra(rem)|
    ensures ExtraSum(Extra(rem) + rest) == rem
  {
    if rem >= 255 {
      ExtraRoundTrip(rem - 255, rest);
      assert (Extra(rem) + rest)[1..] == Extra(rem - 255) + rest;
    }
  }

  lemma TailRoundTrip(len: nat, rest: seq<byte>)
    ensures TailSum(Nibble(len), Tail(len) + rest) == len
    ensures (Tail(len) + rest)[TailCount(Nibble(len), Tail(len) + rest)..] == rest
  {
    if len >= 15 {
      ExtraRoundTrip(len - 15, rest);
    }
  }

  lemma LiteralsRoundTrip(lits: seq<byte>, nibble: nat, rest: seq<byte>, out: seq<byte>, cap: nat)
    requires nibble < 16 && |out| + |lits| <= cap
    ensures EncodeLiterals(lits, nibble) + rest != []
    ensures DecodeBlock(EncodeLiterals(lits, nibble) + rest, out, cap) == DecodeMatch(nibble, rest, out + lits, cap)
  {
    var s := EncodeLiterals(lits, nibble) + rest;
    var n := Nibble(|lits|);
    assert s[0] == n * 16 + nibble && s[0] / 16 == n && s[0] % 16 == nibble;
    assert s[1..] == Tail(|lits|) + (lits + rest);
    TailRoundTrip(|lits|, lits + rest);
    assert (lits + rest)[..|lits|] == lits && (lits + rest)[|lits|..] == rest;
  }

  lemma Assoc(a: seq<byte>, b: seq<byte>, c: seq<byte>)
    ensures a + b + c == a + (b + c)
  {
  }

  lemma CopyRoundTrip(offset: nat, extra: nat, length: nat, rest: seq<byte>, out: seq<byte>, cap: nat)
    requires 1 <= offset <= |out| && length == extra + MIN_MATCH && |out| + length <= cap
    ensures DecodeCopy(Nibble(extra), offset, Tail(extra) + rest, out, cap) == More(rest, Copy(out, offset, length))
  {
    TailRoundTrip(extra, rest);
  }

  lemma MatchRead(nibble: nat, offset: nat, s: seq<byte>, out: seq<byte>, cap: nat)
    requires offset < 65536
    ensures DecodeMatch(nibble, OffsetBytes(offset) + s, out, cap) == DecodeCopy(nibble, offset, s, out, cap)
  {
    assert (OffsetBytes(offset) + s)[2..] == s;
  }

  lemma MatchRoundTrip(offset: nat, extra: nat, length: nat, rest: seq<byte>, out: seq<byte>, cap: nat)
    requires 1 <= offset <= |out| && offset < 65536 && length == extra + MIN_MATCH && |out| + length <= cap
    ensures DecodeMatch(Nibble(extra), EncodeMatch(offset, extra) + rest, out, cap) == More(rest, Copy(out, offset, length))
  {
    Assoc(OffsetBytes(offset), Tail(extra), rest);
    MatchRead(Nibble(extra), offset, Tail(extra) + rest, out, cap);
    CopyRoundTrip(offset, extra, length, rest, out, cap);
  }

  lemma PartsRoundTrip(lits: seq<byte>, offset: nat, extra: nat, length: nat, rest: seq<byte>, out: seq<byte>, cap: nat)
    requires 1 <= offset <= |out| + |lits| && offset < 65536 && length == extra + MIN_MATCH
    requires |out| + |lits| + length <= cap
    ensures EncodeLiterals(lits, Nibble(extra)) + (EncodeMatch(offset, extra) + rest) != []
    ensures DecodeBlock(EncodeLiterals(lits, Nibble(extra)) + (EncodeMatch(offset, extra) + rest), out, cap)
         == More(rest, Copy(out + lits, offset, length))
  {
    LiteralsRoundTrip(lits, Nibble(extra), EncodeMatch(offset, extra) + rest, out, cap);
    MatchRoundTrip(offset, extra, length, rest, out + lits, cap);
  }

  lemma BlockText(b: Block, rest: seq<byte>, extra: nat)
    requires InRange(b) && b.length == extra + MIN_MATCH
    ensures EncodeBlock(b) + rest == EncodeLiterals(b.literals, Nibble(extra)) + (EncodeMatch(b.offset, extra) + rest)
  {
    Assoc(EncodeLiterals(b.literals, Nibble(extra)), EncodeMatch(b.offset, extra), rest);
  }

  lemma BlockRoundTrip(b: Block, rest: seq<byte>, out: seq<byte>, cap: nat)
    requires InRange(b) && b.offset <= |out| + |b.literals| && |out| + |b.literals| + b.length <= cap
    ensures Decode(EncodeBlock(b) + rest, out, cap) == Decode(rest, Copy(out + b.literals, b.offset, b.length), cap)
  {
    var extra := b.length - MIN_MATCH;
    BlockText(b, rest, extra);
    PartsRoundTrip(b.literals, b.offset, extra, b.length, rest, out, cap);
    DecodeGoesOn(EncodeLiterals(b.literals, Nibble(extra)) + (EncodeMatch(b.offset, extra) + rest), out, cap, rest,
                 Copy(out + b.literals, b.offset, b.length));
  }

  lemma DecodeGoesOn(s: seq<byte>, out: seq<byte>, cap: nat, rest: seq<byte>, out': seq<byte>)
    requires s != [] && DecodeBlock(s, out, cap) == More(rest, out')
    ensures Decode(s, out, cap) == Decode(rest, out', cap)
  {
  }

  lemma {:induction false} BlocksRoundTrip(bs: seq<Block>, rest: seq<byte>, cap: nat)
    requires WellFormed(bs) && |Expand(bs)| <= cap
    ensures Decode(EncodeBlocks(bs) + rest, [], cap) == Decode(rest, Expand(bs), cap)
  {
    if bs == [] {
      assert EncodeBlocks(bs) + rest == rest;
    } else {
      var init, b := bs[..|bs| - 1], bs[|bs| - 1];
      assert EncodeBlocks(bs) + rest == EncodeBlocks(init) + (EncodeBlock(b) + rest);
      BlocksRoundTrip(init, EncodeBlock(b) + rest, cap);
      BlockRoundTrip(b, rest, Expand(init), cap);
    }
  }

  /** Every well-formed text decodes to what it means, into any buffer that can hold it. */
  lemma RoundTrip(bs: seq<Block>, lits: seq<byte>, cap: nat)
    requires WellFormed(bs) && |Expand(bs)| + |lits| <= cap
    ensures Decode(EncodeBlocks(bs) + EncodeLiterals(lits, 0), [], cap) == Done(Expand(bs) + lits)
  {
    var last := EncodeLiterals(lits, 0);
    BlocksRoundTrip(bs, last, cap);
    LiteralsRoundTrip(lits, 0, [], Expand(bs), cap);
    assert last + [] == last;
  }

  // ----- how long an encoding is -----

  lemma BlockSize(b: Block)
    requires InRange(b)
    ensures |EncodeBlock(b)| <= |b.literals| + |b.literals| / 255 + b.length
  {
  }

  lemma {:induction false} BlocksSize(bs: seq<Block>)
    requires WellFormed(bs)
    ensures |EncodeBlocks(bs)| <= |Expand(bs)| + |Expand(bs)| / 255
  {
    if bs != [] {
      BlocksSize(bs[..|bs| - 1]);
      BlockSize(bs[|bs| - 1]);
    }
  }

  // ----- matches -----

  /** A run of equal bytes `offset` apart is what a copy reproduces, overlap included. */
  lemma {:induction false} CopyExtends(src: seq<byte>, at: nat, offset: nat, count: nat)
    requires 1 <= offset <= at && at + count <= |src|
    requires forall j :: at <= j < at + count ==> src[j] == src[j - offset]
    ensures Copy(src[..at], offset, count) == src[..at + count]
    decreases count
  {
    if count > 0 {
      assert src[..at] + [src[at - offset]] == src[..at + 1];
      CopyExtends(src, at + 1, offset, count - 1);
    }
  }

  // ----- the compressor -----

  /** Multiplicative hash of four bytes, 32-bit wrap-around included. */
  function Hash4(s: seq<byte>): (h: nat)
    requires |s| == 4
    ensures h < HASH_SIZE
  {
    var v := s[0] as int + 256 * (s[1] as int) + 65536 * (s[2] as int) + 16777216 * (s[3] as int);
    v * 2654435761 % 0x1_0000_0000 / 0x10_0000
  }

  // ----- the greedy choice of matches -----

  /** One turn of the match-finding loop: a position, the one the table gave, and the match length or 0. */
  datatype Probed = Probed(at: nat, ref: int, len: nat)

  function HashAt(src: seq<byte>, p: nat): (h: nat)
    requires p + 4 <= |src|
    ensures h < HASH_SIZE
  {
    Hash4(src[p..p + 4])
  }

  predicate InSource(src: seq<byte>, tr: seq<Probed>) {
    forall i :: 0 <= i < |tr| ==> tr[i].at + 4 <= |src|
  }

  /** The last position probed with hash h, or -1. */
  function LastSame(src: seq<byte>, tr: seq<Probed>, h: nat): int
    requires InSource(src, tr)
  {
    if tr == [] then -1
    else if HashAt(src, tr[|tr| - 1].at) == h then tr[|tr| - 1].at
    else LastSame(src, tr[..|tr| - 1], h)
  }

  /** A position that can be copied from: recorded, at most 65535 back, the same four bytes. */
  predicate Usable(src: seq<byte>, ref: int, p: nat)
    requires p + 4 <= |src|
  {
    0 <= ref < p && p - ref <= 65535 && src[ref..ref + 4] == src[p..p + 4]
  }

  /** The bytes agree for len, and no further: the source, the longest encodable match or a difference ends it. */
  predicate Longest(src: seq<byte>, ref: nat, p: nat, len: nat) {
    && ref < p && 4 <= len <= 259 && p + len <= |src|
    && src[ref..ref + len] == src[p..p + len]
    && (len == 259 || p + len == |src| || src[ref + len] != src[p + len])
  }

  /** The position after a turn: past the match, or one on. */
  function EndOf(s: Probed): nat {
    if s.len == 0 then s.at + 1 else s.at + s.len
  }

  /** The position of the next turn, and the end of the last match. */
  function Cursor(tr: seq<Probed>): nat {
    if tr == [] then 0 else EndOf(tr[|tr| - 1])
  }

  function Anchor(tr: seq<Probed>): nat {
    if tr == [] then 0 else if tr[|tr| - 1].len == 0 then Anchor(tr[..|tr| - 1]) else EndOf(tr[|tr| - 1])
  }

  /** A turn takes a match exactly if the last position with the same hash is usable. */
  predicate Chosen(src: seq<byte>, tr: seq<Probed>, s: Probed)
    requires InSource(src, tr)
  {
    && s.at == Cursor(tr) && s.at + 4 <= |src| && s.ref == LastSame(src, tr, HashAt(src, s.at))
    && (if Usable(src, s.ref, s.at) then Longest(src, s.ref, s.at, s.len) else s.len == 0)
  }

  predicate Greedy(src: seq<byte>, tr: seq<Probed>) {
    InSource(src, tr) &&
    (tr == [] || (Greedy(src, tr[..|tr| - 1]) && Chosen(src, tr[..|tr| - 1], tr[|tr| - 1])))
  }

  /** The blocks of the turns that took a match; the literals are what lies between matches. */
  function BlocksOf(src: seq<byte>, tr: seq<Probed>): seq<Block> {
    if tr == [] then []
    else
      var (init, s) := (tr[..|tr| - 1], tr[|tr| - 1]);
      if s.len == 0 || !(Anchor(init) <= s.at <= |src|) || s.at < s.ref then BlocksOf(src, init)
      else BlocksOf(src, init) + [Block(src[Anchor(init)..s.at], s.at - s.ref, s.len)]
  }

  /** What the greedy choice writes: the loop ends where four bytes no longer remain. */
  ghost predicate GreedyText(src: seq<byte>, tr: seq<Probed>, text: seq<byte>) {
    && Greedy(src, tr) && Cursor(tr) + 4 > |src| && Anchor(tr) <= |src| && WellFormed(BlocksOf(src, tr))
    && text == EncodeBlocks(BlocksOf(src, tr)) + EncodeLiterals(src[Anchor(tr)..], 0)
  }

  lemma OneTurn(src: seq<byte>, tr: seq<Probed>, s: Probed)
    requires Greedy(src, tr) && Chosen(src, tr, s) && Anchor(tr) <= s.at
    ensures Greedy(src, tr + [s]) && Cursor(tr + [s]) == EndOf(s)
    ensures Anchor(tr + [s]) == if s.len == 0 then Anchor(tr) else EndOf(s)
    ensures BlocksOf(src, tr + [s]) == BlocksOf(src, tr)
              + if s.len == 0 then [] else [Block(src[Anchor(tr)..s.at], s.at - s.ref, s.len)]
    ensures forall h: nat :: LastSame(src, tr + [s], h) == if h == HashAt(src, s.at) then s.at else LastSame(src, tr, h)
  {
    var tr' := tr + [s];
    assert tr'[..|tr'| - 1] == tr && tr'[|tr'| - 1] == s;
  }

  lemma ExtraMore(before: seq<byte>, left: nat)
    ensures before + Extra(left + 255) == before + [255] + Extra(left)
    ensures |Extra(left + 255)| == 1 + |Extra(left)|
  {
    Assoc(before, [255], Extra(left));
  }

  /** Writes the extra length bytes, giving up at the end of the buffer. */
  method PutExtra(dst: array<byte>, at: nat, rem: nat) returns (di: nat, ok: bool)
    requires at <= dst.Length
    modifies dst
    ensures ok <==> at + |Extra(rem)| <= dst.Length
    ensures ok ==> di <= dst.Length && dst[..di] == old(dst[..at]) + Extra(rem)
  {
    di, ok := at, true;
    var left := rem;
    while left >= 255
      invariant at <= di <= dst.Length && 0 <= left
      invariant di + |Extra(left)| == at + |Extra(rem)|
      invariant dst[..di] + Extra(left) == old(dst[..at]) + Extra(rem)
    {
      if di >= dst.Length {
        return di, false;
      }
      dst[di] := 255;
      ghost var before := dst[..di];
      di := di + 1;
      left := left - 255;
      assert dst[..di] == before + [255];
      ExtraMore(before, left);
    }
    if di >= dst.Length {
      return di, false;
    }
    dst[di] := left;
    di := di + 1;
    assert dst[..di] == dst[..di - 1] + Extra(left);
  }

  /** The token, the extra literal length and the literals. */
  method PutLiterals(dst: array<byte>, at: nat, lits: seq<byte>, matchNibble: nat) returns (di: nat, ok: bool)
    requires at <= dst.Length && matchNibble < 16
    modifies dst
    ensures ok <==> at + |EncodeLiterals(lits, matchNibble)| <= dst.Length
    ensures ok ==> di <= dst.Length && dst[..di] == old(dst[..at]) + EncodeLiterals(lits, matchNibble)
  {
    di, ok := at, true;
    ghost var token: byte := Nibble(|lits|) * 16 + matchNibble;
    if di >= dst.Length {
      return di, false;
    }
    dst[di] := (if |lits| < 15 then |lits| else 15) * 16 + matchNibble;
    di := di + 1;
    assert dst[..di] == old(dst[..at]) + [token];
    if |lits| >= 15 {
      di, ok := PutExtra(dst, di, |lits| - 15);
      if !ok {
        return;
      }
    }
    assert dst[..di] == old(dst[..at]) + [token] + Tail(|lits|);
    Assoc(old(dst[..at]), [token], Tail(|lits|));
    Assoc(old(dst[..at]), [token] + Tail(|lits|), lits);
    di, ok := PutBytes(dst, di, lits);
  }

  /** The capacity test and the block copy (memcpy). */
  method PutBytes(dst: array<byte>, at: nat, bytes: seq<byte>) returns (di: nat, ok: bool)
    requires at <= dst.Length
    modifies dst
    ensures ok <==> at + |bytes| <= dst.Length
    ensures ok ==> di == at + |bytes| && dst[..di] == old(dst[..at]) + bytes
  {
    di, ok := at, false;
    if at + |bytes| <= dst.Length {
      ok := true;
      forall k | 0 <= k < |bytes| {
        dst[at + k] := bytes[k];
      }
      di := at + |bytes|;
    }
  }

  /** One whole block: literals, little-endian offset, extra match length. */
  method PutBlock(dst: array<byte>, at: nat, b: Block) returns (di: nat, ok: bool)
    requires at <= dst.Length && InRange(b)
    modifies dst
    ensures ok <==> at + |EncodeBlock(b)| <= dst.Length
    ensures ok ==> di <= dst.Length && dst[..di] == old(dst[..at]) + EncodeBlock(b)
  {
    var extra := b.length - MIN_MATCH;
    ghost var head := EncodeLiterals(b.literals, Nibble(extra));
    ghost var mid := OffsetBytes(b.offset);
    di, ok := PutLiterals(dst, at, b.literals, if extra < 15 then extra else 15);
    if !ok {
      return;
    }
    di, ok := PutBytes(dst, di, OffsetBytes(b.offset));
    if !ok {
      return;
    }
    assert dst[..di] == old(dst[..at]) + head + mid;
    if extra >= 15 {
      di, ok := PutExtra(dst, di, extra - 15);
    }
    assert ok ==> dst[..di] == old(dst[..at]) + head + mid + Tail(extra);
    assert EncodeBlock(b) == head + (mid + Tail(extra));
  }

  /** Compares on from four known equal bytes, up to the longest encodable match. */
  method ExtendMatch(src: seq<byte>, ref: nat, si: nat) returns (len: nat)
    requires ref < si && si + MIN_MATCH <= |src| && src[ref..ref + MIN_MATCH] == src[si..si + MIN_MATCH]
    ensures Longest(src, ref, si, len)
  {
    len := MIN_MATCH;
    while si + len < |src| && src[ref + len] == src[si + len] && len < MAX_MATCH + MIN_MATCH
      invariant MIN_MATCH <= len <= MAX_MATCH + MIN_MATCH && si + len <= |src|
      invariant src[ref..ref + len] == src[si..si + len]
    {
      assert src[ref..ref + len + 1] == src[ref..ref + len] + [src[ref + len]];
      assert src[si..si + len + 1] == src[si..si + len] + [src[si + len]];
      len := len + 1;
    }
  }

  /** The blocks written so far mean exactly the source before `anchor`. */
  ghost predicate Covers(bs: seq<Block>, src: seq<byte>, anchor: nat) {
    WellFormed(bs) && anchor <= |src| && Expand(bs) == src[..anchor]
  }

  lemma CoversMore(bs: seq<Block>, src: seq<byte>, anchor: nat, si: nat, b: Block)
    requires Covers(bs, src, anchor) && anchor <= si && si + b.length <= |src|
    requires InRange(b) && b.literals == src[anchor..si] && b.offset <= si
    requires Copy(src[..si], b.offset, b.length) == src[..si + b.length]
    ensures Covers(bs + [b], src, si + b.length)
    ensures EncodeBlocks(bs + [b]) == EncodeBlocks(bs) + EncodeBlock(b)
  {
    Glue(src, anchor, si);
    OneMore(bs, b);
  }

  lemma Glue(src: seq<byte>, i: nat, j: nat)
    requires i <= j <= |src|
    ensures src[..i] + src[i..j] == src[..j]
  {
  }

  lemma OneMore(bs: seq<Block>, b: Block)
    requires WellFormed(bs) && InRange(b) && b.offset <= |Expand(bs)| + |b.literals|
    ensures WellFormed(bs + [b]) && Expand(bs + [b]) == Copy(Expand(bs) + b.literals, b.offset, b.length)
    ensures EncodeBlocks(bs + [b]) == EncodeBlocks(bs) + EncodeBlock(b)
  {
    var bs' := bs + [b];
    assert bs'[..|bs'| - 1] == bs && bs'[|bs'| - 1] == b;
  }

  /** No encoding of a prefix of the source can exceed the bound. */
  lemma CoversSize(bs: seq<Block>, src: seq<byte>, anchor: nat)
    requires Covers(bs, src, anchor)
    ensures |EncodeBlocks(bs)| <= anchor + anchor / 255
    ensures |EncodeBlocks(bs)| + |EncodeLiterals(src[anchor..], 0)| <= |src| + |src| / 255 + 2
  {
    BlocksSize(bs);
  }

  /** A match found by the hash table: emit the block and move past it. */
  method EmitMatch(src: seq<byte>, dst: array<byte>, at: nat, anchor: nat, si: nat, ref: nat, ghost bs: seq<Block>)
    returns (di: nat, len: nat, ok: bool, ghost bs': seq<Block>)
    requires at <= dst.Length && Covers(bs, src, anchor) && dst[..at] == EncodeBlocks(bs)
    requires anchor <= si && si + 4 <= |src| && Usable(src, ref, si)
    modifies dst
    ensures !ok ==> dst.Length < |src| + |src| / 255
    ensures ok ==> di <= dst.Length && Covers(bs', src, si + len) && dst[..di] == EncodeBlocks(bs')
    ensures Longest(src, ref, si, len) && bs' == bs + [Block(src[anchor..si], si - ref, len)]
  {
    len := ExtendMatch(src, ref, si);
    var b := Block(src[anchor..si], si - ref, len);
    bs' := bs + [b];
    MatchFound(bs, src, anchor, si, ref, b);
    di, ok := PutBlock(dst, at, b);
  }

  lemma SameBytes(src: seq<byte>, ref: nat, si: nat, len: nat)
    requires ref < si && si + len <= |src|
    ensures src[ref..ref + len] == src[si..si + len] <==> forall j :: si <= j < si + len ==> src[j] == src[j - (si - ref)]
  {
    var a, b := src[ref..ref + len], src[si..si + len];
    if a == b {
      forall j | si <= j < si + len ensures src[j] == src[j - (si - ref)] {
        assert a[j - si] == b[j - si];
      }
    }
    if forall j :: si <= j < si + len ==> src[j] == src[j - (si - ref)] {
      forall i | 0 <= i < len ensures a[i] == b[i] {
        assert b[i] == src[si + i];
      }
    }
  }

  lemma MatchFound(bs: seq<Block>, src: seq<byte>, anchor: nat, si: nat, ref: nat, b: Block)
    requires Covers(bs, src, anchor) && anchor <= si && si - ref <= 65535 && Longest(src, ref, si, b.length)
    requires b.literals == src[anchor..si] && b.offset == si - ref
    ensures InRange(b) && Covers(bs + [b], src, si + b.length)
    ensures EncodeBlocks(bs + [b]) == EncodeBlocks(bs) + EncodeBlock(b)
    ensures |EncodeBlocks(bs) + EncodeBlock(b)| <= |src| + |src| / 255
  {
    SameBytes(src, ref, si, b.length);
    CopyExtends(src, si, b.offset, b.length);
    MatchCovered(bs, src, anchor, si, b);
  }

  lemma MatchCovered(bs: seq<Block>, src: seq<byte>, anchor: nat, si: nat, b: Block)
    requires Covers(bs, src, anchor) && anchor <= si && si + b.length <= |src|
    requires InRange(b) && b.literals == src[anchor..si] && b.offset <= si
    requires Copy(src[..si], b.offset, b.length) == src[..si + b.length]
    ensures Covers(bs + [b], src, si + b.length)
    ensures EncodeBlocks(bs + [b]) == EncodeBlocks(bs) + EncodeBlock(b)
    ensures |EncodeBlocks(bs) + EncodeBlock(b)| <= |src| + |src| / 255
  {
    CoversMore(bs, src, anchor, si, b);
    CoversSize(bs + [b], src, si + b.length);
  }

  /** The table holds the last position probed with each hash. */
  ghost predicate Holds(table: seq<int>, src: seq<byte>, tr: seq<Probed>) {
    |table| == HASH_SIZE && InSource(src, tr) && forall h :: 0 <= h < HASH_SIZE ==> table[h] == LastSame(src, tr, h)
  }

  /** Looks up the last position with the same hash and records this one. */
  method Probe(table: array<int>, src: seq<byte>, si: nat, ghost tr: seq<Probed>) returns (ref: int)
    requires si + 4 <= |src| && Holds(table[..], src, tr) && Greedy(src, tr) && si == Cursor(tr)
    modifies table
    ensures LookedUp(src, tr, si, ref)
    ensures table[..] == old(table[..])[HashAt(src, si) := si]
  {
    var h := Hash4(src[si..si + 4]);
    LastBefore(src, tr, h);
    ref := table[h];
    table[h] := si;
  }

  lemma {:induction false} LastBefore(src: seq<byte>, tr: seq<Probed>, h: nat)
    requires Greedy(src, tr)
    ensures -1 <= LastSame(src, tr, h) < Cursor(tr) && Anchor(tr) <= Cursor(tr)
  {
    if tr != [] {
      LastBefore(src, tr[..|tr| - 1], h);
    }
  }

  /** The turns so far, the blocks they gave and where they stand. */
  ghost predicate Progress(src: seq<byte>, tr: seq<Probed>, bs: seq<Block>, si: nat, start: nat) {
    && Greedy(src, tr) && Cursor(tr) == si && Anchor(tr) == start <= si <= |src|
    && bs == BlocksOf(src, tr) && Covers(bs, src, start)
  }

  /** The position that the table gives for si. */
  ghost predicate LookedUp(src: seq<byte>, tr: seq<Probed>, si: nat, ref: int) {
    InSource(src, tr) && si + 4 <= |src| && ref == LastSame(src, tr, HashAt(src, si)) && ref < si
  }

  /** One more turn is made. */
  ghost predicate Turned(src: seq<byte>, tr: seq<Probed>, s: Probed, bs': seq<Block>, si': nat, start': nat) {
    InSource(src, tr) && Chosen(src, tr, s) && Progress(src, tr + [s], bs', si', start')
  }

  /** A position whose last like-hashed position is ref: a block if that is usable, or nothing yet. */
  method Take(src: seq<byte>, dst: array<byte>, at: nat, start: nat, si: nat, ref: int, ghost tr: seq<Probed>, ghost bs: seq<Block>)
    returns (di: nat, si': nat, start': nat, ok: bool, ghost s: Probed, ghost bs': seq<Block>)
    requires Progress(src, tr, bs, si, start) && LookedUp(src, tr, si, ref)
    requires at <= dst.Length && dst[..at] == EncodeBlocks(bs)
    modifies dst
    ensures !ok ==> dst.Length < |src| + |src| / 255
    ensures ok ==> Turned(src, tr, s, bs', si', start') && s.at == si < si'
    ensures ok ==> di <= dst.Length && WellFormed(bs') && dst[..di] == EncodeBlocks(bs')
  {
    if Usable(src, ref, si) {
      var len;
      di, len, ok, s, bs' := TakeMatch(src, dst, at, start, si, ref, tr, bs);
      si', start' := si + len, si + len;
    } else {
      di, si', start', ok, s, bs' := at, si + 1, start, true, Probed(si, ref, 0), bs;
      LiteralLeft(src, tr, bs, si, start, ref);
    }
  }

  method TakeMatch(src: seq<byte>, dst: array<byte>, at: nat, start: nat, si: nat, ref: nat, ghost tr: seq<Probed>, ghost bs: seq<Block>)
    returns (di: nat, len: nat, ok: bool, ghost s: Probed, ghost bs': seq<Block>)
    requires Progress(src, tr, bs, si, start) && LookedUp(src, tr, si, ref)
    requires si + 4 <= |src| && Usable(src, ref, si)
    requires at <= dst.Length && dst[..at] == EncodeBlocks(bs)
    modifies dst
    ensures !ok ==> dst.Length < |src| + |src| / 255
    ensures ok ==> len > 0 && Turned(src, tr, s, bs', si + len, si + len) && s.at == si
    ensures ok ==> di <= dst.Length && WellFormed(bs') && dst[..di] == EncodeBlocks(bs')
  {
    di, len, ok, bs' := EmitMatch(src, dst, at, start, si, ref, bs);
    s := Probed(si, ref, len);
    if ok {
      MatchTaken(src, tr, bs, si, start, ref, len, bs');
    }
  }

  lemma MatchTaken(src: seq<byte>, tr: seq<Probed>, bs: seq<Block>, si: nat, start: nat, ref: nat, len: nat, bs': seq<Block>)
    requires Progress(src, tr, bs, si, start) && LookedUp(src, tr, si, ref) && Usable(src, ref, si)
    requires Longest(src, ref, si, len) && bs' == bs + [Block(src[start..si], si - ref, len)]
    requires Covers(bs', src, si + len)
    ensures Turned(src, tr, Probed(si, ref, len), bs', si + len, si + len)
  {
    OneTurn(src, tr, Probed(si, ref, len));
  }

  lemma LiteralLeft(src: seq<byte>, tr: seq<Probed>, bs: seq<Block>, si: nat, start: nat, ref: int)
    requires Progress(src, tr, bs, si, start) && LookedUp(src, tr, si, ref) && !Usable(src, ref, si)
    ensures Turned(src, tr, Probed(si, ref, 0), bs, si + 1, start) && WellFormed(bs)
  {
    OneTurn(src, tr, Probed(si, ref, 0));
    assert bs + [] == bs;
  }

  lemma NowRecorded(before: seq<int>, after: seq<int>, src: seq<byte>, tr: seq<Probed>, s: Probed)
    requires Greedy(src, tr) && Chosen(src, tr, s) && Anchor(tr) <= s.at
    requires Holds(before, src, tr) && after == before[HashAt(src, s.at) := s.at]
    ensures Holds(after, src, tr + [s])
  {
    OneTurn(src, tr, s);
  }

  /** The match-finding loop, on a buffer of any capacity: 0 only if the buffer is too small. */
  method CompressBlocks(src: seq<byte>, dst: array<byte>)
    returns (n: nat, ghost bs: seq<Block>, ghost anchor: nat, ghost tr: seq<Probed>)
    requires |src| <= 0x7fff_ffff
    modifies dst
    ensures n == 0 ==> dst.Length < |src| + |src| / 255 + 2
    ensures n > 0 ==> n <= dst.Length && Covers(bs, src, anchor) && bs == BlocksOf(src, tr) && anchor == Anchor(tr)
    ensures n > 0 ==> GreedyText(src, tr, dst[..n])
  {
    var table := new int[HASH_SIZE](_ => -1);
    var si: nat, di: nat, start: nat := 0, 0, 0;
    bs, n, anchor, tr := [], 0, 0, [];
    while si + MIN_MATCH <= |src|
      invariant di <= dst.Length && fresh(table) && Holds(table[..], src, tr)
      invariant Progress(src, tr, bs, si, start) && dst[..di] == EncodeBlocks(bs)
    {
      ghost var before := table[..];
      var ref := Probe(table, src, si, tr);
      var ok;
      ghost var s;
      di, si, start, ok, s, bs := Take(src, dst, di, start, si, ref, tr, bs);
      if !ok {
        return;
      }
      NowRecorded(before, table[..], src, tr, s);
      tr := tr + [s];
    }
    anchor := start;
    n := PutLast(src, dst, di, start, bs);
  }

  /** The literals after the last match. */
  method PutLast(src: seq<byte>, dst: array<byte>, at: nat, start: nat, ghost bs: seq<Block>) returns (n: nat)
    requires at <= dst.Length && Covers(bs, src, start) && dst[..at] == EncodeBlocks(bs)
    modifies dst
    ensures n == 0 ==> dst.Length < |src| + |src| / 255 + 2
    ensures n > 0 ==> n <= dst.Length && dst[..n] == EncodeBlocks(bs) + EncodeLiterals(src[start..], 0)
  {
    CoversSize(bs, src, start);
    var ok;
    n, ok := PutLiterals(dst, at, src[start..], 0);
    if !ok {
      n := 0;
    }
  }

  /**
    The whole compressor.  The store path writes without testing the capacity, so the
    buffer must hold at least the stored form; any such buffer gives a text that decodes
    to the source, of at most |src| + |src| / 255 + 2 bytes.
   */
  method Compress(src: seq<byte>, dst: array<byte>) returns (n: nat)
    requires |src| <= 0x7fff_ffff && |EncodeLiterals(src, 0)| <= dst.Length
    modifies dst
    ensures 0 < n <= dst.Length && n <= |src| + |src| / 255 + 2
    ensures forall cap: nat :: |src| <= cap ==> Decode(dst[..n], [], cap) == Done(src)
    ensures if |src| < 4 || dst.Length < |src| + |src| / 255 + 16 then dst[..n] == EncodeLiterals(src, 0)
            else exists tr :: GreedyText(src, tr, dst[..n])
  {
    ghost var bs: seq<Block>, anchor: nat, tr: seq<Probed> := [], 0, [];
    if |src| < MIN_MATCH || dst.Length < |src| + |src| / 255 + 16 {
      var ok;
      n, ok := PutLiterals(dst, 0, src, 0);
      assert src[0..] == src;
      assert dst[..n] == EncodeBlocks(bs) + EncodeLiterals(src[anchor..], 0);
    } else {
      n, bs, anchor, tr := CompressBlocks(src, dst);
    }
    assert Covers(bs, src, anchor);
    CoversSize(bs, src, anchor);
    CoversDecodes(bs, src, anchor, dst[..n]);
  }

  lemma CoversDecodes(bs: seq<Block>, src: seq<byte>, anchor: nat, text: seq<byte>)
    requires Covers(bs, src, anchor) && text == EncodeBlocks(bs) + EncodeLiterals(src[anchor..], 0)
    ensures forall cap: nat :: |src| <= cap ==> Decode(text, [], cap) == Done(src)
  {
    assert src[..anchor] + src[anchor..] == src;
    forall cap: nat | |src| <= cap ensures Decode(text, [], cap) == Done(src) {
      RoundTrip(bs, src[anchor..], cap);
    }
  }

  // ----- the decompressor -----

  /** Values of a 32-bit size_t. */
  const SIZE := 0x1_0000_0000
  type Size = x: int | 0 <= x < SIZE

  /** The reading loop sums in size_t, wrap-around included. */
  method ReadExtra(src: seq<byte>, at: nat, len: Size) returns (si: nat, total: Size)
    requires at <= |src|
    ensures si == at + ExtraCount(src[at..]) && total == (len + ExtraSum(src[at..])) % SIZE
  {
    si, total := at, len;
    ghost var sum: nat := len;
    while si < |src|
      invariant at <= si <= |src| && total == sum % SIZE
      invariant si + ExtraCount(src[si..]) == at + ExtraCount(src[at..])
      invariant sum + ExtraSum(src[si..]) == len + ExtraSum(src[at..])
    {
      var b := src[si];
      assert src[si..][0] == b && src[si..][1..] == src[si + 1..];
      si := si + 1;
      total := (total + b) % SIZE;
      WrapStep(sum, b);
      sum := sum + b;
      if b < 255 {
        return;
      }
    }
  }

  lemma WrapStep(x: nat, b: nat)
    ensures (x % SIZE + b) % SIZE == (x + b) % SIZE
  {
  }

  /** No length that the text can spell reaches the width, even added to a position in either buffer. */
  predicate Narrow(src: seq<byte>, cap: nat) {
    15 + 255 * |src| + MIN_MATCH + cap + |src| < SIZE
  }

  lemma {:induction false} ExtraSumBound(s: seq<byte>)
    ensures ExtraSum(s) <= 255 * |s|
  {
    if s != [] {
      ExtraSumBound(s[1..]);
    }
  }

  /** A text as long as this spells a length of 2^32 + 1: the program reads 1 and copies a byte that follows. */
  lemma LengthCanWrap(cap: nat, b: byte)
    requires cap < SIZE
    ensures
      var s := [0xF0] + (Extra(SIZE - 14) + [b]);
      && TailSum(s[0] / 16, s[1..]) % SIZE == 1 && s[1..][TailCount(s[0] / 16, s[1..])..] == [b]
      && Decode(s, [], cap) == Failed
  {
    var s := [0xF0] + (Extra(SIZE - 14) + [b]);
    assert s[0] == 0xF0 && s[1..] == Extra(SIZE - 14) + [b];
    ExtraRoundTrip(SIZE - 14, [b]);
  }

  method CopyMatch(dst: array<byte>, at: nat, offset: nat, count: nat) returns (di: nat)
    requires 1 <= offset <= at && at + count <= dst.Length
    modifies dst
    ensures di == at + count && dst[..di] == Copy(old(dst[..at]), offset, count)
  {
    di := at;
    var ref := at - offset;
    var j := 0;
    while j < count
      invariant 0 <= j <= count && di == at + j
      invariant Copy(dst[..di], offset, count - j) == Copy(old(dst[..at]), offset, count)
    {
      ghost var before := dst[..di];
      dst[di] := dst[ref + j];
      di := di + 1;
      j := j + 1;
      assert dst[..di] == before + [before[|before| - offset]];
    }
  }

  datatype Status = Broken | Ended | Going

  /** A decoder step leaves the buffer and the cursors where the function says. */
  ghost predicate Agrees(r: Step, status: Status, rest: seq<byte>, out: seq<byte>) {
    match r
    case Fail => status == Broken
    case Stop(o) => status == Ended && out == o
    case More(s, o) => status == Going && rest == s && out == o
  }

  method ReadMatch(src: seq<byte>, at: nat, dst: array<byte>, from: nat, nibble: nat, ghost r: Step)
    returns (status: Status, si: Size, di: Size)
    requires nibble < 16 && at <= |src| && from <= dst.Length && r == DecodeMatch(nibble, src[at..], dst[..from], dst.Length)
    requires |src| < SIZE && dst.Length < SIZE && (r.Fail? ==> Narrow(src, dst.Length))
    modifies dst
    ensures si <= |src| && di <= dst.Length && Agrees(r, status, src[si..], dst[..di])
  {
    si, di := at, from;
    if nibble == 0 && si >= |src| {
      return Ended, si, di;
    }
    if si + 2 > |src| {
      return Ended, si, di;
    }
    var offset := Offset(src[si], src[si + 1]);
    assert src[at..][0] == src[si] && src[at..][1] == src[si + 1] && src[at..][2..] == src[si + 2..];
    assert r == DecodeCopy(nibble, offset, src[si + 2..], dst[..from], dst.Length);
    status, si, di := ReadCopy(src, si + 2, dst, from, nibble, offset, r);
  }

  method ReadCopyLength(src: seq<byte>, at: nat, nibble: nat) returns (si: Size, len: Size)
    requires nibble < 16 && at <= |src| < SIZE
    ensures si == at + TailCount(nibble, src[at..]) && len == (TailSum(nibble, src[at..]) + MIN_MATCH) % SIZE
  {
    si, len := at, nibble + MIN_MATCH;
    if nibble == 15 {
      si, len := ReadExtra(src, si, len);
    }
  }

  method ReadCopy(src: seq<byte>, at: nat, dst: array<byte>, from: nat, nibble: nat, offset: nat, ghost r: Step)
    returns (status: Status, si: Size, di: Size)
    requires nibble < 16 && at <= |src| && from <= dst.Length && r == DecodeCopy(nibble, offset, src[at..], dst[..from], dst.Length)
    requires |src| < SIZE && dst.Length < SIZE && (r.Fail? ==> Narrow(src, dst.Length))
    modifies dst
    ensures si <= |src| && di <= dst.Length && Agrees(r, status, src[si..], dst[..di])
  {
    si, di := at, from;
    if offset == 0 || di < offset {
      return Broken, si, di;
    }
    var len;
    si, len := ReadCopyLength(src, at, nibble);
    ghost var spelled := TailSum(nibble, src[at..]) + MIN_MATCH;
    ExtraSumBound(src[at..]);
    assert src[si..] == src[at..][TailCount(nibble, src[at..])..];
    NotWrapped(spelled, len, from, 0, |src|, dst.Length, r.Fail?);
    status, di := PutCopy(dst, from, offset, len, r, src[si..]);
  }

  /** The capacity test and the copying loop. */
  method PutCopy(dst: array<byte>, from: nat, offset: nat, len: Size, ghost r: Step, ghost rest: seq<byte>)
    returns (status: Status, di: Size)
    requires 1 <= offset <= from <= dst.Length < SIZE && from + len < SIZE
    requires r == CopyStep(offset, len, rest, dst[..from], dst.Length)
    modifies dst
    ensures di <= dst.Length && Agrees(r, status, rest, dst[..di])
  {
    di := from;
    var end: Size := di + len;
    if end > dst.Length {
      return Broken, di;
    }
    di := CopyMatch(dst, di, offset, len);
    status := Going;
  }

  method ReadBlock(src: seq<byte>, at: nat, dst: array<byte>, from: nat, ghost r: Step)
    returns (status: Status, si: Size, di: Size)
    requires at < |src| && from <= dst.Length && r == DecodeBlock(src[at..], dst[..from], dst.Length)
    requires |src| < SIZE && dst.Length < SIZE && (r.Fail? ==> Narrow(src, dst.Length))
    modifies dst
    ensures si <= |src| && di <= dst.Length && Agrees(r, status, src[si..], dst[..di])
  {
    var len;
    si, len := ReadLength(src, at);
    ghost var spelled := TailSum(src[at] / 16, src[at + 1..]);
    BlockHead(src, at, si, spelled, dst[..from], dst.Length);
    SpelledBound(src, at);
    NotWrapped(spelled, len, from, si, |src|, dst.Length, r.Fail?);
    status, si, di := ReadLiterals(src, si, dst, from, src[at] % 16, len, r);
  }

  /** The two tests, the literals and what follows them. */
  method ReadLiterals(src: seq<byte>, at: nat, dst: array<byte>, from: nat, nibble: nat, len: Size, ghost r: Step)
    returns (status: Status, si: Size, di: Size)
    requires at <= |src| && from <= dst.Length && r == DecodeLiterals(nibble, len, src[at..], dst[..from], dst.Length)
    requires |src| < SIZE && dst.Length < SIZE && (r.Fail? ==> Narrow(src, dst.Length))
    requires nibble < 16 && from + len < SIZE && at + len < SIZE
    modifies dst
    ensures si <= |src| && di <= dst.Length && Agrees(r, status, src[si..], dst[..di])
  {
    var outEnd: Size, inEnd: Size := from + len, at + len;
    if outEnd > dst.Length || inEnd > |src| {
      return Broken, at, from;
    }
    ghost var t := src[at..];
    assert t[len..] == src[inEnd..] && t[..len] == src[at..inEnd];
    var ok;
    di, ok := PutBytes(dst, from, src[at..inEnd]);
    status, si, di := ReadMatch(src, inEnd, dst, di, nibble, r);
  }

  /** The token and the extra literal length. */
  method ReadLength(src: seq<byte>, at: nat) returns (si: Size, len: Size)
    requires at < |src| < SIZE
    ensures at < si <= |src| && len == TailSum(src[at] / 16, src[at + 1..]) % SIZE
    ensures si == at + 1 + TailCount(src[at] / 16, src[at + 1..])
  {
    si, len := at + 1, src[at] / 16;
    if len == 15 {
      si, len := ReadExtra(src, si, len);
    }
  }

  lemma SpelledBound(src: seq<byte>, at: nat)
    requires at < |src|
    ensures TailSum(src[at] / 16, src[at + 1..]) <= 15 + 255 * |src|
  {
    ExtraSumBound(src[at + 1..]);
  }

  /** What the program reads as a length is what the text spells, and adds up without wrap-around. */
  lemma NotWrapped(spelled: nat, len: nat, out: nat, si: nat, n: nat, cap: nat, fail: bool)
    requires len == spelled % SIZE && spelled <= 15 + 255 * n + MIN_MATCH && out <= cap < SIZE && si <= n < SIZE
    requires if fail then 15 + 255 * n + MIN_MATCH + cap + n < SIZE else out + spelled <= cap && (si == 0 || si + spelled <= n)
    ensures len == spelled && out + len < SIZE && si + len < SIZE
  {
  }

  lemma BlockHead(src: seq<byte>, at: nat, si: nat, len: nat, out: seq<byte>, cap: nat)
    requires at < si <= |src| && len == TailSum(src[at] / 16, src[at + 1..])
    requires si == at + 1 + TailCount(src[at] / 16, src[at + 1..])
    ensures DecodeBlock(src[at..], out, cap) == DecodeLiterals(src[at] % 16, len, src[si..], out, cap)
  {
    var s := src[at..];
    assert s[0] == src[at] && s[1..] == src[at + 1..];
    assert s[1..][TailCount(s[0] / 16, s[1..])..] == src[si..];
  }

  /**
    The decompressor computes Decode; errors give 0.  Sums of lengths are not tested for
    wrap-around, so a text that is to be refused must be too short to spell a length of 2^32.
   */
  method Decompress(src: seq<byte>, dst: array<byte>) returns (n: nat)
    requires |src| < SIZE && dst.Length < SIZE
    requires Decode(src, [], dst.Length).Failed? ==> Narrow(src, dst.Length)
    modifies dst
    ensures n <= dst.Length
    ensures match Decode(src, [], dst.Length)
            case Failed => n == 0
            case Done(out) => dst[..n] == out
  {
    var si: Size, di: Size := 0, 0;
    assert src[0..] == src;
    while si < |src|
      invariant si <= |src| && di <= dst.Length
      invariant Decode(src[si..], dst[..di], dst.Length) == Decode(src, [], dst.Length)
      decreases |src| - si
    {
      var status;
      ghost var r := DecodeBlock(src[si..], dst[..di], dst.Length);
      status, si, di := ReadBlock(src, si, dst, di, r);
      if status == Broken {
        return 0;
      }
      if status == Ended {
        return di;
      }
    }
    return di;
  }

  /** Compress, then decompress into a buffer that can hold the source: the source comes back. */
  method CompressThenDecompress(src: seq<byte>, packed: array<byte>, dst: array<byte>) returns (n: nat)
    requires |src| <= 0x7fff_ffff && |EncodeLiterals(src, 0)| <= packed.Length && |src| <= dst.Length < SIZE
    modifies packed, dst
    ensures n == |src| && dst[..n] == src
  {
    var m := Compress(src, packed);
    n := Decompress(packed[..m], dst);
  }
}
