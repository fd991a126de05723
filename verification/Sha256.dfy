/**
  Streaming SHA-256 (test/realworld/c/sha256_hash.c) against the definition of the hash
  on a whole message: pad it (section 5.1.1 of FIPS 180-4), cut it into 64-byte blocks,
  fold the compression function over them.
 */
module Sha256 {

  type byte = bv8
  type word = bv32

  // ----- the compression function (sections 4.1.2 and 6.2 of FIPS 180-4) -----

  /** The round constants, as a table. */
  function K(i: nat): word {
    if i < 16 then
      if i == 0 then 0x428a2f98 else if i == 1 then 0x71374491 else if i == 2 then 0xb5c0fbcf else if i == 3 then 0xe9b5dba5 else
      if i == 4 then 0x3956c25b else if i == 5 then 0x59f111f1 else if i == 6 then 0x923f82a4 else if i == 7 then 0xab1c5ed5 else
      if i == 8 then 0xd807aa98 else if i == 9 then 0x12835b01 else if i == 10 then 0x243185be else if i == 11 then 0x550c7dc3 else
      if i == 12 then 0x72be5d74 else if i == 13 then 0x80deb1fe else if i == 14 then 0x9bdc06a7 else if i == 15 then 0xc19bf174 else 0
    else if i < 32 then
      if i == 16 then 0xe49b69c1 else if i == 17 then 0xefbe4786 else if i == 18 then 0x0fc19dc6 else if i == 19 then 0x240ca1cc else
      if i == 20 then 0x2de92c6f else if i == 21 then 0x4a7484aa else if i == 22 then 0x5cb0a9dc else if i == 23 then 0x76f988da else
      if i == 24 then 0x983e5152 else if i == 25 then 0xa831c66d else if i == 26 then 0xb00327c8 else if i == 27 then 0xbf597fc7 else
      if i == 28 then 0xc6e00bf3 else if i == 29 then 0xd5a79147 else if i == 30 then 0x06ca6351 else if i == 31 then 0x14292967 else 0
    else if i < 48 then
      if i == 32 then 0x27b70a85 else if i == 33 then 0x2e1b2138 else if i == 34 then 0x4d2c6dfc else if i == 35 then 0x53380d13 else
      if i == 36 then 0x650a7354 else if i == 37 then 0x766a0abb else if i == 38 then 0x81c2c92e else if i == 39 then 0x92722c85 else
      if i == 40 then 0xa2bfe8a1 else if i == 41 then 0xa81a664b else if i == 42 then 0xc24b8b70 else if i == 43 then 0xc76c51a3 else
      if i == 44 then 0xd192e819 else if i == 45 then 0xd6990624 else if i == 46 then 0xf40e3585 else if i == 47 then 0x106aa070 else 0
    else
      if i == 48 then 0x19a4c116 else if i == 49 then 0x1e376c08 else if i == 50 then 0x2748774c else if i == 51 then 0x34b0bcb5 else
      if i == 52 then 0x391c0cb3 else if i == 53 then 0x4ed8aa4a else if i == 54 then 0x5b9cca4f else if i == 55 then 0x682e6ff3 else
      if i == 56 then 0x748f82ee else if i == 57 then 0x78a5636f else if i == 58 then 0x84c87814 else if i == 59 then 0x8cc70208 else
      if i == 60 then 0x90befffa else if i == 61 then 0xa4506ceb else if i == 62 then 0xbef9a3f7 else if i == 63 then 0xc67178f2 else 0
  }

  function Ch(x: word, y: word, z: word): word { (x & y) ^ (!x & z) }
  function Maj(x: word, y: word, z: word): word { (x & y) ^ (x & z) ^ (y & z) }
  function Ep0(x: word): word { ((x >> 2) | (x << 30)) ^ ((x >> 13) | (x << 19)) ^ ((x >> 22) | (x << 10)) }
  function Ep1(x: word): word { ((x >> 6) | (x << 26)) ^ ((x >> 11) | (x << 21)) ^ ((x >> 25) | (x << 7)) }
  function Sig0(x: word): word { ((x >> 7) | (x << 25)) ^ ((x >> 18) | (x << 14)) ^ (x >> 3) }
  function Sig1(x: word): word { ((x >> 17) | (x << 15)) ^ ((x >> 19) | (x << 13)) ^ (x >> 10) }

  datatype State = State(a: word, b: word, c: word, d: word, e: word, f: word, g: word, h: word)

  const INITIAL := State(0x6a09e667, 0xbb67ae85, 0x3c6ef372, 0xa54ff53a, 0x510e527f, 0x9b05688c, 0x1f83d9ab, 0x5be0cd19)

  function BigEndianWord(block: seq<byte>, i: nat): word
    requires 4 * i + 4 <= |block|
  {
    ((block[4 * i] as word) << 24) | ((block[4 * i + 1] as word) << 16)
    | ((block[4 * i + 2] as word) << 8) | (block[4 * i + 3] as word)
  }

  function Mix(a: word, b: word, c: word, d: word): word { Sig1(a) + b + Sig0(c) + d }

  function NextWord(w: seq<word>): word
    requires |w| >= 16
  {
    var t := |w|;
    Mix(w[t - 2], w[t - 7], w[t - 15], w[t - 16])
  }

  /** The first n words of the message schedule. */
  function Schedule(block: seq<byte>, n: nat): (w: seq<word>)
    requires |block| == 64
    ensures |w| == n
  {
    if n == 0 then []
    else
      var w := Schedule(block, n - 1);
      w + [if n <= 16 then BigEndianWord(block, n - 1) else NextWord(w)]
  }

  function Round(s: State, k: word, w: word): State {
    var t1 := s.h + Ep1(s.e) + Ch(s.e, s.f, s.g) + k + w;
    var t2 := Ep0(s.a) + Maj(s.a, s.b, s.c);
    State(t1 + t2, s.a, s.b, s.c, s.d + t1, s.e, s.f, s.g)
  }

  function Rounds(s: State, w: seq<word>, n: nat): State
    requires |w| == 64 && n <= 64
  {
    if n == 0 then s else Round(Rounds(s, w, n - 1), K(n - 1), w[n - 1])
  }

  function Plus(s: State, t: State): State {
    State(s.a + t.a, s.b + t.b, s.c + t.c, s.d + t.d, s.e + t.e, s.f + t.f, s.g + t.g, s.h + t.h)
  }

  /** 64 rounds, added to the old state. */
  function Compress(s: State, block: seq<byte>): State {
    var n := |block|;
    if n != 64 then s else Plus(s, Rounds(s, Schedule(block, n), n))
  }

  // ----- the hash of a whole message -----

  /** Any compression function over all complete blocks, in order. */
  function Fold<S>(f: (S, seq<byte>) -> S, s: S, bytes: seq<byte>): S
    decreases |bytes|
  {
    if |bytes| < 64 then s else Fold(f, f(s, bytes[..64]), bytes[64..])
  }

  function Zeros(n: nat): (z: seq<byte>)
    ensures |z| == n && forall i :: 0 <= i < n ==> z[i] == 0
  {
    seq(n, _ => 0)
  }

  function ByteOf(n: nat): byte {
    (n % 256) as byte
  }

  /** n shifted right by j bytes. */
  function Shift(n: nat, j: nat): nat {
    if j == 0 then n else Shift(n, j - 1) / 256
  }

  /** A 64-bit number, most significant byte first. */
  function BigEndian64(n: nat): (s: seq<byte>)
    ensures |s| == 8
  {
    seq(8, i requires 0 <= i < 8 => ByteOf(Shift(n, 7 - i)))
  }

  /** A one bit, the fewest zeros that fill the block, and the length in bits. */
  function Pad(m: seq<byte>): (p: seq<byte>) {
    m + [0x80] + Zeros(ZeroCount(|m| % 64)) + BigEndian64(8 * |m|)
  }

  /** How many zeros complete a block that ends with r bytes, a marker and eight length bytes. */
  function ZeroCount(r: nat): (z: nat)
    requires r < 64
    ensures z < 64 && (r + 1 + z + 8) % 64 == 0
  {
    if r < 56 then 55 - r else 119 - r
  }

  /** Padding gives whole blocks, and as few as possible. */
  lemma PadLength(m: seq<byte>)
    ensures |Pad(m)| % 64 == 0 && |m| + 9 <= |Pad(m)| < |m| + 9 + 64
  {
    WholeBlocks(|m|, ZeroCount(|m| % 64));
  }

  lemma WholeBlocks(n: nat, z: nat)
    requires (n % 64 + 1 + z + 8) % 64 == 0
    ensures (n + 1 + z + 8) % 64 == 0
  {
  }

  function WordBytes(w: word): seq<byte> {
    [((w >> 24) & 0xff) as byte, ((w >> 16) & 0xff) as byte, ((w >> 8) & 0xff) as byte, (w & 0xff) as byte]
  }

  function Output(s: State): seq<byte> {
    WordBytes(s.a) + WordBytes(s.b) + WordBytes(s.c) + WordBytes(s.d)
    + WordBytes(s.e) + WordBytes(s.f) + WordBytes(s.g) + WordBytes(s.h)
  }

  /** The hash with any compression function f. */
  function HashWith(f: (State, seq<byte>) -> State, m: seq<byte>): seq<byte> {
    Output(Fold(f, INITIAL, Pad(m)))
  }

  function Hash(m: seq<byte>): seq<byte> {
    HashWith(Compress, m)
  }

  // ----- folding piece by piece -----

  lemma {:induction false} FoldConcat<S>(f: (S, seq<byte>) -> S, s: S, x: seq<byte>, y: seq<byte>)
    requires |x| % 64 == 0
    ensures Fold(f, s, x + y) == Fold(f, Fold(f, s, x), y)
    decreases |x|
  {
    if |x| == 0 {
      assert x + y == y;
    } else {
      assert (x + y)[..64] == x[..64] && (x + y)[64..] == x[64..] + y;
      FoldConcat(f, f(s, x[..64]), x[64..], y);
    }
  }

  lemma FoldOne<S>(f: (S, seq<byte>) -> S, s: S, block: seq<byte>)
    requires |block| == 64
    ensures Fold(f, s, block) == f(s, block)
  {
    assert block[..64] == block && block[64..] == [];
  }

  /** The last one or two blocks of a padded message. */
  function LastBlocks(tail: seq<byte>, bits: nat): (r: seq<byte>)
    requires |tail| < 64
  {
    tail + [0x80] + Zeros(ZeroCount(|tail|)) + BigEndian64(bits)
  }

  lemma PadSplit(m: seq<byte>, k: nat)
    requires k == |m| - |m| % 64
    ensures Pad(m) == m[..k] + LastBlocks(m[k..], 8 * |m|)
  {
    assert m == m[..k] + m[k..];
  }

  // ----- the program -----

  /** The schedule loops of sha256_transform. */
  method FillSchedule(block: seq<byte>) returns (w: seq<word>)
    requires |block| == 64
    ensures w == Schedule(block, 64)
  {
    w := [];
    var i := 0;
    while i < 16
      invariant 0 <= i <= 16 && w == Schedule(block, i)
    {
      w := w + [BigEndianWord(block, i)];
      i := i + 1;
    }
    while i < 64
      invariant 16 <= i <= 64 && w == Schedule(block, i)
    {
      w := w + [NextWord(w)];
      i := i + 1;
    }
  }

  /** f is the compression function; the streaming proofs use f and never look inside it. */
  ghost predicate IsCompress(f: (State, seq<byte>) -> State) {
    forall s, block {:trigger Compress(s, block)} :: f(s, block) == Compress(s, block)
  }

  /** sha256_transform */
  method Transform(s: State, block: seq<byte>, ghost f: (State, seq<byte>) -> State) returns (r: State)
    requires |block| == 64 && IsCompress(f)
    ensures r == f(s, block)
  {
    var w := FillSchedule(block);
    var v := s;
    var i := 0;
    while i < 64
      invariant 0 <= i <= 64 && v == Rounds(s, w, i)
    {
      v := Round(v, K(i), w[i]);
      i := i + 1;
    }
    r := Plus(s, v);
    assert r == Compress(s, block);
  }

  class Context {
    const data: array<byte>
    var datalen: nat
    var bitlen: nat
    var state: State
    ghost var message: seq<byte>

    /** The context holds the message so far: whole blocks folded, the rest in the buffer. */
    ghost predicate Valid(f: (State, seq<byte>) -> State)
      reads this, data
    {
      data.Length == 64 && datalen < 64 && Holds(f, INITIAL, message, data[..datalen], bitlen, state)
    }

    /** sha256_init */
    constructor (ghost f: (State, seq<byte>) -> State)
      ensures Valid(f) && fresh(data) && message == []
    {
      data := new byte[64];
      datalen := 0;
      bitlen := 0;
      state := INITIAL;
      message := [];
    }

    /** One turn of the sha256_update loop. */
    method Push(b: byte, ghost f: (State, seq<byte>) -> State)
      requires Valid(f) && IsCompress(f)
      modifies this, data
      ensures Valid(f) && message == old(message) + [b]
    {
      ghost var tail := data[..datalen];
      data[datalen] := b;
      datalen := datalen + 1;
      assert data[..datalen] == tail + [b];
      if datalen == 64 {
        assert data[..] == tail + [b];
        Flush(tail, b, f);
      } else {
        HoldsByte(f, INITIAL, message, tail, bitlen, state, b);
        message := message + [b];
      }
    }

    /** The buffer is full: fold it. */
    method Flush(ghost tail: seq<byte>, ghost b: byte, ghost f: (State, seq<byte>) -> State)
      requires data.Length == 64 && data[..] == tail + [b] && IsCompress(f)
      requires Holds(f, INITIAL, message, tail, bitlen, state)
      modifies this
      ensures Valid(f) && message == old(message) + [b]
    {
      var r := Transform(state, data[..], f);
      var bits := (bitlen + 512) % 0x1_0000_0000_0000_0000;
      HoldsBlock(f, INITIAL, message, tail, bitlen, state, b, bits, r);
      state := r;
      bitlen := bits;
      datalen := 0;
      message := message + [b];
      assert data[..datalen] == [];
    }

    /** sha256_update: the message grows by exactly the bytes given. */
    method Update(bytes: seq<byte>, ghost f: (State, seq<byte>) -> State)
      requires Valid(f) && IsCompress(f)
      modifies this, data
      ensures Valid(f) && message == old(message) + bytes
    {
      var i := 0;
      while i < |bytes|
        invariant 0 <= i <= |bytes| && Valid(f) && message == old(message) + bytes[..i]
      {
        Push(bytes[i], f);
        i := i + 1;
      }
    }

    method ZeroFill(from: nat, to: nat)
      requires from <= to <= data.Length
      modifies data
      ensures data[..to] == old(data[..from]) + Zeros(to - from)
    {
      var i := from;
      while i < to
        invariant from <= i <= to && data[..i] == old(data[..from]) + Zeros(i - from)
      {
        data[i] := 0;
        i := i + 1;
      }
    }

    /** The loop that stores the bit length in the last eight bytes. */
    method PutLength(bits: nat)
      requires data.Length == 64
      modifies data
      ensures data[..] == old(data[..56]) + BigEndian64(bits)
    {
      var j := 7;
      while j >= 0
        invariant -1 <= j <= 7
        invariant data[..56] == old(data[..56])
        invariant forall i :: 0 <= i < 7 - j ==> data[56 + i] == BigEndian64(bits)[i]
      {
        data[56 + (7 - j)] := ByteOf(Shift(bits, j));
        j := j - 1;
      }
    }

    /** The first of two last blocks, when the length does not fit behind the marker. */
    method FlushMarked(i: nat, ghost f: (State, seq<byte>) -> State, ghost marked: seq<byte>)
      requires data.Length == 64 && i == |marked| <= 64 && data[..i] == marked && IsCompress(f)
      modifies this`state, data
      ensures state == f(old(state), marked + Zeros(64 - |marked|))
    {
      ZeroFill(i, 64);
      assert data[..] == data[..64];
      state := Transform(state, data[..], f);
    }

    /** The last block: zeros up to the length, then the length. */
    method FlushLast(i: nat, bits: nat, ghost f: (State, seq<byte>) -> State, ghost begin: seq<byte>)
      requires data.Length == 64 && i == |begin| <= 56 && data[..i] == begin && IsCompress(f)
      modifies this`state, data
      ensures state == f(old(state), begin + Zeros(56 - |begin|) + BigEndian64(bits))
    {
      ZeroFill(i, 56);
      PutLength(bits);
      state := Transform(state, data[..], f);
    }

    /** Marker, zeros and length: one more block or two. */
    method FlushTail(bits: nat, ghost f: (State, seq<byte>) -> State, ghost tail: seq<byte>)
      requires data.Length == 64 && datalen == |tail| < 64 && data[..datalen] == tail && IsCompress(f)
      modifies this`state, data
      ensures state == Fold(f, old(state), LastBlocks(tail, bits))
    {
      LastBlocksFold(f, state, tail, bits);
      var i := datalen;
      data[i] := 0x80;
      i := i + 1;
      ghost var begin := tail + [0x80];
      assert data[..i] == begin;
      if i > 56 {
        FlushMarked(i, f, begin);
        i := 0;
        begin := [];
        assert data[..i] == begin;
      }
      FlushLast(i, bits, f, begin);
    }

    /** sha256_final up to the output: the state is the fold over the padded message. */
    method Finish(ghost f: (State, seq<byte>) -> State)
      requires Valid(f) && IsCompress(f) && 8 * |message| < 0x1_0000_0000_0000_0000
      modifies this, data
      ensures state == Fold(f, INITIAL, Pad(message)) && message == old(message)
    {
      LastFold(f, INITIAL, message, data[..datalen], bitlen, state);
      FlushEnd(f, Fold(f, INITIAL, Pad(message)));
    }

    /** The bit count and the last blocks bring the state to the given result. */
    method FlushEnd(ghost f: (State, seq<byte>) -> State, ghost result: State)
      requires data.Length == 64 && datalen < 64 && IsCompress(f)
      requires result == Fold(f, state, LastBlocks(data[..datalen], (bitlen + 8 * datalen) % 0x1_0000_0000_0000_0000))
      modifies this`bitlen, this`state, data
      ensures state == result
    {
      ghost var tail := data[..datalen];
      bitlen := (bitlen + 8 * datalen) % 0x1_0000_0000_0000_0000;
      FlushTail(bitlen, f, tail);
    }

    /** sha256_final: the hash of the message, however it was cut into updates. */
    method Final(ghost f: (State, seq<byte>) -> State) returns (hash: seq<byte>)
      requires Valid(f) && IsCompress(f) && 8 * |message| < 0x1_0000_0000_0000_0000
      modifies this, data
      ensures hash == HashWith(f, message) && message == old(message)
    {
      Finish(f);
      hash := Output(state);
    }
  }

  /** With the bytes still in the buffer, the bit count is that of the whole message. */
  lemma TotalBits(n: nat)
    requires 8 * n < 0x1_0000_0000_0000_0000
    ensures (BlockBits(n) + 8 * (n % 64)) % 0x1_0000_0000_0000_0000 == 8 * n
  {
    assert n == 64 * (n / 64) + n % 64;
  }

  /** What the last blocks must complete, with the bit count the program writes there. */
  lemma LastFold<S(!new)>(f: (S, seq<byte>) -> S, init: S, m: seq<byte>, tail: seq<byte>, bits: nat, s: S)
    requires Holds(f, init, m, tail, bits, s) && 8 * |m| < 0x1_0000_0000_0000_0000
    ensures Fold(f, init, Pad(m)) == Fold(f, s, LastBlocks(tail, (bits + 8 * |tail|) % 0x1_0000_0000_0000_0000))
  {
    TotalBits(|m|);
    PaddedFold(f, m, tail, s, init);
  }

  /** The one or two last blocks, as the program assembles them. */
  lemma LastBlocksFold<S>(f: (S, seq<byte>) -> S, s: S, tail: seq<byte>, bits: nat)
    requires |tail| < 64
    ensures Fold(f, s, LastBlocks(tail, bits))
         == if |tail| < 56 then f(s, tail + [0x80] + Zeros(56 - (|tail| + 1)) + BigEndian64(bits))
            else f(f(s, tail + [0x80] + Zeros(64 - (|tail| + 1))), [] + Zeros(56) + BigEndian64(bits))
  {
    var p := LastBlocks(tail, bits);
    if |tail| < 56 {
      FoldOne(f, s, p);
    } else {
      var x, y := tail + [0x80] + Zeros(64 - (|tail| + 1)), [] + Zeros(56) + BigEndian64(bits);
      ZerosConcat(64 - (|tail| + 1), 56);
      assert p == x + y;
      FoldConcat(f, s, x, y);
      FoldOne(f, s, x);
      FoldOne(f, f(s, x), y);
    }
  }

  lemma ZerosConcat(a: nat, b: nat)
    ensures Zeros(a) + Zeros(b) == Zeros(a + b)
  {
  }

  lemma PaddedFold<S(!new)>(f: (S, seq<byte>) -> S, m: seq<byte>, tail: seq<byte>, s: S, init: S)
    requires Holds(f, init, m, tail, BlockBits(|m|), s)
    ensures Fold(f, init, Pad(m)) == Fold(f, s, LastBlocks(tail, 8 * |m|))
  {
    var k := |m| - |tail|;
    PadSplit(m, k);
    FoldConcat(f, init, m[..k], LastBlocks(tail, 8 * |m|));
  }

  /** init, one update per piece, final. */
  method Stream(pieces: seq<seq<byte>>, ghost f: (State, seq<byte>) -> State, ghost whole: seq<byte>)
    returns (hash: seq<byte>)
    requires IsCompress(f) && whole == Flatten(pieces) && 8 * |whole| < 0x1_0000_0000_0000_0000
    ensures hash == HashWith(f, whole)
  {
    var c := new Context(f);
    NothingYet(c.message, pieces);
    UpdateAll(c, pieces, 0, f, whole);
    hash := c.Final(f);
  }

  lemma NothingYet(m: seq<byte>, pieces: seq<seq<byte>>)
    requires m == []
    ensures m + Flatten(pieces[0..]) == Flatten(pieces)
  {
    assert pieces[0..] == pieces;
  }

  /** One update per piece, from piece i on. */
  method UpdateAll(c: Context, pieces: seq<seq<byte>>, i: nat, ghost f: (State, seq<byte>) -> State, ghost whole: seq<byte>)
    requires c.Valid(f) && IsCompress(f) && i <= |pieces| && c.message + Flatten(pieces[i..]) == whole
    modifies c, c.data
    ensures c.Valid(f) && c.message == whole
    decreases |pieces| - i
  {
    if i < |pieces| {
      FlattenStep(c.message, pieces, i);
      c.Update(pieces[i], f);
      UpdateAll(c, pieces, i + 1, f, whole);
    } else {
      assert pieces[i..] == [];
    }
  }

  lemma FlattenStep(m: seq<byte>, pieces: seq<seq<byte>>, i: nat)
    requires i < |pieces|
    ensures (m + pieces[i]) + Flatten(pieces[i + 1..]) == m + Flatten(pieces[i..])
  {
    assert pieces[i..][1..] == pieces[i + 1..];
  }

  /** However a message is cut into pieces, the digest is that of their concatenation. */
  method HashPieces(pieces: seq<seq<byte>>) returns (hash: seq<byte>)
    requires 8 * |Flatten(pieces)| < 0x1_0000_0000_0000_0000
    ensures hash == Hash(Flatten(pieces))
  {
    hash := Stream(pieces, Compress, Flatten(pieces));
  }

  function Flatten(pieces: seq<seq<byte>>): seq<byte> {
    if pieces == [] then [] else pieces[0] + Flatten(pieces[1..])
  }

  /** tail is the incomplete block at the end of m, the rest has been folded into s. */
  ghost predicate Holds<S(!new)>(f: (S, seq<byte>) -> S, init: S, m: seq<byte>, tail: seq<byte>, bits: nat, s: S) {
    && |tail| == |m| % 64 && tail == m[|m| - |tail|..]
    && s == Fold(f, init, m[..|m| - |tail|]) && bits == BlockBits(|m|)
  }

  /** 512 for each whole block, in 64-bit arithmetic. */
  ghost function BlockBits(n: nat): nat {
    512 * (n / 64) % 0x1_0000_0000_0000_0000
  }

  function AddBlockBits(bits: nat): nat {
    (bits + 512) % 0x1_0000_0000_0000_0000
  }

  lemma SameBlock(n: nat)
    requires n % 64 < 63
    ensures (n + 1) % 64 == n % 64 + 1 && BlockBits(n + 1) == BlockBits(n)
  {
    assert (n + 1) / 64 == n / 64;
  }

  lemma NextBlock(n: nat)
    requires n % 64 == 63
    ensures (n + 1) % 64 == 0 && (n - 63) % 64 == 0 && BlockBits(n + 1) == AddBlockBits(BlockBits(n))
  {
    var q := n / 64;
    assert (n + 1) / 64 == q + 1;
    WrapBits(512 * q);
  }

  lemma WrapBits(x: nat)
    ensures (x + 512) % 0x1_0000_0000_0000_0000 == (x % 0x1_0000_0000_0000_0000 + 512) % 0x1_0000_0000_0000_0000
  {
  }

  lemma HoldsByte<S(!new)>(f: (S, seq<byte>) -> S, init: S, m: seq<byte>, tail: seq<byte>, bits: nat, s: S, b: byte)
    requires Holds(f, init, m, tail, bits, s) && |tail| < 63
    ensures Holds(f, init, m + [b], tail + [b], bits, s)
  {
    var k := |m| - |tail|;
    SameBlock(|m|);
    assert (m + [b])[..k] == m[..k] && (m + [b])[k..] == m[k..] + [b];
  }

  lemma HoldsBlock<S(!new)>(f: (S, seq<byte>) -> S, init: S, m: seq<byte>, tail: seq<byte>, bits: nat, s: S, b: byte,
                            bits': nat, s': S)
    requires Holds(f, init, m, tail, bits, s) && |tail| == 63 && bits' == AddBlockBits(bits) && s' == f(s, tail + [b])
    ensures Holds(f, init, m + [b], [], bits', s')
  {
    var m' := m + [b];
    NextBlock(|m|);
    FoldBlock(f, init, m[..|m| - 63], s, tail + [b]);
    assert m'[..|m'|] == m[..|m| - 63] + (tail + [b]);
  }

  lemma FoldBlock<S(!new)>(f: (S, seq<byte>) -> S, init: S, x: seq<byte>, s: S, block: seq<byte>)
    requires |x| % 64 == 0 && s == Fold(f, init, x) && |block| == 64
    ensures Fold(f, init, x + block) == f(s, block)
  {
    FoldConcat(f, init, x, block);
    FoldOne(f, s, block);
  }
}
