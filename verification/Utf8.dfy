/**
  UTF-8 validation and counting (test/realworld/c/utf8_validate.c), against the
  encoding of sections 3 and 4 of RFC 3629.
 */
module Utf8 {

  type byte = x: int | 0 <= x < 256

  // ----- the encoding -----

  predicate Scalar(cp: int) {
    0 <= cp <= 0x10FFFF && !(0xD800 <= cp <= 0xDFFF)
  }

  function Encode(cp: int): (s: seq<byte>)
    requires Scalar(cp)
    ensures 1 <= |s| <= 4
  {
    if cp < 0x80 then [cp]
    else if cp < 0x800 then [0xC0 + cp / 64, 0x80 + cp % 64]
    else if cp < 0x10000 then [0xE0 + cp / 4096, 0x80 + cp / 64 % 64, 0x80 + cp % 64]
    else [0xF0 + cp / 262144, 0x80 + cp / 4096 % 64, 0x80 + cp / 64 % 64, 0x80 + cp % 64]
  }

  predicate Scalars(cps: seq<int>) {
    forall i :: 0 <= i < |cps| ==> Scalar(cps[i])
  }

  function EncodeAll(cps: seq<int>): seq<byte>
    requires Scalars(cps)
  {
    if cps == [] then [] else Encode(cps[0]) + EncodeAll(cps[1..])
  }

  // ----- one sequence, as the validator reads it -----

  /** Length announced by a lead byte, 0 if it cannot lead. */
  function LeadLength(b: byte): (n: nat)
    ensures n <= 4
  {
    if b <= 0x7F then 1 else if b / 32 == 6 then 2 else if b / 16 == 14 then 3 else if b / 8 == 30 then 4 else 0
  }

  function LeadBits(b: byte): nat {
    if b <= 0x7F then b else if b / 32 == 6 then b % 32 else if b / 16 == 14 then b % 16 else b % 8
  }

  predicate Continuations(s: seq<byte>, n: nat)
    requires n <= |s|
  {
    forall j :: 1 <= j < n ==> s[j] / 64 == 2
  }

  /** The lead bits followed by six bits of each continuation byte. */
  function Value(s: seq<byte>, n: nat): nat
    requires 1 <= n <= |s|
  {
    if n == 1 then LeadBits(s[0]) else Value(s, n - 1) * 64 + s[n - 1] % 64
  }

  /** Not overlong for its length, no surrogate, not past the last code point. */
  predicate Admissible(n: nat, cp: int) {
    && (n == 2 ==> cp >= 0x80) && (n == 3 ==> cp >= 0x800) && (n == 4 ==> cp >= 0x10000)
    && !(0xD800 <= cp <= 0xDFFF) && cp <= 0x10FFFF
  }

  predicate Accepts(s: seq<byte>) {
    s != [] &&
    var n := LeadLength(s[0]);
    1 <= n <= |s| && Continuations(s, n) && Admissible(n, Value(s, n))
  }

  /** What the validator accepts is the encoding of the value it computes. */
  lemma AcceptedIsEncoding(s: seq<byte>)
    requires Accepts(s)
    ensures var n := LeadLength(s[0]); Scalar(Value(s, n)) && Encode(Value(s, n)) == s[..n]
  {
    var n := LeadLength(s[0]);
    var cp := Value(s, n);
    if n == 1 {
    } else if n == 2 {
      assert cp == Value(s, 1) * 64 + s[1] % 64;
      assert cp < 0x800;
    } else if n == 3 {
      Three(s);
    } else {
      Four(s);
    }
  }

  lemma Three(s: seq<byte>)
    requires |s| >= 3 && LeadLength(s[0]) == 3 && Continuations(s, 3) && Value(s, 3) >= 0x800 && Scalar(Value(s, 3))
    ensures Encode(Value(s, 3)) == s[..3]
  {
    var x := Value(s, 2);
    assert x == Value(s, 1) * 64 + s[1] % 64;
    var cp := Value(s, 3);
    assert cp == x * 64 + s[2] % 64 && cp < 0x10000;
    assert cp / 64 == x && cp / 4096 == x / 64;
  }

  lemma Four(s: seq<byte>)
    requires |s| >= 4 && LeadLength(s[0]) == 4 && Continuations(s, 4) && Value(s, 4) >= 0x10000 && Scalar(Value(s, 4))
    ensures Encode(Value(s, 4)) == s[..4]
  {
    var x := Value(s, 2);
    assert x == Value(s, 1) * 64 + s[1] % 64;
    var y := Value(s, 3);
    assert x / 64 == Value(s, 1);
    assert y == x * 64 + s[2] % 64;
    var cp := Value(s, 4);
    assert cp == y * 64 + s[3] % 64;
    Shifted(cp, y, x, x / 64);
  }

  lemma Shifted(cp: int, y: int, x: int, w: int)
    requires cp / 64 == y && y / 64 == x && x / 64 == w
    ensures cp / 4096 == x && cp / 262144 == w
  {
  }

  lemma Values(s: seq<byte>)
    requires |s| >= 2
    ensures Value(s, 2) == LeadBits(s[0]) * 64 + s[1] % 64
    ensures |s| >= 3 ==> Value(s, 3) == Value(s, 2) * 64 + s[2] % 64
    ensures |s| >= 4 ==> Value(s, 4) == Value(s, 3) * 64 + s[3] % 64
  {
    assert Value(s, 1) == LeadBits(s[0]);
  }

  lemma TwoBack(cp: int, s: seq<byte>)
    requires 0x80 <= cp < 0x800 && |s| >= 2 && s[..2] == [0xC0 + cp / 64, 0x80 + cp % 64]
    ensures Accepts(s) && LeadLength(s[0]) == 2 && Value(s, 2) == cp
  {
    assert s[0] == s[..2][0] && s[1] == s[..2][1];
    assert s[1] / 64 == 2 && s[1] % 64 == cp % 64;
    Values(s);
  }

  lemma ThreeBack(cp: int, s: seq<byte>)
    requires 0x800 <= cp < 0x10000 && Scalar(cp)
    requires |s| >= 3 && s[..3] == [0xE0 + cp / 4096, 0x80 + cp / 64 % 64, 0x80 + cp % 64]
    ensures Accepts(s) && LeadLength(s[0]) == 3 && Value(s, 3) == cp
  {
    assert s[0] == s[..3][0] && s[1] == s[..3][1] && s[2] == s[..3][2];
    assert s[1] / 64 == 2 && s[1] % 64 == cp / 64 % 64;
    assert s[2] / 64 == 2 && s[2] % 64 == cp % 64;
    assert s[0] / 16 == 14 && s[0] % 16 == cp / 4096;
    Values(s);
    assert cp / 4096 == cp / 64 / 64;
    assert Value(s, 2) == cp / 64;
  }

  lemma FourBack(cp: int, s: seq<byte>)
    requires 0x10000 <= cp && Scalar(cp)
    requires |s| >= 4 && s[..4] == [0xF0 + cp / 262144, 0x80 + cp / 4096 % 64, 0x80 + cp / 64 % 64, 0x80 + cp % 64]
    ensures Accepts(s) && LeadLength(s[0]) == 4 && Value(s, 4) == cp
  {
    assert s[0] == s[..4][0] && s[1] == s[..4][1] && s[2] == s[..4][2] && s[3] == s[..4][3];
    assert s[1] / 64 == 2 && s[1] % 64 == cp / 4096 % 64;
    assert s[2] / 64 == 2 && s[2] % 64 == cp / 64 % 64;
    assert s[3] / 64 == 2 && s[3] % 64 == cp % 64;
    assert s[0] / 8 == 30 && s[0] % 8 == cp / 262144;
    Values(s);
    assert cp / 4096 == cp / 64 / 64 && cp / 262144 == cp / 4096 / 64;
    assert Value(s, 2) == cp / 4096;
    assert Value(s, 3) == cp / 64;
  }

  /** Every encoding is accepted, whatever follows it, with its own length and value. */
  lemma EncodingIsAccepted(cp: int, rest: seq<byte>)
    requires Scalar(cp)
    ensures var s := Encode(cp) + rest;
      Accepts(s) && LeadLength(s[0]) == |Encode(cp)| && Value(s, |Encode(cp)|) == cp
  {
    var e := Encode(cp);
    var s := e + rest;
    assert s[..|e|] == e;
    if cp < 0x80 {
      assert s[0] == cp && Value(s, 1) == cp;
    } else if cp < 0x800 {
      TwoBack(cp, s);
    } else if cp < 0x10000 {
      ThreeBack(cp, s);
    } else {
      FourBack(cp, s);
    }
  }

  // ----- the grammar of section 4 of RFC 3629 -----

  predicate TailByte(b: byte) {
    0x80 <= b <= 0xBF
  }

  /** A text that starts with UTF8-1, UTF8-2, UTF8-3 or UTF8-4. */
  predicate StartsWithChar(s: seq<byte>) {
    || (|s| >= 1 && s[0] <= 0x7F)
    || (|s| >= 2 && 0xC2 <= s[0] <= 0xDF && TailByte(s[1]))
    || (|s| >= 3 && TailByte(s[2]) && (
         || (s[0] == 0xE0 && 0xA0 <= s[1] <= 0xBF)
         || (0xE1 <= s[0] <= 0xEC && TailByte(s[1]))
         || (s[0] == 0xED && 0x80 <= s[1] <= 0x9F)
         || (0xEE <= s[0] <= 0xEF && TailByte(s[1]))))
    || (|s| >= 4 && TailByte(s[2]) && TailByte(s[3]) && (
         || (s[0] == 0xF0 && 0x90 <= s[1] <= 0xBF)
         || (0xF1 <= s[0] <= 0xF3 && TailByte(s[1]))
         || (s[0] == 0xF4 && 0x80 <= s[1] <= 0x8F)))
  }

  lemma TwoIsGrammar(s: seq<byte>)
    requires |s| >= 2 && LeadLength(s[0]) == 2
    ensures Accepts(s) <==> StartsWithChar(s)
  {
    Values(s);
  }

  lemma ThreeIsGrammar(s: seq<byte>)
    requires |s| >= 3 && LeadLength(s[0]) == 3
    ensures Accepts(s) <==> StartsWithChar(s)
  {
    Values(s);
    assert s[0] == 0xE0 + LeadBits(s[0]);
  }

  lemma FourIsGrammar(s: seq<byte>)
    requires |s| >= 4 && LeadLength(s[0]) == 4
    ensures Accepts(s) <==> StartsWithChar(s)
  {
    Values(s);
    assert s[0] == 0xF0 + LeadBits(s[0]);
  }

  /** The validator's shifts, masks and bounds accept exactly the byte ranges of the grammar. */
  lemma AcceptsIsGrammar(s: seq<byte>)
    ensures Accepts(s) <==> StartsWithChar(s)
  {
    if s != [] {
      var n := LeadLength(s[0]);
      if n == 1 {
        assert Value(s, 1) == s[0];
      } else if n == 2 && |s| >= 2 {
        TwoIsGrammar(s);
      } else if n == 3 && |s| >= 3 {
        ThreeIsGrammar(s);
      } else if n == 4 && |s| >= 4 {
        FourIsGrammar(s);
      }
    }
  }

  // ----- whole texts -----

  ghost predicate WellFormed(data: seq<byte>) {
    exists cps :: Scalars(cps) && EncodeAll(cps) == data
  }

  /** The first code point of a text is determined by the text. */
  lemma SameHead(c: int, rest: seq<byte>, d: int, rest': seq<byte>)
    requires Scalar(c) && Scalar(d) && Encode(c) + rest == Encode(d) + rest'
    ensures c == d && rest == rest'
  {
    EncodingIsAccepted(c, rest);
    EncodingIsAccepted(d, rest');
    var n := |Encode(c)|;
    assert (Encode(c) + rest)[n..] == rest && (Encode(d) + rest')[n..] == rest';
  }

  /** A text has at most one decomposition into encodings. */
  lemma {:induction false} DecompositionIsUnique(a: seq<int>, b: seq<int>)
    requires Scalars(a) && Scalars(b) && EncodeAll(a) == EncodeAll(b)
    ensures a == b
    decreases |a|
  {
    if a != [] && b != [] {
      SameHead(a[0], EncodeAll(a[1..]), b[0], EncodeAll(b[1..]));
      DecompositionIsUnique(a[1..], b[1..]);
      assert a == [a[0]] + a[1..] && b == [b[0]] + b[1..];
    }
  }

  lemma NotAccepted(rest: seq<byte>, ds: seq<int>)
    requires Scalars(ds) && rest != [] && !Accepts(rest)
    ensures EncodeAll(ds) != rest
  {
    if ds != [] {
      EncodingIsAccepted(ds[0], EncodeAll(ds[1..]));
    }
  }

  lemma PeelHead(cps: seq<int>, rest: seq<byte>, ds: seq<int>)
    requires Scalars(cps) && Scalars(ds) && cps != [] && EncodeAll(ds) == EncodeAll(cps) + rest
    ensures ds != [] && EncodeAll(ds[1..]) == EncodeAll(cps[1..]) + rest
  {
    Assoc(Encode(cps[0]), EncodeAll(cps[1..]), rest);
    SameHead(cps[0], EncodeAll(cps[1..]) + rest, ds[0], EncodeAll(ds[1..]));
  }

  lemma Assoc(a: seq<byte>, b: seq<byte>, c: seq<byte>)
    ensures a + b + c == a + (b + c)
  {
  }

  /** Once a sequence is not accepted, nothing before it can be read another way. */
  lemma {:induction false} StuckIsIllFormed(cps: seq<int>, rest: seq<byte>, ds: seq<int>)
    requires Scalars(cps) && Scalars(ds) && rest != [] && !Accepts(rest)
    ensures EncodeAll(ds) != EncodeAll(cps) + rest
    decreases |cps|
  {
    NotAccepted(rest, ds);
    if cps == [] {
      assert EncodeAll(cps) + rest == rest;
    } else if EncodeAll(ds) == EncodeAll(cps) + rest {
      PeelHead(cps, rest, ds);
      StuckIsIllFormed(cps[1..], rest, ds[1..]);
    }
  }

  lemma {:induction false} EncodeMore(cps: seq<int>, cp: int)
    requires Scalars(cps) && Scalar(cp)
    ensures Scalars(cps + [cp]) && EncodeAll(cps + [cp]) == EncodeAll(cps) + Encode(cp)
  {
    if cps == [] {
      assert (cps + [cp])[1..] == [];
    } else {
      assert (cps + [cp])[1..] == cps[1..] + [cp];
      EncodeMore(cps[1..], cp);
    }
  }

  // ----- the validator -----

  datatype Stats = Stats(valid: bool, codepoints: nat, bytes: nat, ascii: nat, multibyte: nat)

  function AsciiCount(cps: seq<int>): nat {
    if cps == [] then 0 else AsciiCount(cps[..|cps| - 1]) + if cps[|cps| - 1] < 0x80 then 1 else 0
  }

  /** The counters describe the code points read so far. */
  ghost predicate Counts(s: Stats, cps: seq<int>) {
    s.codepoints == |cps| && s.ascii == AsciiCount(cps) && s.ascii + s.multibyte == |cps|
  }

  /** Reads one sequence: lead byte, continuation bytes, then the range checks. */
  method ReadSequence(data: seq<byte>, i: nat) returns (ok: bool, n: nat, cp: nat)
    requires i < |data|
    ensures ok <==> Accepts(data[i..])
    ensures ok ==> n == LeadLength(data[i]) && cp == Value(data[i..], n)
  {
    ghost var s := data[i..];
    var b := data[i];
    n, cp := LeadLength(b), LeadBits(b);
    if n == 0 || i + n > |data| {
      return false, n, cp;
    }
    var j := 1;
    while j < n
      invariant 1 <= j <= n && cp == Value(s, j)
      invariant forall k :: 1 <= k < j ==> s[k] / 64 == 2
    {
      if data[i + j] / 64 != 2 {
        assert s[j] == data[i + j];
        return false, n, cp;
      }
      cp := cp * 64 + data[i + j] % 64;
      j := j + 1;
    }
    ok := Admissible(n, cp);
  }

  /**
    utf8_analyze.  Valid exactly for well-formed texts; in any case the counters describe
    the longest well-formed part in front, and no sequence follows it.
   */
  method Analyze(data: seq<byte>) returns (s: Stats, ghost cps: seq<int>)
    requires |data| <= 0x7fff_ffff
    ensures s.valid <==> WellFormed(data)
    ensures Scalars(cps) && EncodeAll(cps) <= data && Counts(s, cps) && s.bytes == |data|
    ensures if s.valid then EncodeAll(cps) == data else !Accepts(data[|EncodeAll(cps)|..])
  {
    s := Stats(true, 0, |data|, 0, 0);
    cps := [];
    var i := 0;
    while i < |data|
      invariant 0 <= i <= |data| && s.valid && s.bytes == |data|
      invariant Scalars(cps) && EncodeAll(cps) == data[..i] && Counts(s, cps)
    {
      ghost var rest := data[i..];
      assert data == data[..i] + rest && rest[0] == data[i];
      var ok, n, cp := ReadSequence(data, i);
      if !ok {
        Stuck(data, cps, rest);
        s := s.(valid := false);
        return;
      }
      AcceptedIsEncoding(rest);
      EncodeMore(cps, cp);
      assert data[..i + n] == data[..i] + rest[..n];
      s := if n == 1 then s.(ascii := s.ascii + 1) else s.(multibyte := s.multibyte + 1);
      s := s.(codepoints := s.codepoints + 1);
      CountMore(cps, cp);
      cps := cps + [cp];
      i := i + n;
    }
  }

  lemma CountMore(cps: seq<int>, cp: int)
    ensures AsciiCount(cps + [cp]) == AsciiCount(cps) + if cp < 0x80 then 1 else 0
  {
    assert (cps + [cp])[..|cps|] == cps;
  }

  lemma Stuck(data: seq<byte>, cps: seq<int>, rest: seq<byte>)
    requires Scalars(cps) && data == EncodeAll(cps) + rest && rest != [] && !Accepts(rest)
    ensures !WellFormed(data)
  {
    if WellFormed(data) {
      var ds :| Scalars(ds) && EncodeAll(ds) == data;
      StuckIsIllFormed(cps, rest, ds);
    }
  }
}
