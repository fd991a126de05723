/**
  What the constants and functions of SHA-256 (test/realworld/c/sha256_hash.c) are, told
  without them: the bits that the mixing functions combine, the roots of primes that the
  constants are taken from, and the digest of one message.
 */
module Sha256Values {
  import opened Sha256

  // ----- bits (section 4.1.2 of FIPS 180-4) -----

  /** Bit i of a word; positions are counted modulo 32. */
  function Bit(x: word, i: bv5): word { (x >> i) & 1 }

  lemma BitOfThree(a: word, b: word, c: word, i: bv5)
    ensures Bit(a ^ b ^ c, i) == Bit(a, i) ^ Bit(b, i) ^ Bit(c, i)
  {
  }

  lemma Rotated2(x: word, i: bv5)
    ensures Bit((x >> 2) | (x << 30), i) == Bit(x, i + 2)
  {
  }

  lemma Rotated6(x: word, i: bv5)
    ensures Bit((x >> 6) | (x << 26), i) == Bit(x, i + 6)
  {
  }

  lemma Rotated7(x: word, i: bv5)
    ensures Bit((x >> 7) | (x << 25), i) == Bit(x, i + 7)
  {
  }

  lemma Rotated11(x: word, i: bv5)
    ensures Bit((x >> 11) | (x << 21), i) == Bit(x, i + 11)
  {
  }

  lemma Rotated13(x: word, i: bv5)
    ensures Bit((x >> 13) | (x << 19), i) == Bit(x, i + 13)
  {
  }

  lemma Rotated17(x: word, i: bv5)
    ensures Bit((x >> 17) | (x << 15), i) == Bit(x, i + 17)
  {
  }

  lemma Rotated18(x: word, i: bv5)
    ensures Bit((x >> 18) | (x << 14), i) == Bit(x, i + 18)
  {
  }

  lemma Rotated19(x: word, i: bv5)
    ensures Bit((x >> 19) | (x << 13), i) == Bit(x, i + 19)
  {
  }

  lemma Rotated22(x: word, i: bv5)
    ensures Bit((x >> 22) | (x << 10), i) == Bit(x, i + 22)
  {
  }

  lemma Rotated25(x: word, i: bv5)
    ensures Bit((x >> 25) | (x << 7), i) == Bit(x, i + 25)
  {
  }

  lemma Shifted3(x: word, i: bv5)
    ensures Bit(x >> 3, i) == if i < 29 then Bit(x, i + 3) else 0
  {
  }

  lemma Shifted10(x: word, i: bv5)
    ensures Bit(x >> 10, i) == if i < 22 then Bit(x, i + 10) else 0
  {
  }

  lemma BitsOfEp0(x: word, i: bv5)
    ensures Bit(Ep0(x), i) == Bit(x, i + 2) ^ Bit(x, i + 13) ^ Bit(x, i + 22)
  {
    Rotated2(x, i);
    Rotated13(x, i);
    Rotated22(x, i);
    BitOfThree((x >> 2) | (x << 30), (x >> 13) | (x << 19), (x >> 22) | (x << 10), i);
  }

  lemma BitsOfEp1(x: word, i: bv5)
    ensures Bit(Ep1(x), i) == Bit(x, i + 6) ^ Bit(x, i + 11) ^ Bit(x, i + 25)
  {
    Rotated6(x, i);
    Rotated11(x, i);
    Rotated25(x, i);
    BitOfThree((x >> 6) | (x << 26), (x >> 11) | (x << 21), (x >> 25) | (x << 7), i);
  }

  lemma BitsOfSig0(x: word, i: bv5)
    ensures Bit(Sig0(x), i) == Bit(x, i + 7) ^ Bit(x, i + 18) ^ if i < 29 then Bit(x, i + 3) else 0
  {
    Rotated7(x, i);
    Rotated18(x, i);
    Shifted3(x, i);
    BitOfThree((x >> 7) | (x << 25), (x >> 18) | (x << 14), x >> 3, i);
  }

  lemma BitsOfSig1(x: word, i: bv5)
    ensures Bit(Sig1(x), i) == Bit(x, i + 17) ^ Bit(x, i + 19) ^ if i < 22 then Bit(x, i + 10) else 0
  {
    Rotated17(x, i);
    Rotated19(x, i);
    Shifted10(x, i);
    BitOfThree((x >> 17) | (x << 15), (x >> 19) | (x << 13), x >> 10, i);
  }

  // ----- constants (sections 4.2.2 and 5.3.3 of FIPS 180-4) -----

  /** k is the first 32 bits of the fraction of the cube root of p, which lies between 1 and 7. */
  predicate IsCubeRoot(p: int, k: int) {
    var whole := if p < 8 then 1 else if p < 27 then 2 else if p < 64 then 3 else if p < 125 then 4 else if p < 216 then 5 else 6;
    var c := whole * 0x1_0000_0000 + k;
    c * c * c <= p * 0x1_0000_0000_0000_0000_0000_0000 < (c + 1) * (c + 1) * (c + 1)
  }

  /** h is the first 32 bits of the fraction of the square root of p, which lies between 1 and 5. */
  predicate IsSquareRoot(p: int, h: int) {
    var whole := if p < 4 then 1 else if p < 9 then 2 else if p < 16 then 3 else 4;
    var c := whole * 0x1_0000_0000 + h;
    c * c <= p * 0x1_0000_0000_0000_0000 < (c + 1) * (c + 1)
  }

  // The constants belong to the first 64 primes.

  lemma CubeRoots0()
    ensures IsCubeRoot(2, K(0) as int) && IsCubeRoot(3, K(1) as int)
    ensures IsCubeRoot(5, K(2) as int) && IsCubeRoot(7, K(3) as int)
  {
    assert K(0) as int == 0x428a2f98 && K(1) as int == 0x71374491;
    assert K(2) as int == 0xb5c0fbcf && K(3) as int == 0xe9b5dba5;
  }

  lemma CubeRoots1()
    ensures IsCubeRoot(11, K(4) as int) && IsCubeRoot(13, K(5) as int)
    ensures IsCubeRoot(17, K(6) as int) && IsCubeRoot(19, K(7) as int)
  {
    assert K(4) as int == 0x3956c25b && K(5) as int == 0x59f111f1;
    assert K(6) as int == 0x923f82a4 && K(7) as int == 0xab1c5ed5;
  }

  lemma CubeRoots2()
    ensures IsCubeRoot(23, K(8) as int) && IsCubeRoot(29, K(9) as int)
    ensures IsCubeRoot(31, K(10) as int) && IsCubeRoot(37, K(11) as int)
  {
    assert K(8) as int == 0xd807aa98 && K(9) as int == 0x12835b01;
    assert K(10) as int == 0x243185be && K(11) as int == 0x550c7dc3;
  }

  lemma CubeRoots3()
    ensures IsCubeRoot(41, K(12) as int) && IsCubeRoot(43, K(13) as int)
    ensures IsCubeRoot(47, K(14) as int) && IsCubeRoot(53, K(15) as int)
  {
    assert K(12) as int == 0x72be5d74 && K(13) as int == 0x80deb1fe;
    assert K(14) as int == 0x9bdc06a7 && K(15) as int == 0xc19bf174;
  }

  lemma CubeRoots4()
    ensures IsCubeRoot(59, K(16) as int) && IsCubeRoot(61, K(17) as int)
    ensures IsCubeRoot(67, K(18) as int) && IsCubeRoot(71, K(19) as int)
  {
    assert K(16) as int == 0xe49b69c1 && K(17) as int == 0xefbe4786;
    assert K(18) as int == 0x0fc19dc6 && K(19) as int == 0x240ca1cc;
  }

  lemma CubeRoots5()
    ensures IsCubeRoot(73, K(20) as int) && IsCubeRoot(79, K(21) as int)
    ensures IsCubeRoot(83, K(22) as int) && IsCubeRoot(89, K(23) as int)
  {
    assert K(20) as int == 0x2de92c6f && K(21) as int == 0x4a7484aa;
    assert K(22) as int == 0x5cb0a9dc && K(23) as int == 0x76f988da;
  }

  lemma CubeRoots6()
    ensures IsCubeRoot(97, K(24) as int) && IsCubeRoot(101, K(25) as int)
    ensures IsCubeRoot(103, K(26) as int) && IsCubeRoot(107, K(27) as int)
  {
    assert K(24) as int == 0x983e5152 && K(25) as int == 0xa831c66d;
    assert K(26) as int == 0xb00327c8 && K(27) as int == 0xbf597fc7;
  }

  lemma CubeRoots7()
    ensures IsCubeRoot(109, K(28) as int) && IsCubeRoot(113, K(29) as int)
    ensures IsCubeRoot(127, K(30) as int) && IsCubeRoot(131, K(31) as int)
  {
    assert K(28) as int == 0xc6e00bf3 && K(29) as int == 0xd5a79147;
    assert K(30) as int == 0x06ca6351 && K(31) as int == 0x14292967;
  }

  lemma CubeRoots8()
    ensures IsCubeRoot(137, K(32) as int) && IsCubeRoot(139, K(33) as int)
    ensures IsCubeRoot(149, K(34) as int) && IsCubeRoot(151, K(35) as int)
  {
    assert K(32) as int == 0x27b70a85 && K(33) as int == 0x2e1b2138;
    assert K(34) as int == 0x4d2c6dfc && K(35) as int == 0x53380d13;
  }

  lemma CubeRoots9()
    ensures IsCubeRoot(157, K(36) as int) && IsCubeRoot(163, K(37) as int)
    ensures IsCubeRoot(167, K(38) as int) && IsCubeRoot(173, K(39) as int)
  {
    assert K(36) as int == 0x650a7354 && K(37) as int == 0x766a0abb;
    assert K(38) as int == 0x81c2c92e && K(39) as int == 0x92722c85;
  }

  lemma CubeRoots10()
    ensures IsCubeRoot(179, K(40) as int) && IsCubeRoot(181, K(41) as int)
    ensures IsCubeRoot(191, K(42) as int) && IsCubeRoot(193, K(43) as int)
  {
    assert K(40) as int == 0xa2bfe8a1 && K(41) as int == 0xa81a664b;
    assert K(42) as int == 0xc24b8b70 && K(43) as int == 0xc76c51a3;
  }

  lemma CubeRoots11()
    ensures IsCubeRoot(197, K(44) as int) && IsCubeRoot(199, K(45) as int)
    ensures IsCubeRoot(211, K(46) as int) && IsCubeRoot(223, K(47) as int)
  {
    assert K(44) as int == 0xd192e819 && K(45) as int == 0xd6990624;
    assert K(46) as int == 0xf40e3585 && K(47) as int == 0x106aa070;
  }

  lemma CubeRoots12()
    ensures IsCubeRoot(227, K(48) as int) && IsCubeRoot(229, K(49) as int)
    ensures IsCubeRoot(233, K(50) as int) && IsCubeRoot(239, K(51) as int)
  {
    assert K(48) as int == 0x19a4c116 && K(49) as int == 0x1e376c08;
    assert K(50) as int == 0x2748774c && K(51) as int == 0x34b0bcb5;
  }

  lemma CubeRoots13()
    ensures IsCubeRoot(241, K(52) as int) && IsCubeRoot(251, K(53) as int)
    ensures IsCubeRoot(257, K(54) as int) && IsCubeRoot(263, K(55) as int)
  {
    assert K(52) as int == 0x391c0cb3 && K(53) as int == 0x4ed8aa4a;
    assert K(54) as int == 0x5b9cca4f && K(55) as int == 0x682e6ff3;
  }

  lemma CubeRoots14()
    ensures IsCubeRoot(269, K(56) as int) && IsCubeRoot(271, K(57) as int)
    ensures IsCubeRoot(277, K(58) as int) && IsCubeRoot(281, K(59) as int)
  {
    assert K(56) as int == 0x748f82ee && K(57) as int == 0x78a5636f;
    assert K(58) as int == 0x84c87814 && K(59) as int == 0x8cc70208;
  }

  lemma CubeRoots15()
    ensures IsCubeRoot(283, K(60) as int) && IsCubeRoot(293, K(61) as int)
    ensures IsCubeRoot(307, K(62) as int) && IsCubeRoot(311, K(63) as int)
  {
    assert K(60) as int == 0x90befffa && K(61) as int == 0xa4506ceb;
    assert K(62) as int == 0xbef9a3f7 && K(63) as int == 0xc67178f2;
  }

  lemma SquareRoots()
    ensures IsSquareRoot(2, INITIAL.a as int)
    ensures IsSquareRoot(3, INITIAL.b as int)
    ensures IsSquareRoot(5, INITIAL.c as int)
    ensures IsSquareRoot(7, INITIAL.d as int)
    ensures IsSquareRoot(11, INITIAL.e as int)
    ensures IsSquareRoot(13, INITIAL.f as int)
    ensures IsSquareRoot(17, INITIAL.g as int)
    ensures IsSquareRoot(19, INITIAL.h as int)
  {
    assert INITIAL.a as int == 0x6a09e667;
    assert INITIAL.b as int == 0xbb67ae85;
    assert INITIAL.c as int == 0x3c6ef372;
    assert INITIAL.d as int == 0xa54ff53a;
    assert INITIAL.e as int == 0x510e527f;
    assert INITIAL.f as int == 0x9b05688c;
    assert INITIAL.g as int == 0x1f83d9ab;
    assert INITIAL.h as int == 0x5be0cd19;
  }

  // ----- the length field (section 5.1.1 of FIPS 180-4) -----

  /** The number that bytes spell, the most significant byte first. */
  function Spelled(s: seq<byte>): nat {
    if s == [] then 0 else Spelled(s[..|s| - 1]) * 256 + s[|s| - 1] as nat
  }

  lemma BackToByte(b: byte)
    ensures (b as nat) as byte == b && b as nat < 256
  {
  }

  lemma ByteOfLast(b: byte, v: nat)
    requires v % 256 == b as nat
    ensures ByteOf(v) == b
  {
    BackToByte(b);
  }

  lemma SpelledParts(s: seq<byte>)
    requires s != []
    ensures Spelled(s) / 256 == Spelled(s[..|s| - 1]) && Spelled(s) % 256 == s[|s| - 1] as nat
  {
    BackToByte(s[|s| - 1]);
    LastOf256(Spelled(s[..|s| - 1]), s[|s| - 1] as nat);
  }

  lemma LastSpelled(s: seq<byte>)
    requires s != []
    ensures Spelled(s) / 256 == Spelled(s[..|s| - 1]) && ByteOf(Spelled(s)) == s[|s| - 1]
  {
    SpelledParts(s);
    ByteOfLast(s[|s| - 1], Spelled(s));
  }

  lemma LastOf256(x: nat, r: nat)
    requires r < 256
    ensures (x * 256 + r) / 256 == x && (x * 256 + r) % 256 == r
  {
  }

  lemma {:induction false} ShiftSpelled(s: seq<byte>, j: nat)
    requires j <= |s|
    ensures Shift(Spelled(s), j) == Spelled(s[..|s| - j])
    decreases j
  {
    if j == 0 {
      assert s[..|s|] == s;
    } else {
      ShiftSpelled(s, j - 1);
      var t := s[..|s| - (j - 1)];
      LastSpelled(t);
      assert t[..|t| - 1] == s[..|s| - j];
    }
  }

  /** Any eight bytes are what the length field holds for the number they spell. */
  lemma LengthIsSpelled(s: seq<byte>)
    requires |s| == 8
    ensures BigEndian64(Spelled(s)) == s
  {
    forall i | 0 <= i < 8 ensures BigEndian64(Spelled(s))[i] == s[i] {
      ShiftSpelled(s, 7 - i);
      LastSpelled(s[..i + 1]);
    }
  }

  // ----- one digest -----

  /** The message "abc". */
  const ABC: seq<byte> := [0x61, 0x62, 0x63]

  /** Its message schedule. */
  function Scheduled(i: nat): word {
    if i < 16 then
      if i == 0 then 0x61626380 else if i == 15 then 0x00000018 else 0
    else if i < 32 then
      if i == 16 then 0x61626380 else if i == 17 then 0x000f0000 else if i == 18 then 0x7da86405 else if i == 19 then 0x600003c6 else
      if i == 20 then 0x3e9d7b78 else if i == 21 then 0x0183fc00 else if i == 22 then 0x12dcbfdb else if i == 23 then 0xe2e2c38e else
      if i == 24 then 0xc8215c1a else if i == 25 then 0xb73679a2 else if i == 26 then 0xe5bc3909 else if i == 27 then 0x32663c5b else
      if i == 28 then 0x9d209d67 else if i == 29 then 0xec8726cb else if i == 30 then 0x702138a4 else if i == 31 then 0xd3b7973b else 0
    else if i < 48 then
      if i == 32 then 0x93f5997f else if i == 33 then 0x3b68ba73 else if i == 34 then 0xaff4ffc1 else if i == 35 then 0xf10a5c62 else
      if i == 36 then 0x0a8b3996 else if i == 37 then 0x72af830a else if i == 38 then 0x9409e33e else if i == 39 then 0x24641522 else
      if i == 40 then 0x9f47bf94 else if i == 41 then 0xf0a64f5a else if i == 42 then 0x3e246a79 else if i == 43 then 0x27333ba3 else
      if i == 44 then 0x0c4763f2 else if i == 45 then 0x840abf27 else if i == 46 then 0x7a290d5d else if i == 47 then 0x065c43da else 0
    else
      if i == 48 then 0xfb3e89cb else if i == 49 then 0xcc7617db else if i == 50 then 0xb9e66c34 else if i == 51 then 0xa9993667 else
      if i == 52 then 0x84badedd else if i == 53 then 0xc21462bc else if i == 54 then 0x1487472c else if i == 55 then 0xb20f7a99 else
      if i == 56 then 0xef57b9cd else if i == 57 then 0xebe6b238 else if i == 58 then 0x9fe3095e else if i == 59 then 0x78bc8d4b else
      if i == 60 then 0xa43fcf15 else if i == 61 then 0x668b2ff8 else if i == 62 then 0xeeaba2cc else if i == 63 then 0x12b1edeb else 0
  }

  lemma PaddedAbc()
    ensures
      var p := Pad(ABC);
      && |p| == 64 && p[0] == 0x61 && p[1] == 0x62 && p[2] == 0x63 && p[3] == 0x80 && p[63] == 24
      && forall i :: 4 <= i < 63 ==> p[i] == 0
  {
    LengthOfAbc();
    assert Pad(ABC) == ABC + [0x80] + Zeros(52) + BigEndian64(24);
  }

  lemma LengthOfAbc()
    ensures BigEndian64(24)[7] == 24 && forall i :: 0 <= i < 7 ==> BigEndian64(24)[i] == 0
  {
    assert Shift(24, 0) == 24 && Shift(24, 1) == 0 && Shift(24, 2) == 0 && Shift(24, 3) == 0;
    assert Shift(24, 4) == 0 && Shift(24, 5) == 0 && Shift(24, 6) == 0 && Shift(24, 7) == 0;
    assert ByteOf(24) == 24 && ByteOf(0) == 0;
  }

  lemma FirstWords(block: seq<byte>, i: nat)
    requires |block| == 64 && block[0] == 0x61 && block[1] == 0x62 && block[2] == 0x63 && block[3] == 0x80 && block[63] == 24
    requires forall j :: 4 <= j < 63 ==> block[j] == 0
    requires i < 16
    ensures BigEndianWord(block, i) == Scheduled(i)
  {
  }

  predicate StepFits(i: nat)
    requires i >= 16
  {
    Mix(Scheduled(i - 2), Scheduled(i - 7), Scheduled(i - 15), Scheduled(i - 16)) == Scheduled(i)
  }

  lemma Steps16(i: nat)
    requires 16 <= i < 19
    ensures StepFits(i)
  {
    assert StepFits(16) && StepFits(17) && StepFits(18);
  }

  lemma Steps19(i: nat)
    requires 19 <= i < 22
    ensures StepFits(i)
  {
    assert StepFits(19) && StepFits(20) && StepFits(21);
  }

  lemma Steps22(i: nat)
    requires 22 <= i < 25
    ensures StepFits(i)
  {
    assert StepFits(22) && StepFits(23) && StepFits(24);
  }

  lemma Steps25(i: nat)
    requires 25 <= i < 28
    ensures StepFits(i)
  {
    assert StepFits(25) && StepFits(26) && StepFits(27);
  }

  lemma Steps28(i: nat)
    requires 28 <= i < 31
    ensures StepFits(i)
  {
    assert StepFits(28) && StepFits(29) && StepFits(30);
  }

  lemma Steps31(i: nat)
    requires 31 <= i < 34
    ensures StepFits(i)
  {
    assert StepFits(31) && StepFits(32) && StepFits(33);
  }

  lemma Steps34(i: nat)
    requires 34 <= i < 37
    ensures StepFits(i)
  {
    assert StepFits(34) && StepFits(35) && StepFits(36);
  }

  lemma Steps37(i: nat)
    requires 37 <= i < 40
    ensures StepFits(i)
  {
    assert StepFits(37) && StepFits(38) && StepFits(39);
  }

  lemma Steps40(i: nat)
    requires 40 <= i < 43
    ensures StepFits(i)
  {
    assert StepFits(40) && StepFits(41) && StepFits(42);
  }

  lemma Steps43(i: nat)
    requires 43 <= i < 46
    ensures StepFits(i)
  {
    assert StepFits(43) && StepFits(44) && StepFits(45);
  }

  lemma Steps46(i: nat)
    requires 46 <= i < 49
    ensures StepFits(i)
  {
    assert StepFits(46) && StepFits(47) && StepFits(48);
  }

  lemma Steps49(i: nat)
    requires 49 <= i < 52
    ensures StepFits(i)
  {
    assert StepFits(49) && StepFits(50) && StepFits(51);
  }

  lemma Steps52(i: nat)
    requires 52 <= i < 55
    ensures StepFits(i)
  {
    assert StepFits(52) && StepFits(53) && StepFits(54);
  }

  lemma Steps55(i: nat)
    requires 55 <= i < 58
    ensures StepFits(i)
  {
    assert StepFits(55) && StepFits(56) && StepFits(57);
  }

  lemma Steps58(i: nat)
    requires 58 <= i < 61
    ensures StepFits(i)
  {
    assert StepFits(58) && StepFits(59) && StepFits(60);
  }

  lemma Steps61(i: nat)
    requires 61 <= i < 64
    ensures StepFits(i)
  {
    assert StepFits(61) && StepFits(62) && StepFits(63);
  }

  lemma Steps(i: nat)
    requires 16 <= i < 64
    ensures StepFits(i)
  {
    if i < 19 {
      Steps16(i);
    } else if i < 22 {
      Steps19(i);
    } else if i < 25 {
      Steps22(i);
    } else if i < 28 {
      Steps25(i);
    } else if i < 31 {
      Steps28(i);
    } else if i < 34 {
      Steps31(i);
    } else if i < 37 {
      Steps34(i);
    } else if i < 40 {
      Steps37(i);
    } else if i < 43 {
      Steps40(i);
    } else if i < 46 {
      Steps43(i);
    } else if i < 49 {
      Steps46(i);
    } else if i < 52 {
      Steps49(i);
    } else if i < 55 {
      Steps52(i);
    } else if i < 58 {
      Steps55(i);
    } else if i < 61 {
      Steps58(i);
    } else {
      Steps61(i);
    }
  }

  /** Mix as a function value, of which nothing else is known. */
  ghost predicate IsMix(mix: (word, word, word, word) -> word) {
    forall a, b, c, d {:trigger Mix(a, b, c, d)} :: mix(a, b, c, d) == Mix(a, b, c, d)
  }

  ghost predicate Recurs(g: nat -> word, mix: (word, word, word, word) -> word, i: nat)
    requires i >= 16
  {
    g(i) == mix(g(i - 2), g(i - 7), g(i - 15), g(i - 16))
  }

  /** Any words that start like the block and go on by the recurrence are its schedule. */
  lemma {:induction false} ScheduleOf(block: seq<byte>, g: nat -> word, mix: (word, word, word, word) -> word, n: nat)
    requires |block| == 64 && n <= 64 && IsMix(mix) && forall i :: 0 <= i < 16 ==> BigEndianWord(block, i) == g(i)
    requires forall i :: 16 <= i < 64 ==> Recurs(g, mix, i)
    ensures forall i :: 0 <= i < n ==> Schedule(block, n)[i] == g(i)
  {
    if n > 0 {
      ScheduleOf(block, g, mix, n - 1);
      if n > 16 {
        var w := Schedule(block, n - 1);
        assert Recurs(g, mix, n - 1);
        assert NextWord(w) == mix(w[n - 3], w[n - 8], w[n - 16], w[n - 17]);
      }
    }
  }

  /** One round of the trace: constant, word, and the two words of the state that are new. */
  lemma Turn(w: seq<word>, n: nat, s: State, k: word, x: word, a: word, e: word) returns (s': State)
    requires |w| == 64 && n < 64 && Rounds(INITIAL, w, n) == s && K(n) == k && w[n] == x
    requires Round(s, k, x) == State(a, s.a, s.b, s.c, e, s.e, s.f, s.g)
    ensures s' == State(a, s.a, s.b, s.c, e, s.e, s.f, s.g) && Rounds(INITIAL, w, n + 1) == s'
  {
    s' := State(a, s.a, s.b, s.c, e, s.e, s.f, s.g);
  }

  ghost predicate IsSchedule(w: seq<word>) {
    |w| == 64 && forall i :: 0 <= i < 64 ==> w[i] == Scheduled(i)
  }

  lemma Turns0(w: seq<word>, n: nat, s: State) returns (s': State)
    requires IsSchedule(w) && n == 0 && Rounds(INITIAL, w, n) == s
    requires s == State(0x6a09e667, 0xbb67ae85, 0x3c6ef372, 0xa54ff53a, 0x510e527f, 0x9b05688c, 0x1f83d9ab, 0x5be0cd19)
    ensures s' == State(0x85a07b5f, 0xe5030380, 0x2b4209f5, 0x04409a6a, 0x0c657a79, 0x9b27a401, 0x714260ad, 0x43ada245)
    ensures Rounds(INITIAL, w, n + 8) == s'
  {
    s' := Turn(w, n, s, 0x428a2f98, 0x61626380, 0x5d6aebcd, 0xfa2a4622);
    s' := Turn(w, n + 1, s', 0x71374491, 0x00000000, 0x5a6ad9ad, 0x78ce7989);
    s' := Turn(w, n + 2, s', 0xb5c0fbcf, 0x00000000, 0xc8c347a7, 0xf92939eb);
    s' := Turn(w, n + 3, s', 0xe9b5dba5, 0x00000000, 0xd550f666, 0x24e00850);
    s' := Turn(w, n + 4, s', 0x3956c25b, 0x00000000, 0x04409a6a, 0x43ada245);
    s' := Turn(w, n + 5, s', 0x59f111f1, 0x00000000, 0x2b4209f5, 0x714260ad);
    s' := Turn(w, n + 6, s', 0x923f82a4, 0x00000000, 0xe5030380, 0x9b27a401);
    s' := Turn(w, n + 7, s', 0xab1c5ed5, 0x00000000, 0x85a07b5f, 0x0c657a79);
  }

  lemma Turns8(w: seq<word>, n: nat, s: State) returns (s': State)
    requires IsSchedule(w) && n == 8 && Rounds(INITIAL, w, n) == s
    requires s == State(0x85a07b5f, 0xe5030380, 0x2b4209f5, 0x04409a6a, 0x0c657a79, 0x9b27a401, 0x714260ad, 0x43ada245)
    ensures s' == State(0xb0fa238e, 0xc0645fde, 0xd932eb16, 0x87912990, 0x07590dcd, 0x0b92f20c, 0x745a48de, 0x1e578218)
    ensures Rounds(INITIAL, w, n + 8) == s'
  {
    s' := Turn(w, n, s, 0xd807aa98, 0x00000000, 0x8e04ecb9, 0x32ca2d8c);
    s' := Turn(w, n + 1, s', 0x12835b01, 0x00000000, 0x8c87346b, 0x1cc92596);
    s' := Turn(w, n + 2, s', 0x243185be, 0x00000000, 0x4798a3f4, 0x436b23e8);
    s' := Turn(w, n + 3, s', 0x550c7dc3, 0x00000000, 0xf71fc5a9, 0x816fd6e9);
    s' := Turn(w, n + 4, s', 0x72be5d74, 0x00000000, 0x87912990, 0x1e578218);
    s' := Turn(w, n + 5, s', 0x80deb1fe, 0x00000000, 0xd932eb16, 0x745a48de);
    s' := Turn(w, n + 6, s', 0x9bdc06a7, 0x00000000, 0xc0645fde, 0x0b92f20c);
    s' := Turn(w, n + 7, s', 0xc19bf174, 0x00000018, 0xb0fa238e, 0x07590dcd);
  }

  lemma Turns16(w: seq<word>, n: nat, s: State) returns (s': State)
    requires IsSchedule(w) && n == 16 && Rounds(INITIAL, w, n) == s
    requires s == State(0xb0fa238e, 0xc0645fde, 0xd932eb16, 0x87912990, 0x07590dcd, 0x0b92f20c, 0x745a48de, 0x1e578218)
    ensures s' == State(0xc5d53d8d, 0xa7a3623f, 0xc2606d6d, 0x9dc68b63, 0xaa47c347, 0x49f5114a, 0xe1257970, 0x8ada8930)
    ensures Rounds(INITIAL, w, n + 8) == s'
  {
    s' := Turn(w, n, s, 0xe49b69c1, 0x61626380, 0x21da9a9b, 0x8034229c);
    s' := Turn(w, n + 1, s', 0xefbe4786, 0x000f0000, 0xc2fbd9d1, 0x846ee454);
    s' := Turn(w, n + 2, s', 0x0fc19dc6, 0x7da86405, 0xfe777bbf, 0xcc899961);
    s' := Turn(w, n + 3, s', 0x240ca1cc, 0x600003c6, 0xe1f20c33, 0xb0638179);
    s' := Turn(w, n + 4, s', 0x2de92c6f, 0x3e9d7b78, 0x9dc68b63, 0x8ada8930);
    s' := Turn(w, n + 5, s', 0x4a7484aa, 0x0183fc00, 0xc2606d6d, 0xe1257970);
    s' := Turn(w, n + 6, s', 0x5cb0a9dc, 0x12dcbfdb, 0xa7a3623f, 0x49f5114a);
    s' := Turn(w, n + 7, s', 0x76f988da, 0xe2e2c38e, 0xc5d53d8d, 0xaa47c347);
  }

  lemma Turns24(w: seq<word>, n: nat, s: State) returns (s': State)
    requires IsSchedule(w) && n == 24 && Rounds(INITIAL, w, n) == s
    requires s == State(0xc5d53d8d, 0xa7a3623f, 0xc2606d6d, 0x9dc68b63, 0xaa47c347, 0x49f5114a, 0xe1257970, 0x8ada8930)
    ensures s' == State(0x73b33bf5, 0xea992a22, 0xa0060b30, 0x363482c9, 0xba591112, 0x0109ab3a, 0xade79437, 0x6112a3b7)
    ensures Rounds(INITIAL, w, n + 8) == s'
  {
    s' := Turn(w, n, s, 0x983e5152, 0xc8215c1a, 0x1c2c2838, 0x2823ef91);
    s' := Turn(w, n + 1, s', 0xa831c66d, 0xb73679a2, 0xcde8037d, 0x14383d8e);
    s' := Turn(w, n + 2, s', 0xb00327c8, 0xe5bc3909, 0xb62ec4bc, 0xc74c6516);
    s' := Turn(w, n + 3, s', 0xbf597fc7, 0x32663c5b, 0x77d37528, 0xedffbff8);
    s' := Turn(w, n + 4, s', 0xc6e00bf3, 0x9d209d67, 0x363482c9, 0x6112a3b7);
    s' := Turn(w, n + 5, s', 0xd5a79147, 0xec8726cb, 0xa0060b30, 0xade79437);
    s' := Turn(w, n + 6, s', 0x06ca6351, 0x702138a4, 0xea992a22, 0x0109ab3a);
    s' := Turn(w, n + 7, s', 0x14292967, 0xd3b7973b, 0x73b33bf5, 0xba591112);
  }

  lemma Turns32(w: seq<word>, n: nat, s: State) returns (s': State)
    requires IsSchedule(w) && n == 32 && Rounds(INITIAL, w, n) == s
    requires s == State(0x73b33bf5, 0xea992a22, 0xa0060b30, 0x363482c9, 0xba591112, 0x0109ab3a, 0xade79437, 0x6112a3b7)
    ensures s' == State(0x79ea687a, 0x6dc57a8a, 0x34df1604, 0x41a65cb1, 0x1efbc0a0, 0xf0781bc8, 0xa507a53d, 0x0772a26b)
    ensures Rounds(INITIAL, w, n + 8) == s'
  {
    s' := Turn(w, n, s, 0x27b70a85, 0x93f5997f, 0x98e12507, 0x9cd9f5f6);
    s' := Turn(w, n + 1, s', 0x2e1b2138, 0x3b68ba73, 0xfe604df5, 0x59249dd3);
    s' := Turn(w, n + 2, s', 0x4d2c6dfc, 0xaff4ffc1, 0xa9a7738c, 0x085f3833);
    s' := Turn(w, n + 3, s', 0x53380d13, 0xf10a5c62, 0x65a0cfe4, 0xf4b002d6);
    s' := Turn(w, n + 4, s', 0x650a7354, 0x0a8b3996, 0x41a65cb1, 0x0772a26b);
    s' := Turn(w, n + 5, s', 0x766a0abb, 0x72af830a, 0x34df1604, 0xa507a53d);
    s' := Turn(w, n + 6, s', 0x81c2c92e, 0x9409e33e, 0x6dc57a8a, 0xf0781bc8);
    s' := Turn(w, n + 7, s', 0x92722c85, 0x24641522, 0x79ea687a, 0x1efbc0a0);
  }

  lemma Turns40(w: seq<word>, n: nat, s: State) returns (s': State)
    requires IsSchedule(w) && n == 40 && Rounds(INITIAL, w, n) == s
    requires s == State(0x79ea687a, 0x6dc57a8a, 0x34df1604, 0x41a65cb1, 0x1efbc0a0, 0xf0781bc8, 0xa507a53d, 0x0772a26b)
    ensures s' == State(0x4172328d, 0xa14c14b0, 0x72ab4b91, 0x26628815, 0xfecf0bc6, 0xd57b94a9, 0xb7755da1, 0xa80f11f0)
    ensures Rounds(INITIAL, w, n + 8) == s'
  {
    s' := Turn(w, n, s, 0xa2bfe8a1, 0x9f47bf94, 0xd6670766, 0x26352d63);
    s' := Turn(w, n + 1, s', 0xa81a664b, 0xf0a64f5a, 0xdf46652f, 0x838b2711);
    s' := Turn(w, n + 2, s', 0xc24b8b70, 0x3e246a79, 0x17aa0dfe, 0xdecd4715);
    s' := Turn(w, n + 3, s', 0xc76c51a3, 0x27333ba3, 0x9d4baf93, 0xfda24c2e);
    s' := Turn(w, n + 4, s', 0xd192e819, 0x0c4763f2, 0x26628815, 0xa80f11f0);
    s' := Turn(w, n + 5, s', 0xd6990624, 0x840abf27, 0x72ab4b91, 0xb7755da1);
    s' := Turn(w, n + 6, s', 0xf40e3585, 0x7a290d5d, 0xa14c14b0, 0xd57b94a9);
    s' := Turn(w, n + 7, s', 0x106aa070, 0x065c43da, 0x4172328d, 0xfecf0bc6);
  }

  lemma Turns48(w: seq<word>, n: nat, s: State) returns (s': State)
    requires IsSchedule(w) && n == 48 && Rounds(INITIAL, w, n) == s
    requires s == State(0x4172328d, 0xa14c14b0, 0x72ab4b91, 0x26628815, 0xfecf0bc6, 0xd57b94a9, 0xb7755da1, 0xa80f11f0)
    ensures s' == State(0x38cc9913, 0x3ec45cdb, 0xf5702fdb, 0x101fd28f, 0x54cb266b, 0xe50e1b4f, 0x9f4787c3, 0x529e7d00)
    ensures Rounds(INITIAL, w, n + 8) == s'
  {
    s' := Turn(w, n, s, 0x19a4c116, 0xfb3e89cb, 0x05757ceb, 0xbd714038);
    s' := Turn(w, n + 1, s', 0x1e376c08, 0xcc7617db, 0xf11bfaa8, 0x6e5c390c);
    s' := Turn(w, n + 2, s', 0x2748774c, 0xb9e66c34, 0x7a0508a1, 0x52f1ccf7);
    s' := Turn(w, n + 3, s', 0x34b0bcb5, 0xa9993667, 0x886e7a22, 0x49231c1e);
    s' := Turn(w, n + 4, s', 0x391c0cb3, 0x84badedd, 0x101fd28f, 0x529e7d00);
    s' := Turn(w, n + 5, s', 0x4ed8aa4a, 0xc21462bc, 0xf5702fdb, 0x9f4787c3);
    s' := Turn(w, n + 6, s', 0x5b9cca4f, 0x1487472c, 0x3ec45cdb, 0xe50e1b4f);
    s' := Turn(w, n + 7, s', 0x682e6ff3, 0xb20f7a99, 0x38cc9913, 0x54cb266b);
  }

  lemma Turns56(w: seq<word>, n: nat, s: State) returns (s': State)
    requires IsSchedule(w) && n == 56 && Rounds(INITIAL, w, n) == s
    requires s == State(0x38cc9913, 0x3ec45cdb, 0xf5702fdb, 0x101fd28f, 0x54cb266b, 0xe50e1b4f, 0x9f4787c3, 0x529e7d00)
    ensures s' == State(0x506e3058, 0xd39a2165, 0x04d24d6c, 0xb85e2ce9, 0x5ef50f24, 0xfb121210, 0x948d25b6, 0x961f4894)
    ensures Rounds(INITIAL, w, n + 8) == s'
  {
    s' := Turn(w, n, s, 0x748f82ee, 0xef57b9cd, 0xfcd1887b, 0x9b5e906c);
    s' := Turn(w, n + 1, s', 0x78a5636f, 0xebe6b238, 0xc062d46f, 0x7e44008e);
    s' := Turn(w, n + 2, s', 0x84c87814, 0x9fe3095e, 0xffb70472, 0x6d83bfc6);
    s' := Turn(w, n + 3, s', 0x8cc70208, 0x78bc8d4b, 0xb6ae8fff, 0xb21bad3d);
    s' := Turn(w, n + 4, s', 0x90befffa, 0xa43fcf15, 0xb85e2ce9, 0x961f4894);
    s' := Turn(w, n + 5, s', 0xa4506ceb, 0x668b2ff8, 0x04d24d6c, 0x948d25b6);
    s' := Turn(w, n + 6, s', 0xbef9a3f7, 0xeeaba2cc, 0xd39a2165, 0xfb121210);
    s' := Turn(w, n + 7, s', 0xc67178f2, 0x12b1edeb, 0x506e3058, 0x5ef50f24);
  }

  lemma TraceOfAbc(w: seq<word>, n: nat) returns (s: State)
    requires IsSchedule(w) && n == 0
    ensures Rounds(INITIAL, w, n + 64) == s
    ensures s == State(0x506e3058, 0xd39a2165, 0x04d24d6c, 0xb85e2ce9, 0x5ef50f24, 0xfb121210, 0x948d25b6, 0x961f4894)
  {
    s := INITIAL;
    assert Rounds(INITIAL, w, n) == s;
    s := Turns0(w, n, s);
    s := Turns8(w, n + 8, s);
    s := Turns16(w, n + 16, s);
    s := Turns24(w, n + 24, s);
    s := Turns32(w, n + 32, s);
    s := Turns40(w, n + 40, s);
    s := Turns48(w, n + 48, s);
    s := Turns56(w, n + 56, s);
  }

  lemma CompressOfAbc()
    ensures Compress(INITIAL, Pad(ABC))
         == State(0xba7816bf, 0x8f01cfea, 0x414140de, 0x5dae2223, 0xb00361a3, 0x96177a9c, 0xb410ff61, 0xf20015ad)
  {
    var block := Pad(ABC);
    PaddedAbc();
    forall i | 0 <= i < 16 ensures BigEndianWord(block, i) == Scheduled(i) {
      FirstWords(block, i);
    }
    forall i: nat | 16 <= i < 64 ensures Recurs(Scheduled, Mix, i) {
      Steps(i);
    }
    ScheduleOf(block, Scheduled, Mix, |block|);
    var s := TraceOfAbc(Schedule(block, |block|), |block| - 64);
  }

  lemma OutputOfAbc()
    ensures Output(State(0xba7816bf, 0x8f01cfea, 0x414140de, 0x5dae2223, 0xb00361a3, 0x96177a9c, 0xb410ff61, 0xf20015ad)) == [
      0xba, 0x78, 0x16, 0xbf, 0x8f, 0x01, 0xcf, 0xea, 0x41, 0x41, 0x40, 0xde, 0x5d, 0xae, 0x22, 0x23,
      0xb0, 0x03, 0x61, 0xa3, 0x96, 0x17, 0x7a, 0x9c, 0xb4, 0x10, 0xff, 0x61, 0xf2, 0x00, 0x15, 0xad
    ]
  {
  }

  /** The digest of "abc" that FIPS 180-4 is illustrated with. */
  lemma DigestOfAbc()
    ensures Hash(ABC) == [
      0xba, 0x78, 0x16, 0xbf, 0x8f, 0x01, 0xcf, 0xea, 0x41, 0x41, 0x40, 0xde, 0x5d, 0xae, 0x22, 0x23,
      0xb0, 0x03, 0x61, 0xa3, 0x96, 0x17, 0x7a, 0x9c, 0xb4, 0x10, 0xff, 0x61, 0xf2, 0x00, 0x15, 0xad
    ]
  {
    PaddedAbc();
    CompressOfAbc();
    FoldOne(Compress, INITIAL, Pad(ABC));
    OutputOfAbc();
  }
}
