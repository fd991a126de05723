# Verified models of the zwasm benchmark and test programs

The zwasm WebAssembly runtime is exercised with a set of self-contained programs. This
project models eleven of them in Dafny and proves what each is for. Programs that change
arrays, tables or objects step by step are methods and classes here. Each is proved
against a function or predicate, and what the program promises is proved of that.

| file | program |
|---|---|
| `NQueens.dfy` | iterative N-Queens backtracking |
| `Lz4.dfy`, `Lz4Texts.dfy`, `Lz4Format.dfy` | LZ4-style compressor and decompressor, the grammar of its texts, its numbers and its choice of matches |
| `Field25519.dfy`, `Canonical25519.dfy`, `Power25519.dfy` | arithmetic modulo 2^255 - 19 |
| `Cmov25519.dfy` | branch-free selections |
| `Curve25519.dfy`, `Group25519.dfy`, `Decode25519.dfy` | Edwards curve points and their decoding |
| `ScalarMult25519.dfy`, `Multiples25519.dfy` | scalar multiplication, and what a multiple of a point is |
| `Regex.dfy`, `RegexC.dfy`, `RegexRust.dfy` | two Thompson NFA engines and their common language |
| `RegexPatterns.dfy`, `RegexAgreement.dfy` | what each pattern character means to them, and when they agree |
| `BTree.dfy`, `BTreeSize.dfy`, `BTreePool.dfy` | B-tree insertion, as values and in a node pool |
| `RateLimit.dfy` | rate limiter with decaying counters |
| `Base64.dfy`, `Base64Numbers.dfy` | constant-time Base64 codec, and the numbers its digits spell |
| `Sha256.dfy`, `Sha256Values.dfy` | streaming SHA-256, and what its functions and constants are |
| `Heapsort.dfy` | heapsort with a hole |
| `Utf8.dfy` | UTF-8 validator |

`dafny verify dfyconfig.toml` checks the whole project.

## Where the programs and their promises differ

- Base64: the decoder compares characters through unsigned masks. Where `char` is signed,
  every byte from 0x80 up is taken for digit 63, so texts outside the alphabet decode
  (`Base64.SignedAcceptsMore`). The exact condition for a decoded text to re-encode to
  itself is that it is ASCII (`Base64.ReencodesIffAscii`); where `char` is unsigned it
  always is (`Base64.UnsignedAcceptsAscii`).
- LZ4: the path that stores the source as literals does not test the capacity of the
  buffer, so `Lz4.Compress` asks for a buffer that holds the stored form. It asks for no
  more: below the capacity the program tests for, it still round-trips.
- LZ4: the decompressor sums lengths in `size_t`. With 32 bits, the byte 0xF0, then
  16843008 bytes 255, a byte 242 and a byte x spell a length of 2^32 + 1, which is read
  as 1: x is output although the text should be refused (`Lz4.LengthCanWrap`). Texts that
  are to be accepted never meet this; for the others `Lz4.Decompress` asks that the text
  is too short to spell such a length, below about 16 million bytes.
- Regular expressions: the two engines read escapes and some runs of quantifiers
  differently (`RegexAgreement.EnginesCanDiffer`). They see the same tokens exactly when
  no backslash has a byte behind it, the run of quantifiers that starts the pattern has
  even length, and every other run odd length (`RegexAgreement.SameTokens`).
- Points: `ge25519_p2_dbl` gives every coordinate of section 5.1.4 of RFC 8032 with the
  opposite sign, which is the same point (`Group25519.FlipDouble`).

## Model

| member | source | states |
|---|---|---|
| `NQueens.AllRowsIsEverything` | bench/tinygo/nqueens.go:25-27 | the rows of k columns on a board of width n are exactly the sequences of length k with entries below n |
| `NQueens.SolutionsAreAll` | bench/tinygo/nqueens.go:29-58 | the reference set holds every non-attacking placement of n queens and nothing else |
| `NQueens.IsSafe` | bench/tinygo/nqueens.go:39-48 | the inner loop says yes exactly when the new queen attacks none of the rows above |
| `NQueens.MetBacktrack` | bench/tinygo/nqueens.go:33-37 | leaving an exhausted row neither loses nor adds a solution to those passed |
| `NQueens.MetSkip` | bench/tinygo/nqueens.go:49-51 | passing an attacked column passes no solution |
| `NQueens.MetCount` | bench/tinygo/nqueens.go:53-56 | a safe column in the last row passes exactly one new solution |
| `NQueens.MetDescend` | bench/tinygo/nqueens.go:57-57 | going down a row passes no solution |
| `NQueens.RemainingDrops` | bench/tinygo/nqueens.go:29-57 | every turn lowers one number, read from the board in a mixed base, so the loop ends |
| `NQueens.MovesOn` | bench/tinygo/nqueens.go:39-57 | a turn past an attack, to a solution or a row down keeps the count equal to the number of solutions passed and brings the end nearer |
| `NQueens.TryNext` | bench/tinygo/nqueens.go:30-57 | one turn of the loop: search invariant, count and termination measure together |
| `NQueens.SolveBoard` | bench/tinygo/nqueens.go:21-58 | for every board size, one pass terminates and counts each solution once, whatever the scratch memory held |
| `NQueens.WrapAdd` | bench/tinygo/nqueens.go:18-59 | 32-bit wrap-around may be postponed to the end of a sum |
| `NQueens.Solve` | bench/tinygo/nqueens.go:16-62 | after iters passes the result is iters times the number of placements, in 32-bit arithmetic (0 passes for a negative count) |
| `Lz4.Hash4` | test/realworld/c/lz4_compress.c:12-16 | the wrapped multiplicative hash is always an index of the table |
| `Lz4Format.HashOfByte` | test/realworld/c/lz4_compress.c:12-16 | the hashes of the four inputs with a single byte 1, as literals |
| `Lz4.ExtraRoundTrip` | test/realworld/c/lz4_compress.c:61-63 | the 255-bytes and the remainder after them are read back as the length they spell |
| `Lz4.LiteralsRoundTrip` | test/realworld/c/lz4_compress.c:53-69 | decoding a token with its literals yields those literals and goes on with what follows |
| `Lz4.MatchRoundTrip` | test/realworld/c/lz4_compress.c:72-82 | decoding an encoded offset and match length is the byte-by-byte copy it stands for |
| `Lz4.BlockRoundTrip` | test/realworld/c/lz4_compress.c:52-85 | decoding one encoded block appends what the block means and leaves the rest |
| `Lz4.BlocksRoundTrip` | test/realworld/c/lz4_compress.c:35-89 | the same for any list of blocks, by induction on the list |
| `Lz4.RoundTrip` | test/realworld/c/lz4_compress.c:18-22 | every well-formed text decodes to what it means, into any buffer that can hold it |
| `Lz4.BlocksSize` | test/realworld/c/lz4_compress.c:26-27 | an encoding of blocks is at most the expanded length plus one byte in 255 |
| `Lz4.CopyExtends` | test/realworld/c/lz4_compress.c:173-177 | a copy reproduces a run of equal bytes at distance offset, overlap included |
| `Lz4.PutExtra` | test/realworld/c/lz4_compress.c:59-64 | the extra length bytes, with the give-up exactly when they do not fit |
| `Lz4.PutLiterals` | test/realworld/c/lz4_compress.c:53-69 | token, extra length and literals, with the give-up exactly when they do not fit |
| `Lz4.PutBlock` | test/realworld/c/lz4_compress.c:52-82 | a whole block, with the give-up exactly when it does not fit |
| `Lz4.ExtendMatch` | test/realworld/c/lz4_compress.c:44-47 | the match is a true repetition of 4 to 259 bytes, as long as the limit, the text or the bytes allow |
| `Lz4.Probe` | test/realworld/c/lz4_compress.c:36-38 | returns the last position recorded for this hash, always an earlier one or none, records the current one and changes no other entry |
| `Lz4.CoversMore` | test/realworld/c/lz4_compress.c:49-85 | emitting a match keeps the written blocks equal in meaning to the source before the anchor |
| `Lz4.CoversSize` | test/realworld/c/lz4_compress.c:26-110 | no state of the compressor can need more than src_len + src_len/255 + 2 bytes |
| `Lz4.EmitMatch` | test/realworld/c/lz4_compress.c:43-85 | one found match: the longest, written, covered, and refused only if the buffer is below the bound |
| `Lz4.CompressBlocks` | test/realworld/c/lz4_compress.c:29-110 | the result is 0 only if the buffer is below the bound; otherwise the output spells blocks and literals that mean the source, and they are those of the greedy rule |
| `Lz4.Compress` | test/realworld/c/lz4_compress.c:24-127 | with room for the stored form, never 0, at most src_len + src_len/255 + 2 bytes, and the output decodes to the source into every large enough buffer; it is the stored form or the text of the greedy rule, by the test the program makes |
| `Lz4.Take` | test/realworld/c/lz4_compress.c:40-88 | one turn: a match exactly if the position the table gives is at most 65535 back and has the same four bytes, else one position on; the turns so far stay greedy |
| `Lz4.OneTurn` | test/realworld/c/lz4_compress.c:36-88 | one more turn extends the recorded positions, the blocks and the anchor by exactly what it took |
| `Lz4Format.BlockMeans` | test/realworld/c/lz4_compress.c:18-22 | told with the numbers of the format: token halves, length bytes, offset with the low byte first, copy length less 4, for every block |
| `Lz4Format.EndMeans` | test/realworld/c/lz4_compress.c:149-156 | a text that ends behind its literals gives them, whatever the low half of the token |
| `Lz4Format.CopyMeans` | test/realworld/c/lz4_compress.c:173-177 | every copied byte equals the one offset before it, overlap included |
| `Lz4Format.RunOfByte` | test/realworld/c/lz4_compress.c:129-181 | for m below 15, the text 0x10 + m, b, 1, 0 decodes to m + 5 times b: the shortest copy has four bytes |
| `Lz4Format.TurnRule` | test/realworld/c/lz4_compress.c:36-42 | the greedy rule on positions: a turn takes a match exactly if the last earlier turn with its hash is at most 65535 back and has the same four bytes, and then it copies the longest run from there |
| `Lz4Format.TurnsTile` | test/realworld/c/lz4_compress.c:84-88 | every position is a turn of its own or inside a match |
| `Lz4Format.GreedyTextIsUnique` | test/realworld/c/lz4_compress.c:24-110 | the rule fixes every turn, so the compressed text is a function of the source |
| `Lz4.ReadExtra` | test/realworld/c/lz4_compress.c:140-146 | the reading loop computes the count of the extra bytes and their sum in a 32-bit size_t, wrap-around included, running off the end included |
| `Lz4.CopyMatch` | test/realworld/c/lz4_compress.c:173-177 | the copying loop computes the overlapping copy |
| `Lz4.ReadMatch` | test/realworld/c/lz4_compress.c:154-177 | offset, length and copy, with every error and end case; no sum of sizes wraps |
| `Lz4.ReadBlock` | test/realworld/c/lz4_compress.c:134-177 | one turn of the decoder, with every error and end case; no sum of sizes wraps |
| `Lz4.NotWrapped` | test/realworld/c/lz4_compress.c:140-175 | a length of an accepted block, or any length a short enough text can spell, is read unwrapped and added to a position without wrap-around |
| `Lz4.LengthCanWrap` | test/realworld/c/lz4_compress.c:140-152 | a text that spells a literal length of 2^32 + 1, which the program reads as 1 although the decoding refuses it |
| `Lz4.Decompress` | test/realworld/c/lz4_compress.c:129-181 | accepted texts of any length give the decoding; refused ones give 0 if the text is too short to spell a length of 2^32 |
| `Lz4Texts.SpelledIsDone` | test/realworld/c/lz4_compress.c:129-181 | every text of the grammar is accepted with its meaning, a stray byte or a cut-off match length at the end included |
| `Lz4Texts.DoneIsSpelled` | test/realworld/c/lz4_compress.c:129-181 | every accepted text is of the grammar: a parse of it exists |
| `Lz4Texts.AcceptsTexts` | test/realworld/c/lz4_compress.c:129-181 | the decoding accepts exactly the texts of the grammar that stay inside the output and the capacity, and gives their meaning |
| `Lz4.CompressThenDecompress` | test/realworld/c/lz4_compress.c:24-181 | compressing and decompressing into a buffer of the original size gives back exactly the source |
| `Field25519.MulIdentity` | bench/shootout-src/ed25519.c:319-347 | the five folded columns are congruent to the product of the two values |
| `Field25519.MulBounds` | bench/shootout-src/ed25519.c:314-347 | limbs below 2^54 keep every column inside 128 bits and the last one small enough for the carry tail |
| `Field25519.CarryUp` | bench/shootout-src/ed25519.c:349-362 | the carry chain preserves the value up to what leaves the top |
| `Field25519.Carry` | bench/shootout-src/ed25519.c:349-376 | the shared carry tail: limbs at most 2^51, value preserved modulo P |
| `Field25519.Mul` | bench/shootout-src/ed25519.c:292-376 | no 64- or 128-bit intermediate overflows for limbs below 2^54; the result is the product modulo P with limbs at most 2^51 |
| `Field25519.Sq` | bench/shootout-src/ed25519.c:378-450 | the same for squaring |
| `Field25519.Sq2` | bench/shootout-src/ed25519.c:452-530 | the same for twice the square, for limbs below 2^53 |
| `Field25519.Add` | bench/shootout-src/ed25519.c:66-80 | limb-wise sum, exact, with the bounds added |
| `Field25519.Sub` | bench/shootout-src/ed25519.c:82-116 | the borrow-free difference modulo P, never negative in a limb, with its bound |
| `Field25519.Neg` | bench/shootout-src/ed25519.c:118-125 | the negation modulo P |
| `Canonical25519.CarryPass` | bench/shootout-src/ed25519.c:185-194 | one carry pass preserves the value up to a known multiple of P |
| `Canonical25519.DropTop` | bench/shootout-src/ed25519.c:220-234 | adding 2^255 - 19 and dropping bit 255 undoes the offset of 19 |
| `Canonical25519.Reduce` | bench/shootout-src/ed25519.c:173-241 | for any five 64-bit limbs, the limbs of the one representative below P |
| `Canonical25519.PolyUnique` | bench/shootout-src/ed25519.c:236-240 | limbs below 2^51 are determined by their value |
| `Canonical25519.Pack` | bench/shootout-src/ed25519.c:249-253 | four words hold the same number as five 51-bit limbs |
| `Canonical25519.ToBytes` | bench/shootout-src/ed25519.c:243-258 | the 32 bytes hold, little-endian, the representative below P |
| `Canonical25519.FromBytes` | bench/shootout-src/ed25519.c:532-549 | limbs below 2^51 that hold the number of the bytes without its top bit |
| `Canonical25519.NumberUnique` | bench/shootout-src/ed25519.c:37-51 | 32 bytes are determined by the number they hold |
| `Canonical25519.BytesDecide` | bench/shootout-src/ed25519.c:243-258 | two elements are congruent exactly when their bytes are equal |
| `Canonical25519.PackThenUnpack` | bench/shootout-src/ed25519.c:243-549 | packing and unpacking gives the canonical limbs |
| `Canonical25519.UnpackThenPack` | bench/shootout-src/ed25519.c:243-549 | unpacking and packing gives the bytes back exactly when they hold a number below P |
| `Canonical25519.IsNegative` | bench/shootout-src/ed25519.c:260-268 | the parity of the representative below P |
| `Canonical25519.AllZero` | bench/shootout-src/ed25519.c:270-280 | 1 exactly when every byte is zero |
| `Canonical25519.IsZero` | bench/shootout-src/ed25519.c:282-290 | 1 exactly when the element is congruent to 0 |
| `Power25519.PowAdd` | bench/shootout-src/ed25519.c:560-671 | powers multiply by adding exponents |
| `Power25519.SqTimes` | bench/shootout-src/ed25519.c:576-579 | n squarings in a row multiply the exponent by 2^n |
| `Power25519.Invert` | bench/shootout-src/ed25519.c:560-616 | the addition chain computes z^(P - 2) |
| `Power25519.Pow22523` | bench/shootout-src/ed25519.c:618-671 | the addition chain computes z^((P - 5) / 8) |
| `Curve25519.Constants` | bench/shootout-src/ed25519.c:551-558 | the three constants are d, 2d and a square root of -1: 121666 d is congruent to -121665, and the root squares to -1 |
| `Curve25519.SumOnCurve` | bench/shootout-src/ed25519.c:706-722 | the sum of two points of the curve, in the coordinates of section 5.1.4 of RFC 8032, is on the curve |
| `Curve25519.DoubleIsSum` | bench/shootout-src/ed25519.c:786-800 | the doubling formula is the addition of a point to itself up to a common factor |
| `Curve25519.DoubleOnCurve` | bench/shootout-src/ed25519.c:786-800 | doubling stays on the curve |
| `Curve25519.NegateOnCurve` | bench/shootout-src/ed25519.c:908-911 | negation stays on the curve |
| `Curve25519.ScaleOnCurve` | bench/shootout-src/ed25519.c:786-800 | a common factor does not leave the curve |
| `Curve25519.EdwardsLaw` | bench/shootout-src/ed25519.c:706-722 | the sum has the coordinates of the Edwards law: x (1 + d x1 x2 y1 y2) = x1 y2 + y1 x2 and y (1 - d x1 x2 y1 y2) = y1 y2 + x1 x2, denominators multiplied out, and XY = ZT |
| `Curve25519.SumCommutes` | bench/shootout-src/ed25519.c:706-722 | addition is commutative |
| `Curve25519.IdentityIsNeutral` | bench/shootout-src/ed25519.c:802-818 | for every point of the curve, adding the neutral constant on either side gives the point back, all coordinates times 4Z |
| `Curve25519.NegateIsInverse` | bench/shootout-src/ed25519.c:908-911 | for every point of the curve, the sum with its negation is the neutral constant, all coordinates times FG |
| `Group25519.AddPoints` | bench/shootout-src/ed25519.c:706-722 | E, F, G and H of the addition formula modulo P, with every limb inside the bounds of the multiplications to come |
| `Group25519.ToP2` | bench/shootout-src/ed25519.c:769-775 | EF, GH and FG modulo P, within bounds |
| `Group25519.ToP3` | bench/shootout-src/ed25519.c:777-784 | EF, GH, FG and EH modulo P, within bounds |
| `Group25519.DoublePoint` | bench/shootout-src/ed25519.c:786-800 | E and G of the doubling formula negated, F and H as they are, within bounds |
| `Group25519.FlipDouble` | bench/shootout-src/ed25519.c:786-800 | so the doubled point comes out with every coordinate negated: the same point |
| `Group25519.ToCached` | bench/shootout-src/ed25519.c:820-827 | Y + X, Y - X, Z and 2dT modulo P, within bounds |
| `Group25519.Zeros` | bench/shootout-src/ed25519.c:802-818 | the neutral constants hold (0, 1), which `Curve25519.IdentityIsNeutral` proves neutral |
| `Cmov25519.MaskSelects` | bench/shootout-src/ed25519.c:130-154 | with the mask made from a bit, exclusive or, masking and exclusive or take g for 1 and keep f for 0 |
| `Cmov25519.Cmov` | bench/shootout-src/ed25519.c:127-155 | the masked limb operations take all five limbs of g for the bit 1 and keep those of f for 0 |
| `Cmov25519.Equal` | bench/shootout-src/ed25519.c:859-871 | the borrow and the shift give 1 exactly for equal bytes |
| `Cmov25519.Negative` | bench/shootout-src/ed25519.c:873-881 | the top bit of the sign-extended byte is 1 exactly for negative numbers |
| `Decode25519.Root` | bench/shootout-src/ed25519.c:743-751 | the candidate is u v^3 (u v^7)^((P - 5) / 8) |
| `Decode25519.PickRoot` | bench/shootout-src/ed25519.c:753-766 | accepts exactly when v c^2 is u or -u for the candidate c, and then returns a solution of v x^2 = u |
| `Decode25519.PassesFor` | bench/shootout-src/ed25519.c:743-766 | whether the candidate passes depends on y alone, not on the representatives of u and v that the limbs hold |
| `Decode25519.FixSign` | bench/shootout-src/ed25519.c:762-763 | x or -x, with the wanted parity unless x is zero |
| `Decode25519.EquationHolds` | bench/shootout-src/ed25519.c:736-764 | a solution of v x^2 = u with u = y^2 - 1, v = d y^2 + 1 and T = XY satisfies the curve equation, for any d |
| `Decode25519.DecodePoint` | bench/shootout-src/ed25519.c:724-767 | returns 0 exactly when the candidate root for y passes one of the two checks; then the point is on the curve, Z = 1, T = XY, y is the encoded one, and a non-zero x has the encoded sign |
| `Decode25519.RootsPass` | bench/shootout-src/ed25519.c:743-766 | if v x^2 = u has a solution x and (x v^4)^((P - 1) / 2) is 1 or -1, the candidate passes one of the two checks |
| `Decode25519.PointsAreAccepted` | bench/shootout-src/ed25519.c:724-767 | so the y of every point with that power is accepted |
| `ScalarMult25519.DoubleLaw` | bench/shootout-src/ed25519.c:786-800 | doubling doubles the multiple, derived from the law of addition alone |
| `ScalarMult25519.Table` | bench/shootout-src/ed25519.c:928-956 | the eight table entries are 1P to 8P in cached form |
| `ScalarMult25519.SelectAbs` | bench/shootout-src/ed25519.c:899-907 | the scan of conditional moves picks the entry for the absolute value of b, or the neutral point for 0 |
| `ScalarMult25519.Select` | bench/shootout-src/ed25519.c:892-913 | for every digit in [-8, 8], b times the base point, negation included; for 0 the neutral point |
| `ScalarMult25519.NibblesValue` | bench/shootout-src/ed25519.c:958-961 | the nibbles have the value of the scalar in radix 16 |
| `ScalarMult25519.MoveCarry` | bench/shootout-src/ed25519.c:963-970 | moving a carry of 16 to the next digit keeps the value |
| `ScalarMult25519.Recode` | bench/shootout-src/ed25519.c:963-970 | digits in [-8, 8] with the same value, no 8-bit overflow on the way |
| `ScalarMult25519.SignedDigits` | bench/shootout-src/ed25519.c:958-970 | for every scalar with a[31] at most 127, 64 digits in [-8, 8] that sum to it in radix 16 |
| `ScalarMult25519.NumberIsLittleEndian` | bench/shootout-src/ed25519.c:18-51 | the number of 32 bytes, read through 64-bit words or byte by byte, is the same little-endian one |
| `ScalarMult25519.Turn` | bench/shootout-src/ed25519.c:974-988 | add a digit and double four times: from m and n to 16(m + n) |
| `ScalarMult25519.ScalarMult` | bench/shootout-src/ed25519.c:915-993 | under the law of addition and negation, the loop ends with a times P |
| `ScalarMult25519.CurveIsKept` | bench/shootout-src/ed25519.c:915-993 | being on the curve is closed under that law |
| `ScalarMult25519.EncodePoint` | bench/shootout-src/ed25519.c:837-849 | the bytes hold Y/Z below P, with the parity of X/Z in the top bit (division by the power P - 2) |
| `Multiples25519.ValueOnCurve` | bench/shootout-src/ed25519.c:706-722 | whatever is computed from a point of the curve by additions and negations is on the curve |
| `Multiples25519.ScaledSum` | bench/shootout-src/ed25519.c:706-722 | addition commutes with common factors: they come out multiplied and squared |
| `Multiples25519.SumSame` | bench/shootout-src/ed25519.c:706-722 | addition respects congruence modulo P |
| `Multiples25519.MultiplesAreClosed` | bench/shootout-src/ed25519.c:915-993 | the points computed from p by additions and negations of total weight k, up to a factor with an inverse, satisfy every law that scalar multiplication uses |
| `Multiples25519.Multiply` | bench/shootout-src/ed25519.c:915-993 | with no assumption but p on the curve, the result is computed from p by additions and negations of total weight a, and is on the curve |
| `Multiples25519.DecodeAndMultiply` | bench/shootout-src/ed25519.c:724-993 | the same from an accepted encoding |
| `Regex.AddedIsClosure` | test/realworld/c/regex_match.c:144-153 | adding a state to a closed set gives exactly the set closed under epsilon moves from it |
| `Regex.MovesAccepts` | test/realworld/c/regex_match.c:228-235 | what a set accepts after a character is what the moved set accepts |
| `Regex.EmptyAccepts` | test/realworld/c/regex_match.c:239-243 | at the end of the text the set accepts exactly when it holds an accepting state |
| `Regex.ClosureAccepts` | test/realworld/c/regex_match.c:223-224 | the start closure accepts what the start state accepts |
| `Regex.LoopAccepts` | test/realworld/c/regex_match.c:199-208 | the two-state loop accepts one or more, or zero or more, repetitions and then the rest |
| `Regex.LayOutAccepts` | test/realworld/c/regex_match.c:194-218 | for every token list and text, the laid out automaton accepts exactly the language of the tokens |
| `RegexC.SpellRoundTrip` | test/realworld/c/regex_match.c:174-192 | every token list has a spelling that the parser reads back |
| `RegexC.ParseToken` | test/realworld/c/regex_match.c:174-191 | one turn of the parser, escapes and a trailing backslash included; `RegexPatterns` says what each character means |
| `RegexC.Parse` | test/realworld/c/regex_match.c:174-192 | the parser computes the token list |
| `RegexC.Engine.NewState` | test/realworld/c/regex_match.c:23-30 | appends one state and returns its index |
| `RegexC.Engine.AddToken` | test/realworld/c/regex_match.c:196-215 | the states and the patch of one quantified token |
| `RegexC.Engine.Build` | test/realworld/c/regex_match.c:162-219 | the table is the layout of the tokens |
| `RegexC.ListFits` | test/realworld/c/regex_match.c:133-147 | the list of a set never outgrows the state table |
| `RegexC.StateSet.Clear` | test/realworld/c/regex_match.c:139-142 | the set is empty and its flags agree with its list |
| `RegexC.StateSet.Add` | test/realworld/c/regex_match.c:144-153 | terminates, and adds exactly what is reachable by epsilon moves without passing through members |
| `RegexC.Move` | test/realworld/c/regex_match.c:227-235 | the next set is exactly what the current one reaches over the character |
| `RegexC.Match` | test/realworld/c/regex_match.c:221-244 | for every automaton of this shape and every text, 1 exactly when the start state accepts |
| `RegexC.MatchPattern` | test/realworld/c/regex_match.c:162-244 | for every pattern that fits the table and every text, 1 exactly when the text is in the language of the pattern; the engine is ready for the next pattern |
| `RegexPatterns.StarMeans` | test/realworld/c/regex_match.c:188-190 | for every plain byte c, the pattern "c*" and a tail match any number of c and then what the tail matches |
| `RegexPatterns.PlusMeans` | test/realworld/c/regex_match.c:188-190 | "c+": one or more c, then the tail |
| `RegexPatterns.OptionalMeans` | test/realworld/c/regex_match.c:188-190 | "c?": at most one c, then the tail |
| `RegexPatterns.PlainMeans` | test/realworld/c/regex_match.c:183-191 | "c" without quantifier: exactly c, then the tail |
| `RegexPatterns.DotMeans` | test/realworld/c/regex_match.c:176-191 | ".": any byte, then the tail |
| `RegexPatterns.EscapeMeans` | test/realworld/c/regex_match.c:179-191 | a backslash and any byte, quantifiers, dot and backslash included: that byte, then the tail |
| `RegexPatterns.LastToken` | test/realworld/c/regex_match.c:162-219 | a text matches a token list exactly when some end of it matches the last token and the rest the others |
| `RegexRust.ScanToken` | test/realworld/rust/regex/src/main.rs:50-67 | one turn of the right-to-left scan, the stop at a leading quantifier included |
| `RegexAgreement.SameTokens` | test/realworld/rust/regex/src/main.rs:49-87 | the right-to-left scan gives the tokens of the left-to-right parser exactly when no backslash has a byte behind it, the run of quantifiers that starts the pattern has even length and every other run odd length |
| `RegexAgreement.SingleByParity` | test/realworld/rust/regex/src/main.rs:50-60 | the left-to-right parser ends with a lone byte exactly by the parity of the run of quantifiers at the end |
| `RegexAgreement.EscapesDiffer` | test/realworld/rust/regex/src/main.rs:62-67 | a backslash that escapes a byte always makes the token lists differ |
| `RegexAgreement.PlainIsExact` | test/realworld/rust/regex/src/main.rs:49-87 | patterns without backslash, leading or doubled quantifier meet the condition |
| `RegexAgreement.EnginesCanDiffer` | test/realworld/rust/regex/src/main.rs:55-60 | a leading quantifier is a literal for one engine and ignored by the other |
| `RegexRust.Nfa.AddState` | test/realworld/rust/regex/src/main.rs:37-42 | appends one state and returns its index |
| `RegexRust.Nfa.AddToken` | test/realworld/rust/regex/src/main.rs:69-86 | the states and the patch of one quantified token |
| `RegexRust.Nfa.Compile` | test/realworld/rust/regex/src/main.rs:44-90 | the table is the layout of the scanned tokens |
| `RegexRust.EpsilonClose` | test/realworld/rust/regex/src/main.rs:126-133 | terminates, and marks exactly what is reachable by epsilon moves without passing through marked states |
| `RegexRust.Move` | test/realworld/rust/regex/src/main.rs:100-114 | the next set is exactly what the current one reaches over the byte |
| `RegexRust.Run` | test/realworld/rust/regex/src/main.rs:92-124 | true exactly when the start state accepts |
| `RegexRust.MatchPattern` | test/realworld/rust/regex/src/main.rs:44-133 | true exactly when the text is in the language of the scanned tokens, whose characters `RegexPatterns` tells; the automaton is ready for the next pattern |
| `RegexPatterns.StarEnds` | test/realworld/rust/regex/src/main.rs:50-67 | for every plain byte c, a pattern that ends with "c*" matches what the pattern before it matches, then any number of c |
| `RegexPatterns.PlusEnds` | test/realworld/rust/regex/src/main.rs:50-67 | a pattern that ends with "c+": then one or more c |
| `RegexPatterns.OptionalEnds` | test/realworld/rust/regex/src/main.rs:50-67 | a pattern that ends with "c?": then at most one c |
| `RegexPatterns.ByteEnds` | test/realworld/rust/regex/src/main.rs:62-67 | a pattern that ends with any other character: then that character, or any byte for a dot; a backslash stands for itself |
| `RegexPatterns.StarAlone` | test/realworld/rust/regex/src/main.rs:44-133 | for both engines, "c*" matches exactly the texts of nothing but c |
| `RegexAgreement.BothEngines` | test/realworld/rust/regex/src/main.rs:44-133 | on patterns that meet that condition and NUL-free texts both engines give the same answer |
| `BTree.SplitShape` | test/realworld/c/btree.c:38-62 | splitting a full child keeps all leaves at one depth and every node at 1 to 3 keys |
| `BTree.SplitOrder` | test/realworld/c/btree.c:38-62 | splitting leaves the in-order keys as they are |
| `BTree.PreparedShape` | test/realworld/c/btree.c:74-80 | the child chosen after a preemptive split has room |
| `BTree.PreparedOrder` | test/realworld/c/btree.c:74-80 | the chosen child lies between keys that bracket the new one |
| `BTree.InsertShape` | test/realworld/c/btree.c:64-82 | insertion keeps the depth of the leaves and the bounds on keys |
| `BTree.InsertOrder` | test/realworld/c/btree.c:64-82 | insertion puts the key into the in-order sequence at one place that keeps the order |
| `BTree.InsertRootCorrect` | test/realworld/c/btree.c:84-100 | growing or not, the tree stays uniform and filled, its keys non-decreasing, with exactly the new key more |
| `BTree.FoundIffMember` | test/realworld/c/btree.c:29-36 | the search path ends at the key exactly when the key is in the tree |
| `BTreeSize.NodesAtMostKeys` | test/realworld/c/btree.c:10-15 | a tree has at most as many nodes as keys |
| `BTreeSize.InsertRootNodes` | test/realworld/c/btree.c:84-100 | an insertion allocates exactly the nodes that the tree grows by |
| `BTreeSize.RoomForKey` | test/realworld/c/btree.c:17-25 | a pool with exactly the nodes of the tree in use has room for another key while it has more nodes than there are keys |
| `BTreeSize.HeightIsLogarithmic` | test/realworld/c/btree.c:29-36 | leaves at depth h need at least 2^(h + 1) - 1 keys |
| `BTreePool.UpperHalf` | test/realworld/c/btree.c:43-49 | the copying loops fill the right node with the upper keys and children |
| `BTreePool.Widen` | test/realworld/c/btree.c:54-61 | the shifting loop makes room for the median and the new child |
| `BTreePool.PutKey` | test/realworld/c/btree.c:65-72 | the leaf loop puts the key in its slot |
| `BTreePool.FindSlot` | test/realworld/c/btree.c:74-75 | the descent loop finds the slot |
| `BTreePool.StoresSplit` | test/realworld/c/btree.c:38-62 | after the three writes of a split the pool stores the split tree |
| `BTreePool.ApartSplit` | test/realworld/c/btree.c:38-62 | a split shares no node |
| `BTreePool.InsertIds` | test/realworld/c/btree.c:64-82 | insertion uses only nodes of the tree and fresh ones, at most one per level, and shares none |
| `BTreePool.Store.constructor` | test/realworld/c/btree.c:17-27 | the empty tree, with no node in use |
| `BTreePool.Store.SplitChild` | test/realworld/c/btree.c:38-62 | the three nodes a split writes, and that it writes no other |
| `BTreePool.Store.PrepareChild` | test/realworld/c/btree.c:74-79 | the pool stores the tree after the preemptive split |
| `BTreePool.Store.InsertNonfull` | test/realworld/c/btree.c:64-82 | the pool stores the tree that value insertion gives; nothing outside the tree changes |
| `BTreePool.Store.GrowRoot` | test/realworld/c/btree.c:91-95 | a full root moves under a new one and is split |
| `BTreePool.Store.InsertInto` | test/realworld/c/btree.c:91-99 | the pool stores what insertion at the root gives, and as many nodes are in use |
| `BTreePool.Store.InsertFirst` | test/realworld/c/btree.c:85-90 | the first key makes a root leaf of height 0 in the one node in use |
| `BTreePool.Store.InsertKey` | test/realworld/c/btree.c:84-100 | while the nodes it takes are free, every insertion keeps the whole invariant, with exactly the nodes of the tree in use, and adds exactly the new key to the multiset |
| `BTreePool.Store.KeysGiveRoom` | test/realworld/c/btree.c:17-25 | the nodes are free as long as there are fewer keys than nodes in the pool |
| `BTreePool.Store.InsertKeys` | test/realworld/c/btree.c:84-100 | every run of insertions that ends with at most 512 keys keeps the invariant and adds exactly those keys |
| `BTreePool.Store.SearchFrom` | test/realworld/c/btree.c:29-36 | a node that holds the key among its live keys, or none |
| `BTreePool.Store.Search` | test/realworld/c/btree.c:29-36 | found exactly when the key is in the tree |
| `BTreePool.Store.Traverse` | test/realworld/c/btree.c:106-113 | appends exactly the in-order keys to a buffer that can hold them |
| `BTreePool.Store.InOrderKeys` | test/realworld/c/btree.c:102-113 | with at most 1024 keys the buffer of the program receives the whole tree in order |
| `RateLimit.OncePerPeriod` | bench/shootout-src/ratelimit.c:107-115 | in any period of calls each slot is halved exactly once |
| `RateLimit.HalvingsBound` | bench/shootout-src/ratelimit.c:107-115 | in n calls a slot is halved at most ceil(n / period) times |
| `RateLimit.PeakIsKept` | bench/shootout-src/ratelimit.c:119-133 | over any run with a fixed peak no slot ever exceeds it |
| `RateLimit.IncrementsBound` | bench/shootout-src/ratelimit.c:107-133 | what a slot has gained is what it still holds plus what the halvings took |
| `RateLimit.AcceptedAreIncrements` | bench/shootout-src/ratelimit.c:119-134 | every accepted hit of an address raised one of its two slots |
| `RateLimit.SlotIsLimited` | bench/shootout-src/ratelimit.c:107-133 | over any run of N hits a slot is raised at most peak + ceil(N / period) ceil(peak / 2) times |
| `RateLimit.AddressIsLimited` | bench/shootout-src/ratelimit.c:102-135 | over any run of N hits one address is accepted at most 2 (peak + ceil(N / period) ceil(peak / 2)) times, whoever else hits |
| `RateLimit.RefusedIff` | bench/shootout-src/ratelimit.c:119-134 | a hit is refused exactly when both of its slots stand at the peak after the halving |
| `RateLimit.RaisedByUse` | bench/shootout-src/ratelimit.c:102-135 | over any run a slot gains at most one for each use by a hit |
| `RateLimit.RefusedAfterPeak` | bench/shootout-src/ratelimit.c:102-135 | from an empty table, a hit is refused only if earlier hits used each of its two slots at least peak times |
| `RateLimit.QuietSlot` | bench/shootout-src/ratelimit.c:107-115 | a slot that no hit uses is divided by exactly two to the number of its halvings |
| `RateLimit.RecoversAfterQuiet` | bench/shootout-src/ratelimit.c:102-135 | a slot below 2^k that rests for k periods is empty, and its addresses are accepted again |
| `RateLimit.Limiter.constructor` | bench/shootout-src/ratelimit.c:24-42 | all slots zero, the period raised to the number of slots |
| `RateLimit.Limiter.Hit` | bench/shootout-src/ratelimit.c:102-135 | slots, position and result after one call, 32-bit counters included; the result is 1 exactly when both slots stand at the peak after the halving |
| `Base64.EncodesAlphabet` | bench/shootout-src/base64.c:23-28 | the masks of the encoder give the alphabets of RFC 4648 (and 40-45 for the URL-safe one) |
| `Base64.AlphabetDecodes` | bench/shootout-src/base64.c:30-55 | the masks of the decoder read every alphabet character back |
| `Base64.AsciiDigits` | bench/shootout-src/base64.c:30-55 | on ASCII the masks give the place in the alphabet, and 255 for every other character |
| `Base64.SignedDigits` | bench/shootout-src/base64.c:30-55 | a negative char is taken for digit 63 |
| `Base64.UnsignedDigits` | bench/shootout-src/base64.c:30-55 | an unsigned char from 128 up is no digit |
| `Base64.BytesOfDigits` | bench/shootout-src/base64.c:103-139 | the digits of a byte string give its bytes back and leave no stray bits |
| `Base64.DigitsOfBytes` | bench/shootout-src/base64.c:202-239 | canonical digits are the digits of the bytes they give |
| `Base64.RoundTrip` | bench/shootout-src/base64.c:78-269 | for all four variants, decoding an encoding returns the bytes |
| `Base64.ReencodesIffAscii` | bench/shootout-src/base64.c:78-269 | a decoded text re-encodes to itself exactly when it is ASCII |
| `Base64.UnsignedAcceptsAscii` | bench/shootout-src/base64.c:185-269 | where char is unsigned every decoded text is ASCII, so texts and byte strings are in bijection |
| `Base64.SignedAcceptsMore` | bench/shootout-src/base64.c:185-269 | where char is signed, four bytes 0x80 decode to three bytes 0xFF |
| `Base64.EncodedLength` | bench/shootout-src/base64.c:11-15 | the length macro is the length of the text plus one, for every length and variant |
| `Base64.DrainedIsFresh` | bench/shootout-src/base64.c:107-113 | the bits taken from the accumulator are the digits the new byte completes |
| `Base64.EncodeBytes` | bench/shootout-src/base64.c:105-139 | after k bytes exactly their complete digits are written and the accumulator holds the others |
| `Base64.EncodeLeftOver` | bench/shootout-src/base64.c:116-139 | the left-over bits make the last digit |
| `Base64.EncodeInto` | bench/shootout-src/base64.c:78-155 | the buffer holds the encoding, its padding and then only NULs; `Base64Numbers.DigitsSpellBytes` says which number its digits spell |
| `Base64.BytesStep` | bench/shootout-src/base64.c:216-229 | one more digit completes one more byte, or none |
| `Base64.CanonicalIff` | bench/shootout-src/base64.c:233-236 | the test of the trailing bits accepts exactly the canonical digit strings |
| `Base64.SkipPadding` | bench/shootout-src/base64.c:157-183 | succeeds exactly when that many padding characters follow |
| `Base64.DecodeDigits` | bench/shootout-src/base64.c:200-232 | stops at the first non-digit with the bytes of the digits before it, or reports a full buffer exactly when they do not fit |
| `Base64.DecodeInto` | bench/shootout-src/base64.c:185-269 | 0 exactly when the text is a decodable one and its bytes fit; then the bytes are its decoding |
| `Base64Numbers.DigitsSpellBytes` | bench/shootout-src/base64.c:103-139 | the digits of every byte string spell in base 64 the number its bytes spell in base 256, times 1, 16 or 4 for a last group of 3, 1 or 2 bytes |
| `Base64Numbers.BytesSpellDigits` | bench/shootout-src/base64.c:202-232 | the bytes of every digit string spell its number without the bits that fill no byte |
| `Base64Numbers.CanonicalSpells` | bench/shootout-src/base64.c:202-239 | for digits without stray bits the two numbers are equal up to that factor |
| `Base64Numbers.SpellingIsUnique` | bench/shootout-src/base64.c:103-139 | digits of one length are determined by the number they spell |
| `Base64Numbers.Characters` | bench/shootout-src/base64.c:23-45 | the characters are A-Z, a-z, 0-9, then + and / or - and _, and the padding is = |
| `Sha256.PadLength` | test/realworld/c/sha256_hash.c:85-96 | the padding of section 5.1.1 of FIPS 180-4 gives whole blocks, with 9 to 72 bytes more |
| `Sha256.FoldConcat` | test/realworld/c/sha256_hash.c:73-83 | compressing is a fold: whole blocks first, then the rest |
| `Sha256.TotalBits` | test/realworld/c/sha256_hash.c:79-94 | block bits plus tail bits are the message bits |
| `Sha256.PaddedFold` | test/realworld/c/sha256_hash.c:85-97 | what is left at the end, padded, completes the fold over the padded message |
| `Sha256.FillSchedule` | test/realworld/c/sha256_hash.c:44-48 | the message schedule |
| `Sha256.Transform` | test/realworld/c/sha256_hash.c:40-62 | one application of the compression function to the chaining state; `Sha256Values` pins its functions, constants and one value |
| `Sha256.Context.constructor` | test/realworld/c/sha256_hash.c:64-71 | the initial state has absorbed the empty message |
| `Sha256.Context.Push` | test/realworld/c/sha256_hash.c:75-81 | one byte more, with the transform at a block end |
| `Sha256.Context.Update` | test/realworld/c/sha256_hash.c:73-83 | the context has absorbed the old message followed by the data |
| `Sha256.Context.Finish` | test/realworld/c/sha256_hash.c:85-97 | the state is the fold over the padded message, whether the tail needs one block or two |
| `Sha256.Context.Final` | test/realworld/c/sha256_hash.c:85-104 | the digest is that state, big-endian |
| `Sha256.HashPieces` | test/realworld/c/sha256_hash.c:64-104 | for every way of cutting a message below 2^61 bytes into updates, the digest is that of the whole message |
| `Sha256Values.BitsOfEp0` | test/realworld/c/sha256_hash.c:25-28 | bit i is the exclusive or of bits i + 2, i + 13 and i + 22, counted modulo 32 |
| `Sha256Values.BitsOfEp1` | test/realworld/c/sha256_hash.c:25-29 | bit i is the exclusive or of bits i + 6, i + 11 and i + 25 |
| `Sha256Values.BitsOfSig0` | test/realworld/c/sha256_hash.c:25-30 | bit i is the exclusive or of bits i + 7, i + 18 and, shifted out at the top, i + 3 |
| `Sha256Values.BitsOfSig1` | test/realworld/c/sha256_hash.c:25-31 | bit i is the exclusive or of bits i + 17, i + 19 and, shifted out at the top, i + 10 |
| `Sha256Values.CubeRoots0` | test/realworld/c/sha256_hash.c:7-7 | constants 0 to 3 are the first 32 bits of the fractions of the cube roots of primes 1 to 4 |
| `Sha256Values.CubeRoots1` | test/realworld/c/sha256_hash.c:8-8 | constants 4 to 7 are the first 32 bits of the fractions of the cube roots of primes 5 to 8 |
| `Sha256Values.CubeRoots2` | test/realworld/c/sha256_hash.c:9-9 | constants 8 to 11 are the first 32 bits of the fractions of the cube roots of primes 9 to 12 |
| `Sha256Values.CubeRoots3` | test/realworld/c/sha256_hash.c:10-10 | constants 12 to 15 are the first 32 bits of the fractions of the cube roots of primes 13 to 16 |
| `Sha256Values.CubeRoots4` | test/realworld/c/sha256_hash.c:11-11 | constants 16 to 19 are the first 32 bits of the fractions of the cube roots of primes 17 to 20 |
| `Sha256Values.CubeRoots5` | test/realworld/c/sha256_hash.c:12-12 | constants 20 to 23 are the first 32 bits of the fractions of the cube roots of primes 21 to 24 |
| `Sha256Values.CubeRoots6` | test/realworld/c/sha256_hash.c:13-13 | constants 24 to 27 are the first 32 bits of the fractions of the cube roots of primes 25 to 28 |
| `Sha256Values.CubeRoots7` | test/realworld/c/sha256_hash.c:14-14 | constants 28 to 31 are the first 32 bits of the fractions of the cube roots of primes 29 to 32 |
| `Sha256Values.CubeRoots8` | test/realworld/c/sha256_hash.c:15-15 | constants 32 to 35 are the first 32 bits of the fractions of the cube roots of primes 33 to 36 |
| `Sha256Values.CubeRoots9` | test/realworld/c/sha256_hash.c:16-16 | constants 36 to 39 are the first 32 bits of the fractions of the cube roots of primes 37 to 40 |
| `Sha256Values.CubeRoots10` | test/realworld/c/sha256_hash.c:17-17 | constants 40 to 43 are the first 32 bits of the fractions of the cube roots of primes 41 to 44 |
| `Sha256Values.CubeRoots11` | test/realworld/c/sha256_hash.c:18-18 | constants 44 to 47 are the first 32 bits of the fractions of the cube roots of primes 45 to 48 |
| `Sha256Values.CubeRoots12` | test/realworld/c/sha256_hash.c:19-19 | constants 48 to 51 are the first 32 bits of the fractions of the cube roots of primes 49 to 52 |
| `Sha256Values.CubeRoots13` | test/realworld/c/sha256_hash.c:20-20 | constants 52 to 55 are the first 32 bits of the fractions of the cube roots of primes 53 to 56 |
| `Sha256Values.CubeRoots14` | test/realworld/c/sha256_hash.c:21-21 | constants 56 to 59 are the first 32 bits of the fractions of the cube roots of primes 57 to 60 |
| `Sha256Values.CubeRoots15` | test/realworld/c/sha256_hash.c:22-22 | constants 60 to 63 are the first 32 bits of the fractions of the cube roots of primes 61 to 64 |
| `Sha256Values.SquareRoots` | test/realworld/c/sha256_hash.c:64-71 | the initial state is the first 32 bits of the fractions of the square roots of the first eight primes |
| `Sha256Values.LengthIsSpelled` | test/realworld/c/sha256_hash.c:85-96 | any eight bytes are what the length field holds for the number they spell, most significant byte first |
| `Sha256Values.CompressOfAbc` | test/realworld/c/sha256_hash.c:40-62 | the compression function on the padded message "abc", as eight literal words |
| `Sha256Values.DigestOfAbc` | test/realworld/c/sha256_hash.c:64-104 | the digest of "abc" is ba7816bf 8f01cfea 414140de 5dae2223 b00361a3 96177a9c b410ff61 f20015ad |
| `Heapsort.RootIsMaximum` | bench/shootout-src/heapsort.c:32-34 | the root of a heap is its maximum |
| `Heapsort.SiftStep` | bench/shootout-src/heapsort.c:47-50 | moving the larger child up keeps the heap with a hole |
| `Heapsort.SiftEnd` | bench/shootout-src/heapsort.c:51-55 | filling the hole once both children are at most the value restores the heap |
| `Heapsort.HoleMoves` | bench/shootout-src/heapsort.c:48-48 | moving the hole keeps the multiset of the array with the held value |
| `Heapsort.SiftDown` | bench/shootout-src/heapsort.c:41-55 | the sift makes a heap, permutes, touches nothing outside and stays below the sorted tail |
| `Heapsort.BuildTurn` | bench/shootout-src/heapsort.c:29-31 | one turn of the building phase |
| `Heapsort.SortTurn` | bench/shootout-src/heapsort.c:32-39 | one turn of the sorting phase, or the end |
| `Heapsort.Sort` | bench/shootout-src/heapsort.c:20-57 | for n at least 2, terminates with 1..n sorted, a permutation, everything else untouched |
| `Utf8.AcceptedIsEncoding` | test/realworld/c/utf8_validate.c:23-62 | what the validator accepts is the encoding of the scalar value it computes |
| `Utf8.EncodingIsAccepted` | test/realworld/c/utf8_validate.c:23-62 | every encoding is accepted, whatever follows, with its own length and value |
| `Utf8.AcceptsIsGrammar` | test/realworld/c/utf8_validate.c:23-62 | the shifts, masks and bounds accept exactly the byte ranges of the grammar in section 4 of RFC 3629 |
| `Utf8.DecompositionIsUnique` | test/realworld/c/utf8_validate.c:18-68 | a text is a concatenation of encodings in at most one way |
| `Utf8.StuckIsIllFormed` | test/realworld/c/utf8_validate.c:38-62 | once a sequence is not accepted the text is no concatenation of encodings, however it is cut |
| `Utf8.ReadSequence` | test/realworld/c/utf8_validate.c:19-62 | one turn of the loop accepts exactly by that rule and computes length and value |
| `Utf8.Analyze` | test/realworld/c/utf8_validate.c:14-71 | valid exactly for the concatenations of encodings of scalar values; codepoints = ascii + multibyte = number of values read, also where it stops early |

## Left out

- The runtime itself (decoder, validator, register allocation, JIT), its C API and its cancel and fuel behaviour: their sources are not part of this model.
- `main` functions, printing, timing, allocation failure: input and output only.
- Associativity of the curve's group law, the primality of 2^255 - 19, and that Z is never congruent to 0: not proved. `Multiples25519.Multiply` therefore says that the result is computed from p by additions and negations of total weight a, not that all such computations agree.
- Decode25519.DecodePoint: says when the candidate passes; `Decode25519.RootsPass` shows that it passes for every root whose power (P - 1) / 2 is 1 or -1, which Fermat's theorem for 2^255 - 19 would give for all.
- ScalarMult25519.ScalarMult: states a times P for every relation closed under addition, negation and change of coordinates; `Multiples25519.Multiply` is the instance that counts.
- ScalarMult25519.EncodePoint: divides by Z through the power P - 2, because that this is the inverse rests on primality.
- Field elements and points are values instead of limb arrays written through pointers, so aliasing of an output with an input is not modelled. Shifts and masks by powers of two are divisions and remainders, an OR of disjoint bits is a sum.
- Constant-time behaviour of the Base64 and curve code.
- SipHash in the rate limiter: the two slots of an address are arbitrary.
- Base64 with a set of characters to ignore or with an end pointer; a variant number outside the four, or a buffer too small for the encoding, for which the program loops forever.
- Base64.EncodedLength: does not model the wrap-around of `size_t`, because the byte strings it would need do not fit in memory.
- BTreePool.Store.InsertKey: asks that the nodes it takes are free, because the program does not test for the end of its pool; `BTreePool.Store.KeysGiveRoom` shows when they are.
- BTreePool.Store.Traverse: asks for a buffer that can hold the keys, because the program does not test for the end of its buffer of 1024.
- Lz4.Decompress: asks that a text to be refused is too short to spell a length of 2^32, because what the program does after a length wraps can be a copy outside its buffers.
- Removal from the B-tree (`btree_delete_leaf`): it does not rebalance and can empty a leaf.
- RegexC.MatchPattern: asks that the automaton fits the state table, because the program does not test for its end; the same holds for RegexRust.MatchPattern.
- The unused postfix converter and fragment builder of the C regex program.
- Heapsort.Sort: sorts reals, so it does not model NaN; for n below 2 the program indexes outside 1..n.
- The other programs: `keccak.c`, `xchacha20.c` and `xblabla20.c` do not compute the functions they are named after; the floating-point kernels, `switch.c` and `many_functions.c` would only add easy members; programs that call libraries outside the repository.
