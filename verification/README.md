# Verification of the device SDK's core algorithms

This project models and proves the parts of the AWS IoT device SDK repository where correctness is
least obvious from the code: the multi-precision arithmetic and the public-key algorithms of its TLS
library, the streaming and authenticated cipher modes, the JSON tokenizer, and the MQTT client with its
packet codec and topic matcher. `dafny verify dfyconfig.toml` checks everything.

## How the models are built

- **Arithmetic** (`Arith`, `Limbs`, `Bignum`, `Montgomery`, `ExpMod`, `Division`, `GcdInverse`). A number
  is a vector of limbs over a symbolic base; `Val` is the integer it stands for. Every routine is
  specified by one line over the integers. Limb buffers are arrays changed in place, and numbers that
  share a buffer are the same object. Allocation may fail at any growth, so claims about values are
  conditional on the returned status; with ample memory the operations succeed. The multiply-accumulate macro of the library is taken as one exact
  limb step.
- **Curves and protocols** (`AbelianGroup`, `CombRecoding`, `CombMul`, `ReduceP256`, `Normalize`, `Ecdsa`,
  `Dhm`). Points are elements of an arbitrary abelian group; random numbers are arbitrary values in the
  range that the library filters for, and drawing them may fail. The hash-derived value of a signature
  is the same in each retry of signing, so the model computes it once.
- **Cipher modes** (`ByteOps`, `CbcMode`, `Padding`, `CipherStream`, `Ccm`). The block cipher is an
  arbitrary invertible function (CBC) or an arbitrary function (CCM). The formatted texts are pinned bit
  by bit, and each mode by its law for single blocks.
- **JSON** (`JsonTree`, `JsonTokenizer`, `JsonLeaves`, `JsonRender`). The strict build without parent
  links. The reference is a run with an explicit stack of open containers that builds trees; the token
  array is shown to be their preorder listing at every step. Where strings and primitives end is told from
  the characters alone, and tokenising the text of a document gives back its tree.
- **MQTT** (`MqttClient`, `TopicMatch`, `PublishCodec`). The single-threaded build. The network, the
  timers and the application are a finite tape of choices, so a theorem about all tapes is a theorem
  about all finite runs, with callbacks nested to any depth.

## Where the code does not do what one would expect

Each of these is stated as a lemma or clause that says exactly when the code is right.

- Adding a number to itself in place, with all three operands one object, loses carries
  (`Bignum.DoublingExact`, `Bignum.DoublingLosesCarry`).
- Modular exponentiation of a negative base always negates the result (`ExpMod.NegativeBase`,
  `ExpMod.NegativeCoprimeBase`).
- The greatest common divisor with B = 0 is returned as 0 (`GcdInverse.GcdNeedsDivisor`).
- ECDSA verification rejects a correct signature when the hash value is 0 modulo N
  (`Ecdsa.RoundTrip`), since scalar multiplication refuses 0.
- Comb multiplication refuses a point whose table has a zero entry, which the code's comment rules out. It
  happens in small groups, such as the one of order 17, where verification then rejects correct signatures
  (`CombMul.SmallOrderRefused`, `Ecdsa.OrderSeventeen`); it does not from 26 bits on (`CombMul.NeverRefused`).
  In the groups of order 3 and 5 such a table is even used (`CombMul.TwoTeethTiny`).
- A key agreement whose random source gives up midway leaves blinding values that may spoil the next
  secret, until the exponent is replaced (`Dhm.Context.CalcSecret`, `Dhm.SpoiledRun`).
- The inverse modulo 1 never returns (`GcdInverse.InvMod`).
- Removing one-and-zeros padding masks bytes together and so accepts blocks without that padding
  (`Padding.GetOneAndZeros`, `Padding.PassesUnpadded`).
- CCM accepts 0xFF00 bytes of additional data, one more than its comment says, and then does not format
  them as the standard does (`Ccm.AddTextStandard`).
- Zero padding does not give back a message whose last block ends in a zero byte (`CipherStream.RoundTrip`).
- Yield gets stuck in its own state when the transport's read returns the code for a lost connection
  (`MqttClient.Client.Yield`).
- The topic matcher does not match a wildcard with an empty level, nor "/#" with its parent level,
  although the standard does (`TopicMatch.NonemptyMatches`).
- The packet size estimate is one too large at three lengths, and too small or wrapped beyond the lengths
  of the protocol (`PublishCodec.FinalLengthExact`); a PUBLISH with an identifier may declare too few bytes
  for it (`PublishCodec.Deserialize`).
- The comment above the negative fix-up of the P-256 reduction gives another power of two than the code
  uses; the model follows the code (`ReduceP256.FixNegative`).

## Model

| member | source | states |
|---|---|---|
| `Limbs.CmpLimbs` | external_libs/mbedTLS/library/bignum.c:772-797 | three-way comparison of two limb vectors of any lengths agrees with the comparison of the integers they stand for |
| `Limbs.SubHlp` | external_libs/mbedTLS/library/bignum.c:903-919 | in-place limb subtraction is exact whenever the difference is not negative, and the borrow chain then ends inside the buffer |
| `Limbs.MulHlp` | external_libs/mbedTLS/library/bignum.c:1069-1128 | multiply-accumulate of a limb vector at an offset is exact, leaves the limbs below alone, and the carry chain ends inside the buffer whenever the result fits |
| `Limbs.MulAddCore` | external_libs/mbedTLS/library/bignum.c:1069-1128 | one multiply-accumulate step changes the total by exactly y*m plus the carries in and out |
| `Bignum.Grow` | external_libs/mbedTLS/library/bignum.c:102-126 | growing keeps the value and the sign and pads with zero limbs; failure changes nothing |
| `Bignum.Copy` | external_libs/mbedTLS/library/bignum.c:168-197 | on success the target has the magnitude and sign of the source, which is untouched |
| `Bignum.CmpAbs` | external_libs/mbedTLS/library/bignum.c:772-797 | compares magnitudes |
| `Bignum.AddAbs` | external_libs/mbedTLS/library/bignum.c:851-893 | abs(A) + abs(B) exactly, under every aliasing except that all three operands are one object; for that case it states what is stored instead |
| `Bignum.CarryOut` | external_libs/mbedTLS/library/bignum.c:884-893 | the last carry is propagated, growing the number if it leaves it, and no carry is lost |
| `Bignum.DoublingExact` | external_libs/mbedTLS/library/bignum.c:878-882 | the all-aliased addition doubles the number if and only if no limb reaches half the base |
| `Bignum.DoublingLosesCarry` | external_libs/mbedTLS/library/bignum.c:878-882 | a one-limb number for which the all-aliased addition gives 0 |
| `Bignum.SubAbs` | external_libs/mbedTLS/library/bignum.c:924-962 | fails exactly when abs(A) < abs(B) and then changes nothing; otherwise abs(A) - abs(B) exactly, under every aliasing |
| `Bignum.AddMpi` | external_libs/mbedTLS/library/bignum.c:967-993 | signed sum; if all three operands are one object, its sign and the limb-wise doubling; succeeds with ample memory |
| `Bignum.SubMpi` | external_libs/mbedTLS/library/bignum.c:998-1024 | signed difference, under every aliasing; succeeds with ample memory |
| `Bignum.MulMpi` | external_libs/mbedTLS/library/bignum.c:1133-1165 | signed product, under every aliasing; each row fits into the limbs allocated for the whole product; succeeds with ample memory |
| `Division.QuotientDigit` | external_libs/mbedTLS/library/bignum.c:1234-1308 | the corrected quotient digit is never below the true digit and at most one above it, so the correction loop never goes below zero and one add-back suffices |
| `Division.OneTooLarge` | external_libs/mbedTLS/library/bignum.c:1293-1320 | a digit that passes the test on the leading limbs is at most one too large, whatever the divisor's top limb is |
| `Division.HeadTest` | external_libs/mbedTLS/library/bignum.c:1293-1308 | the true digit always passes the test on the leading limbs |
| `Division.LeadingDigit` | external_libs/mbedTLS/library/bignum.c:1223-1232 | the leading quotient limb, found by repeated subtraction, is below the base and accounts for what was taken off |
| `Division.DigitStep` | external_libs/mbedTLS/library/bignum.c:1234-1321 | one pass keeps dividend = rest + divisor * quotient so far and brings the rest below the next shifted divisor |
| `Division.DivLoop` | external_libs/mbedTLS/library/bignum.c:1223-1321 | the passes together give dividend = divisor * quotient + rest with rest < divisor |
| `Division.Normalised` | external_libs/mbedTLS/library/bignum.c:1214-1221 | the shift brings the divisor's top limb between b/4 and b/2, not above b/2 |
| `Division.DivMpi` | external_libs/mbedTLS/library/bignum.c:1186-1345 | A = Q*B + R, abs(R) < abs(B) and R has the sign of A, for all A and all B != 0; refuses exactly B = 0 |
| `Division.ModMpi` | external_libs/mbedTLS/library/bignum.c:1366-1387 | the least non-negative residue; refuses exactly B <= 0 |
| `Montgomery.MontgInit` | external_libs/mbedTLS/library/bignum.c:1446-1458 | mm*N[0] = -1 modulo 2^biL for every odd N[0] and every limb width that is a power of two from 8 on |
| `Montgomery.NewtonStep` | external_libs/mbedTLS/library/bignum.c:1451-1455 | one iteration squares the modulus up to which the inverse is right |
| `Montgomery.MontStep` | external_libs/mbedTLS/library/bignum.c:1475-1487 | one pass divides exactly by the base and keeps the running total below 2N |
| `Montgomery.MontLoop` | external_libs/mbedTLS/library/bignum.c:1469-1487 | after all passes the total is below 2N and is A*B/R modulo N |
| `Montgomery.Montmul` | external_libs/mbedTLS/library/bignum.c:1463-1496 | A*B*R^-1 mod N, in [0, N), in place, also when B is A |
| `Montgomery.DummyFits` | external_libs/mbedTLS/library/bignum.c:1491-1495 | the dummy subtraction in the other branch never borrows past T |
| `ExpMod.Precompute` | external_libs/mbedTLS/library/bignum.c:1594-1617 | fills entry 1 and exactly the entries with ws bits, each with its own power of A in Montgomery form |
| `ExpMod.ReadBit` | external_libs/mbedTLS/library/bignum.c:1625-1639 | the bits of E come out most significant first and together are E |
| `ExpMod.FullWindow` | external_libs/mbedTLS/library/bignum.c:1664-1680 | ws squarings and one multiplication append a full window to the exponent; the table entry read was precomputed |
| `ExpMod.WindowStep` | external_libs/mbedTLS/library/bignum.c:1639-1680 | for every exponent bit the automaton keeps: exponent so far = q*2^nbits + pending bits, and X is A^q |
| `ExpMod.WindowLoop` | external_libs/mbedTLS/library/bignum.c:1619-1681 | after the last bit the exponent so far is E |
| `ExpMod.TailBits` | external_libs/mbedTLS/library/bignum.c:1683-1694 | the pending bits of an incomplete window are multiplied in |
| `ExpMod.Montred` | external_libs/mbedTLS/library/bignum.c:1501-1510 | takes one factor R out |
| `ExpMod.Exponentiate` | external_libs/mbedTLS/library/bignum.c:1578-1699 | A^E mod N for every odd N, every E and every window size, from a correct R^2 mod N |
| `ExpMod.ExpMod` | external_libs/mbedTLS/library/bignum.c:1515-1718 | refuses exactly the arguments that the code refuses; A^E mod N for A >= 0 whether R^2 is computed or cached, and the cache left behind is correct; the value returned for A < 0 |
| `ExpMod.NegativeBase` | external_libs/mbedTLS/library/bignum.c:1701-1705 | the value returned for A < 0 is A^E mod N if and only if E is odd and the power is not 0 modulo N |
| `ExpMod.NegativeCoprimeBase` | external_libs/mbedTLS/library/bignum.c:1701-1705 | for gcd(A, N) = 1 and N > 1 the value returned for A < 0 is right if and only if E is odd |
| `ExpMod.NegativeSquare` | external_libs/mbedTLS/library/bignum.c:1701-1705 | (-2)^2 mod 5 is returned as 1 |
| `GcdInverse.GcdStep` | external_libs/mbedTLS/library/bignum.c:1745-1760 | one pass keeps the common divisors and makes the sum smaller |
| `GcdInverse.Gcd` | external_libs/mbedTLS/library/bignum.c:1723-1770 | terminates for all A and B; the greatest common divisor of abs(A) and abs(B) for every B != 0, and 0 for B = 0 |
| `GcdInverse.GcdNeedsDivisor` | external_libs/mbedTLS/library/bignum.c:1745-1760 | for B = 0 and A != 0 the result 0 is not the greatest common divisor |
| `GcdInverse.HalveAccumulator` | external_libs/mbedTLS/library/bignum.c:1831-1857 | halving an accumulator is exact and keeps its relation t = u*a + v*n |
| `GcdInverse.InverseLoop` | external_libs/mbedTLS/library/bignum.c:1829-1872 | ends with a combination of a and n equal to 1, for every coprime pair |
| `GcdInverse.InvMod` | external_libs/mbedTLS/library/bignum.c:1799-1889 | 0 <= X < N with X*A = 1 mod N exactly when gcd(A, N) = 1, and otherwise there is no inverse at all; refuses exactly N <= 0; never ends exactly for N = 1, where after any number of passes the first halving loop still sees an even number |
| `GcdInverse.NeverOdd` | external_libs/mbedTLS/library/bignum.c:1831-1843 | a halving loop that starts at 0 never ends |
| `GcdInverse.NoInverse` | external_libs/mbedTLS/library/bignum.c:1811-1817 | a common factor rules out an inverse |
| `CombRecoding.RecodeBit` | external_libs/mbedTLS/library/ecp.c:1149-1161 | adding the carry and the previous digit keeps the total of every tooth, with the previous digit counted negatively |
| `CombRecoding.Columns` | external_libs/mbedTLS/library/ecp.c:1140-1145 | the digits before recoding are the columns of the scalar's bit matrix |
| `CombRecoding.CombFixed` | external_libs/mbedTLS/library/ecp.c:1134-1162 | for every odd m below 2^(d*w): all digits odd and within the w teeth, and their signed sum is exactly m |
| `CombRecoding.CarryDies` | external_libs/mbedTLS/library/ecp.c:1147-1161 | no carry is left after the last digit |
| `CombMul.PowersPass` | external_libs/mbedTLS/library/ecp.c:1183-1200 | the first pass stores 2^(d*l)*P at the powers of two |
| `CombMul.AddLevel` | external_libs/mbedTLS/library/ecp.c:1202-1217 | a level of the in-place second pass gets its sums although T[2^l] is overwritten on the way |
| `CombMul.PrecomputeComb` | external_libs/mbedTLS/library/ecp.c:1174-1221 | T[i] = P + the sum over the bits l of i of 2^(d*(l+1))*P; the two batch normalisations fail exactly when some entry beyond P is the zero point and there are more than two entries |
| `CombMul.HalfNotZero` | external_libs/mbedTLS/library/ecp.c:1183-1200 | in odd order the powers of the first pass are never the zero point |
| `CombMul.SelectComb` | external_libs/mbedTLS/library/ecp.c:1226-1248 | the entry of an odd digit, negated for a negative one, if no entry is the zero point |
| `CombMul.MulCombCore` | external_libs/mbedTLS/library/ecp.c:1256-1286 | double-and-add evaluates the digit string at P, if no table entry is the zero point |
| `CombMul.MulComb` | external_libs/mbedTLS/library/ecp.c:1292-1406 | m*P in every abelian group with N*P = 0, N odd and 1 <= m < N, for every number of teeth, with a fresh or, for the base point, a cached table, unless the table has a zero entry; refuses exactly an even N and, from three teeth on, a table with a zero entry |
| `CombMul.NoZeroWeight` | external_libs/mbedTLS/library/ecp.c:1321-1340 | with more columns than teeth every table entry is a multiple of P by a number between 0 and N |
| `CombMul.NeverRefused` | external_libs/mbedTLS/library/ecp.c:764-769 | from 26 bits on no table has a zero entry, whatever the limit on the teeth |
| `CombMul.TwoTeeth` | external_libs/mbedTLS/library/ecp.c:1321-1340 | with two teeth no odd order above 5 gives a zero entry |
| `CombMul.TwoTeethTiny` | external_libs/mbedTLS/library/ecp.c:1321-1340 | the orders 3 and 5 do |
| `CombMul.SmallOrderRefused` | external_libs/mbedTLS/library/ecp.c:1321-1340 | order 17 gives a zero entry for every point but the base point |
| `Normalize.NormalizeJac` | external_libs/mbedTLS/library/ecp.c:726-759 | X/Z^2 and Y/Z^3 modulo P with Z = 1; fails exactly when Z has no inverse; the zero point stays |
| `Normalize.AffineUnique` | external_libs/mbedTLS/library/ecp.c:726-759 | there is only one such pair of coordinates |
| `Normalize.PrefixProducts` | external_libs/mbedTLS/library/ecp.c:787-795 | c[i] is the product of the first Z coordinates |
| `Normalize.ProductInvertible` | external_libs/mbedTLS/library/ecp.c:797-800 | the product of the Z coordinates is invertible exactly when each of them is |
| `Normalize.Backward` | external_libs/mbedTLS/library/ecp.c:802-837 | the backward pass recovers every inverse from the one inversion |
| `Normalize.NormalizeMany` | external_libs/mbedTLS/library/ecp.c:772-847 | every point gets the coordinates that normalising it alone would give; fails, with nothing changed, exactly when some Z has no inverse |
| `ReduceP256.Add32` | external_libs/mbedTLS/library/ecp_curves.c:902-906 | 32-bit addition with an exact signed carry |
| `ReduceP256.Sub32` | external_libs/mbedTLS/library/ecp_curves.c:908-912 | 32-bit subtraction with an exact signed carry |
| `ReduceP256.Next` | external_libs/mbedTLS/library/ecp_curves.c:937-943 | the signed carry of a column is folded into the next word |
| `ReduceP256.ColumnChain` | external_libs/mbedTLS/library/ecp_curves.c:1003-1033 | the eight columns differ from the full 512-bit number by a multiple of the prime |
| `ReduceP256.FixNegative` | external_libs/mbedTLS/library/ecp_curves.c:955-976 | the magnitude of a negative total |
| `ReduceP256.ModP256` | external_libs/mbedTLS/library/ecp_curves.c:1003-1033 | every N below 2^512 becomes, in place, a signed number congruent to it modulo the prime, with at most nine words |
| `Ecdsa.DeriveMpi` | external_libs/mbedTLS/library/ecdsa.c:49-66 | the value of the hash string as a residue modulo N |
| `Ecdsa.HashIntLeftmost` | external_libs/mbedTLS/library/ecdsa.c:49-66 | that value is the big-endian number of the whole string divided by 2^(8*blen - nbits) if the string is longer than nbits, and the number itself otherwise |
| `Ecdsa.FirstByteUsed` | external_libs/mbedTLS/library/ecdsa.c:49-66 | of the two bytes 5 and 7, eight bits are 5 |
| `Ecdsa.OneTimeKey` | external_libs/mbedTLS/library/ecdsa.c:94-106 | the pair (k, r) is a one-time key and the nonzero x coordinate of its point, for every order above 5 |
| `Ecdsa.SignWith` | external_libs/mbedTLS/library/ecdsa.c:131-140 | s*k = e + r*d modulo N: the blinding factor cancels |
| `Ecdsa.Sign` | external_libs/mbedTLS/library/ecdsa.c:72-155 | every pair returned is a signature in the sense of section 4.1.3 of SEC1, for every order above 5 |
| `Ecdsa.Verify` | external_libs/mbedTLS/library/ecdsa.c:199-279 | for every order above 5: accepts exactly the pairs in range that satisfy the equation of section 4.1.4 of SEC1, for a nonzero key point, e != 0 and comb tables without a zero entry |
| `Ecdsa.EcpMul` | external_libs/mbedTLS/library/ecp.c:1594-1625 | refuses exactly a scalar outside [1, N-1], the zero point and a point whose comb table is refused; otherwise m*P, for every order above 5 |
| `Ecdsa.SignatureSatisfiesEquation` | external_libs/mbedTLS/library/ecdsa.c:131-140 | every signature satisfies the verification equation with Q = d*G |
| `Ecdsa.RoundTrip` | external_libs/mbedTLS/library/ecdsa.c:199-279 | signing and then verifying with the matching key accepts if and only if e is not 0 modulo N and the comb table of the key is not refused; from 26 bits on if and only if e is not 0 |
| `Ecdsa.TableOfPoint` | external_libs/mbedTLS/library/ecp.c:764-769 | in prime order a comb table has a zero entry if and only if N divides the weight of an entry, whatever the point |
| `Ecdsa.OrderSeventeen` | external_libs/mbedTLS/library/ecdsa.c:199-279 | in order 17 every correct signature under a key other than the base point is rejected |
| `Ecdsa.EmptyHash` | external_libs/mbedTLS/library/ecdsa.c:199-279 | no signature of the empty hash is accepted |
| `Dhm.FitsSquare` | external_libs/mbedTLS/library/dhm.c:301-314 | squaring both blinding values keeps Vi^X*Vf = 1 mod P |
| `Dhm.FitsFresh` | external_libs/mbedTLS/library/dhm.c:316-336 | so does drawing Vi afresh |
| `Dhm.Unblinded` | external_libs/mbedTLS/library/dhm.c:361-380 | blinding, raising to X and unblinding gives GY^X mod P if the pair fits |
| `Dhm.UnblindedOnly` | external_libs/mbedTLS/library/dhm.c:361-380 | and only if it fits, for an invertible GY |
| `Dhm.Context.DrawVi` | external_libs/mbedTLS/library/dhm.c:320-332 | succeeds only when one of the first eleven draws, shifted below P, is above 1; gives up only when none is, and then the twelfth stays in Vi |
| `Dhm.Context.UpdateBlinding` | external_libs/mbedTLS/library/dhm.c:283-340 | from every state: succeeds or stops, for the draws or for memory, after any of its writes; on success a new exponent gets a pair that fits, and so does a fresh draw, and squaring keeps a pair that fits; with ample memory it fails exactly when the draws fail |
| `Dhm.Context.CalcSecret` | external_libs/mbedTLS/library/dhm.c:345-393 | from every state that earlier calls leave, failed ones included: the secret is GY^X mod P if and only if there is no blinding or the pair fits; so always while no call has failed since the exponent was replaced, and again after replacing it; refuses exactly GY outside [2, P-2], if memory suffices |
| `Dhm.SpoiledRun` | external_libs/mbedTLS/library/dhm.c:320-332 | a run of the context in which a failed call makes the next secret wrong, and a new exponent makes it right again |
| `CbcMode.DecEnc` | external_libs/mbedTLS/library/aes.c:860-919 | CBC decryption undoes CBC encryption for every invertible block function |
| `CbcMode.EncryptedBlock` | external_libs/mbedTLS/library/aes.c:903-918 | the block law of section 6.2 of SP 800-38A: each ciphertext block is the encryption of the plaintext block combined with the ciphertext block before it, or with the initial vector |
| `CbcMode.DecryptedBlock` | external_libs/mbedTLS/library/aes.c:885-902 | each decrypted block is the inverse cipher of the block, combined with the ciphertext block before it, or with the initial vector |
| `CipherStream.CryptCbc` | external_libs/mbedTLS/library/aes.c:860-919 | the block loops with the chaining value in place give the one-shot result, continued from what came before |
| `Padding.AddPadding` | external_libs/mbedTLS/library/cipher.c:428-554 | the data followed by the padding of the mode fills the block |
| `Padding.PadExamples` | external_libs/mbedTLS/library/cipher.c:428-554 | the three bytes that each mode adds to a block that lacks three |
| `Padding.GetPkcs` | external_libs/mbedTLS/library/cipher.c:438-461 | succeeds exactly on blocks that end in PKCS7 padding, and finds the data length |
| `Padding.GetOneAndZeros` | external_libs/mbedTLS/library/cipher.c:479-500 | finds the last nonzero byte, and succeeds exactly when that byte is even, it or a byte before it has the top bit set, and, if no zero follows it, every other bit is clear in it or in a byte before it |
| `Padding.PaddedPasses` | external_libs/mbedTLS/library/cipher.c:479-500 | every block that ends in 80 00 .. 00 is accepted with its data length |
| `Padding.PassesPadded` | external_libs/mbedTLS/library/cipher.c:479-500 | an accepted block ends in 80 00 .. 00 if and only if its last nonzero byte is 80 |
| `Padding.PassesUnpadded` | external_libs/mbedTLS/library/cipher.c:479-500 | 01 02 03 82 00 is accepted |
| `Padding.GetZerosAndLen` | external_libs/mbedTLS/library/cipher.c:518-539 | succeeds exactly on blocks that end in zeros and their count, and finds the data length |
| `Padding.GetZeros` | external_libs/mbedTLS/library/cipher.c:556-574 | everything after the last nonzero byte is dropped |
| `Padding.RemovesUnique` | external_libs/mbedTLS/library/cipher.c:438-540 | what is taken for the data of a block is unique, in the three modes that carry a mark |
| `CipherStream.Context.Update` | external_libs/mbedTLS/library/cipher.c:294-370 | whatever came before, the pieces fed in are the processed blocks plus the buffer, and the output is one-shot CBC of the processed blocks; encryption never holds back a full block, decryption always holds back something |
| `CipherStream.Context.Finish` | external_libs/mbedTLS/library/cipher.c:619-666 | the total output is that of one-shot CBC of the padded input, or what removing the padding from the last decrypted block leaves; the errors as functions of the whole input |
| `CipherStream.StripsUnique` | external_libs/mbedTLS/library/cipher.c:438-574 | what is left after removing the padding is unique |
| `CipherStream.StripsPadded` | external_libs/mbedTLS/library/cipher.c:438-539 | a padded text is accepted and stripped to its message |
| `CipherStream.StripsOnlyPadded` | external_libs/mbedTLS/library/cipher.c:438-539 | with PKCS7 and zeros-and-length padding nothing else is accepted |
| `CipherStream.StripsUnpadded` | external_libs/mbedTLS/library/cipher.c:479-500 | with one-and-zeros padding an unpadded text is accepted |
| `CipherStream.ZeroByteLost` | external_libs/mbedTLS/library/cipher.c:547-574 | with zero padding 01 00 comes back as 01 |
| `CipherStream.RoundTrip` | external_libs/mbedTLS/library/cipher.c:619-666 | decrypting what encryption produced gives the message back; for zero padding if and only if the last block's data does not end in a zero byte |
| `CipherStream.Crypt` | external_libs/mbedTLS/library/cipher.c:294-370 | the total output depends on the concatenation of the pieces alone |
| `CipherStream.Deliver` | external_libs/mbedTLS/library/cipher.c:294-370 | encrypted in any pieces, cut again anywhere and decrypted, the message comes back |
| `Ccm.UpdateCbcMac` | external_libs/mbedTLS/library/ccm.c:115-120 | one CBC-MAC step in place |
| `Ccm.CtrCrypt` | external_libs/mbedTLS/library/ccm.c:127-132 | one counter-mode step, also with source and target the same buffer |
| `Ccm.WriteLength` | external_libs/mbedTLS/library/ccm.c:189-193 | the length in q bytes; what is left over is 0 exactly when it fits |
| `Ccm.Increment` | external_libs/mbedTLS/library/ccm.c:287-289 | the counter bytes count up by one, through every carry |
| `Ccm.MacAdd` | external_libs/mbedTLS/library/ccm.c:204-232 | CBC-MAC of the two length bytes and the additional data, zero-padded |
| `Ccm.CryptMessage` | external_libs/mbedTLS/library/ccm.c:259-290 | the interleaved loop computes counter mode and the CBC-MAC of the plaintext, in both directions |
| `Ccm.AuthCrypt` | external_libs/mbedTLS/library/ccm.c:137-302 | refuses exactly the lengths outside the stated bounds; output and tag are counter mode and the masked CBC-MAC of the formatted texts; works in place |
| `Ccm.FirstBlockFields` | external_libs/mbedTLS/library/ccm.c:182-193 | block 0 as in section A.2.1 of SP 800-38C: bit 7 is 0, bit 6 tells whether there is additional data, bits 5 to 3 are (t-2)/2, bits 2 to 0 are q-1, then the nonce and the length of the message |
| `Ccm.CounterBlockFields` | external_libs/mbedTLS/library/ccm.c:244-247 | counter block i as in section A.3: bits 7 to 3 are 0, bits 2 to 0 are q-1, then the nonce and i |
| `Ccm.MacOneBlock` | external_libs/mbedTLS/library/ccm.c:115-120 | the CBC-MAC of at most one block is one encryption of it, zero-filled, combined with the value so far |
| `Ccm.MacConcat` | external_libs/mbedTLS/library/ccm.c:115-120 | the CBC-MAC of whole blocks followed by more goes on from that of the whole blocks |
| `Ccm.MacFilled` | external_libs/mbedTLS/library/ccm.c:204-232 | zeros up to the end of the last block make no difference to it |
| `Ccm.TagBytes` | external_libs/mbedTLS/library/ccm.c:292-299 | the tag is the leading bytes of the CBC-MAC, from zero, of block 0, the formatted additional data and the message, both zero-filled, each byte combined with that of the encrypted counter block 0 |
| `Ccm.AddTextStandard` | external_libs/mbedTLS/library/ccm.c:204-232 | the additional data is formatted as SP 800-38C says if and only if it is not 0xFF00 bytes long |
| `Ccm.LongestAddAccepted` | external_libs/mbedTLS/library/ccm.c:165-166 | that length is accepted |
| `Ccm.AuthDecrypt` | external_libs/mbedTLS/library/ccm.c:320-349 | accepts exactly when the tag is that of the decrypted text; otherwise clears the output |
| `Ccm.SealAndOpen` | external_libs/mbedTLS/library/ccm.c:307-349 | decrypting what encryption produced accepts the tag and restores the plaintext |
| `Ccm.StreamTwice` | external_libs/mbedTLS/library/ccm.c:259-290 | counter mode undoes itself |
| `Ccm.StreamByte` | external_libs/mbedTLS/library/ccm.c:259-290 | block j is masked with the encryption of counter block 1 + j |
| `Ccm.CountersDistinct` | external_libs/mbedTLS/library/ccm.c:189-193 | the length check keeps all counter blocks of a message apart, including block 0, which masks the tag |
| `Ccm.FirstBlockApart` | external_libs/mbedTLS/library/ccm.c:182-190 | the first MAC block is never a counter block |
| `JsonTokenizer.Parser.ParsePrimitive` | external_libs/jsmn/jsmn.c:67-115 | a primitive runs over printable characters to the first delimiter; on failure nothing changes |
| `JsonLeaves.PrimitiveEndExact` | external_libs/jsmn/jsmn.c:67-115 | a primitive ends at q exactly if q is the first delimiter and only printable characters come before; it is invalid exactly at a first other character, and partial exactly if the text ends before either |
| `JsonTokenizer.Parser.ParseString` | external_libs/jsmn/jsmn.c:120-188 | one token for the string that the scan finds; on failure nothing changes |
| `JsonLeaves.StringEndExact` | external_libs/jsmn/jsmn.c:120-188 | a string ends at q exactly if q is the first quote preceded by an even run of backslashes and all escapes before it are valid; it is invalid exactly at a first wrong escape, and partial exactly if the text ends before either |
| `JsonLeaves.FourDigits` | external_libs/jsmn/jsmn.c:163-177 | in a string that ends, backslash and u are followed by four hexadecimal digits |
| `JsonLeaves.EscapedQuote` | external_libs/jsmn/jsmn.c:149-182 | the escaped quote of a six-character text belongs to the string |
| `JsonTokenizer.Parser.OpenBracket` | external_libs/jsmn/jsmn.c:206-224 | opening a container pushes it on the explicit stack |
| `JsonTokenizer.Parser.CloseBracket` | external_libs/jsmn/jsmn.c:225-272 | succeeds exactly when the top of the stack is a container of that kind; the two backward scans find the top of the stack and the one below it |
| `JsonTokenizer.ScanFindsTop` | external_libs/jsmn/jsmn.c:250-260 | the last token that is still open is the top of the explicit stack |
| `JsonTokenizer.CloseTokens` | external_libs/jsmn/jsmn.c:256-257 | closing only fills in the end of the top container's token |
| `JsonTokenizer.Parser.Parse` | external_libs/jsmn/jsmn.c:193-332 | tokens, position and result are those of the run with an explicit stack, from every state that earlier calls leave; from a fresh parser the count is the number of tokens used, these form a forest, and every character of the text is a blank, in a leaf, a bracket of a token or a quote of a string; every pass moves on |
| `JsonTokenizer.AccountedRun` | external_libs/jsmn/jsmn.c:193-332 | every character read is a blank or belongs to a token |
| `JsonTokenizer.SuccessIsForest` | external_libs/jsmn/jsmn.c:193-332 | a successful run from the start leaves a forest |
| `JsonTree.PlacedIsForest` | external_libs/jsmn/jsmn.c:193-332 | the preorder listing of trees placed in the text has increasing starts, nested or disjoint spans, containers from bracket to bracket of the same kind, and sizes that count the direct children |
| `JsonRender.TokenisesDocument` | external_libs/jsmn/jsmn.c:193-332 | tokenising the text of any document (values of all four kinds, nested to any depth, strings with any valid escapes, any separators) gives exactly the tree of the document |
| `JsonRender.OverDoc` | external_libs/jsmn/jsmn.c:193-332 | the same inside any run: over the text of a document the run attaches its tree to the innermost open container |
| `MqttClient.Client.SetState` | src/aws_iot_mqtt_client.c:94-127 | compare and set |
| `MqttClient.Client.DeliverMessage` | src/aws_iot_mqtt_client_common_internal.c:448-486 | restores the state after any number of callbacks that do not disconnect |
| `MqttClient.Client.HandlePublish` | src/aws_iot_mqtt_client_common_internal.c:488-535 | an incoming message, with its callbacks, restores the state unless a callback disconnects |
| `MqttClient.Client.CycleRead` | src/aws_iot_mqtt_client_common_internal.c:537-601 | restores the state; a lost code can only come from the transport read |
| `MqttClient.Client.WaitForRead` | src/aws_iot_mqtt_client_common_internal.c:604-629 | restores the state over all packets that arrive before the expected one; succeeds only if that one has arrived |
| `MqttClient.Client.PublishMessage` | src/aws_iot_mqtt_client_publish.c:261-294 | leaves the state exactly as found in every run whose message callbacks do not disconnect; in every run as found or at rest; at quality of service 1 succeeds only if the acknowledgement has arrived |
| `MqttClient.Client.Subscribe` | src/aws_iot_mqtt_client_subscribe.c:287-321 | as for publishing, with its acknowledgement |
| `MqttClient.Client.Unsubscribe` | src/aws_iot_mqtt_client_unsubscribe.c:212-241 | as for publishing, with its acknowledgement |
| `MqttClient.Client.Resubscribe` | src/aws_iot_mqtt_client_subscribe.c:399-431 | leaves the state as publishing does; without a connection, or when not idle, it returns the code for that |
| `MqttClient.Client.Connect` | src/aws_iot_mqtt_client_connect.c:451-482 | ends idle with no ping outstanding and the acknowledgement arrived on success, and disconnected on failure; refuses, changing nothing, in every state that is not valid for connecting |
| `MqttClient.Client.Disconnect` | src/aws_iot_mqtt_client_connect.c:543-574 | ends manually disconnected on success and as found otherwise |
| `MqttClient.Client.AttemptReconnect` | src/aws_iot_mqtt_client_connect.c:589-617 | ends idle or waiting to reconnect |
| `MqttClient.Client.HandleDisconnect` | src/aws_iot_mqtt_client_yield.c:53-71 | ends disconnected with an error, whatever the disconnect handler does |
| `MqttClient.Client.HandleReconnect` | src/aws_iot_mqtt_client_yield.c:74-109 | ends idle, waiting to reconnect, or back in yield and then only with the code for reconnected; before the timer expires nothing changes; after it the waiting time doubles unless the client is reconnected, and beyond the limit it times out |
| `MqttClient.Client.KeepAlive` | src/aws_iot_mqtt_client_yield.c:111-158 | without an interval does nothing; changes the state only by giving up the connection; does so when a ping is due and the last one is unanswered, and otherwise leaves a ping outstanding |
| `MqttClient.Client.YieldPass` | src/aws_iot_mqtt_client_yield.c:203-229 | one pass with a connection: stops on every error; after giving up the connection goes on, waiting to reconnect from the shortest interval, if and only if reconnecting is enabled then, and otherwise stops disconnected with an error; gives up whenever a ping is due and the last one is unanswered |
| `MqttClient.Client.InternalYield` | src/aws_iot_mqtt_client_yield.c:179-233 | keeps the state in the four states yield may be in; waits to reconnect only if that was enabled when the connection was given up, and ends disconnected only if it was not; lost codes in yield's own state come from its transport read alone |
| `MqttClient.Client.Yield` | src/aws_iot_mqtt_client_yield.c:254-299 | from idle or waiting to reconnect: ends idle, waiting to reconnect or disconnected, except exactly when its last transport read, in its own state, returned one of two codes; then it is stuck; an idle client is left waiting to reconnect only if that was enabled when the connection was given up, and any client disconnected only if it was not; from any other state it changes nothing |
| `MqttClient.Client.Session` | src/aws_iot_mqtt_client.c:230-265 | over every sequence of operations with any callbacks, also disconnecting ones, the client is at rest between operations, for every transport that never returns one of those codes to yield |
| `TopicMatch.IsTopicMatched` | src/aws_iot_mqtt_client_common_internal.c:412-446 | for every well-formed filter accepts exactly the names that match level by level with every wildcard on a nonempty level |
| `TopicMatch.NonemptyMatches` | src/aws_iot_mqtt_client_common_internal.c:424-445 | these all match under section 4.7.1 of MQTT 3.1.1, and of the names without empty levels only the parent of a final "#" is missed |
| `TopicMatch.MissedMatches` | src/aws_iot_mqtt_client_common_internal.c:424-445 | "a/+" does not match "a/", nor "a/#" "a" |
| `TopicMatch.WalkMatches` | src/aws_iot_mqtt_client_common_internal.c:424-445 | the walk over characters is the comparison of levels |
| `TopicMatch.LevelsJoin` | src/aws_iot_mqtt_client_common_internal.c:424-445 | the levels are the parts of a topic between its slashes |
| `PublishCodec.WriteLen` | src/aws_iot_mqtt_client_common_internal.c:56-72 | writes the length seven bits at a time and nothing else |
| `PublishCodec.DecodeLen` | src/aws_iot_mqtt_client_common_internal.c:80-104 | reads a length of at most four bytes |
| `PublishCodec.DecodeEncode` | src/aws_iot_mqtt_client_common_internal.c:56-104 | decoding undoes encoding; a length takes at most k bytes exactly below 128^k |
| `PublishCodec.EncodedLenBytes` | src/aws_iot_mqtt_client_common_internal.c:56-72 | the length is the sum of the low seven bits times 128^i, and bit 7 is set on all bytes but the last |
| `PublishCodec.Uint16Bytes` | src/aws_iot_mqtt_client_common_internal.c:144-149 | two bytes, the most significant first |
| `PublishCodec.HeaderBits` | src/aws_iot_mqtt_client_common_internal.c:187-265 | packet type 3 in bits 7 to 4, then bit 3 for a duplicate, bits 2 and 1 for the quality of service, bit 0 for retention |
| `PublishCodec.FinalLengthExact` | src/aws_iot_mqtt_client_common_internal.c:106-119 | the size estimate, in 32-bit arithmetic, is exact below 2^28 except one too large at 127, 16383 and 2097151, one too small from 2^28 on, and wraps at the five largest lengths |
| `PublishCodec.Serialize` | src/aws_iot_mqtt_client_publish.c:87-132 | succeeds exactly when the estimate fits the buffer; then writes exactly the packet, inside the buffer, and leaves the rest of the buffer alone; beyond the lengths of the protocol this needs a buffer that holds the packet whenever the estimate says so |
| `PublishCodec.WireLayout` | src/aws_iot_mqtt_client_publish.c:87-132 | the packet is header, remaining length, topic length, topic, identifier if the quality of service is 1, and payload |
| `PublishCodec.Deserialize` | src/aws_iot_mqtt_client_publish.c:311-371 | returns the fields of every serialised message; the payload length goes below zero exactly when a packet with an identifier declares too few bytes for one; the payload ends where the declared bytes end |
| `PublishCodec.FieldsOfWire` | src/aws_iot_mqtt_client_publish.c:311-371 | the encoding of a message has the message's fields |
| `PublishCodec.IdentifierMissing` | src/aws_iot_mqtt_client_publish.c:363-368 | a packet for which the payload length would be -2 |

## Left out

- `Mpi` objects only carry sign and limbs; memory limits beyond "growth may fail" are not modelled.
- Division.DivMpi: the working copies of dividend and divisor are integers whose limbs are read one by one, so their update in place is not captured; the quotient is an array. The build with double-width words is modelled, not the branch that divides half-words.
- GcdInverse.Gcd: works on integers and exact shifts, not on limb buffers; the shifts themselves are not modelled on limbs.
- ExpMod.ExpMod: base and result are values, so a zero with a negative sign and a result that shares its buffer with E or N are not modelled.
- CombMul.MulComb: point addition and doubling in Jacobian coordinates are replaced by the group operation, and the randomised starting coordinates are not modelled; with two teeth and a zero table entry the code reads the coordinates of a point off the curve, and nothing is stated about the result.
- Ecdsa.EcpMul: nothing is stated about the result for the orders 3 and 5, for the same reason.
- Ecdsa.Sign: the same.
- Ecdsa.OneTimeKey: the same.
- Ecdsa.Verify: the same, except that acceptance implies e != 0.
- Ecdsa.RoundTrip: the same.
- ReduceP256.ModP256: the reductions for the other primes are not modelled.
- JsonTokenizer.Parser.Parse: counting without a token array is not modelled, nor positions beyond the machine's integer range.
- MqttClient.Client.Subscribe: the table of message handlers is not modelled; which handlers match, and whether a slot is free, is an arbitrary choice.
- MqttClient.Client.CycleRead: packets are received whole, or an error is; the bytes on the wire are not modelled there.
- PublishCodec.Serialize: excludes exactly the calls in which the code writes behind the buffer, which need a remaining length from 2^28 on; and lengths from 2^32 on.
- PublishCodec.Deserialize: bytes behind the received buffer read as 0.
- TopicMatch.IsTopicMatched: nothing is stated for ill-formed filters, which the code excludes by assumption.
- The count of disconnections that the client keeps for the application.
- Sockets, TLS, timers, entropy sources and mutexes are inputs or absent.
- The shadow layer and the JSON utilities: text handling in fixed buffers.
- Cipher tables, key schedules and machine code; the other cipher modes.
- Jacobian and Montgomery-curve field formulas, and the Montgomery ladder.
- Primality testing and prime generation.
- Constant-time behaviour, zeroisation, self tests, file input and output.
- ASN.1, base64 and ECDH: easier than what is here.
