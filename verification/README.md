# Verified model of the C library's core

The library bundles a small cryptographic code base (TweetNaCl), data structures (blocking
queue, doubly linked list, adjacency-list graph, chained hash table) and a thread pool. This
project models the parts with the most intricate logic and proves what they compute.

| modules | what they model |
|---|---|
| `Common`, `Bits`, `Limbs` | shared definitions, two's complement bit operators, powers, little-endian numbers in limbs, carry chains |
| `Field25519`, `X25519`, `X25519Laws` | arithmetic modulo 2^255 - 19 in sixteen signed limbs, the Montgomery ladder, and what it means on the curve |
| `Poly1305`, `Poly1305Laws`, `ModL` | the one-time authenticator in seventeen byte limbs, and reduction modulo the group order |
| `Sha512`, `Sha512Laws`, `Primes`, `Sign` | the hash with its rolling schedule and in-place padding, and the signature made from it |
| `Salsa20`, `Salsa20Laws`, `Stream`, `SecretBox` | the core, counter mode, XSalsa20 and authenticated boxes |
| `BlockingQueue`, `LinkedQueue`, `ThreadPool` | the queue as a concurrent step machine and as memory, and the pool on top of it |
| `ListSort`, `LinkedList` | the merge sort as a function, and the list with its in-place relinking |
| `Discovery`, `GraphTraversal` | breadth-first and depth-first traversal against reachability and the order of finding |
| `TableModel`, `HashTable` | the chained table against a map, and its memory |

`dafny verify dfyconfig.toml` verifies everything.

## How the code is modelled

- In-place C code is imperative Dafny over arrays and classes; each method is tied to a
  mathematical definition (a residue, an RFC or FIPS function, a sequence) that does not
  mention the code. Definitions come from RFC 7748, RFC 8439, RFC 8032, FIPS 180-4 and
  Bernstein's "Salsa20 specification". The modules named `...Laws` say what those definitions
  compute in other terms: single bits, polynomials, roots of primes, multiples of a point.
- `u8`, `u32`, `u64` and `i64` are integers with a range. Storing into one is proved not to
  leave the range, which is how absence of overflow is stated. Where the code relies on
  wrap-around (SHA-512, Salsa20, `vn`) the wrap is written out. The C type `u32` is
  `unsigned long`, 64 bits wide: Salsa20 registers are modelled at that width, and for
  Poly1305 the stronger fact that 32 bits suffice is proved.
- `>>` on signed limbs is floor division; `& (2^k - 1)` is the remainder, as `AndLowMask` in
  `Bits` proves for negative operands too.
- `modL` mixes signed limbs with an unsigned table. The exact integer is modelled; it is in
  the signed range throughout, so the C conversions yield its two's complement.
- What `scalarbase` and `pack` compute is a parameter of `Sign.CryptoSign`: a function from the
  32 bytes of a scalar to the 32 bytes of a point.
- A pointer is an array and a position. Regions of one C buffer that do not overlap are
  separate arrays (the parts of `x[80]` in `crypto_scalarmult`). Where buffers may coincide
  the contracts allow it and speak of the values before the call.
- Each mutex-protected section is one atomic step of a state machine; condition variables are
  sets of sleeping and of woken threads, and any sleeper may wake spuriously. `LinkedQueue`
  proves that the memory operations inside the sections act on the sequence the machine uses.
- The successors of a graph node are the `node_2` ends of the edges in its list, so a
  bidirectional edge seen from its second endpoint leads to that endpoint itself. The visited list
  compares nodes by identity.
- `strncmp` and `strncpy` are their documented effect on strings: agreement of the first 50
  bytes, and the first 64 bytes.

## Where code and documentation disagree

- `include/thread_pool.h` says shutdown waits for all tasks to complete. Workers leave their
  loop on the flag without draining the queue, and a submitter that checked the flag in time
  may enqueue after they have left. `ThreadPool.AlwaysCompletesIff` gives the exact condition,
  readable at the flag, under which all tasks complete however the threads are scheduled;
  `ThreadPool.ShutdownCompletesAll` the exact condition for one run. In
  `ThreadPool.ShutdownMayAbandonATask` a queued task is left, in
  `ThreadPool.ShutdownMayLoseALateTask` a late one.
- The same header says no new tasks are accepted once shutdown begins. The late submitter is
  accepted; `ThreadPool.NeverAcceptsIff` says exactly when none is.
- `list_sort` does not update `tail`. `LinkedList.List.SortList` states exactly when the tail
  is still right, and `LinkedList.SortBreaksTheTail` shows a list that it breaks.
- `list_pop_position` frees the data it returns when the position is strictly inside the list;
  `LinkedList.List.PopPosition` says so.
- The hash table compares 50 bytes of a key and stores 64 but hashes all of it.
  `TableModel.AgreesIffDistinguished` says exactly for which keys it is a map, and
  `TableModel.LongKeysConfused` names longer keys for which no table is.

## Model

| member | source | states |
|---|---|---|
| `Field25519.Car25519` | libs/Crypto/src/tweetnacl.c:311-322 | One carry pass: every limb becomes its base 2^16 digit after the carry from below, and the top carry re-enters limb 0 times 38; no signed 64-bit overflow for limbs up to 2^62 |
| `Field25519.CarryValue` | libs/Crypto/src/tweetnacl.c:311-322 | A carry pass lowers the number by exactly 2p times the carry out of the top limb |
| `Field25519.CarryResidue` | libs/Crypto/src/tweetnacl.c:311-322 | So a carry pass keeps the residue |
| `Field25519.FirstPass` | libs/Crypto/src/tweetnacl.c:311-322 | From limbs of magnitude 2^62 one pass leaves digits in limbs 1 to 15 and magnitude 2^53 in limb 0 |
| `Field25519.SecondPass` | libs/Crypto/src/tweetnacl.c:311-322 | The next pass leaves limb 0 in [-38, 2^16 + 37] and digits elsewhere |
| `Field25519.ThirdPass` | libs/Crypto/src/tweetnacl.c:311-322 | The third pass leaves digits everywhere |
| `Field25519.CarryThrice` | libs/Crypto/src/tweetnacl.c:340-342 | Three passes turn any limbs of magnitude up to 2^62 into base 2^16 digits of the same residue |
| `Field25519.Set25519` | libs/Crypto/src/tweetnacl.c:305-309 | The copy equals the source, also when both are one array |
| `Field25519.Sel25519` | libs/Crypto/src/tweetnacl.c:324-333 | The masked exchange swaps both arrays for b = 1 and keeps both for b = 0 |
| `Field25519.Add` | libs/Crypto/src/tweetnacl.c:385-389 | The residue of the result is the sum in the field; sums of products are operands a product accepts; aliasing allowed |
| `Field25519.Sub` | libs/Crypto/src/tweetnacl.c:391-395 | The residue of the result is the difference in the field; differences of products are operands a product accepts; aliasing allowed |
| `Field25519.Product` | libs/Crypto/src/tweetnacl.c:400-401 | The 31 columns are the exact integer product of the operands and stay far below 2^63 |
| `Field25519.Fold` | libs/Crypto/src/tweetnacl.c:402-403 | Folding the upper columns in 38-fold keeps the residue |
| `Field25519.Mul` | libs/Crypto/src/tweetnacl.c:397-406 | For all limbs in (-2^26, 2^26): residue of the result is the product modulo 2^255 - 19, limbs in [-38, 2^16 + 37], no overflow, even when o is a or b |
| `Field25519.SubtractPrime` | libs/Crypto/src/tweetnacl.c:345-353 | The borrow chain subtracts p, and its last borrow says whether the number was below p |
| `Field25519.Canonicalize` | libs/Crypto/src/tweetnacl.c:343-355 | Two conditional subtractions leave the unique representative in [0, p) |
| `Field25519.Pack25519` | libs/Crypto/src/tweetnacl.c:335-361 | The 32 bytes are the little-endian canonical representative of the input for all limbs of magnitude up to 2^62 |
| `Field25519.Unpack25519` | libs/Crypto/src/tweetnacl.c:378-383 | The limbs are the digits of the 32-byte number modulo 2^255 |
| `Field25519.PackUnpack` | libs/Crypto/src/tweetnacl.c:335-383 | Unpacking a packed element gives back the same residue, now canonical |
| `Field25519.InvertStep` | libs/Crypto/src/tweetnacl.c:418-423 | One squaring, with a product except at bits 2 and 4, consumes one bit of the exponent p - 2 |
| `Field25519.Inv25519` | libs/Crypto/src/tweetnacl.c:413-425 | The result is i^(p - 2) in the field for every operand a product accepts |
| `Field25519.RootStep` | libs/Crypto/src/tweetnacl.c:432-437 | One squaring, with a product except at bit 1, consumes one bit of the exponent 2^252 - 3 |
| `Field25519.Pow2523` | libs/Crypto/src/tweetnacl.c:427-439 | The result is i^(2^252 - 3) in the field for every operand a product accepts |
| `X25519.BitOfBytes` | libs/Crypto/src/tweetnacl.c:458 | Bit t of a little-endian byte string is bit t mod 8 of byte t / 8 |
| `X25519.ClampBytes` | libs/Crypto/src/tweetnacl.c:446-448 | The scalar bytes are those of decodeScalar25519 in section 5 of RFC 7748 |
| `X25519.ClampedScalar` | libs/Crypto/src/tweetnacl.c:446-448 | A decoded scalar is exactly 2^254 plus the bits 3 to 253 of the key |
| `X25519.EagerSwap` | libs/Crypto/src/tweetnacl.c:456-481 | Swapping before and after each step yields the same points as the delayed swaps of RFC 7748, at every bit |
| `X25519.LadderSquares` | libs/Crypto/src/tweetnacl.c:461-468 | First half of a step: AA, BB, CB and DA of RFC 7748 in the work arrays, all carried |
| `X25519.LadderStep` | libs/Crypto/src/tweetnacl.c:461-478 | One step of the work arrays is the ladder step of RFC 7748 on their residues, and every limb handed to a product is in (-2^26, 2^26) |
| `X25519.SwapPoints` | libs/Crypto/src/tweetnacl.c:459-460 | The two exchanges swap the two ladder points, or neither |
| `X25519.LadderIteration` | libs/Crypto/src/tweetnacl.c:459-480 | Swap in, step and swap out on residues; limbs stay carried |
| `X25519.RunLadder` | libs/Crypto/src/tweetnacl.c:450-481 | After all 255 iterations the arrays hold x2 and z2 of the RFC 7748 ladder, with the limb bounds kept throughout |
| `X25519.CryptoScalarmult` | libs/Crypto/src/tweetnacl.c:441-493 | For every scalar and every 32-byte u-coordinate the output is X25519(n, p) of section 5 of RFC 7748; the output may overlap the inputs |
| `X25519Laws.StepIsDoubleAndAdd` | libs/Crypto/src/tweetnacl.c:461-478 | A step of the ladder is the four values below, for all inputs |
| `X25519Laws.DoubledX` | libs/Crypto/src/tweetnacl.c:461-478 | The first point of a step is the double on v^2 = u^3 + 486662 u^2 + u: its x is (x^2 - z^2)^2 modulo 2^255 - 19 |
| `X25519Laws.DoubledZ` | libs/Crypto/src/tweetnacl.c:461-478 | And its z is 4 x z (x^2 + 486662 x z + z^2) |
| `X25519Laws.SummedX` | libs/Crypto/src/tweetnacl.c:461-478 | The second point of a step is the differential sum: its x is 4 (x2 x3 - z2 z3)^2 |
| `X25519Laws.SummedZ` | libs/Crypto/src/tweetnacl.c:461-478 | And its z is 4 x1 (x3 z2 - x2 z3)^2 |
| `X25519Laws.MultiplesStep` | libs/Crypto/src/tweetnacl.c:456-481 | The multiples of a point start with none and the point itself; 2n and 2n + 1 come from n and its neighbour by one step |
| `X25519Laws.LadderIsMultiples` | libs/Crypto/src/tweetnacl.c:456-481 | After the bits from 254 down to t the ladder holds the multiples of the scalar divided by 2^t |
| `X25519Laws.ScalarTimesPoint` | libs/Crypto/src/tweetnacl.c:441-493 | The output is x z^(p - 2) of the multiple that 2^254 plus bits 3 to 253 of the key names, said without the ladder |
| `Poly1305.Add1305` | libs/Crypto/src/tweetnacl.c:196-205 | Sum modulo 2^136 in seventeen byte limbs |
| `Poly1305.ColumnValue` | libs/Crypto/src/tweetnacl.c:233-238 | Multiplying by 2^(8j) with 320-fold wrap-around differs from the true product by a multiple of 64 p |
| `Poly1305.RowValue` | libs/Crypto/src/tweetnacl.c:233-238 | The wrapped schoolbook product falls short of the true product by a multiple of 64 p |
| `Poly1305.MulR` | libs/Crypto/src/tweetnacl.c:233-238 | The product is h * r modulo 2^130 - 5 and no column sum reaches 2^32 |
| `Poly1305.Carry16` | libs/Crypto/src/tweetnacl.c:241-246 | A carry chain makes digits of sixteen limbs and loses nothing |
| `Poly1305.Reduce` | libs/Crypto/src/tweetnacl.c:241-257 | The accumulator keeps its residue and ends below 2p with limb 16 at most 4 |
| `Poly1305.AbsorbBlock` | libs/Crypto/src/tweetnacl.c:226-257 | One block of at most 16 bytes: h becomes (h + block + 2^(8 len)) * r modulo p |
| `Poly1305.AbsorbAll` | libs/Crypto/src/tweetnacl.c:224-258 | Over the whole message h stays congruent to the polynomial of section 2.5 of RFC 8439, below 2p |
| `Poly1305.FinalSubtract` | libs/Crypto/src/tweetnacl.c:260-263 | The masked subtraction yields the canonical residue |
| `Poly1305.ClampValue` | libs/Crypto/src/tweetnacl.c:214-222 | Masking seven bytes is masking with the 128-bit constant of RFC 8439 |
| `Poly1305.LoadR` | libs/Crypto/src/tweetnacl.c:214-222 | The multiplier is the clamped first half of the key |
| `Poly1305.TagBytes` | libs/Crypto/src/tweetnacl.c:265-268 | Accumulator plus s, cut to sixteen bytes |
| `Poly1305.CryptoOnetimeauth` | libs/Crypto/src/tweetnacl.c:210-270 | For every message length and key exactly the 16 output bytes become the tag of section 2.5 of RFC 8439, even when they overlap message or key |
| `Poly1305Laws.ModulusShape` | libs/Crypto/src/tweetnacl.c:207-208 | The modulus is 2^130 - 5 |
| `Poly1305Laws.BlockValue` | libs/Crypto/src/tweetnacl.c:226-229 | A block is its number plus 2^(8 length) |
| `Poly1305Laws.AbsorbIsPolynomial` | libs/Crypto/src/tweetnacl.c:224-258 | Absorbing is the polynomial: block i with its one bit times r to the number of blocks not before it, from any accumulator |
| `Poly1305Laws.OneBlock` | libs/Crypto/src/tweetnacl.c:224-258 | A message of at most 16 bytes: (number + 2^(8 length)) r modulo p |
| `Poly1305Laws.TagIsPolynomial` | libs/Crypto/src/tweetnacl.c:210-270 | The tag is that polynomial in the masked key half modulo p, plus the other half, modulo 2^128 |
| `Poly1305Laws.ClampBits` | libs/Crypto/src/tweetnacl.c:216-222 | Clamping clears exactly 22 bits of r and keeps every other |
| `ModL.ClearInner` | libs/Crypto/src/tweetnacl.c:772-777 | Twenty steps subtract 16 x[i] L shifted, leave balanced digits and a bounded carry |
| `ModL.ClearLimb` | libs/Crypto/src/tweetnacl.c:771-779 | Clearing limb i keeps the residue modulo L and the bounds the next limb needs |
| `ModL.QuotientEnough` | libs/Crypto/src/tweetnacl.c:781-787 | Taking off the order as often as the top bits say lands in [-L, L) |
| `ModL.SubtractQuotient` | libs/Crypto/src/tweetnacl.c:781-787 | Digits and carry of the value minus that multiple of L |
| `ModL.CanonicalScalar` | libs/Crypto/src/tweetnacl.c:781-793 | Adding L back where the carry is -1 gives the canonical residue |
| `ModL.WriteScalar` | libs/Crypto/src/tweetnacl.c:788-793 | The bytes are the digits minus carry times L, modulo 2^256, at the given place and nowhere else |
| `ModL.ReduceLimbs` | libs/Crypto/src/tweetnacl.c:766-794 | modL: for all limbs of magnitude up to 2^25, 32 bytes holding the value modulo L in [0, L) |
| `ModL.ReduceBytes` | libs/Crypto/src/tweetnacl.c:796-802 | reduce: 64 bytes become their residue modulo L and 32 zero bytes |
| `ModL.OrderShape` | libs/Crypto/src/tweetnacl.c:761-764 | The modulus is 2^252 + 27742317777372353535851937790883648493 |
| `ModL.MulAdd` | libs/Crypto/src/tweetnacl.c:828-830 | r + h * d exactly, in limbs modL accepts |
| `ModL.SignScalar` | libs/Crypto/src/tweetnacl.c:828-831 | crypto_sign writes (r + h * d) mod L of section 5.1.6 of RFC 8032 at sm + 32 and changes nothing else |
| `Sign.HashKey` | libs/Crypto/src/tweetnacl.c:810-813 | The secret scalar and the prefix of section 5.1.6 of RFC 8032, from SHA-512 of the key |
| `Sign.HashToScalar` | libs/Crypto/src/tweetnacl.c:819-820 | 32 canonical bytes of a SHA-512 digest modulo L |
| `Sign.PlacePoint` | libs/Crypto/src/tweetnacl.c:816-822 | r is the hash of prefix and message modulo L, R its point, in front of the message |
| `Sign.PlaceScalar` | libs/Crypto/src/tweetnacl.c:824-831 | h is the hash of R, public key and message modulo L, and S = (r + h * s) mod L goes behind R |
| `Sign.CryptoSign` | libs/Crypto/src/tweetnacl.c:804-834 | For every message and key the output is R, S and the message as section 5.1.6 of RFC 8032 defines them, given the encoded multiples of the base point; bytes beyond are untouched |
| `Sha512.Dl64` | libs/Crypto/src/tweetnacl.c:39-44 | Big-endian value of eight bytes |
| `Sha512.Ts64` | libs/Crypto/src/tweetnacl.c:56-64 | Big-endian bytes of a word, in place, nothing else changed |
| `Sha512.WordsOfBytes` | libs/Crypto/src/tweetnacl.c:599-636 | Reading back words that were written returns them |
| `Sha512.NextWords` | libs/Crypto/src/tweetnacl.c:617-620 | Rewriting sixteen words in place yields the next sixteen words of the 80-word schedule of section 6.4.2 of FIPS 180-4 |
| `Sha512.RoundInPlace` | libs/Crypto/src/tweetnacl.c:612-616 | The rotating copy is one round of FIPS 180-4 |
| `Sha512.EightyRounds` | libs/Crypto/src/tweetnacl.c:610-621 | Eighty rounds over the rolling window equal eighty rounds over the full schedule |
| `Sha512.CompressInPlace` | libs/Crypto/src/tweetnacl.c:608-627 | One block: the compression function, in both state copies |
| `Sha512.CryptoHashblocks` | libs/Crypto/src/tweetnacl.c:599-636 | The state becomes the fold of the compression function over all whole blocks; the rest of the length is returned |
| `Sha512.HashConcat` | libs/Crypto/src/tweetnacl.c:647-671 | Hashing whole blocks and then the tail is hashing their concatenation |
| `Sha512.LengthBytes` | libs/Crypto/src/tweetnacl.c:664-665 | Nine written length bytes are the sixteen length bytes of section 5.1.2 |
| `Sha512.PaddedBlocks` | libs/Crypto/src/tweetnacl.c:655-665 | Whole blocks followed by the one- or two-block tail are the padded message |
| `Sha512.BuildLastBlocks` | libs/Crypto/src/tweetnacl.c:655-665 | The tail buffer: partial block, 0x80, zeros, length; one block below 112 bytes, else two |
| `Sha512.InitialState` | libs/Crypto/src/tweetnacl.c:638-645 | The initial bytes are the initial words of section 5.3.5 |
| `Sha512.CryptoHash` | libs/Crypto/src/tweetnacl.c:647-671 | For every message of fewer than 2^64 bytes the output is SHA-512 of FIPS 180-4 |
| `Sha512Laws.ChBits` | libs/Crypto/src/tweetnacl.c:544-547 | Bit by bit, Ch takes y where x has a one and z where it has a zero |
| `Sha512Laws.MajBits` | libs/Crypto/src/tweetnacl.c:548-551 | Bit by bit, Maj is the majority |
| `Sha512Laws.RotrBit` | libs/Crypto/src/tweetnacl.c:540-543 | Bit t of a rotated word is bit t + c, counted round |
| `Sha512Laws.RotrIsMultiplication` | libs/Crypto/src/tweetnacl.c:540-543 | Rotation right by c is multiplication by 2^(64 - c) modulo 2^64 - 1 |
| `Sha512Laws.SigmaBits` | libs/Crypto/src/tweetnacl.c:552-567 | Each bit of the four sigma functions is the sum modulo 2 of the three bits of section 4.1.3 |
| `Sha512Laws.RoundConstants` | libs/Crypto/src/tweetnacl.c:569-597 | Round constant i is the first 64 fractional bits of the cube root of the i-th prime |
| `Sha512Laws.InitialWords` | libs/Crypto/src/tweetnacl.c:638-645 | Initial word i is the first 64 fractional bits of the square root of the i-th prime |
| `Primes.FirstPrimes` | libs/Crypto/src/tweetnacl.c:569-597 | The primes used are the first eighty: all prime, increasing, none left out |
| `Sha512Laws.TwoRegisters` | libs/Crypto/src/tweetnacl.c:610-621 | The eight working variables are two sequences with the recurrences of section 6.4.2, from the fourth round on |
| `Sha512Laws.FeedForward` | libs/Crypto/src/tweetnacl.c:623-627 | The state after a block is the final working variables plus the state before, modulo 2^64 |
| `Sha512Laws.ShortDigest` | libs/Crypto/src/tweetnacl.c:647-671 | A message below 112 bytes is hashed by one compression of message, 0x80, zeros and length |
| `Salsa20.RotlIsMultiplication` | libs/Crypto/src/tweetnacl.c:26-29 | Rotation by c is multiplication by 2^c modulo 2^32 - 1, as section 2 of the Salsa20 specification defines it |
| `Salsa20.L32Rotates` | libs/Crypto/src/tweetnacl.c:26-29 | The low 32 bits of L32 on a 64-bit register are the rotation of the low 32 bits |
| `Salsa20.MixLow` | libs/Crypto/src/tweetnacl.c:103-106 | One quarter-round line is right on the low 32 bits for every 64-bit register content |
| `Salsa20.QuarterRoundInPlace` | libs/Crypto/src/tweetnacl.c:103-106 | Four lines are the quarterround of section 3 |
| `Salsa20.RowIsTransposedColumn` | libs/Crypto/src/tweetnacl.c:98-110 | A rowround is a columnround between two transpositions |
| `Salsa20.IterationsInPairs` | libs/Crypto/src/tweetnacl.c:98-110 | 2n transposing iterations are n doublerounds of section 6 |
| `Salsa20.IterateInPlace` | libs/Crypto/src/tweetnacl.c:100-109 | One loop iteration is a columnround stored transposed |
| `Salsa20.TwentyIterations` | libs/Crypto/src/tweetnacl.c:98-110 | Twenty iterations are ten double rounds |
| `Salsa20.Ld32` | libs/Crypto/src/tweetnacl.c:31-37 | Little-endian value of four bytes |
| `Salsa20.St32` | libs/Crypto/src/tweetnacl.c:46-54 | Little-endian bytes of the low 32 bits, in place, nothing else changed |
| `Salsa20.LoadSquare` | libs/Crypto/src/tweetnacl.c:88-94 | The square of constant, key and input words of section 9 |
| `Salsa20.UndoFeedForward` | libs/Crypto/src/tweetnacl.c:114-119 | The words HSalsa20 returns are unchanged by adding and subtracting the input |
| `Salsa20.StoreKey` | libs/Crypto/src/tweetnacl.c:120-124 | The eight words 0, 5, 10, 15, 6, 7, 8, 9 as bytes |
| `Salsa20.Core` | libs/Crypto/src/tweetnacl.c:83-128 | Salsa20 hash of section 8 for h = 0; HSalsa20, without feed-forward, for h = 1; the output may be one of the inputs |
| `Salsa20Laws.QuarterRoundLines` | libs/Crypto/src/tweetnacl.c:103-106 | The quarter round line by line: sums modulo 2^32 and rotations by 7, 9, 13, 18 as multiplications modulo 2^32 - 1 |
| `Salsa20Laws.ColumnPlaces` | libs/Crypto/src/tweetnacl.c:100-108 | Which words of the square each column takes and where they go, by formula |
| `Salsa20Laws.RowPlaces` | libs/Crypto/src/tweetnacl.c:100-108 | Which words of the square each row takes and where they go, by formula |
| `Salsa20Laws.DoubleRoundsStep` | libs/Crypto/src/tweetnacl.c:98-110 | A double round is a column round followed by a row round |
| `Salsa20Laws.SalsaWords` | libs/Crypto/src/tweetnacl.c:126-127 | Word i of a block is word i after ten double rounds plus word i before, modulo 2^32 |
| `Salsa20Laws.HSalsaWords` | libs/Crypto/src/tweetnacl.c:112-125 | Word i of the HSalsa20 output is word 0, 5, 10, 15, 6, 7, 8 or 9 after ten double rounds |
| `Stream.BumpCounter` | libs/Crypto/src/tweetnacl.c:157-163 | The counter bytes become those of the next counter modulo 2^64 |
| `Stream.CryptoStreamSalsa20Xor` | libs/Crypto/src/tweetnacl.c:144-175 | Counter mode: byte i is xored with byte i mod 64 of block i / 64, or with zero input when m is null; c may be m; bytes beyond b untouched |
| `Stream.Subkey` | libs/Crypto/src/tweetnacl.c:182-194 | The stream key is HSalsa20 of key and first sixteen nonce bytes |
| `Stream.CryptoStream` | libs/Crypto/src/tweetnacl.c:182-187 | The output is the XSalsa20 stream |
| `Stream.SigmaText` | libs/Crypto/src/tweetnacl.c:142 | The constant is the text expand 32-byte k |
| `Stream.CryptoStreamXor` | libs/Crypto/src/tweetnacl.c:189-194 | XSalsa20 encryption; nonce, key and output may overlap |
| `Stream.StreamUndoesItself` | libs/Crypto/src/tweetnacl.c:144-175 | Encrypting twice gives the message back |
| `Stream.StreamPrefix` | libs/Crypto/src/tweetnacl.c:144-180 | Streams and ciphertexts of prefixes are prefixes |
| `SecretBox.Vn` | libs/Crypto/src/tweetnacl.c:66-81 | 0 exactly when all bytes agree, else -1 |
| `SecretBox.CryptoOnetimeauthVerify` | libs/Crypto/src/tweetnacl.c:272-277 | 0 exactly when the stored bytes are the tag |
| `SecretBox.TagInPlace` | libs/Crypto/src/tweetnacl.c:285-286 | The tag is right although it overwrites half of its own key |
| `SecretBox.CryptoSecretbox` | libs/Crypto/src/tweetnacl.c:279-288 | -1 and nothing written below 32 bytes; else 0 and the box: sixteen zeros, the tag, the ciphertext |
| `SecretBox.CryptoSecretboxOpen` | libs/Crypto/src/tweetnacl.c:290-303 | 0 exactly when d >= 32 and the stored tag equals the recomputed one; only then is the message written |
| `SecretBox.OpenInvertsSeal` | libs/Crypto/src/tweetnacl.c:279-303 | Opening a sealed message succeeds and returns it if and only if its first 32 bytes are zero |
| `SecretBox.SealInvertsOpen` | libs/Crypto/src/tweetnacl.c:279-303 | Sealing an opened box gives the box back, first sixteen bytes cleared |
| `BlockingQueue.EnqueueKeepsInv` | libs/DSA/queue/src/queue.c:105-126 | The enqueue section keeps order, capacity, both wakeup invariants and the account of all calls, also after a spurious wakeup |
| `BlockingQueue.DequeueKeepsInv` | libs/DSA/queue/src/queue.c:145-169 | The dequeue section keeps them too, including the return of NULL at shutdown |
| `BlockingQueue.FullQueueBlocks` | libs/DSA/queue/src/queue.c:107-111 | A call on a full queue sleeps with its item and does not return |
| `BlockingQueue.WokenProducerCanEnter` | libs/DSA/queue/src/queue.c:105-126 | A woken producer that finds room has a step |
| `BlockingQueue.WokenProducerEnters` | libs/DSA/queue/src/queue.c:105-126 | That step enters the producer its own item, and the call returns |
| `BlockingQueue.DequeueEnds` | libs/DSA/queue/src/queue.c:145-169 | A dequeue section ends with the oldest item, with NULL on an empty queue at shutdown, or asleep |
| `BlockingQueue.CallsAccounted` | libs/DSA/queue/src/queue.c:84-175 | In every run the items of enqueue calls begun are those entered plus those carried by waiting producers; dequeue calls begun have returned an item in order of leaving, NULL only at shutdown, or wait |
| `BlockingQueue.NextKeepsInv` | libs/DSA/queue/src/queue.c:84-175 | Every step of every thread keeps the invariant |
| `BlockingQueue.RunKeepsInv` | libs/DSA/queue/src/queue.c:84-175 | The invariant holds in every state of every run |
| `BlockingQueue.RunIsFifo` | libs/DSA/queue/src/queue.c:84-175 | What was dequeued followed by what is queued is what was enqueued, in order; a bounded queue stays within its bound |
| `BlockingQueue.NoLostWakeup` | libs/DSA/queue/src/queue.c:105-169 | In no reachable state does an item wait while consumers sleep and none is woken, or a slot while producers sleep and none is woken |
| `LinkedQueue.Queue.constructor` | libs/DSA/queue/src/queue.c:6-57 | An empty queue |
| `LinkedQueue.Queue.IsEmpty` | libs/DSA/queue/src/queue.c:59-68 | True exactly for an empty queue |
| `LinkedQueue.Queue.IsFull` | libs/DSA/queue/src/queue.c:70-82 | True exactly when a bound is set and reached |
| `LinkedQueue.Queue.Append` | libs/DSA/queue/src/queue.c:113-124 | The chain gains one item at the end; size, tail and bound stay right |
| `LinkedQueue.Queue.RemoveHead` | libs/DSA/queue/src/queue.c:158-167 | The oldest item is taken off; size and tail stay right, also for the last item |
| `LinkedQueue.Queue.Clear` | libs/DSA/queue/src/queue.c:198-218 | Every item is freed once, oldest first, and the queue ends empty |
| `ThreadPool.StepKeepsInv` | libs/Threading/src/thread_pool.c:119-278 | Every step of submitters, workers, signal handler and destroyer keeps the pool invariant |
| `ThreadPool.RunKeepsInv` | libs/Threading/src/thread_pool.c:119-278 | The pool invariant holds in every state of every run |
| `ThreadPool.TasksConserved` | libs/Threading/src/thread_pool.c:119-158 | In every state of every run the accepted tasks are split between queue, exactly one worker each, completed and released; none is lost, doubled or invented |
| `ThreadPool.RunsAndFreesOnce` | libs/Threading/src/thread_pool.c:253-278 | No task runs twice; a supplied arg_free is called once, after the run, exactly for completed tasks |
| `ThreadPool.ShutdownWakesForGood` | libs/Threading/src/thread_pool.c:160-224 | After flag and broadcast no worker sleeps now or later, and none takes more than one further task |
| `ThreadPool.FewStepsLeft` | libs/Threading/src/thread_pool.c:208-224 | After the flag the workers take at most Work further steps together in every continuation, and Work is at most four each |
| `ThreadPool.WorkerCanMove` | libs/Threading/src/thread_pool.c:208-224 | Every worker that has neither exited nor sleeps on the queue has a step it can take |
| `ThreadPool.IdleMeansDone` | libs/Threading/src/thread_pool.c:208-224 | In every reachable state with the flag down in which no worker can move, all sleep on an empty queue and every accepted task is completed |
| `ThreadPool.StuckMeansExited` | libs/Threading/src/thread_pool.c:175-178 | In no reachable state after the broadcast are the workers stuck before all have exited, so the joins do not block |
| `ThreadPool.WorkersCanFinish` | libs/Threading/src/thread_pool.c:160-183 | From every reachable state after the broadcast some at most Work worker steps bring all workers to their exit |
| `ThreadPool.LeftoverOfRun` | libs/Threading/src/thread_pool.c:208-224 | After the flag the excess of queued tasks over workers past the flag check never falls, and stays the same when no submitter is on the way |
| `ThreadPool.UndoneIsQueued` | libs/Threading/src/thread_pool.c:160-183 | Once the joins have returned, what is not completed is what is still queued |
| `ThreadPool.ShutdownCompletesAll` | libs/Threading/src/thread_pool.c:160-183 | In every run, when the joins have returned all accepted tasks are completed if and only if at no moment since the flag more tasks were queued than workers past the flag check; with no submitter on the way the moment of the flag decides and exactly the excess is left |
| `ThreadPool.AlwaysCompletesIff` | libs/Threading/src/thread_pool.c:119-224 | From any state after the flag, every continuation completes all accepted tasks if and only if no submitter is between its flag check and its enqueue and the queued tasks are no more than the workers past theirs |
| `ThreadPool.NeverAcceptsIff` | libs/Threading/src/thread_pool.c:133-146 | After the flag no continuation accepts a task if and only if no submitter is between its flag check and its enqueue |
| `ThreadPool.ShutdownMayAbandonATask` | libs/Threading/src/thread_pool.c:208-224 | A run in which a task queued at the flag is never run |
| `ThreadPool.ShutdownMayLoseALateTask` | libs/Threading/src/thread_pool.c:133-146 | A run in which a task is accepted after the flag and never run, although the queue was empty at the flag |
| `ListSort.SortPermutes` | libs/DSA/linked_list/src/linked_list.c:978-995 | The sorted list is a permutation of the input, for any comparison |
| `ListSort.SortSorts` | libs/DSA/linked_list/src/linked_list.c:978-995 | It is sorted for every strict weak order on the elements |
| `ListSort.MergeTies` | libs/DSA/linked_list/src/linked_list.c:939-976 | Merging puts equal elements of the second list before those of the first |
| `ListSort.SortReversesTies` | libs/DSA/linked_list/src/linked_list.c:939-995 | Equal elements come out in exactly the reverse of their input order |
| `ListSort.LastStaysIff` | libs/DSA/linked_list/src/linked_list.c:741-757 | The last input element ends last if and only if all others are strictly less |
| `LinkedList.Split` | libs/DSA/linked_list/src/linked_list.c:915-937 | The chain is cut after its first (n + 1) / 2 nodes |
| `LinkedList.MergeChains` | libs/DSA/linked_list/src/linked_list.c:939-976 | Relinking in place yields the merged chain with right back links |
| `LinkedList.MergeSort` | libs/DSA/linked_list/src/linked_list.c:978-995 | Relinking in place yields the sorted chain with right back links, for any comparison, and terminates |
| `LinkedList.List.PushHead` | libs/DSA/linked_list/src/linked_list.c:88-129 | The item is put in front; all links, tail and size right |
| `LinkedList.List.PushTail` | libs/DSA/linked_list/src/linked_list.c:131-173 | The item is put at the end; all links, tail and size right |
| `LinkedList.List.PushPosition` | libs/DSA/linked_list/src/linked_list.c:175-234 | The item is put at the position; refused beyond the end with nothing changed |
| `LinkedList.List.LinkAfter` | libs/DSA/linked_list/src/linked_list.c:221-229 | Linking a node between two others keeps both directions |
| `LinkedList.List.PopHead` | libs/DSA/linked_list/src/linked_list.c:255-287 | The first item is taken off and returned; none from an empty list |
| `LinkedList.List.PopTail` | libs/DSA/linked_list/src/linked_list.c:289-321 | The last item is taken off and returned; none from an empty list |
| `LinkedList.List.PopPosition` | libs/DSA/linked_list/src/linked_list.c:323-376 | The item at the position is taken out and returned; none and no change out of bounds; strictly inside the list custom_free is called on the very data returned |
| `LinkedList.List.RemoveNode` | libs/DSA/linked_list/src/linked_list.c:874-913 | A node is unlinked at either end or inside and its data freed; head, tail, size and both directions stay right |
| `LinkedList.List.SortList` | libs/DSA/linked_list/src/linked_list.c:741-757 | The head chain is the sorted one with its back links; the tail pointer is not moved, so for a strict weak order the list is whole if and only if the last element was strictly greater than all others |
| `LinkedList.SortKeepsTail` | libs/DSA/linked_list/src/linked_list.c:741-757 | The node the tail points to is still last after sorting if and only if its element was strictly greater than all others |
| `LinkedList.SortBreaksTheTail` | libs/DSA/linked_list/src/linked_list.c:741-757 | The list 2, 1: sorted to 1, 2 its tail points to the first node |
| `LinkedList.FindAllOccurrences` | libs/DSA/linked_list/src/linked_list.c:689-739 | All matching data, latest first, in a new list; no list for an empty input; the input is unchanged |
| `GraphTraversal.FollowEdges` | libs/DSA/adjacency_list/src/adjacency_list.c:731-747 | The edges of one node: unseen successors are queued and marked, levels stay shortest |
| `GraphTraversal.LevelsAreShortest` | libs/DSA/adjacency_list/src/adjacency_list.c:706-753 | Numbering by discovery gives shortest walks |
| `GraphTraversal.Bfs` | libs/DSA/adjacency_list/src/adjacency_list.c:706-753 | The action runs exactly once on each reachable node and on no other, in nondecreasing distance and, more exactly, in the order in which edges first lead to the nodes; it terminates |
| `GraphTraversal.StackEdges` | libs/DSA/adjacency_list/src/adjacency_list.c:571-587 | Unseen successors are stacked and marked; failure only on a full stack |
| `GraphTraversal.Dfs` | libs/DSA/adjacency_list/src/adjacency_list.c:546-593 | On success the action has run exactly once on each reachable node; always in last-in first-out order of the edges that first lead to the nodes; failure implies at least 2002 reachable nodes, and more than 2000 successors of the start imply failure |
| `Discovery.QueueOrder` | libs/DSA/adjacency_list/src/adjacency_list.c:636-663 | Nodes taken from a queue are acted on in the order of finding |
| `Discovery.StackOrder` | libs/DSA/adjacency_list/src/adjacency_list.c:517-544 | Of nodes taken from a stack, what is acted on later was found later or was already lying underneath |
| `GraphTraversal.StarOverflows` | libs/DSA/adjacency_list/src/adjacency_list.c:517-593 | The bound is tight: a star of 2002 nodes fails |
| `TableModel.ClippedMatches` | libs/DSA/hash_table/src/hash_table.c:431-434 | A stored key cut to 64 bytes matches exactly what the whole key matches |
| `TableModel.ValuesDrop` | libs/DSA/hash_table/src/hash_table.c:272-298 | Removing the first match drops the oldest value of the keys that match and of no other |
| `TableModel.StepRepresents` | libs/DSA/hash_table/src/hash_table.c:78-340 | Each call keeps buckets and map in agreement when no two keys in use are confused |
| `TableModel.AgreesIffDistinguished` | libs/DSA/hash_table/src/hash_table.c:78-340 | Every sequence of add, lookup, remove and clear answers like a map to insertion-ordered values if and only if no two keys in use share bucket and first 50 bytes |
| `TableModel.ShortKeysAgree` | libs/DSA/hash_table/src/hash_table.c:78-340 | So it does for all keys of at most 50 bytes and every table size |
| `TableModel.LongKeysConfused` | libs/DSA/hash_table/src/hash_table.c:127-164 | Two different 53-byte keys that tables of every size confuse |
| `HashTable.Hash` | libs/DSA/hash_table/src/hash_table.c:375-402 | The letterwise reduced hash is the polynomial in 256 modulo 65521 modulo the size, within 32 bits |
| `HashTable.FindNode` | libs/DSA/hash_table/src/hash_table.c:127-164 | The first node under the key and its predecessor |
| `HashTable.Unlink` | libs/DSA/hash_table/src/hash_table.c:282-289 | Taking one node out leaves the chain of the others |
| `HashTable.Init` | libs/DSA/hash_table/src/hash_table.c:34-76 | NULL exactly for size 0, otherwise a table of empty buckets |
| `HashTable.Table.Add` | libs/DSA/hash_table/src/hash_table.c:78-125 | The key's bucket gains the entry at its end; every node stays in the bucket its key hashes to |
| `HashTable.Table.Lookup` | libs/DSA/hash_table/src/hash_table.c:127-164 | The oldest value under the key, or none |
| `HashTable.Table.Remove` | libs/DSA/hash_table/src/hash_table.c:249-304 | The oldest entry under the key is taken out and its data freed; failure exactly when there is none |
| `HashTable.Table.Clear` | libs/DSA/hash_table/src/hash_table.c:306-340 | All buckets end empty and every value is freed once; the table can be used on |

## Left out

- Networking (`tcp_server.c`, `event_handler.c`, `socket_io.c`, `socket_manager.c`): system-call plumbing.
- `encryption.c`, key pair generation and `randombytes`: null checks around TweetNaCl and foreign randomness.
- `crypto_box` and its variants: each derives a key with `crypto_scalarmult` and `core` and hands it to the secretbox.
- Ed25519 point addition, `unpackneg`, `scalarmult`, `crypto_sign_open` and Diffie-Hellman commutativity: these need elliptic-curve theory that the code does not contain.
- Constant running time of `sel25519`, `vn` and the masked subtraction: values are modelled, not time.
- Null arguments, allocation failure, mutex and thread creation failure: allocation and initialisation succeed, and each worker is joined once.
- `hash_table_lookup` takes no lock: the table is modelled for one caller at a time.
- `hash_table_find` and `hash_table_list`: they copy matching keys into a buffer sized by the number of buckets. `hash_table_destroy`: it clears and frees.
- Graph editing and lookup: a well-formed graph is given. `stack.c` is a bounded sequence in `GraphTraversal.Dfs`.
- The remaining list calls (`list_remove_*`, `list_peek_*`, `list_foreach_call`, `list_contains`, `list_clear`): compositions of what is modelled.
- Freed memory: nodes that C frees stay allocated and are merely unlinked. Calls of the custom free functions are returned as values, not as the end of an object's life.
- `vector.c` (a growing array that hands sorting to `qsort`), `adjacency_matrix.c` and the stub graph functions (unimplemented), and `str_comp` (not an order).
- Logging, files, signal delivery, options and number conversion.
- LinkedQueue.Queue.Clear: states the effect with no other thread at work. Between other threads each of its rounds is a `Dequeue` step of the queue machine, for which order and wakeups are proved; the pool clears in `ReleaseOne` steps, after the joins.
