# Verified models of the arithmetic core and the operator protocol

This project models the parts of the repository whose correctness is hardest to see from the code, and proves what they
are for. `dafny verify dfyconfig.toml` checks everything.

## Multi-precision and modular arithmetic (`mcl/src`)

A limb buffer is an array of naturals below a radix `B`, a pointer `x + k` is an array with an offset, and `Val` is the
number that limbs stand for (`Limbs`). The radix is a parameter; it is 2^64 or 2^52 only where constants force it.
Unsigned wrap-around, truncating shifts and bitwise operations are written out (`Words`). On that stand

- the limb loops, shifts and products (`Bint`) and long division with its estimated digits (`BintDiv`);
- the special-prime reductions (`Secp256k1`, `Nist`);
- Montgomery multiplication and reduction for full-bit and NF primes (`Montgomery`), the almost inverse and its table
  (`AlmostInverse`), and the 52-bit lane routines (`Ifma52`, `IfmaSquare`);
- the emitted Karatsuba product and the two squarings (`Karatsuba`, `SqrInner`, `Squares`);
- the scalar decompositions (`Glv`, `GlvLattice`), constant-time multiplication on them (`GlvMul`, `GlvProduct`) and bucket
  multi-scalar multiplication over any commutative group (`MulVec`);
- conversion between limbs and digit strings (`Text`, `Radix`).

The generators are modelled by the arithmetic of the code they emit: an operand is a natural below its declared width,
and every operation wraps at that width.

## Cipher format (`pvac_ffi`)

`CipherFormat` is the grammar of the binary format as a reference parser and printer. `CipherReader` holds the `Writer`,
the sticky-failure `Reader` with its parser, and the second, early-exit parser, each proved against the grammar; `CipherPrefix` shows that reading never looks ahead. The
check that 32 bytes encode a group element (section 4.3.1 of RFC 9496) is a parameter; canonicity of field elements is
modelled as the code has it.

## Operator protocol (`controls/lib`)

`OutboxStore` describes the control directory and the sequence of durable states of every operation; `Outbox` proves what
each of them keeps and contains the protocol as an object; `OutboxRun` adds crashes and a ledger that consumes nonces;
`BondScope` is the choice of a bond scope, `BondRun` and `BondCycle` what becomes of bonds over whole runs. `SyncNeed`, `Recover` and `RecoverPlan` model recovery obligations and the
replacement of a node's state on a volume with atomic single changes. Node answers, prepared transactions, staged
snapshots and failures are inputs that may take any value.

## What came out differently from the comments

- The almost inverse never returns more than 2 * bits - 1 steps, so the table index is in range for full-bit primes too.
- `mod_SECP256K1` is right for every 512-bit number, not only up to (p - 1)^2 as its comment says.
- The comment above the 377 split repeats the parameter of the 381 curve; the literals `L` and `q` are the 377 ones.
- `mulVecGLVlarge` passes `false` and the bucket width in swapped positions to `mulVecLong`. The sum is still right,
  because it is right for every width.
- `div` admits any quotient buffer when xn < yn but writes one limb of it all the same, so it writes outside a buffer
  that is present and has no limbs, and in no other case (`BintDiv.Div`).
- On the shifted path of `div` only `x[0..r)` is the remainder; limbs above it are stale.
- `arrayToDec` fills zeros in front of a short chunk without checking the room. With k whole chunks of nine in the
  buffer and r characters over, it writes in front of the buffer if and only if r > 0, the number has more than 9k + 9
  digits, and the value of its digits 9k to 9k + 8, counted from the last, is below 10^r (`Radix.StrayFill`,
  `Radix.ArrayToDec`). The number never fits such a buffer.
- `submit_bond` is meant to open a new bond scope only after every earlier bond is confirmed or a later withdrawal has
  consumed its nonce. One call only looks at what `last.json` names: it respects the rule if and only if every other
  saved bond that `last.json` does not name is settled (`BondScope.NewScopeExactly`). In runs on true answers that fails
  first at an exit in front of an unsettled bond, never behind a withdrawal (`BondCycle.OnlyAnExitHides`), and such an
  exit can be reached after any number of completed cycles (`BondCycle.UncoveredCaseRecurs`). Even then the nonces of all
  earlier bonds are consumed, so that at most one bond is ever undecided (`BondRun.BondsNeverCompete`).
- The comment on the table of the four-dimensional BN split gives its last entry as -(2z + 1); the code uses
  -(2z^2 + z), which is right.
- `restore_control` checks the names before it copies but the contents while it copies: when a staged record differs,
  others may have been copied already (`Recover.Disk.RestoreControl`).
- A plan given as an argument to recovery may be dropped because the node can catch up, and then its target need not be
  within the snapshot lag of the floor (`RecoverPlan.DroppedPlanMayLag`); `RecoverPlan.ArgumentPlanCovered` and
  `RecoverPlan.TargetWithinLag` say when it is. Every recorded target is.

## Model

| member | source | states |
|---|---|---|
| Bint.AddColumn | mcl/src/bint_impl.hpp:97-101 | one column of the sum: the two carries of the wrapping additions together are the carry of the column |
| Bint.AddT | mcl/src/bint_impl.hpp:82-105 | z = x + y: the new limbs with the returned carry stand for the sum, z may be x or y, nothing else changes |
| Bint.SubT | mcl/src/bint_impl.hpp:108-132 | z = x - y: the new limbs and the returned borrow satisfy z + y = x + borrow * B^n |
| Bint.MulUnitT | mcl/src/bint_impl.hpp:147-181 | z = x * y for one word: limbs and returned top word stand for the product |
| Bint.MulUnitAddT | mcl/src/bint_impl.hpp:183-202 | z += x * y for one word, with the returned top word |
| Bint.MulT | mcl/src/bint_impl.hpp:204-212 | the 2n limbs of z stand for the product |
| Bint.MulNM | mcl/src/bint_impl.hpp:510-533 | general product of different lengths, also when an operand is the output |
| Bint.ShiftedPartsAreDisjoint | mcl/src/bint_impl.hpp:233 | the two parts joined by the bitwise or share no bit, so the or adds them |
| Bint.ShlN | mcl/src/bint_impl.hpp:223-238 | z and the returned bits are x * 2^bit |
| Bint.ShrN | mcl/src/bint_impl.hpp:240-253 | z is the floor of x / 2^bit |
| Bint.ShiftLeft | mcl/src/bint_impl.hpp:255-280 | y is x * 2^bit for any bit count, also in place |
| Bint.ShiftRight | mcl/src/bint_impl.hpp:282-301 | y is the floor of x / 2^bit for any bit count, also in place |
| Bint.PropagateCarry | mcl/src/bint_impl.hpp:310-315 | the early exit is right: limbs above the stopping point are unchanged and the value grows by x |
| Bint.AddUnit | mcl/src/bint_impl.hpp:303-316 | y += x with the returned carry, stopping at the first limb that does not wrap |
| Bint.DivUnit | mcl/src/bint_impl.hpp:333-347 | q * d + r = x with r < d, also in place |
| Bint.ModUnit | mcl/src/bint_impl.hpp:348-361 | the remainder by one word |
| BintDiv.Div1 | mcl/src/bint_impl.hpp:456-475 | single-word divisor: quotient and remainder, upper limbs of x cleared |
| BintDiv.GuessIsClose | mcl/src/bint_impl.hpp:380-391 | the quotient guess from the leading limbs is never too large and at most one too small when the divisor leads with at least the square root of the radix |
| BintDiv.DivByGuess | mcl/src/bint_impl.hpp:380-396 | one guess, at most one correction, then the remainder is below y |
| BintDiv.DivSmall | mcl/src/bint_impl.hpp:363-405 | 0 means not applicable and nothing changed; otherwise quotient and remainder are exact |
| BintDiv.ReciprocalDigit | mcl/src/bint_impl.hpp:420-442 | the reciprocal of yTop + 1 never overestimates the next digit |
| BintDiv.DoubledHighWord | mcl/src/bint_impl.hpp:440-442 | (v << 1) | (L >> 63) is the high word of twice the product; no bit is lost |
| BintDiv.NextDigit | mcl/src/bint_impl.hpp:433-446 | the digit is at least one and v * (yTop + 1) <= xTop * B unless it is the fallback 1 |
| BintDiv.DigitFits | mcl/src/bint_impl.hpp:433-446 | the estimated digit never overshoots the window it is subtracted from |
| BintDiv.RoomForDigit | mcl/src/bint_impl.hpp:430-447 | adding the digit to q at its place cannot leave the qn limbs of q |
| BintDiv.Pass | mcl/src/bint_impl.hpp:414-450 | every pass keeps old x = q * y + x and lowers (x, xn) lexicographically |
| BintDiv.DivFullBit | mcl/src/bint_impl.hpp:407-454 | quotient and remainder for a divisor with its top bit set; the final assertion x < y holds |
| BintDiv.ScaledDivision | mcl/src/bint_impl.hpp:487-507 | dividing both operands scaled by 2^shift keeps the quotient and scales the remainder |
| BintDiv.DivShifted | mcl/src/bint_impl.hpp:492-503 | the shifted path: quotient of the original operands, remainder in x[0..r) |
| BintDiv.Div | mcl/src/bint_impl.hpp:477-507 | Euclidean division for every x and every y with a non-zero top limb: x[0..r) is X % Y and q is X / Y; only a present quotient buffer of no limbs is overrun |
| BintDiv.DivOverrun | mcl/src/bint_impl.hpp:401-404 | 1 / 2^64 with an empty quotient buffer stores a word outside it |
| Secp256k1.FirstFold | mcl/src/bint_impl.hpp:559-561 | after the first fold the part above 2^256 is at most 2^32 + 0x3d1 |
| Secp256k1.SecondFold | mcl/src/bint_impl.hpp:562-571 | the second fold ends below 2^256; the asserted last carry never occurs |
| Secp256k1.ModSecp256k1 | mcl/src/bint_impl.hpp:535-597 | x mod p for every 512-bit x, a wider range than the source comment claims |
| Secp256k1.MulSecp256k1 | mcl/src/bint_impl.hpp:599-605 | z = x * y mod p |
| Nist.Rearranged | mcl/src/gen.cpp:282-292 | [H1:H0:0] and H2 share no bit, and together they are H * 2^64 modulo the fold |
| Nist.BorrowBit | mcl/src/gen.cpp:307-312 | bit 192 of the wrapped 256-bit difference is exactly the borrow of z - p |
| Nist.FoldP192 | mcl/src/gen.cpp:278-307 | the two folds fit 256 bits, keep the residue and end below 2p |
| Nist.ModP192 | mcl/src/gen.cpp:250-316 | x % p for every 384-bit x (FIPS 186-4, D.2.1) |
| Nist.AllBitsSet | mcl/src/gen.cpp:347-354 | the words are all ones exactly for the value 2^521 - 1 |
| Nist.AllOnes521 | mcl/src/gen.cpp:347-354 | the and-chain with the mask recognises exactly z0 = p |
| Nist.FoldP521 | mcl/src/gen.cpp:337-347 | adding the halves and the bit that comes out gives the residue, with p standing for 0 |
| Nist.ModP521 | mcl/src/gen.cpp:317-367 | nine words that stand for x % p, for every x < 2^1042 (FIPS 186-4, D.2.5) |
| Karatsuba.CarryAlgebra | mcl/src/gen.cpp:738-763 | the product of the half sums from the product of their low parts and the two carry bits |
| Karatsuba.MiddleFits | mcl/src/gen.cpp:753-763 | (a + b)(c + d) fits the width bit + unit |
| Karatsuba.MiddleTerm | mcl/src/gen.cpp:738-765 | c0, c1, c2 never overflow and the result is (a+b)(c+d) - bd - ac |
| Karatsuba.PlaceMiddle | mcl/src/gen.cpp:766-770 | the middle term plus the upper words still fits 3H words and completes the product |
| Karatsuba.MulByRows | mcl/src/gen.cpp:772-788 | row by row: no row overflows its N + 1 words and z is the product |
| Karatsuba.MulByHalves | mcl/src/gen.cpp:718-771 | Karatsuba branch: z is the product, nothing else changes |
| Karatsuba.MulPre | mcl/src/gen.cpp:709-789 | z[2N] = x[N] * y[N] for every N and operand, through all three branches, recursively |
| SqrInner.LineBound | mcl/src/gen_bint.cpp:638-648 | a line of n products at spacing two words is at most (B - 1)(B^2n - 1) / (B + 1) |
| SqrInner.LineIsDiagonal | mcl/src/gen_bint.cpp:638-651 | a line is the diagonal of the square at its distance |
| SqrInner.SumOfLines | mcl/src/gen_bint.cpp:633-652 | the shifted column accumulator never overflows its width and collects all products of different words |
| SqrInner.JoinSquares | mcl/src/gen_bint.cpp:653-661 | the squared words are joined by or without overlap |
| SqrInner.SqrByDiagonals | mcl/src/gen_bint.cpp:626-667 | y = x^2 by diagonals |
| SqrInner.SqrByHalves | mcl/src/gen_bint.cpp:603-626 | y = x^2 by a^2, 2ab, b^2 |
| SqrInner.Sqr | mcl/src/gen_bint.cpp:594-668 | y[2N] = x[N]^2 for every N, through all branches |
| Squares.SquareByDiagonals | mcl/src/gen_bint.cpp:636-666 | twice the diagonals plus the squared limbs is the square |
| Montgomery.QuotientWord | mcl/src/gen.cpp:848-852 | q = (a mod B) * rp mod B makes a + p * q divisible by B |
| Montgomery.NextRound | mcl/src/gen.cpp:836-853 | each round keeps s * B^i = x * y[0..i) + Q * p and s < x + p, within the declared width |
| Montgomery.FpMont | mcl/src/gen.cpp:835-860 | full-bit multiplication: reduced x * y / B^N modulo p |
| Montgomery.SpareBitIsBorrow | mcl/src/gen.cpp:855-860 | the bit above the limbs of s - p is the borrow |
| Montgomery.TopBitIsBorrow | mcl/src/gen.cpp:877-880 | for p below half the limb range the top bit of t - p is the borrow |
| Montgomery.FpMontNF | mcl/src/gen.cpp:861-884 | NF variant: one spare word suffices and the bit test is a correct comparison |
| Montgomery.RedLoop | mcl/src/gen.cpp:924-947 | each reduction round clears the low word; limbs and carry stay in range |
| Montgomery.FpMontRed | mcl/src/gen.cpp:906-964 | reduction of a double-length number below p * B^N |
| Montgomery.FpMontRedNF | mcl/src/gen.cpp:906-964 | the same for p below half the limb range, ignoring the carry word |
| Montgomery.MontProductUnique | mcl/src/gen.cpp:815-964 | for odd p there is exactly one Montgomery product, so all routines agree |
| Montgomery.RepresentativesMultiply | mcl/src/gen.cpp:815-964 | on Montgomery representatives the routines multiply the represented numbers |
| AlmostInverse.UEven | mcl/src/fp_generator.hpp:2813-2817 | halving u keeps the relations with k + 1; s has room for the shift |
| AlmostInverse.VEven | mcl/src/fp_generator.hpp:2797-2805 | halving v keeps the relations; the carry goes to the overflow word |
| AlmostInverse.VLtU | mcl/src/fp_generator.hpp:2806-2817 | u -= v, r += s, halve: relations kept, no lost carry |
| AlmostInverse.VGeU | mcl/src/fp_generator.hpp:2794-2805 | v -= u, s += r, halve: relations kept |
| AlmostInverse.DropLimbs | mcl/src/fp_generator.hpp:2784-2787 | top limbs that are zero in both registers are dropped, both values stay the same, and no further limb could be |
| AlmostInverse.LimbsBelow | mcl/src/fp_generator.hpp:2788-2792 | the limb comparison from the top decides v < u |
| AlmostInverse.GcdReached | mcl/src/fp_generator.hpp:2776-2777 | when v reaches zero, u is one |
| AlmostInverse.Negate | mcl/src/fp_generator.hpp:2824-2843 | p - r with the overflow word gives the reduced result, for r below 2p |
| AlmostInverse.PreInv | mcl/src/fp_generator.hpp:2711-2846 | for odd p and x coprime to it: the reduced x^-1 * 2^k with k < 2 * bits, full-bit or not |
| AlmostInverse.InitInvTbl | mcl/src/fp.cpp:304-318 | entry i of the table is 2^(n - i) in Montgomery form |
| AlmostInverse.TableUndoesShift | mcl/src/fp.cpp:289-318 | the table entry at k cancels the 2^k of the almost inverse |
| AlmostInverse.InvOpForMont | mcl/src/fp.cpp:289-302 | the exact inverse in Montgomery form; the table index is in range |
| AlmostInverse.InverseTimesSelf | mcl/src/fp.cpp:289-302 | x times its computed inverse is the representative of one |
| Ifma52.EmittedLanesHaveRoom | mcl/src/montgomery.py:31-37 | 52-bit limbs in 64-bit lanes have the room the routines need for up to 511 limbs, and no more |
| Ifma52.MulUnitAdd | mcl/src/gen_bint_x64.py:374-378 | adding x * y to the lanes never overflows a 64-bit lane |
| Ifma52.QuotientLimb | mcl/src/gen_bint_x64.py:445-453 | the quotient limb clears lane 0 modulo 2^52 |
| Ifma52.Round | mcl/src/gen_bint_x64.py:431-456 | one round: lanes stay within 64 bits and stand for the next Montgomery accumulator |
| Ifma52.Normalize | mcl/src/gen_bint_x64.py:458-461 | carrying and masking keeps the value and leaves 52-bit limbs |
| Ifma52.SubPIfPossible | mcl/src/gen_bint_x64.py:91-113 | t >= p ? t - p : t, decided by the sign bit of the last lane |
| Ifma52.VMul | mcl/src/gen_bint_x64.py:386-467 | x * y * 2^(-52N) modulo p, fully reduced |
| Ifma52.MulNumbers | mcl/src/gen_bint_x64.py:386-467 | the same on numbers, for every modulus of up to 511 limbs that leaves the top limb room |
| IfmaSquare.SquareLanes | mcl/src/gen_bint_x64.py:489-513 | the double-length accumulator holds x^2 with room left in every lane |
| IfmaSquare.ReduceLane | mcl/src/gen_bint_x64.py:526-536 | one reduction step on the long accumulator without overflow |
| IfmaSquare.VSqr | mcl/src/gen_bint_x64.py:469-549 | x^2 * 2^(-52N) modulo p, fully reduced |
| Glv.Estimate381 | mcl/src/glv.hpp:63-89 | the truncated reciprocal estimate is low by at most one |
| Glv.Estimate377 | mcl/src/glv.hpp:91-117 | the truncated reciprocal estimate is low by at most one |
| Glv.BorrowTest | mcl/src/glv.hpp:82-88 | the borrow comparison takes the correction exactly when t >= L |
| Glv.SplitRaw381 | mcl/src/glv.hpp:57-89 | x = a + b * L with 0 <= a < L and 0 <= b <= L + 1, for every x below the order |
| Glv.SplitRaw377 | mcl/src/glv.hpp:91-117 | the same for the 377 constants |
| GlvLattice.Recompose | mcl/src/glv.hpp:482-496 | the two halves recompose to x modulo the order for any basis in the lattice |
| GlvLattice.Split2Recomposes | mcl/src/glv.hpp:482-496 | the split recomposes to x modulo the order for every table and shift |
| GlvLattice.BasisBNInLattice | mcl/src/glv.hpp:610-619 | the stored BN basis lies in the lattice for every curve parameter |
| GlvLattice.BasisSecpInLattice | mcl/src/glv.hpp:508-516 | the secp256k1 rows vanish modulo the order at its eigenvalue, a cube root of one |
| GlvLattice.SplitSecpIsShort | mcl/src/glv.hpp:482-519 | secp256k1: for every reduced x the halves recompose to x modulo the order and are below 1.6 * 2^128 |
| GlvLattice.RowBNInLattice | mcl/src/glv.hpp:683-698 | every row of the 4 x 4 matrix vanishes at the eigenvalue modulo the order |
| GlvLattice.Split4Recomposes | mcl/src/glv.hpp:753-764 | the four digits recompose to x modulo the order for every parameter, table and shift |
| GlvLattice.SplitBLS12 | mcl/src/glv.hpp:730-752 | x = sum of u[i] * z^i with |u[i]| < |z|, for either sign of z and x |
| GlvLattice.OrderBLS12InRange | mcl/src/glv.hpp:730-752 | every reduced scalar is in the range of that split |
| GlvMul.Tables | mcl/src/glv.hpp:363-387 | table entry j is j times the signed image of P |
| GlvMul.WindowsOf | mcl/src/glv.hpp:388-408 | the four-bit windows, most significant first |
| GlvMul.SumWindows | mcl/src/glv.hpp:409-418 | four doublings and one table entry per part and window give the weighted sum |
| GlvMul.MulGlvCT | mcl/src/glv.hpp:345-418 | the product is y * P for any parts that recompose to y modulo the order; the window buffers can be resized exactly when every part fits them |
| GlvLattice.ComputedTable | mcl/src/glv.hpp:720-724 | the table that `init` computes is the rounded first row of the inverse matrix |
| GlvLattice.LiteralTable | mcl/src/glv.hpp:699-718 | so is the literal table of BN254 |
| GlvLattice.Split4IsShort | mcl/src/glv.hpp:753-764 | the four digits of every reduced scalar are at most 16 |z| + 8 in size, for every curve parameter |
| GlvProduct.MulSecp | mcl/src/glv.hpp:345-418 | secp256k1: the split and the constant-time product give y * P for every y |
| GlvProduct.MulBLS12 | mcl/src/glv.hpp:345-418 | the same with base-|z| digits, for every curve parameter |
| GlvProduct.MulBN | mcl/src/glv.hpp:345-418 | the same with the four-dimensional split, for every curve parameter and table |
| GlvProduct.MulBLS381 | mcl/src/glv.hpp:345-418 | the same with the split for BLS12-381 on machine words |
| GlvProduct.MulBLS377 | mcl/src/glv.hpp:345-418 | the same with the split for BLS12-377 on machine words |
| MulVec.UpdateTable | mcl/src/glv.hpp:128-157 | one window: buckets filled and summed with suffix sums add exactly that window of the sum |
| MulVec.MulVecCore | mcl/src/glv.hpp:158-217 | the sum over the points it reports as processed, for every window width and scalar length |
| MulVec.MulVecLong | mcl/src/glv.hpp:218-231 | the whole sum of y[i] * x[i], whatever allocations fail |
| Text.ToTextVal | mcl/src/conversion_impl.hpp:119-152 | the digits of a number read back as that number, without leading zeros |
| Text.ShortestTextUnique | mcl/src/conversion_impl.hpp:119-152 | a text without leading zeros is the one text of its value |
| Radix.ArrayToDec | mcl/src/conversion_impl.hpp:230-255 | the shortest decimal text, right-aligned, or 0 exactly when it does not fit; a write in front of the buffer exactly when `StrayFill` holds, first at index bufSize mod 9 minus 9 |
| Radix.FittingBufferIsSafe | mcl/src/conversion_impl.hpp:249-253 | no write leaves a buffer in which the number fits or which holds whole nine-character chunks |
| Radix.StrayWrite | mcl/src/conversion_impl.hpp:235-255 | 1000000001 printed into five characters: a zero is written at index -4 |
| Radix.ScaleAndAdd | mcl/src/conversion_impl.hpp:274-284 | x * 10^9 + v, growing by words; 0 exactly when it does not fit maxN words |
| Radix.DecToArray | mcl/src/conversion_impl.hpp:257-288 | fails exactly on maxN = 0, a non-digit or a value of at least B^maxN; otherwise the value in the fewest words |
| Radix.DecRoundTrip | mcl/src/conversion_impl.hpp:230-288 | the printed decimal text is accepted, and only the printed words have its value |
| Radix.DecThereAndBack | mcl/src/conversion_impl.hpp:230-288 | printing and then reading gives the words back exactly when the text fits the buffer |
| Radix.TextByWords | mcl/src/conversion_impl.hpp:127-151 | the top word unpadded and the others padded spell the whole number |
| Radix.ArrayToText | mcl/src/conversion_impl.hpp:119-187 | hexadecimal and binary output: prefix and shortest text, or 0 exactly when it does not fit |
| Radix.TextToArray | mcl/src/conversion_impl.hpp:189-228 | fails exactly on empty text, a non-digit or too many digits; otherwise the value |
| Radix.TextRoundTrip | mcl/src/conversion_impl.hpp:119-228 | printed hexadecimal or binary text of n words is accepted for n or more words with the same value |
| Radix.TextThereAndBack | mcl/src/conversion_impl.hpp:119-228 | the same for hexadecimal and binary text behind its prefix |
| CipherFormat.ListAt | pvac_ffi/pvac_serialize.hpp:216-222 | a counted list is read exactly where it was printed, count check included |
| CipherFormat.BitVecAt | pvac_ffi/pvac_serialize.hpp:198-212 | a bit vector is read exactly where it was printed |
| CipherFormat.LayerAt | pvac_ffi/pvac_serialize.hpp:391-472 | a version-3 layer is read exactly where it was printed |
| CipherFormat.EdgeAt | pvac_ffi/pvac_serialize.hpp:474-496 | an edge is read exactly where it was printed |
| CipherFormat.BodyAt | pvac_ffi/pvac_serialize.hpp:498-547 | a version-3 body is read exactly where it was printed |
| CipherFormat.AcceptedIsPrinted | pvac_ffi/pvac_serialize.hpp:498-561 | version 3 is a bijection: accepted with cipher c if and only if c is well formed and the file is its print |
| CipherFormat.RoundTrip | pvac_ffi/pvac_serialize.hpp:391-561 | reading back a printed cipher gives it without the fields its layer rules do not use |
| CipherFormat.ReadThenPrint | pvac_ffi/pvac_serialize.hpp:498-561 | printing an accepted version-3 file gives the file back |
| CipherPrefix.BodyStays | pvac_ffi/pvac_serialize.hpp:498-547 | a body of any version that is read at the front of a file is read in the same way when more bytes follow |
| CipherPrefix.PrefixFree | pvac_ffi/pvac_serialize.hpp:515-561 | no proper prefix of an accepted file of any version is accepted |
| CipherReader.Reader.Int | pvac_ffi/pvac_serialize.hpp:122-150 | little-endian integers by shift and or, 0 and no progress after a failure |
| CipherReader.Reader.ReadBitVec | pvac_ffi/pvac_serialize.hpp:198-212 | follows the grammar, sticky failure included |
| CipherReader.Reader.ReadLayer | pvac_ffi/pvac_serialize.hpp:433-472 | the sticky layer reader follows the grammar for every version |
| CipherReader.Reader.ReadCipherRaw | pvac_ffi/pvac_serialize.hpp:853-885 | the sticky parser: accepts, builds and stops exactly as the grammar says |
| CipherReader.Reader.ReadLayerSafe | pvac_ffi/pvac_stubs.cpp:221-263 | the early-exit layer reader follows the same grammar |
| CipherReader.Reader.ReadCipherSafe | pvac_ffi/pvac_stubs.cpp:265-305 | the early-exit parser: accepts, builds and stops exactly as the grammar says |
| CipherReader.ParsersAgree | pvac_ffi/pvac_stubs.cpp:221-305 | both parsers accept together, build the same cipher and stop at the same place |
| CipherReader.DeserializeCipherChecked | pvac_ffi/pvac_serialize.hpp:515-561 | the whole-file reader accepts exactly what the grammar accepts, with that cipher |
| CipherReader.Writer.Int | pvac_ffi/pvac_serialize.hpp:39-56 | appends the little-endian bytes |
| CipherReader.SerializeCipher | pvac_ffi/pvac_serialize.hpp:498-510 | the printed form, or the exception exactly on a bad structure or field element |
| Outbox.ArchiveSafe | controls/lib/validator_exit.py:231-253 | archiving the record keeps the invariant and the attempt limit |
| Outbox.OverwriteSafe | controls/lib/validator_exit.py:247-252 | overwriting an archived record with the same payment signed anew loses nothing |
| Outbox.RenewSafe | controls/lib/validator_exit.py:231-253 | every durable state of a renewal is safe |
| Outbox.SubmitSafe | controls/lib/validator_exit.py:526-587 | every durable state of submit is safe and loses nothing stored or sent |
| Outbox.BeginBondSafe | controls/lib/validator_exit.py:265-280 | announcing a bond scope is safe |
| Outbox.SubmitTells | controls/lib/validator_exit.py:526-587 | how a call ends tells exactly what it sent: nothing, or the current record with the next account nonce |
| Outbox.AttemptsStayListable | controls/lib/validator_exit.py:398-419 | renewals never push a scope past the attempt limit; listing fails only on a hash clash |
| Outbox.Directory.Submit | controls/lib/validator_exit.py:526-587 | the imperative protocol goes through exactly the states of its trace, each satisfying the invariant |
| Outbox.Directory.Renew | controls/lib/validator_exit.py:231-253 | the imperative renewal goes through exactly the states of its trace |
| Outbox.Directory.BeginBond | controls/lib/validator_exit.py:265-280 | the imperative announcement |
| OutboxRun.RunSafe | controls/lib/validator_exit.py:526-587 | the invariant and the ledger facts hold in every run with crashes anywhere |
| OutboxRun.NoDoublePayment | controls/lib/validator_exit.py:231-253 | in every run everything sent for a scope is saved, is one payment with one nonce, and at most one transaction of it is confirmed; `last.json` names a saved attempt |
| OutboxRun.ConsumedIsClosed | controls/lib/validator_exit.py:231-253 | once the nonce of a saved payment is consumed, no later run confirms anything of its scope |
| OutboxRun.ResumeIsFinal | controls/lib/validator_exit.py:589-607 | once resuming is allowed on true answers, no transaction of that exit is ever confirmed |
| BondScope.NewScopeExactly | controls/lib/validator_enroll.py:486-524 | when a scope opens, every other saved bond is confirmed at an earlier head or withdrawn after it, if and only if this holds of the bonds that `last.json` does not name |
| BondScope.NamedWithdrawalSettles | controls/lib/validator_exit.py:496-514 | behind a named withdrawal every bond that came before it, by epoch and nonce, is settled |
| BondScope.UndecidedBondKeepsScope | controls/lib/validator_enroll.py:510-512 | an undecided bond is retried in its own scope |
| BondScope.UncoveredCase | controls/lib/validator_enroll.py:505-514 | a concrete directory where a new scope opens while an older bond is unsettled |
| BondRun.SubmitBond | controls/lib/validator_enroll.py:486-524 | the bond command on the control directory goes through exactly the states of its decision and trace |
| BondRun.OpensAfterSettled | controls/lib/validator_enroll.py:505-514 | on the ledger a scope opens after every other bond is settled, if and only if no exit or withdrawal stands in front of an unsettled one |
| BondRun.BondRule | controls/lib/validator_enroll.py:486-524 | in every run with crashes anywhere, until a bond command meets that guard, at most one bond scope is unsettled and only the named one |
| BondRun.BondsNeverCompete | controls/lib/validator_enroll.py:486-524 | on true answers, uncovered case included, at most one bond is undecided and all undecided payments share the next nonce |
| BondRun.OpensWhenEarlierAreFinal | controls/lib/validator_enroll.py:486-524 | when a new scope opens, nothing of an earlier bond is ever confirmed later |
| BondCycle.WithdrawalSettlesAll | controls/lib/validator_enroll.py:505-514 | in orderly histories every saved bond came before a named withdrawal, so the rule holds behind it |
| BondCycle.OnlyAnExitHides | controls/lib/validator_enroll.py:486-524 | in every run on true answers the guard is met exactly at an exit in front of an unsettled bond, and never behind a withdrawal |
| BondCycle.CycleReturns | controls/lib/validator_enroll.py:486-640 | a cycle of bond, exit and withdrawal can follow any other and ends with its bond confirmed and its withdrawal consumed |
| BondCycle.UncoveredCaseRecurs | controls/lib/validator_enroll.py:486-640 | after any run of true answers at whose end a bond would open behind a withdrawal or in an empty directory, a continuation meets the guard |
| BondCycle.UncoveredCaseIsReached | controls/lib/validator_enroll.py:486-640 | two runs from an empty directory meet the guard: at once, and after a completed cycle |
| SyncNeed.CarryIsJoin | controls/lib/sync_need.py:77-85 | carry_guard never refuses valid needs and is the least guard covering all of them |
| SyncNeed.JoinUnique | controls/lib/sync_need.py:77-85 | there is exactly one such guard |
| SyncNeed.CarryOrderFree | controls/lib/sync_need.py:77-85 | order and repetition of the needs make no difference |
| SyncNeed.CarryAssociative | controls/lib/sync_need.py:77-85 | guards may be carried in any grouping |
| Recover.CopyKeepsCompatible | controls/lib/validator_exit.py:73-98 | an interrupted copy of control records can be resumed |
| Recover.CompatibleByContents | controls/lib/validator_exit.py:83-97 | after the check of names, copying some records neither hides nor causes a difference in contents |
| Recover.Disk.RestoreControl | controls/lib/validator_exit.py:73-98 | success means all kept records are there and nothing foreign; a foreign name changes nothing; a record with other contents ends the copy, with only kept records added before |
| Recover.Disk.Install | controls/lib/validator_config.py:663-715 | the new state appears by one rename, carrying control records, wallet, guard and evidence |
| Recover.Disk.Rollback | controls/lib/validator_recover.py:153-166 | the original state is back at the data path, or still preserved, at every step |
| RecoverPlan.FloorCovers | controls/lib/validator_recover.py:231-271 | the floor is above the old head, at or above every need, guard and live plan, and within the snapshot lag of every recorded target |
| RecoverPlan.ArgumentPlanCovered | controls/lib/validator_recover.py:234-271 | an argument plan is covered if and only if it stays alive or the floor without it covers it; without a target it always is |
| RecoverPlan.TargetWithinLag | controls/lib/validator_recover.py:248-271 | its target is within the lag unless the head lags by more than the lag and one epoch and a history limit above 3001 still reaches it |
| RecoverPlan.TargetWithinLagExactly | controls/lib/validator_recover.py:248-271 | where nothing else is recorded that condition is exact |
| RecoverPlan.DroppedPlanMayLag | controls/lib/validator_recover.py:248-250 | a concrete dropped plan beyond the lag |
| RecoverPlan.Attempt | controls/lib/validator_recover.py:314-336 | the guarded part of a recovery keeps the original state preserved and lands at the floor or above |
| RecoverPlan.RecoverState | controls/lib/validator_recover.py:227-352 | crash safety of the whole command, through any exception and the rollback |
| RecoverPlan.RestorePrior | controls/lib/validator_recover.py:184-210 | a preserved state is put back or stays preserved; a live identity is never displaced |

## Left out

- The 32-bit and WebAssembly branches of `addT`, `mulUnitT` and `mod_SECP256K1`, and `subUnit`, `maskN`, `addNFT`, `subNFT` and `sqrT`: they would repeat the 64-bit or neighbouring proofs.
- `divUnit1`, `mulUnit1`, `cmpN`, `getRealSize`, `copyN`, `clearN`, `bsr`, `getUnitAt`, `uintToDec`, `itohex` and the bit iterator: their headers are not part of the repository; each is a small method with the contract its callers rely on.
- Register allocation, stack frames, instruction selection and the text emission of the generators; `gen_fpDbl_modNF` and the x64 versions of the NIST reductions compute what the modelled LLVM versions compute.
- The eight SIMD lanes of the 52-bit routines are independent; one lane is modelled, and the first round is the loop body on a zero accumulator.
- The table of powers of one half that `initInvTbl` builds for primes used without Montgomery form, and the R, R2, R3 constants of `initForMont`, which enter as their defining equations.
- Pointer strides of the scalar vectors in `mulVecCore`: the scalars are a sequence of limb vectors. Normalisation of points does not change group elements and is omitted.
- NAF-window multiplication in `mulVecGLVsmall`: `getNAFwidth` and `addTbl` are not part of the repository.
- `splitForBLS12` with `mpz_class` numbers: any multiple of the basis recomposes, as `GlvLattice.Recompose` shows for two rows.
- `parsePrefix`, signs and the dispatch on the base in string conversion.
- Public-cipher fields of versions 4 and 5 are read and agree between the parsers; the bijection is proved for version 3, the only one that is written.
- The reader's error texts; which check failed is not modelled, where it stopped is. A null data pointer is not modelled.
- Signatures, hashes and key formats in outbox records: a hash is a number, a signature a non-empty string. JSON that does not parse is a refused preparation.
- One chain and one wallet: the identity checks of pointer and records, directory modes, locks, fsync and the atomic replace of a file are contracts of the store.
- `submit_self` and `join_step`: branches in front of `submit`, which is modelled for all three operations and any epoch. Of the transactions file of older releases only whether a bond in it is under way is an input.
- Radix.ArrayToDec: the model stops at the first write in front of the buffer; what the program does after it is not defined.
- `repair_pointer`, `pointer_status`, `completed_withdraw` and the exit-intent exchange with the node: they read or report, or restore a pointer from a backup.
- BondRun.BondRule: relies on true node answers about confirmations and the account nonce, because the code has no other evidence.
- BondRun.BondsNeverCompete: relies, besides, on `next_nonce` (a new payment is prepared with the account's next nonce) and on the ledger bonding an account only by a transaction of its own, in an epoch after the committed head, and releasing it only in a later one; the exit and withdrawal commands use the epoch at which the account is bonded, as `submit_self` does. `BondCycle` relies on the same.
- OutboxRun.ResumeIsFinal: relies on true node answers for the exit in question, because the code has no other evidence.
- Files of a state directory below the level of chain data, control records, wallet, marker and evidence; process, network and binary checks are one input each.
- Recover.Disk.Rollback: another process that recreates the data path between the two moves of a rollback is not modelled; the code then stops with the original state still preserved.
- Pairings, field towers, hashing to curves, range and zero proofs, the OCaml bindings and the HTTP, PM2 and systemd plumbing.
