# KRCM-SPN, modelled and proved in Dafny

KRCM-SPN is a reversible 32-byte block engine wrapped in authenticated container formats. It
exists as a Rust crate and as a Python reference. This project models both and proves how the
parts fit: that every layer is undone by its separately written inverse, exactly which containers
each reader accepts, and where the two implementations agree.

HMAC, SHA-256, PBKDF2 and scrypt are arbitrary functions (`Primitives`), so every theorem holds
whatever they compute, unless it names what it needs of them. Randomness (salt, nonces, padding bytes) is a parameter.

| module | what it holds |
|---|---|
| `Wrappers`, `Modular`, `Bytes`, `Primitives` | results, remainders, big-endian coding, the arbitrary primitives |
| `Expand`, `Stream` | the HMAC expander and the lazily grown word stream |
| `Shuffle`, `ShuffleUniformity`, `Permutation` | rejection sampling, Fisher-Yates, inverse tables, positions |
| `Substitution`, `Diffusion`, `DiffusionClosedForm` | the byte layers |
| `Newton`, `Matrix` | the inverse modulo 2^64 and 2x2 matrix algebra |
| `AffineLayers`, `BlockEngine`, `Chaining` | the v3 layers, rounds of both engines, chained blocks |
| `KeySeparation`, `WireConstants` | what each seed, nonce and key depends on; the fixed bytes of labels and formats |
| `ExtendedGcd`, `PythonEngine`, `PythonLoops`, `Agreement`, `StreamOverflow` | the Python reference and its agreement with Rust |
| `Padding`, `Kdf`, `SegmentTable`, `Segments`, `Schedule` | padding, keys, the segment table, segments, the worker pool |
| `Inner`, `PublicHeader`, `Transcript`, `FormatV5`, `FormatV5Theorems`, `FormatV5Answers`, `MachineSums`, `V5Pipeline` | the v5 container |
| `FormatV4`, `Compact`, `Dispatch` | the older containers and the automatic dispatch |

`dafny verify dfyconfig.toml` checks everything.

How it is built. Each loop of the source is a method with its loop and invariants, proved against
a function; the theorems are about the functions. Round trips are stated in both orders, and each
reader is characterised by an if-and-only-if: it returns `data` exactly on the containers that
sealing `data` produces.

Laws that say a derived value depends on something need more of HMAC and SHA-256 than that they are
functions. They name what they need, that strings differing in one short window or short strings are
told apart, and `HypothesesCanBeMet` shows functions that do so. Laws about inputs of any length are
stated as collisions: equal tags or IVs of different containers exhibit two inputs with one HMAC value.

Facts about the code that its documentation does not state:

- The u32 length label of a stream wraps in Rust, so a stream repeats after 2^29 words, and a
  rejection loop ends if and only if one lap holds an accepted word (`AcceptsWithinLap`). Methods
  that run the shuffles require this of the seeds they come to, and of no others: `Live` for one
  shuffle, `RoundLive` for a round, `SeedLive` for a block, `ChainLive` along a ciphertext,
  `SegmentsLive`, `OpenLive`, `EncryptLive` and `DecryptLive` for segments and containers. The
  functions are total: when no word is accepted they take the word at the cursor, and the theorems
  hold for that choice too.
- Python raises OverflowError where the label would wrap. Its loops therefore always end, and where
  it returns bytes the Rust loops end with the same bytes. `RustRefinesPython` gives the exact
  condition, and `StreamOverflow` shows that it cannot be dropped for an arbitrary function in the
  place of HMAC.
- The Python package hands version 4 to the Rust extension when it is loaded.
  `ExtensionIsInvisible` says exactly when that changes no result; an unaligned ciphertext raises
  FormatError without the extension and ValueError with it.
- Not every change of one byte reaches every byte of a diffused block: a change d of byte j does if
  and only if N - j is below the order of d modulo 256 (`SpreadsBelowOrder`).
- Three additions of the v5 reader are unchecked. `MachineSums` says exactly which containers make a
  sum leave u64 and the reader panic, and that none of them would be accepted. The theorems of
  `FormatV5Theorems` use mathematical sums, and `MachineAcceptsTheSame` carries them over.
- The v4 tag covers header and ciphertext without their lengths, so `V4TagBinds` needs headers of one
  length. In the compact format the header's length is fixed, and `CompactTagBinds` needs nothing.
- The v5 reader checks more than it needs: the comparison of plain lengths after the inner header
  has been read can no longer fail.

## Model

| member | source | states |
|---|---|---|
| `Expand.HkdfExpandLike` | crates/krcm-core/src/block.rs:7-22 | The loop returns exactly the first `length` bytes of the chained expansion, the counter wrapping as a u32 |
| `Expand.Expand64IsExpansion` | crates/krcm-core/src/block.rs:24-38 | The unrolled two-call form equals the loop at length 64 |
| `Expand.ExpansionPrefix` | crates/krcm-core/src/block.rs:7-22 | A shorter expansion is a prefix of every longer one |
| `Stream.DrawStream.TakeU64` | crates/krcm-core/src/block.rs:40-51 | The n-th call returns word n of the unbounded stream; cursor and buffer stay aligned and the buffer is always the concatenated extensions |
| `Stream.DrawStream.constructor` | crates/krcm-core/src/block.rs:55-56 | A fresh stream is empty, aligned, and has taken no word |
| `Stream.BufferHoldsWord` | crates/krcm-core/src/block.rs:47-50 | Word n is bytes 8n to 8n+8 of any buffer of concatenated extensions long enough to hold it |
| `Stream.WordsRepeat` | crates/krcm-core/src/block.rs:44 | Truncating the length label to 32 bits makes the stream periodic with period 2^29 words |
| `Shuffle.DrawBelow` | crates/krcm-core/src/block.rs:60-65 | The rejection loop stops at the first accepted word and returns its residue, having consumed every word up to it |
| `Shuffle.ShuffleFromSeed` | crates/krcm-core/src/block.rs:53-85 | The in-place shuffle returns the keyed permutation; it ends when every modulus has an accepted word in the stream |
| `Shuffle.LiveFromAnywhere` | crates/krcm-core/src/block.rs:58-63 | Because the stream is periodic, one accepted word anywhere means accepted words after every cursor |
| `Shuffle.AcceptsWithinLap` | crates/krcm-core/src/block.rs:58-63 | Wherever a rejection loop starts, it meets an accepted word if and only if one of the first 2^29 words is accepted |
| `Shuffle.ShuffledIsPermutation` | crates/krcm-core/src/block.rs:53-85 | Whatever is drawn, the result is a permutation |
| `Shuffle.ShuffleIsBijection` | crates/krcm-core/src/block.rs:57-67 | Choice vectors (0 <= j_i <= i) correspond one to one with all permutations, in both directions |
| `Shuffle.AcceptedDrawsAreUniform` | crates/krcm-core/src/block.rs:58-64 | For every residue j below m exactly floor(2^64 / m) words are accepted and reduce to j |
| `ShuffleUniformity.EveryPermutationEquallyOften` | crates/krcm-core/src/block.rs:53-85 | Every permutation of n elements is the result of the same number of accepted word vectors, the product of floor(2^64 / k) for k = 2..n |
| `ShuffleUniformity.KeyedPermutationIsCounted` | crates/krcm-core/src/block.rs:53-85 | On every live stream the words that the rejection loops keep are one of the vectors counted, and the keyed permutation is the shuffle of their residues |
| `Permutation.PermutationIsRearrangement` | crates/krcm-core/src/block.rs:53-67 | A permutation holds every index exactly once |
| `Permutation.InversePermutation` | crates/krcm-core/src/block.rs:87-93 | The table-filling loop, later writes winning, computes the inverse table of any in-range list |
| `Permutation.InverseTableInverts` | crates/krcm-core/src/block.rs:87-93 | For a permutation the table is its inverse on both sides |
| `Permutation.ApplyPositionPermutation` | crates/krcm-core/src/block.rs:218-224 | The loop gathers out[i] = block[perm[i]] |
| `Permutation.InvertPositionPermutation` | crates/krcm-core/src/block.rs:226-232 | The loop scatters out[perm[i]] = block[i] over zeros |
| `Permutation.PositionRoundTrip` | crates/krcm-core/src/block.rs:218-232 | Gathering and scattering by a permutation undo each other in both orders |
| `Substitution.SubstituteBytes` | crates/krcm-core/src/block.rs:169-177 | The loop applies the byte table after adding the mask |
| `Substitution.UnsubstituteBytes` | crates/krcm-core/src/block.rs:179-188 | The loop applies the inverse table and subtracts the mask |
| `Substitution.SubstitutionRoundTrip` | crates/krcm-core/src/block.rs:169-188 | The two byte layers undo each other in both orders for every permutation and mask |
| `Diffusion.DiffuseBytes` | crates/krcm-core/src/block.rs:190-202 | Both in-place passes together leave the two-pass diffusion of the old array |
| `Diffusion.UndiffuseBytes` | crates/krcm-core/src/block.rs:204-216 | Both reversed in-place passes leave the inverse diffusion of the old array |
| `Diffusion.DiffusionRoundTrip` | crates/krcm-core/src/block.rs:190-216 | Diffusion and undiffusion are mutually inverse, for every block length and mask |
| `DiffusionClosedForm.ClosedForm` | crates/krcm-core/src/block.rs:190-202 | out[i] = sum over j of (N - max(i, j)) * in[j], plus mask terms, modulo 256 |
| `DiffusionClosedForm.ByteChangeReaches` | crates/krcm-core/src/block.rs:190-202 | Adding d to input byte j adds exactly (N - max(i, j)) * d to output byte i |
| `DiffusionClosedForm.ByteKept` | crates/krcm-core/src/block.rs:190-202 | A change d of byte j leaves output byte i as it was exactly when (N - max(i, j)) * d is a multiple of 256 |
| `DiffusionClosedForm.SpreadsExactly` | crates/krcm-core/src/block.rs:190-202 | A change d of byte j changes every output byte if and only if none of d, 2d, ..., (N - j)d is a multiple of 256; for every block length, mask, position and value |
| `DiffusionClosedForm.OrderExact` | crates/krcm-core/src/block.rs:190-202 | The multiples of d that vanish modulo 2^k are exactly those by multiples of its order, which halving d computes |
| `DiffusionClosedForm.SpreadsBelowOrder` | crates/krcm-core/src/block.rs:190-202 | The same condition as one comparison: N - j is below the order of d modulo 256 |
| `DiffusionClosedForm.OddChangeSpreads` | crates/krcm-core/src/block.rs:190-202 | So an odd change of byte j changes every output byte if and only if at most 255 bytes lie from j on; in a 32-byte block, always |
| `DiffusionClosedForm.FirstByteSpreads` | crates/krcm-core/src/block.rs:190-202 | In a 32-byte block a change of byte 0 changes every output byte if and only if it is not a multiple of 8 |
| `DiffusionClosedForm.EvenChangeMayNotSpread` | crates/krcm-core/src/block.rs:190-202 | A concrete 32-byte input on the other side of the condition: adding 128 to byte 0 leaves output byte 0 as it was |
| `Newton.NewtonStep` | crates/krcm-core/src/block.rs:117-123 | One step squares the modulus: if a*x = 1 mod m then a*x*(2 - a*x) = 1 mod m^2 |
| `Newton.WrappedStep` | crates/krcm-core/src/block.rs:119-121 | Wrapping at 2^64 does not disturb the step modulo any divisor of 2^64 |
| `Newton.IterateConverges` | crates/krcm-core/src/block.rs:117-123 | After k steps from 1, a*x = 1 modulo 2^(2^k), for every odd a and k <= 6 |
| `Newton.ModInvOdd` | crates/krcm-core/src/block.rs:117-123 | The six-step loop inverts every odd word modulo 2^64 |
| `Newton.InverseIsUnique` | crates/krcm-core/src/block.rs:117-123 | No other word inverts it |
| `Matrix.InvertMatrix` | crates/krcm-core/src/block.rs:125-133 | The loop-based inverse is the specification used by the algebra |
| `Matrix.MulIsReducedIntMul` | crates/krcm-core/src/block.rs:135-150 | The wrapping product is the integer product reduced once |
| `Matrix.MulAssociative` | crates/krcm-core/src/block.rs:135-150 | Wrapping 2x2 multiplication is associative |
| `Matrix.DetIsReduced` | crates/krcm-core/src/block.rs:111-115 | The wrapping determinant is ad - bc modulo 2^64 |
| `Matrix.SeededDetIsOdd` | crates/krcm-core/src/block.rs:101-109 | Every matrix drawn from a seed has an odd determinant |
| `Matrix.InvInverts` | crates/krcm-core/src/block.rs:125-133 | `matrix_inv` is a two-sided inverse of every matrix with an odd determinant |
| `Matrix.SandwichCancels` | crates/krcm-core/src/block.rs:266 | Multiplying by the inverses on both sides restores the middle matrix |
| `Matrix.WordsRoundTrip` | crates/krcm-core/src/block.rs:152-167 | Block and word views convert back and forth without loss |
| `Matrix.MixRoundTrip` | crates/krcm-core/src/block.rs:247-251 | Mixing and unmixing undo each other in both orders |
| `BlockEngine.EncryptOneRound` | crates/krcm-core/src/block.rs:244-253 | One pass of the loop body computes the round of the specification |
| `BlockEngine.DecryptOneRound` | crates/krcm-core/src/block.rs:261-270 | The separate decryption code computes the specified inverse round |
| `BlockEngine.EncryptOneBlock` | crates/krcm-core/src/block.rs:241-256 | The ten-round loop computes the block encryption; it needs only the ten round seeds of this block to be live |
| `BlockEngine.DecryptOneBlock` | crates/krcm-core/src/block.rs:258-273 | The reversed loop computes the block decryption |
| `BlockEngine.ByteLayerRoundTrip` | krcm/core.py:316-357 | The byte layer of either engine is undone by its inverse, in both orders |
| `BlockEngine.RoundRoundTrip` | crates/krcm-core/src/block.rs:241-273 | The four layers and their inverses compose to the identity in both orders |
| `BlockEngine.RoundsRoundTrip` | crates/krcm-core/src/block.rs:241-273 | So does any number of rounds |
| `BlockEngine.BlockRoundTrip` | crates/krcm-core/src/block.rs:241-273 | One-block encryption and decryption are mutual inverses for every block and seed, for the v4 and the v3 engine |
| `KeySeparation.RoundSeedsDiffer` | crates/krcm-core/src/block.rs:234-239 | No two of the ten rounds of a block share a seed, for every HMAC that tells short messages apart |
| `Chaining.EncryptBlocks` | crates/krcm-core/src/block.rs:285-301 | The feedback loop and its alignment guard compute the chained encryption; it needs only the seeds along this ciphertext to be live |
| `Chaining.DecryptBlocks` | crates/krcm-core/src/block.rs:303-323 | The feedback loop over ciphertext computes the chained decryption; it needs only the seeds along this ciphertext to be live |
| `Chaining.EngineLiveChains` | crates/krcm-core/src/block.rs:285-323 | When every seed ends its rejection loops, every chain does, so both feedback loops end on all inputs |
| `Chaining.ChainRoundTrip` | crates/krcm-core/src/block.rs:285-323 | Decryption of encryption and encryption of decryption are identities for any number of blocks |
| `Chaining.EncryptionOfPrefix` | crates/krcm-core/src/block.rs:285-301 | The encryption of a prefix is a prefix of the encryption |
| `Chaining.DecryptedBlockAt` | crates/krcm-core/src/block.rs:303-323 | Plaintext block i is a function of i, ciphertext block i and ciphertext block i-1 only |
| `Chaining.EncryptedBlockAt` | crates/krcm-core/src/block.rs:285-301 | Ciphertext block i is plaintext block i encrypted under the seed that i and ciphertext block i-1 lead to |
| `KeySeparation.NextSeedFollowsBlock` | crates/krcm-core/src/block.rs:275-323 | Along a ciphertext the seed of block i+1 changes if and only if ciphertext block i does, for primitives that tell short windows apart |
| `KeySeparation.BlockSeedSeesFeedback` | crates/krcm-core/src/block.rs:275-283 | At one index two block seeds are equal if and only if their feedback is |
| `KeySeparation.BlockSeedSeesIndex` | crates/krcm-core/src/block.rs:275-283 | Under one nonce and feedback, if and only if their index is |
| `KeySeparation.BlockSeedSeesNonce` | crates/krcm-core/src/block.rs:275-283 | At one index and feedback, if and only if their 16-byte nonce is |
| `KeySeparation.HypothesesCanBeMet` | crates/krcm-core/src/block.rs:275-283 | There are functions that meet what these laws ask of HMAC and SHA-256 |
| `Chaining.AlteredBlockIsLocal` | crates/krcm-core/src/block.rs:303-323 | Altering ciphertext block i changes at most plaintext blocks i and i+1 |
| `Chaining.AlteredBlockChanges` | crates/krcm-core/src/block.rs:303-323 | It always changes plaintext block i |
| `Chaining.BlockLabelIsInjective` | crates/krcm-core/src/block.rs:275-283 | Block labels determine nonce, block index and feedback hash |
| `AffineLayers.InverseByteIsUnique` | krcm/core.py:335-339 | The byte inverse of an odd multiplier is the only one |
| `AffineLayers.AffineByteRoundTrip` | krcm/core.py:342-357 | The masked affine byte map and its inverse undo each other in both orders |
| `AffineLayers.AffineSubstituteBytes` | krcm/core.py:342-348 | The loop computes the v3 byte layer |
| `AffineLayers.AffineUnsubstituteBytes` | krcm/core.py:351-357 | The loop computes its inverse |
| `AffineLayers.AffineSubstitutionRoundTrip` | krcm/core.py:342-357 | The two v3 byte layers undo each other on whole blocks in both orders |
| `AffineLayers.AffinePositionsPermute` | krcm/core.py:425-441 | The map i -> a*i + b mod 32 is a permutation; its multiplier is odd, so the fallback to 1 never runs |
| `AffineLayers.AffinePositionsWalk` | krcm/core.py:425-441 | Output byte 0 is input byte `seed[3]` mod 32, and each further position is `seed[2] | 1` later, mod 32 |
| `ExtendedGcd.EuclidIsCorrect` | krcm/core.py:178-187 | Bezout's identity holds for the result, and it is a greatest common divisor, for all integers |
| `ExtendedGcd.ComputeExtendedGcd` | krcm/core.py:178-187 | The six-variable loop ends on every pair of integers and returns that row |
| `ExtendedGcd.NextRowHolds` | krcm/core.py:183-186 | Each step keeps r = s*a + t*b |
| `ExtendedGcd.FloorDivIsFloor` | krcm/core.py:183 | The quotient is the one that leaves a remainder between 0 and the divisor, for divisors of either sign |
| `ExtendedGcd.ComputeModInv` | krcm/core.py:190-194 | `modinv` runs that loop on the reduced argument and raises unless the divisor is 1 |
| `ExtendedGcd.ModInvInverts` | krcm/core.py:190-194 | `modinv` returns an inverse exactly when one exists |
| `ExtendedGcd.ModInvIsNewton` | krcm/core.py:190-194 | Modulo 2^64 it is the Newton inverse on every odd input and ValueError on every even one |
| `PythonEngine.PyMatrixMulAgrees` | krcm/core.py:204-214 | Reducing unbounded products at the end gives the words of wrapping at every step |
| `PythonEngine.PyMatrixInvAgrees` | krcm/core.py:217-228 | The reference's inverse equals Rust's on odd determinants and raises on even ones |
| `PythonEngine.PyRepairUnreachable` | krcm/core.py:243-254 | The even-determinant repair never runs: seeded matrices agree |
| `PythonEngine.PyDiffusionAgrees` | krcm/core.py:362-388 | One mask to eight bits equals two wrapping additions, in both directions |
| `PythonEngine.PyShuffleAgrees` | krcm/core.py:257-279 | The reference's shuffle is Rust's when the draws stay below 2^29 words, and raises OverflowError exactly otherwise |
| `PythonEngine.PyRoundAgrees` | krcm/core.py:444-503 | One round of the reference, either engine and direction, equals the specified round or raises |
| `PythonEngine.PyRoundsAgree` | krcm/core.py:444-503 | So does the whole block |
| `PythonEngine.RustRefinesPython` | krcm/core.py:506-537 | On aligned input the reference returns the engine's bytes in both directions exactly when the shuffles along the ciphertext fit, and raises OverflowError otherwise |
| `PythonEngine.PyChainRoundTrip` | krcm/core.py:506-537 | What the reference encrypts, with either engine, it decrypts to the same bytes |
| `PythonEngine.PyChainRoundTripBack` | krcm/core.py:506-537 | What it decrypts it encrypts again to the same ciphertext |
| `StreamOverflow.PythonMayRaiseWhereRustReturns` | krcm/core.py:263-269 | Agreement cannot be proved for an arbitrary function in the place of HMAC: with the one given, every Rust loop along a non-empty aligned input ends, and the reference raises OverflowError, for encryption and decryption |
| `Agreement.RustEndsWherePythonReturns` | krcm/core.py:506-537 | Wherever the reference returns bytes for version 4, every Rust rejection loop along the ciphertext ends, and the bytes are the engine's |
| `Agreement.EncryptWithBoth` | krcm/core.py:506-520 | Both encryption loops on one input: unless the reference's streams overflow they return equal bytes, or both refuse an unaligned input |
| `Agreement.DecryptWithBoth` | krcm/core.py:523-537 | Both decryption loops, likewise |
| `Agreement.EncryptBlocksEntry` | krcm/core.py:506-520 | For every version and key: version 4 goes to the Rust engine when the extension is loaded, version 3 to the affine engine, and every other call to the reference's own shuffling engine |
| `Agreement.DecryptBlocksEntry` | krcm/core.py:523-537 | The decrypting entry point, likewise |
| `Agreement.ExtensionIsInvisible` | krcm/core.py:506-537 | The exact condition under which loading the extension changes no result: another version than 4, or draws that fit, a 32-byte key and a 16-byte nonce; for decryption also an aligned input, and unaligned encryption never differs |
| `Agreement.EntryIsEngine` | krcm/core.py:506-537 | With a 32-byte key and a 16-byte nonce both entry points return the engine's bytes on aligned input, or OverflowError exactly where their own draws do not fit |
| `Agreement.AffineAlwaysFits` | krcm/core.py:460-503 | Version 3 draws nothing, so it never raises OverflowError |
| `Agreement.VersionThreeIsAffine` | krcm/core.py:506-537 | Version 3 returns the affine engine's bytes on every aligned input, in both directions, with or without the extension |
| `Agreement.OtherVersionsShuffle` | krcm/core.py:506-537 | Every other version returns the shuffling engine's bytes: by the reference, or OverflowError, without the extension; by Rust, or ValueError on odd key or nonce lengths, for version 4 with it |
| `PythonLoops.PyTakeU64` | krcm/core.py:263-269 | The reference's draw returns the next word, or raises once the stream holds 2^32 bytes |
| `PythonLoops.PyDrawBelow` | krcm/core.py:273-277 | Its rejection loop ends for every HMAC, with the accepted residue or the exception |
| `PythonLoops.PyShuffleFromSeed` | krcm/core.py:390-410 | Its in-place shuffle computes the function compared with Rust |
| `PythonLoops.PyDiffuseBytes` | krcm/core.py:362-376 | Its in-place diffusion, for every array |
| `PythonLoops.PyUndiffuseBytes` | krcm/core.py:379-388 | Its in-place inverse |
| `PythonLoops.PyInvertMatrix` | krcm/core.py:217-228 | The inverse by the extended Euclid loop, or its ValueError |
| `PythonLoops.PyEncryptOneRound` | krcm/core.py:444-472 | The loop body of either engine, composed of the in-place shuffle, diffusion and byte loops |
| `PythonLoops.PyDecryptOneRound` | krcm/core.py:475-503 | The body of the decrypting loop, with its inverse table, reversed passes and extended Euclid inverses |
| `PythonLoops.PyEncryptOneBlock` | krcm/core.py:444-472 | The round loop, leaving at the first exception |
| `PythonLoops.PyDecryptOneBlock` | krcm/core.py:475-503 | The reversed round loop, leaving at the first exception |
| `PythonLoops.PyEncryptBlocksLoop` | krcm/core.py:506-520 | The feedback loop and its alignment error |
| `PythonLoops.PyDecryptBlocksLoop` | krcm/core.py:523-537 | The feedback loop over ciphertext and its alignment error |
| `Padding.PadBytes` | crates/krcm-core/src/padding.rs:4-13 | The in-place padding; the branch for length 0 is dead |
| `Padding.PaddingIsBijection` | crates/krcm-core/src/padding.rs:4-30 | `unpad` accepts exactly the padded strings and returns what was padded (section 6.3 of RFC 5652 with k = 32) |
| `Padding.UnpadErrors` | crates/krcm-core/src/padding.rs:15-30 | Format is exactly for lengths of no whole blocks; Authentication exactly for whole blocks that are no padded string |
| `SegmentTable.SerializeSegmentTable` | crates/krcm-core/src/format_v5.rs:478-492 | The loop prints the entries in order, 40 bytes each |
| `SegmentTable.ParseSegmentTable` | crates/krcm-core/src/format_v5.rs:498-533 | The loop with two running offsets and its guards computes the parsing function |
| `SegmentTable.ParseTableExact` | crates/krcm-core/src/format_v5.rs:498-533 | The parser accepts exactly the serialisations of non-empty lists numbered from 0 whose plain and cipher ranges tile from 0 and end at the ciphertext length, and returns that list |
| `Segments.ChunksRejoin` | crates/krcm-core/src/format_v5.rs:404-409 | The pieces are non-empty, rejoin to the input, and have the given size except the last, which may be shorter |
| `Segments.EncryptSegment` | crates/krcm-core/src/format_v5.rs:441-451 | One segment is padded and encrypted under its own nonce; the map cannot fail. It needs only the seeds along this segment to be live |
| `Segments.EncryptEachSegment` | crates/krcm-core/src/format_v5.rs:415-420 | The sequential map, for segments whose own seeds are live |
| `Segments.CollectSegments` | crates/krcm-core/src/format_v5.rs:421-438 | The loop with running offsets yields the table and ciphertext of the segments |
| `Segments.EntriesTile` | crates/krcm-core/src/format_v5.rs:421-438 | `encrypt_segments` always emits a tiling table that ends at its ciphertext |
| `Segments.TilesInBounds` | crates/krcm-core/src/format_v5.rs:461-470 | Every slice taken under a parsed table lies inside the ciphertext |
| `Segments.DecryptSegments` | crates/krcm-core/src/format_v5.rs:453-476 | The loop opens the entries in order and stops at the first error; only the seeds along the slices it comes to need be live |
| `Segments.OpenLiveAfterSeal` | crates/krcm-core/src/format_v5.rs:441-476 | If the loops ended while encrypting the segments, they end while decrypting them |
| `Segments.OpenSegmentExact` | crates/krcm-core/src/format_v5.rs:461-473 | A segment opens to `plain` exactly when its slice is the encryption of the padded `plain` and the length matches |
| `Segments.OpenFromExact` | crates/krcm-core/src/format_v5.rs:453-476 | Decryption under a tiling table yields `segs` exactly when table and ciphertext are the ones `segs` produce |
| `Segments.SegmentLabelIsInjective` | crates/krcm-core/src/format_v5.rs:358-373 | Segment nonce inputs determine public nonce, synthetic IV and segment index |
| `KeySeparation.SegmentNonceSeesIndex` | crates/krcm-core/src/format_v5.rs:358-373 | Two segments of a container have equal nonces if and only if they have equal indices, for an HMAC whose first 16 bytes tell short windows apart |
| `KeySeparation.SegmentNonceSeesPublicNonce` | crates/krcm-core/src/format_v5.rs:358-373 | At one index, if and only if their public nonces are equal |
| `KeySeparation.SegmentNonceSeesIv` | crates/krcm-core/src/format_v5.rs:358-373 | And under synthetic IVs that differ in one window of at most 16 bytes, if and only if that window is equal |
| `KeySeparation.SubkeysDiffer` | crates/krcm-core/src/kdf.rs:168-184 | The five keys of a container differ from one another, for every HMAC that tells short messages apart |
| `KeySeparation.RootKeySeesPassword` | crates/krcm-core/src/kdf.rs:140-165 | Two root keys of one KDF are equal if and only if the KDF is on the passwords, salts and costs in their places |
| `Schedule.StepKeepsInv` | crates/krcm-core/src/format_v5.rs:410-414 | Starting or finishing a task, in any order and with any number running at once, keeps every segment in exactly one place and every filled slot its own segment's result |
| `Schedule.EveryScheduleIsSequential` | crates/krcm-core/src/format_v5.rs:410-420 | Whatever the order of events, a finished run collects exactly the sequential map |
| `Schedule.NeverStuck` | crates/krcm-core/src/format_v5.rs:410-414 | With at least one thread, an unfinished pool always has an enabled event that needs no more threads than there are |
| `Schedule.RunFinishesOnTime` | crates/krcm-core/src/format_v5.rs:410-414 | A run ends after exactly two events per segment |
| `Schedule.EncryptInParallel` | crates/krcm-core/src/format_v5.rs:410-414 | Driven by an arbitrary scheduler, the parallel branch returns the sequential results |
| `Inner.PaddingLength` | crates/krcm-core/src/format_v5.rs:249-262 | A whole number of blocks, at most 15 and the policy's maximum, congruent to the count byte modulo one more than that maximum, which fixes it |
| `Inner.EveryPaddingComesUp` | crates/krcm-core/src/format_v5.rs:249-262 | A length is the padding for some count byte if and only if it is a permitted whole number of blocks |
| `Inner.InspectInnerExact` | crates/krcm-core/src/format_v5.rs:293-324 | The inner reader accepts exactly a printed header carrying the payload's own hash followed by at least the announced payload |
| `Inner.UnpackOfPack` | crates/krcm-core/src/format_v5.rs:249-331 | What is packed unpacks to itself under any padding |
| `Inner.UnpackInnerExact` | crates/krcm-core/src/format_v5.rs:293-331 | Unpacking returns `data` if and only if the bytes are a header stating its length, the payload's length and hash, a payload that starts with `data`, and padding |
| `Inner.PackInner` | crates/krcm-core/src/format_v5.rs:249-284 | The header, the data and all of the padding, in this order |
| `WireConstants.InnerHeaderStatesEngine` | crates/krcm-core/src/format_v5.rs:264-275 | The inner header starts with its magic and version, and states the block length and the engine's number of rounds |
| `PublicHeader.PackHeader` | crates/krcm-core/src/format_v5.rs:166-205 | Packing succeeds exactly on valid KDF parameters, with every field at its offset and nothing else |
| `PublicHeader.CeilLog2` | crates/krcm-core/src/format_v5.rs:192-196 | Byte 25 is the least exponent of a power of two that holds the segment size |
| `PublicHeader.ParseOfPack` | crates/krcm-core/src/format_v5.rs:217-247 | Parsing a packed header returns its KDF, salt and nonce |
| `PublicHeader.ParseAlike` | crates/krcm-core/src/format_v5.rs:217-247 | Two readable headers parse alike if and only if they agree on the KDF number, that KDF's fields, salt and nonce |
| `PublicHeader.PackTellsApart` | crates/krcm-core/src/format_v5.rs:166-205 | Two packed headers are equal if and only if KDF, salt, nonce, size exponent and kind of padding policy are |
| `PublicHeader.ParseExact` | crates/krcm-core/src/format_v5.rs:217-247 | A header is read as given KDF, salt and nonce if and only if it is, but for byte 25 and the other KDF's fields, one that the printer prints for them under some padding policy |
| `PublicHeader.ParseErrors` | crates/krcm-core/src/format_v5.rs:217-240 | A header is refused with InvalidParameter if and only if other values of bytes 10 and 26 would make it readable; otherwise with Format |
| `PublicHeader.SegmentSizeFor` | crates/krcm-core/src/format_v5.rs:404 | The requested segment size, but at least one block |
| `Transcript.AppendField` | crates/krcm-core/src/format_v5.rs:391-394 | Appends the 8-byte length and the field |
| `Transcript.BuildTranscript` | crates/krcm-core/src/format_v5.rs:375-388 | Five appended fields build the tag input |
| `Transcript.TranscriptIsInjective` | crates/krcm-core/src/format_v5.rs:375-394 | Equal tag inputs have equal header, synthetic IV, table and ciphertext |
| `Transcript.SivInputIsInjective` | crates/krcm-core/src/format_v5.rs:333-341 | Equal synthetic-IV inputs have equal header and inner plaintext |
| `WireConstants.DomainStarts` | crates/krcm-core/src/format_v5.rs:333-383 | The domains of synthetic IV and tag, byte by byte |
| `WireConstants.LabelStarts` | crates/krcm-core/src/block.rs:234-283 | The labels of round seeds, block seeds and segment nonces, byte by byte |
| `WireConstants.KeyLabels` | crates/krcm-core/src/kdf.rs:168-184 | The five v5 keys, by the bytes of their labels |
| `WireConstants.ContainerStarts` | crates/krcm-core/src/format_v5.rs:86-89 | The first bytes of the three containers |
| `FormatV5.SplitOuterExact` | crates/krcm-core/src/format_v5.rs:104-131 | The framing guards accept exactly assembled containers with a readable public header, and return their pieces |
| `FormatV5Theorems.LateChecksImplied` | crates/krcm-core/src/format_v5.rs:158-162 | After parsing and opening, the plain lengths sum to the inner length without overflow, so the last Format error is unreachable |
| `FormatV5Theorems.AcceptedIsSealing` | crates/krcm-core/src/format_v5.rs:99-164 | Whatever is accepted is the sealing of its own header and of the segments it opens to |
| `FormatV5Theorems.SealingIsAccepted` | crates/krcm-core/src/format_v5.rs:99-164 | Every sealing of well-formed inner bytes is accepted and yields its data |
| `FormatV5Theorems.AcceptedExactlySealings` | crates/krcm-core/src/format_v5.rs:99-164 | `decrypt_v5` returns `data` if and only if the container is such a sealing |
| `FormatV5Theorems.AcceptedIsCanonical` | crates/krcm-core/src/format_v5.rs:99-164 | Cutting the recovered inner bytes at the table's plain ranges and sealing again gives the container byte for byte |
| `FormatV5Theorems.V5RoundTrip` | crates/krcm-core/src/format_v5.rs:47-164 | With a password, parameters in range and a consenting scrypt, `encrypt_v5` succeeds and `decrypt_v5` returns the data, for all options and padding |
| `FormatV5Theorems.EncryptSucceeds` | crates/krcm-core/src/format_v5.rs:47-65 | Encryption succeeds if and only if the password is not empty, the KDF parameters are in range, and scrypt, where used, does not refuse; every failure is InvalidParameter |
| `FormatV5Theorems.DifferentContainersDifferInTranscript` | crates/krcm-core/src/format_v5.rs:135-144 | Two different containers accepted under the same keys authenticate different inputs; with equal tags that is an HMAC collision |
| `FormatV5Theorems.AcceptedCarriesBothHmacs` | crates/krcm-core/src/format_v5.rs:99-164 | An accepted container carries the HMAC of its header and recovered inner bytes, and the HMAC of its whole transcript |
| `FormatV5Theorems.EqualIvsCollide` | crates/krcm-core/src/format_v5.rs:333-341 | Two sealings under the same keys and header with different inner bytes and equal synthetic IVs exhibit two different inputs with the same HMAC value |
| `FormatV5Answers.AnswersOfDecrypt` | crates/krcm-core/src/format_v5.rs:99-134 | Bad framing gets Format, a readable frame around a header with bad parameters or an underivable key InvalidParameter |
| `FormatV5Answers.AnswersOfOpen` | crates/krcm-core/src/format_v5.rs:135-164 | Behind a derivable key: a wrong tag, as under a wrong password, gets Authentication; behind a right tag, Format is exactly for a table that does not tile, and every later refusal is Authentication |
| `MachineSums.SplitMachineExact` | crates/krcm-core/src/format_v5.rs:119-131 | In 64-bit arithmetic the outer reader is the specified one except on the containers named: the table end leaves u64, or the stated length does (in a build without overflow checks, wrapping to exactly the container's own length) |
| `MachineSums.SplitPanicIsRefused` | crates/krcm-core/src/format_v5.rs:119-131 | On those containers the specified reader answers Format |
| `MachineSums.SplitCanPanic` | crates/krcm-core/src/format_v5.rs:119-123 | They exist: any readable public header followed by a table length of 2^64 - 16 |
| `MachineSums.InspectMachineExact` | crates/krcm-core/src/format_v5.rs:293-324 | Likewise for the inner reader: it panics exactly when 76 plus the payload length leaves u64 and, without overflow checks, the original length does not exceed the payload length |
| `MachineSums.DecryptMachineExact` | crates/krcm-core/src/format_v5.rs:99-164 | Apart from the containers named, the reader in 64-bit arithmetic gives the specified result, errors included |
| `MachineSums.PanicIsRefused` | crates/krcm-core/src/format_v5.rs:99-164 | No container that makes the reader panic is accepted by the specified reader |
| `MachineSums.MachineAcceptsTheSame` | crates/krcm-core/src/format_v5.rs:99-164 | So in either kind of build the machine returns `data` if and only if the specified reader does |
| `V5Pipeline.EncryptSegments` | crates/krcm-core/src/format_v5.rs:396-439 | The table and ciphertext depend on the inner bytes and segment size, never on the workers |
| `V5Pipeline.EncryptContainer` | crates/krcm-core/src/format_v5.rs:47-97 | The entry point computes the specified container or error |
| `V5Pipeline.SumPlainLengths` | crates/krcm-core/src/format_v5.rs:159 | The sum over the table |
| `V5Pipeline.DecryptContainer` | crates/krcm-core/src/format_v5.rs:99-164 | The entry point computes the specified result guard by guard in 64-bit arithmetic, panics included, in a build with or without overflow checks |
| `V5Pipeline.DecryptionEnds` | crates/krcm-core/src/format_v5.rs:47-164 | If the rejection loops of an encryption ended, those of decrypting its container end |
| `V5Pipeline.EngineLiveEnds` | crates/krcm-core/src/format_v5.rs:47-164 | When every seed ends its rejection loops, both entry points end on all inputs |
| `V5Pipeline.EncryptThenDecrypt` | crates/krcm-core/src/format_v5.rs:47-164 | The two entry points run one after the other return the data, or InvalidParameter where encryption refuses, and never panic |
| `FormatV4.SplitV4Exact` | crates/krcm-core/src/format_v4.rs:65-81 | The v4 framing guards accept exactly assembled containers with 1 to 4096 header bytes |
| `FormatV4.V4AcceptedExactly` | crates/krcm-core/src/format_v4.rs:65-93 | `decrypt_v4` returns `data` if and only if the container seals `data` under its own header bytes |
| `FormatV4.V4RoundTrip` | crates/krcm-core/src/format_v4.rs:31-93 | With a header codec that reads back what it prints, decryption returns the data |
| `FormatV4.V4Succeeds` | crates/krcm-core/src/format_v4.rs:31-62 | Encryption succeeds if and only if the iterations are in range and the password is not empty, and which error it gives otherwise |
| `FormatV4.AcceptedV4IsTagged` | crates/krcm-core/src/format_v4.rs:82-87 | An accepted container ends in the HMAC of its header and ciphertext |
| `FormatV4.V4TagBinds` | crates/krcm-core/src/format_v4.rs:82-87 | Two different containers accepted under one key with equal tags and headers of one length exhibit two different inputs with the same HMAC value |
| `FormatV4.AnswersOfV4` | crates/krcm-core/src/format_v4.rs:65-93 | Which error: Format for framing, InvalidPassword and InvalidParameter for the key, Authentication for a wrong tag, and behind a right tag Format exactly for a ciphertext of no whole blocks |
| `Compact.HeaderCodecExact` | krcm/compact.py:42-62 | The 45-byte header codec is exact: unpacking succeeds with `h` exactly on the printed form of a readable `h` |
| `Compact.CompactAcceptedExactly` | krcm/compact.py:86-107 | With or without the extension, the compact reader returns `data` if and only if the container is the compact form of `data`, with engine 3 or 4, and its draws fit or are Rust's |
| `Compact.CompactSucceeds` | krcm/compact.py:65-83 | The writer raises ValueError exactly on an empty password, iterations out of range, data of 2^64 bytes or more, or a salt or nonce that is not 16 bytes; otherwise OverflowError exactly when its draws do not fit; otherwise it returns the compact form |
| `Compact.CompactRoundTrip` | krcm/compact.py:65-107 | What is written at one installation reads back as the data at another, with or without the extension at either end, except that a reader without it raises OverflowError exactly where the draws do not fit |
| `Compact.PyKeysAgree` | krcm/core.py:155-169 | The reference derives the keys that the Rust crate derives, and refuses the same arguments |
| `Compact.AcceptedIsTagged` | krcm/compact.py:95-103 | An accepted container ends in the HMAC of its whole header and its ciphertext |
| `Compact.CompactTagBinds` | krcm/compact.py:95-103 | Two different containers accepted under one key with equal tags exhibit two different inputs with the same HMAC value, the header being part of them |
| `Compact.AnswersOfCompact` | krcm/compact.py:86-107 | Which exception a refused container raises, for every container, password and installation |
| `Dispatch.MagicsDiffer` | crates/krcm-core/src/lib.rs:28-36 | No container matches both magics |
| `Dispatch.AutoSucceeds` | crates/krcm-core/src/lib.rs:38-47 | `encrypt_auto` succeeds if and only if password and KDF parameters are what the chosen version asks for |
| `Dispatch.AutoWritesHeader` | crates/krcm-core/src/lib.rs:38-47 | The written header carries the caller's parameters, salt and nonce, at the place and in the layout of the chosen version |
| `Dispatch.UnsupportedExactly` | crates/krcm-core/src/lib.rs:28-36 | UnsupportedVersion is for containers with neither magic, and for v4 headers whose codec says so |
| `Dispatch.AutoRoundTrip` | crates/krcm-core/src/lib.rs:28-47 | Then `decrypt_auto` opens its result to the data |

## Left out

- HMAC, SHA-256, PBKDF2 and scrypt internals: arbitrary functions here. Nothing is claimed about the strength of the tag beyond "different input or the same container".
- Lengths beyond what a machine holds: a container handed to the reader in 64-bit arithmetic has at most isize::MAX bytes, as every Rust slice does, and the writer's own sums (crates/krcm-core/src/format_v5.rs:434-435) are mathematical integers.
- JSON and base64 of the v4 header (crates/krcm-core/src/header_v4.rs): the codec is a parameter. Its inverse hypothesis `Faithful` is used by the round trip only.
- The Python JSON container (krcm/core.py:544-594): same framing as v4, over the entry points modelled here.
- Rust and Python on version-3 containers: Rust accepts header versions 2 to 4 but has only the v4 engine, so agreement is stated for block functions, not for such containers.
- `PublicHeader.ParseOfPack`: one direction only, because the parser looks at nothing in byte 25, only bounds byte 26, and ignores the KDF fields of the other kind; `PublicHeader.ParseAlike` says exactly which headers parse alike.
- Rayon's pool: how many threads it has and how it cuts the work is not modelled. Any task may start or finish at any time.
- `PublicHeader.CeilLog2`: segment sizes above 2^63 get exponent 64, which is what `next_power_of_two` and `trailing_zeros` give in a release build; the panic of a debug build is not modelled.
- `effective_nonce` (crates/krcm-core/src/format_v5.rs:343-356): computed but never used.
- `gcd` and `_xor_bytes` (krcm/core.py:172-175, :289-290): not called by the modelled functions.
- The growth of Rust's `Vec` buffers and their capacities: a vector is a sequence value, and only in-place updates of fixed-size state are arrays.
- Constant-time comparison and zeroisation: comparison is equality.
- Python type errors (`_ensure_bytes`, `_ensure_password`): arguments are byte strings.
- Command line, atomic file writing, prompts, the other PyO3 bindings, benches, fuzz targets, vector generators and re-export stubs: input/output or wrappers.
