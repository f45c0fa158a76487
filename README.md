# beholders: a Dafny model of the Fischlin proof-of-work prover and verifier

beholders proves storage of a data file non-interactively. The file is
committed with KZG; a prover holding the Schnorr secret key `sk` produces a
`Proof`: a list of base proofs, one per Fischlin iteration. Each base proof is
a Schnorr transcript (a, c, z) whose challenge c is *mined*: c = 0, 1, … is
tried until the XOR of eight partial SHA-512 compressions passes a
trailing-zero proof-of-work test. The challenge also selects, through
`derive_indices`, which eight data chunks and KZG openings the base proof
carries, so a prover that does not hold the data cannot mine. The verifier
re-derives the indices, checks the Schnorr equation, the eight KZG openings and
the proof of work. A small Python script parses the benchmark logs of the
prover into a table sorted by file size.

The model has one module per source file:

- `Results` (`results.dfy`): `Option` and `Result` with Rust's `?` as Dafny's `:-`.
- `Arith` (`arith.dfy`): `u64` words, powers of two, XOR of naturals.
- `Util` (`util.dfy`): `src/util.rs`: `bitxor`, `check!`, the short-circuit chain `check!`/`?` build.
- `Schnorr` (`schnorr.dfy`): `src/schnorr.rs` over an abstract group of order q.
- `Types` (`types.dfy`): `src/types.rs` and the backend primitives (`Backend`).
- `Hashing` (`hashing.dfy`): `src/hashing.rs`: block layouts, `derive_indices`, `individual_hash`, `pow_pass`, `prelude`.
- `Commitment` (`commitment.dfy`): `src/commitment.rs`: `get_point`.
- `Proof` (`proof.dfy`): `src/proof.rs`: `BaseProof::prove`/`verify`, `Proof::prove`/`verify`.
- `ParseBenchmarks` (`parse_benchmarks.dfy`): `benches/parse_benchmarks.py`.

The foreign primitives are function-valued fields of `Types.Backend`:
`compress512`, the `to_bytes` encodings, SHA-512 with the `bytemuck` cast,
`check_proof_single` and the roots of unity. `Types.Valid` states what the
BLS12-381 backend guarantees: the group laws, a scalar field wider than 64
bits, and at least one root of unity.

The imperative code keeps its form:
- `derive_indices` and `individual_hash` fill a 128-byte `array` with `clone_from_slice`. Each is proved equal to the compression of a block whose layout is a lemma.
- `BaseProof::prove` is a `for c in 0..MAXC` loop. It is proved equal to `Mine`, the least passing challenge.
- `BaseProof::verify` and `Proof::verify` are loops with early returns. A `check!` is `:- Check(e)` and a `?` is `:-`. They are proved equal to functions whose acceptance conditions are lemmas.
- `Proof::prove` is a loop whose invariant is the `Option` collect.

Panics (`assert!`, division by zero, `usize` underflow, out-of-bounds
indexing) are preconditions.

## Model

| member | source | states |
|---|---|---|
| `Util.BitXor` | src/util.rs:4-13 | the result has the inputs' length N and position j holds `x[j] ^ y[j]` |
| `Util.CollectNeverFails` | src/util.rs:8-12 | collecting the zipped, XORed pairs of two N-arrays yields exactly N items, so the `Err` arm is unreachable |
| `Util.BitXorExample` | src/util.rs:29-34 | `bitxor([1,2,3], [4,5,6]) == [5,7,5]` |
| `Util.BitXorZeroLeft` | src/util.rs:8 | XOR with the all-zero array seeding the accumulator is the identity |
| `Util.BitXorCommutes` | src/util.rs:8 | `bitxor` is commutative |
| `Util.BitXorAssociates` | src/util.rs:8 | `bitxor` is associative |
| `Util.BitXorSelfCancels` | src/util.rs:8 | an array XORed with itself is all zero |
| `Arith.XorIsBitwise` | src/util.rs:8 | every binary digit of `a ^ b` is set exactly when the digits of a and b differ |
| `Arith.Xor64` | src/util.rs:8 | `^` on two `u64` words stays a `u64` and is the bitwise XOR |
| `Util.Guarded` | src/util.rs:16-22 | after `check!(e)`, a false e returns `Ok(false)` at once and a true e lets the rest of the body decide |
| `Util.CheckTrueFallsThrough` | src/util.rs:38-41 | `check!(true); Err(())` returns the error: the check has no effect |
| `Util.CheckFalseReturnsEarly` | src/util.rs:43-49 | `check!(false); Err(())` returns `Ok(false)` |
| `Util.AllOkAccepts` | src/proof.rs:41-48 | a chain of `check!(r?)` steps yields `Ok(true)` exactly when every step is `Ok(true)`, and an empty chain yields `Ok(true)` |
| `Util.FirstFailureWins` | src/proof.rs:41-48 | after a run of passing steps, the first failing step decides the outcome |
| `Util.AllOkFailureIsFirst` | src/proof.rs:41-48 | every outcome other than `Ok(true)` is the result of the first step that does not pass |
| `Hashing.PowPass` | src/hashing.rs:77-81 | `pow_pass(h, d)` holds iff `h[0] % 2^d == 0`; a difficulty above 64 is excluded as by the `assert!` |
| `Hashing.TrailingZerosAtLeast` | src/hashing.rs:80 | a word has at least d trailing zero bits iff it is a multiple of 2^d |
| `Hashing.PowPassReadsFirstWord` | src/hashing.rs:80 | two hashes with the same first word pass or fail alike |
| `Hashing.PowPassMonotone` | src/hashing.rs:80 | passing difficulty d implies passing every d' <= d |
| `Hashing.PowPassExamples` | src/hashing.rs:110-118 | all zero passes d = 1 and d = 64; a first word of 256 passes d = 8 and fails d = 9 |
| `Hashing.CloneFromSlice` | src/hashing.rs:29-30 | `clone_from_slice` at an offset overwrites exactly the target range with the source and keeps every other byte |
| `Hashing.LittleEndianRoundTrip` | src/hashing.rs:29 | the `to_le_bytes` encoding of a value below 256^len decodes back to it |
| `Hashing.DeriveBlockLayout` | src/hashing.rs:27-33 | the block of `derive_indices` holds LE(i) in bytes 0..8, the challenge in 8..40 and zeros in 40..128 |
| `Hashing.DeriveIndices` | src/hashing.rs:21-44 | for num_indices <= 8 and data_len > 0, exactly num_indices indices, index k being word k of the compressed state modulo data_len, all below data_len |
| `Hashing.DerivedIndices` | src/hashing.rs:90-99 | the derived indices number num_indices and are all below data_len |
| `Hashing.HashBlockLayout` | src/hashing.rs:60-74 | the block of `individual_hash` holds the opening in 0..48, c in 48..80, z in 80..112, LE(val) in 112..120, k in byte 120 and zeros in 121..128 |
| `Hashing.IndividualHash` | src/hashing.rs:53-75 | the in-place buffer fill equals the block of the layout lemma, compressed starting from the prelude |
| `Hashing.Flatten48Slices` | src/hashing.rs:13-19 | in the prelude's input, bytes 48·i..48·i+48 are the encoding of the i-th commitment, in order |
| `Schnorr.Prove` | src/schnorr.rs:22-27 | prove returns a = g·r, keeps the challenge c, and sets z = (r + c·sk) mod q |
| `Schnorr.Completeness` | src/schnorr.rs:17-27 | for pk = g·sk, the transcript of prove(sk, r, c) verifies for all sk, r, c |
| `Schnorr.TestVector` | src/schnorr.rs:35-45 | the instance r = 1337, sk = 42, c = 2137 verifies |
| `Schnorr.TamperedResponseFails` | src/schnorr.rs:17-20 | in a group of prime order q > 1, changing the response of an honest transcript makes verify fail |
| `Commitment.Stride` | src/commitment.rs:20 | the stride is the floor of (roots.len() − 1) / data_len |
| `Commitment.StrideInBounds` | src/commitment.rs:20-21 | for i < data_len, i·stride <= roots.len() − 1, so the indexing is in bounds |
| `Commitment.GetPoint` | src/commitment.rs:14-22 | for a chunk index below data_len, the point is a root of unity, the one at position i·stride, which is in bounds; chunk 0 gets `roots[0]`; data_len > 0 and non-empty roots are required as the division and the subtraction demand |
| `Commitment.DistinctChunksDistinctPositions` | src/commitment.rs:20-21 | when there are more roots than chunks, distinct chunks get distinct roots positions |
| `Commitment.DistinctChunksDistinctPoints` | src/commitment.rs:14-22 | with more roots than chunks and pairwise distinct roots, distinct chunks below data_len get distinct evaluation points |
| `Proof.XorAllAppend` | src/proof.rs:98-113 | accumulating a concatenation XORs the two accumulations |
| `Proof.XorAllPermutation` | src/proof.rs:98-113 | the accumulated hash does not depend on the order of the partial hashes |
| `Proof.AccumulateHash` | src/proof.rs:139-144 | the inner loop of prove, starting from zero, XORs the eight partial hashes of positions k = 0..7 |
| `Proof.FirstWhereIsLeast` | src/proof.rs:129 | the search over c in [from, MAXC) returns the least passing c, and nothing iff none passes |
| `Proof.BaseProve` | src/proof.rs:121-156 | the mining loop returns exactly the candidate of the first challenge below MAXC whose hash passes, and `None` after MAXC failures |
| `Proof.MineIsLeastPassing` | src/proof.rs:129-155 | a mined base proof carries the least passing c below 65535 and is that challenge's candidate; the result is `None` iff no c below 65535 passes |
| `Proof.MinedSelection` | src/proof.rs:134-150 | a mined base proof has `data[k] = data[idx[k]]`, `openings[k] = openings[idx[k]]` for the indices derived from its own c, and a = g·r |
| `Proof.BaseVerify` | src/proof.rs:81-119 | the verification loop, with its early returns, yields the outcome of the check chain: Schnorr, then the eight openings in order, then the proof of work |
| `Proof.BaseVerifyAccepts` | src/proof.rs:92-118 | base verification yields `Ok(true)` iff the Schnorr check, all eight opening checks and the proof of work at `BYTE_DIFFICULTY` pass; a failed Schnorr check gives `Ok(false)`; an `Err` is the first failing opening check's own error |
| `Proof.CommitmentsOf` | src/proof.rs:28-32 | the prelude input is the base proofs' commitments a, one per base proof, in order |
| `Proof.Verify` | src/proof.rs:34-49 | the verification loop computes the prelude once and yields the short-circuit chain of the base proofs' outcomes, base proof i checked with index i |
| `Proof.VerifyAccepts` | src/proof.rs:41-48 | `Proof::verify` yields `Ok(true)` iff every base proof verifies with its own index; an empty proof is accepted |
| `Proof.CollectFirstSpec` | src/proof.rs:64-75 | the `Option` collect of n values succeeds iff every value is `Some`, and then holds value i at position i |
| `Proof.MineFirstCollects` | src/proof.rs:64-76 | collecting the first n mining iterations succeeds iff each of them mines, and then holds iteration i's base proof at position i |
| `Proof.Prove` | src/proof.rs:51-77 | `Proof::prove` returns a proof iff mining succeeds for every iteration; its base proofs are then the mined ones, in iteration order, all against one prelude |
| `Proof.MinedBaseProofVerifies` | src/proof.rs:81-156 | a mined base proof checked under pk = g·sk passes the Schnorr and proof-of-work checks, so its outcome is that of its opening checks |
| `Proof.ProvedPreludeAgrees` | src/proof.rs:28-62 | the verifier's prelude, recomputed from the base proofs' commitments, equals the prelude the prover mined against |
| `Proof.ProvedProofVerifies` | src/proof.rs:34-77 | what `Proof::prove` returns is accepted by `Proof::verify` under pk = g·sk whenever its KZG openings check out |
| `ParseBenchmarks.MatchTimeAtSpec` | benches/parse_benchmarks.py:34 | the match of `(\d+\.?\d*)s` starting at p ends at q iff the characters p..q are digits with at most one dot, the first is a digit and the one at q is `s` |
| `ParseBenchmarks.FirstTimeMatchSpec` | benches/parse_benchmarks.py:34 | `re.search` returns the match with the leftmost start, and nothing iff there is no match |
| `ParseBenchmarks.ParseTimeSpec` | benches/parse_benchmarks.py:30-37 | `parse_time` is `None` iff there is no token, and otherwise the decimal value of the leftmost token |
| `ParseBenchmarks.ParseTimeExample` | benches/parse_benchmarks.py:32 | `'7.212863475s'` parses to exactly 7.212863475 |
| `ParseBenchmarks.ParseTimeSkipsPrefix` | benches/parse_benchmarks.py:34 | the search is not anchored: `'t=12.s'` parses to 12 |
| `ParseBenchmarks.ParseTimeRejectsMilliseconds` | benches/parse_benchmarks.py:34 | `'812.3ms'` holds no token |
| `ParseBenchmarks.ParseFileSize` | benches/parse_benchmarks.py:17-27 | `None` iff `parse_size` raises, otherwise the floor of the byte count divided by 1024 |
| `ParseBenchmarks.CaptureAtSpec` | benches/parse_benchmarks.py:51 | after the label, `\s*(.+)` matches iff some non-empty run of non-newline characters follows the whitespace; the greedy `\s*` backtracks to leave one character for the group, and the group runs to the end of its line |
| `ParseBenchmarks.MatchAtSpec` | benches/parse_benchmarks.py:59 | a match attempt at position p succeeds iff the label occurs at p followed by a field match, and the match found has the longest `\s*` |
| `ParseBenchmarks.SearchSpec` | benches/parse_benchmarks.py:67 | `re.search` for `Label:\s*(.+)` returns the leftmost match, with the longest `\s*` at that position, and nothing iff there is no match |
| `ParseBenchmarks.SearchFieldCrossesNewline` | benches/parse_benchmarks.py:75 | the whitespace after the label may cross a newline: `'File size:\n 8 MiB'` captures `'8 MiB'` |
| `ParseBenchmarks.ParseBenchmarkFileSpec` | benches/parse_benchmarks.py:40-88 | a record is returned iff all four fields parse to truthy values; it holds the size, the initialisation and FK20 times, and mining = proving − FK20 |
| `ParseBenchmarks.MissingFieldRejected` | benches/parse_benchmarks.py:50-80 | a file in which one of the four labels has no match yields no record |
| `ParseBenchmarks.SmallFileRejected` | benches/parse_benchmarks.py:55 | a size below 1 KiB floors to 0 KiB, which is falsy, so the file is rejected |
| `ParseBenchmarks.ZeroTimeRejected` | benches/parse_benchmarks.py:58-80 | a time of zero seconds is falsy, so the file is rejected |
| `ParseBenchmarks.KeptSpec` | benches/parse_benchmarks.py:115-121 | the kept values are exactly the successful parses, and none is kept iff every parse fails |
| `ParseBenchmarks.ParsedMembers` | benches/parse_benchmarks.py:115-121 | a record is kept iff some file parses to it |
| `ParseBenchmarks.ParsedEmpty` | benches/parse_benchmarks.py:115-125 | nothing is kept iff no file parses |
| `ParseBenchmarks.InsertContents` | benches/parse_benchmarks.py:131 | inserting adds the record and keeps every record already there |
| `ParseBenchmarks.InsertSorted` | benches/parse_benchmarks.py:131 | inserting into a sequence sorted by size keeps it sorted |
| `ParseBenchmarks.SortBySizeSpec` | benches/parse_benchmarks.py:131 | the sort orders the records by ascending `file_size_kib` and is a permutation |
| `ParseBenchmarks.Summarize` | benches/parse_benchmarks.py:103-131 | `main` returns `None` iff no file parses (also when there are no files); otherwise the parsed records, sorted by ascending size, each as often as it was parsed |

## Left out

- SHA-512 (`compress512`, `Sha512::digest` and the `bytemuck` cast), the KZG opening check, the FFT settings' roots of unity, the G1 operations and the `to_bytes` encodings are foreign code. They are fields of `Types.Backend`, constrained only by `Types.Valid`.
- `Fr::rand`: the random r_i of `Proof::prove` are an input `rs`.
- `Proof.Prove`: as written, `Proof::prove` builds an empty openings vector (src/proof.rs:54, marked TODO), and indexing it would panic. The model takes the openings as an input.
- `derive_indices` is called with three arguments in src/proof.rs:95 and src/proof.rs:134, but defined with four in src/hashing.rs:21-26. The model uses the four-argument form, with `data.len()` in `prove` and `data_len` in `verify`.
- `Proof.Prove`: the number of iterations NFISCH is `|rs|`, while base-proof arrays have length `M` = 8. In the source both are the one const generic NFISCH, and the `try_into().unwrap()` of the eight selected chunks (src/proof.rs:149-150) panics unless NFISCH is 8.
- Panics are preconditions. This covers the `assert!` in `derive_indices` and `pow_pass`, the division and subtraction in `get_point`, and indexing `data` and `openings` by the derived indices (non-empty data, an opening per chunk).
- The `u64`→`usize` `try_into().unwrap()` and the `usize`→`u8` position conversion are identities: `usize` is 64 bits wide on the target and positions are below 8.
- `Util.BitXor`: the source is generic in the element type T, and the model fixes T to `u64`, the only instance the core uses.
- `src/setup.rs`, `src/kgen.rs`, `src/prover.rs`, `src/main.rs`, `src/verifier.rs` and `benches/proving.rs` are command-line front ends and harnesses and are not part of this model. `src/lib.rs` holds module declarations only.
- `ParseBenchmarks.Summarize`: models `main` from the parsing loop to the sort (benches/parse_benchmarks.py:115-131). It receives the contents of the `.txt` files as a sequence of strings. Before that loop, `main` checks that `res/` exists and returns `None` if not (lines 99-101); that check is outside the model's input. It then globs the `.txt` files and returns `None` when there are none (lines 104-108); the empty glob is the empty input, for which `Summarize` also returns `None`. The file reading and the listing printed at lines 110-112 are I/O. After the sort, `main` sets `file_size_kib` as the index, renames the columns, prints the table and writes the LaTeX file (lines 134-148). `Summarize` returns the sorted records, not that re-indexed, renamed frame.
- `ParseBenchmarks.IsDigit`: `\d` is modelled as the ASCII digits. Python's `\d` also accepts other Unicode decimal digits.
- Python floats are modelled as exact `real` numbers. Rounding in `float()` and in the subtraction proving − FK20 is not modelled.
- `humanfriendly.parse_size` is a parameter `parseSize`, with `None` where it raises.
- `ParseBenchmarks.SortBySizeSpec`: pandas' default sort is not stable. The model's insertion sort is one admissible order, and the contracts state only what every admissible order satisfies: sorted by size, and a permutation.
- The test `parsed_data['file_size_kib'] is not None` (benches/parse_benchmarks.py:118) holds for every record `parse_benchmark_file` returns, so it adds no branch.
