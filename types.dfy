/** src/types.rs and the foreign primitives the core calls: the backend's
    group, its byte encodings, SHA-512 and the KZG opening check, none of
    which is modelled beyond its signature. */
module Types {
  import opened Results
  import opened Arith
  import opened Schnorr

  type Byte = x: int | 0 <= x < 256

  /** `Fr::to_bytes()`, `G1::to_bytes()` and one SHA-512 compression block. */
  type Bytes32 = s: seq<Byte> | |s| == 32 witness seq(32, _ => 0)
  type Bytes48 = s: seq<Byte> | |s| == 48 witness seq(48, _ => 0)
  type Block = s: seq<Byte> | |s| == 128 witness seq(128, _ => 0)

  /** `HashOutput = [u64; 8]`, the SHA-512 chaining state; also `Prelude`. */
  type HashOutput = s: seq<U64> | |s| == 8 witness [0, 0, 0, 0, 0, 0, 0, 0]

  /** `HashOutput::default()` and `[0u64; 8]`. */
  const ZERO_STATE: HashOutput := [0, 0, 0, 0, 0, 0, 0, 0]

  /** The backend primitives, all foreign to the repository:
      - `group`: G1 with its generator, `add` and `mul`, scalars modulo the field order;
      - `frToBytes`, `g1ToBytes`: the `to_bytes` encodings;
      - `compress512`: one application of the SHA-512 compression function;
      - `sha512Words`: `Sha512::digest` followed by the `bytemuck` cast to eight words;
      - `checkProofSingle(commitment, opening, x, y)`: the KZG opening check;
      - `rootsOfUnity`: `FFTSettings::get_roots_of_unity()`. */
  datatype Backend<!G> = Backend(
    group: Group<G>,
    frToBytes: int -> Bytes32,
    g1ToBytes: G -> Bytes48,
    compress512: (HashOutput, Block) -> HashOutput,
    sha512Words: seq<Byte> -> HashOutput,
    checkProofSingle: (G, G, int, int) -> Result<bool, string>,
    rootsOfUnity: seq<int>)

  /** What the BLS12-381 backend guarantees: G1 obeys the group laws, its
      scalar field is wider than 64 bits (so `Fr::from_u64` is injective) and
      the FFT settings hold at least one root of unity. */
  ghost predicate Valid<G>(b: Backend<G>)
  {
    Laws(b.group) && b.group.order > U64_LIMIT && |b.rootsOfUnity| > 0
  }
}
