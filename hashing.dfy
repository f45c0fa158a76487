/** src/hashing.rs: the prelude, the Fischlin index derivation, the partial
    proof-of-work hash and the trailing-zero difficulty test. SHA-512 itself
    (`compress512`, `Sha512::digest`) is a primitive of the backend. */
module Hashing {
  import opened Arith
  import opened Types
  import opened Schnorr

  function Pow256(len: nat): (p: nat)
    ensures p >= 1
  {
    if len == 0 then 1 else 256 * Pow256(len - 1)
  }

  /** `to_le_bytes()`: the `len` low-order bytes of `n`, least significant first. */
  function LittleEndian(n: nat, len: nat): (b: seq<Byte>)
    ensures |b| == len
  {
    if len == 0 then [] else [n % 256] + LittleEndian(n / 256, len - 1)
  }

  /** `from_le_bytes`, the inverse encoding. */
  function FromLittleEndian(b: seq<Byte>): nat
  {
    if |b| == 0 then 0 else b[0] + 256 * FromLittleEndian(b[1..])
  }

  lemma {:induction false} LittleEndianRoundTrip(n: nat, len: nat)
    requires n < Pow256(len)
    ensures FromLittleEndian(LittleEndian(n, len)) == n
  {
    if len > 0 {
      assert n / 256 < Pow256(len - 1);
      LittleEndianRoundTrip(n / 256, len - 1);
      assert LittleEndian(n, len)[1..] == LittleEndian(n / 256, len - 1);
    }
  }

  /** `buf[offset..offset + src.len()].clone_from_slice(src)` as a value. */
  function Splice(buf: seq<Byte>, offset: nat, src: seq<Byte>): (r: seq<Byte>)
    requires offset + |src| <= |buf|
    ensures |r| == |buf|
    ensures forall j :: offset <= j < offset + |src| ==> r[j] == src[j - offset]
    ensures forall j :: 0 <= j < |buf| && !(offset <= j < offset + |src|) ==> r[j] == buf[j]
  {
    buf[..offset] + src + buf[offset + |src|..]
  }

  /** `clone_from_slice` into a local buffer. */
  method CloneFromSlice(buf: array<Byte>, offset: nat, src: seq<Byte>)
    requires offset + |src| <= buf.Length
    modifies buf
    ensures buf[..] == Splice(old(buf[..]), offset, src)
  {
    for j := 0 to |src|
      invariant forall t :: 0 <= t < buf.Length ==>
                  buf[t] == if offset <= t < offset + j then src[t - offset] else old(buf[t])
    {
      buf[offset + j] := src[j];
    }
  }

  /** The block `derive_indices` compresses: `i` little-endian, the challenge, zeros. */
  function DeriveBlock(i: U64, challenge: Bytes32): Block
  {
    LittleEndian(i, 8) + challenge + seq(88, _ => 0)
  }

  /** Bytes 0..8 hold `i`, bytes 8..40 the challenge and bytes 40..128 are zero. */
  lemma DeriveBlockLayout(i: U64, challenge: Bytes32)
    ensures var b := DeriveBlock(i, challenge);
            && b[0..8] == LittleEndian(i, 8)
            && b[8..40] == challenge
            && forall j :: 40 <= j < 128 ==> b[j] == 0
  {
  }

  /** The compressed state `derive_indices` reduces. */
  function DeriveState<G>(b: Backend<G>, i: U64, c: int): HashOutput
  {
    b.compress512(ZERO_STATE, DeriveBlock(i, b.frToBytes(c)))
  }

  /** The indices `derive_indices` returns, as a value. */
  function DerivedIndices<G>(b: Backend<G>, i: U64, c: int, numIndices: nat, dataLen: nat): (r: seq<nat>)
    requires numIndices <= 8 && dataLen > 0
    ensures |r| == numIndices
    ensures forall k :: 0 <= k < numIndices ==> r[k] < dataLen
  {
    var state := DeriveState(b, i, c);
    seq(numIndices, k requires 0 <= k < numIndices => state[k] % dataLen)
  }

  /** `derive_indices(i, c, num_indices, data_len)`. The `assert!` on
      `num_indices` and the division by `data_len` panic outside the
      precondition. */
  method DeriveIndices<G>(b: Backend<G>, i: U64, c: int, numIndices: nat, dataLen: nat)
    returns (indices: seq<nat>)
    requires numIndices <= 8 && dataLen > 0
    ensures |indices| == numIndices
    ensures forall k :: 0 <= k < numIndices ==>
              indices[k] == DeriveState(b, i, c)[k] % dataLen && indices[k] < dataLen
    ensures indices == DerivedIndices(b, i, c, numIndices, dataLen)
  {
    var input := new Byte[128](_ => 0);
    CloneFromSlice(input, 0, LittleEndian(i, 8));
    CloneFromSlice(input, 8, b.frToBytes(c));
    DeriveBlockLayout(i, b.frToBytes(c));
    assert input[..] == DeriveBlock(i, b.frToBytes(c));
    var state := b.compress512(ZERO_STATE, input[..]);
    indices := seq(numIndices, k requires 0 <= k < numIndices => state[k] % dataLen);
  }

  /** The block `individual_hash` compresses: opening, challenge, response,
      value, position, zeros. */
  function HashBlock(opening: Bytes48, c: Bytes32, z: Bytes32, val: U64, k: Byte): Block
  {
    opening + c + z + LittleEndian(val, 8) + [k] + seq(7, _ => 0)
  }

  /** The opening sits in bytes 0..48, the challenge in 48..80, the response in
      80..112, the value little-endian in 112..120, the position k in byte 120
      and zeros in 121..128. */
  lemma HashBlockLayout(opening: Bytes48, c: Bytes32, z: Bytes32, val: U64, k: Byte)
    ensures var b := HashBlock(opening, c, z, val, k);
            && b[0..48] == opening
            && b[48..80] == c
            && b[80..112] == z
            && b[112..120] == LittleEndian(val, 8)
            && b[120] == k
            && forall j :: 121 <= j < 128 ==> b[j] == 0
  {
  }

  /** The value of `individual_hash(prelude, schnorr, k, val, opening)`. */
  function IndividualHashOf<G>(b: Backend<G>, prelude: HashOutput, s: Schnorr<G>, k: Byte, val: U64, opening: G): HashOutput
  {
    b.compress512(prelude, HashBlock(b.g1ToBytes(opening), b.frToBytes(s.c), b.frToBytes(s.z), val, k))
  }

  /** `individual_hash`: fill a zeroed 128-byte buffer at fixed offsets and
      compress it starting from the prelude. */
  method IndividualHash<G>(b: Backend<G>, prelude: HashOutput, s: Schnorr<G>, k: Byte, val: U64, opening: G)
    returns (state: HashOutput)
    ensures state == IndividualHashOf(b, prelude, s, k, val, opening)
  {
    var input := new Byte[128](_ => 0);
    CloneFromSlice(input, 0, b.g1ToBytes(opening));
    CloneFromSlice(input, 48, b.frToBytes(s.c));
    CloneFromSlice(input, 80, b.frToBytes(s.z));
    CloneFromSlice(input, 112, LittleEndian(val, 8));
    input[120] := k;
    HashBlockLayout(b.g1ToBytes(opening), b.frToBytes(s.c), b.frToBytes(s.z), val, k);
    assert input[..] == HashBlock(b.g1ToBytes(opening), b.frToBytes(s.c), b.frToBytes(s.z), val, k);
    state := b.compress512(prelude, input[..]);
  }

  /** `u64::trailing_zeros` on the low `width` bits of n; all-zero bits give `width`. */
  function TrailingZeros(n: nat, width: nat): (tz: nat)
    ensures tz <= width
  {
    if width == 0 then 0 else if n % 2 == 1 then 0 else 1 + TrailingZeros(n / 2, width - 1)
  }

  lemma EvenMod(h: int, p: int)
    requires p > 0
    ensures (2 * h) % (2 * p) == 2 * (h % p)
  {
    ModUnique(2 * h, 2 * p, h / p, 2 * (h % p));
  }

  lemma OddModPow(n: int, p: int)
    requires p > 0 && n % 2 == 1
    ensures n % (2 * p) != 0
  {
    if n % (2 * p) == 0 {
      var t := n / (2 * p);
      ModUnique(n, 2, t * p, 0);
    }
  }

  /** At least d trailing zero bits exactly when n is a multiple of 2^d. */
  lemma {:induction false} TrailingZerosAtLeast(n: nat, width: nat, d: nat)
    requires d <= width
    ensures TrailingZeros(n, width) >= d <==> n % Pow2(d) == 0
  {
    if d > 0 {
      if n % 2 == 1 {
        OddModPow(n, Pow2(d - 1));
      } else {
        TrailingZerosAtLeast(n / 2, width - 1, d - 1);
        EvenMod(n / 2, Pow2(d - 1));
        assert n == 2 * (n / 2);
      }
    }
  }

  /** `pow_pass`: the first word has at least `difficulty` trailing zero bits.
      The `assert!` panics for a difficulty above 64. */
  function PowPass(h: HashOutput, difficulty: nat): (pass: bool)
    requires difficulty <= 64
    ensures pass <==> h[0] % Pow2(difficulty) == 0
  {
    TrailingZerosAtLeast(h[0], 64, difficulty);
    TrailingZeros(h[0], 64) >= difficulty
  }

  /** Only the first word is looked at. */
  lemma PowPassReadsFirstWord(h1: HashOutput, h2: HashOutput, difficulty: nat)
    requires difficulty <= 64 && h1[0] == h2[0]
    ensures PowPass(h1, difficulty) == PowPass(h2, difficulty)
  {
  }

  /** Passing a difficulty passes every smaller one. */
  lemma PowPassMonotone(h: HashOutput, d: nat, d': nat)
    requires d' <= d <= 64 && PowPass(h, d)
    ensures PowPass(h, d')
  {
  }

  /** The unit test `test_pow_pass`. */
  lemma PowPassExamples()
    ensures PowPass(ZERO_STATE, 1) && PowPass(ZERO_STATE, 64)
    ensures var h := ZERO_STATE[0 := 256]; PowPass(h, 8) && !PowPass(h, 9)
  {
    var h := ZERO_STATE[0 := 256];
    assert Pow2(8) == 256 && Pow2(9) == 512;
  }

  /** `a_i.flat_map(|x| x.to_bytes()).collect()`. */
  function Flatten48(xs: seq<Bytes48>): (r: seq<Byte>)
    ensures |r| == 48 * |xs|
  {
    if |xs| == 0 then [] else xs[0] + Flatten48(xs[1..])
  }

  /** Encoding i occupies bytes 48·i .. 48·i + 48 of the flattened sequence. */
  lemma {:induction false} Flatten48Slices(xs: seq<Bytes48>, i: nat)
    requires i < |xs|
    ensures Flatten48(xs)[48 * i .. 48 * i + 48] == xs[i]
  {
    if i > 0 {
      Flatten48Slices(xs[1..], i - 1);
      var rest := Flatten48(xs[1..]);
      assert Flatten48(xs)[48 * i .. 48 * i + 48] == rest[48 * (i - 1) .. 48 * (i - 1) + 48];
    }
  }

  /** `prelude(a_i)`: SHA-512 of the concatenated encodings, in order, as eight words. */
  function Prelude<G>(b: Backend<G>, a: seq<G>): HashOutput
  {
    b.sha512Words(Flatten48(seq(|a|, i requires 0 <= i < |a| => b.g1ToBytes(a[i]))))
  }
}
