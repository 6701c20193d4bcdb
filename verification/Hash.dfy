/** The 32-bit bit-mixing hash `hash_32`.

    It is MurmurHash3 (x86, 32-bit) of one 4-byte block with seed 0x139:
    a block mix, a state mix with the length xor, and the avalanche
    finalizer. All `*` and `+` are on `bv32`, so they wrap modulo 2^32
    exactly as `uint32_t` does, and the function is total: every `int`,
    negative ones included, has a hash determined by its 32-bit pattern.

    The constants are written as literals, as in the source, and the two
    `reorder_bits` calls are written out as their shift pairs, which
    Bits.ReorderBitsAt shows to be RotateLeft by 15 and by 13. */
module Hash {
  import opened Bits
  import Murmur3

  /** The block mix, `q *= 0xcc9e2d51; q = reorder_bits(q, 15);
      q *= 0x1b873593`. */
  function MixBlock(q: bv32): bv32 {
    var a := q * 0xcc9e2d51;
    ((a << 15) | (a >> 17)) * 0x1b873593
  }

  /** `res = reorder_bits(res, 13); res = res * 5 + 0xe6546b64`. */
  function RotateMulAdd(a: bv32): bv32 {
    ((a << 13) | (a >> 19)) * 5 + 0xe6546b64
  }

  /** The state `res` starts from, `0x00000139`. */
  const InitialState: bv32 := 0x139

  /** The state mix from state `res`: `res ^= q`, then RotateMulAdd. */
  function MixState(res: bv32, k: bv32): bv32 {
    RotateMulAdd(res ^ k)
  }

  /** The avalanche finalizer: xor-shift 16, multiply, xor-shift 13,
      multiply, xor-shift 16. */
  function Finalize(h: bv32): bv32 {
    var a := h ^ (h >> 16);
    var b := a * 0x85ebca6b;
    var c := b ^ (b >> 13);
    var d := c * 0xc2b2ae35;
    d ^ (d >> 16)
  }

  /** `res ^= 4`: the length in bytes of the single block. */
  function WithLength(res: bv32): bv32 {
    res ^ 4
  }

  /** The block mix is MurmurHash3's key scramble. */
  lemma MixBlockIsScramble(q: bv32)
    ensures MixBlock(q) == Murmur3.ScrambleKey(q)
  {
  }

  /** The state mix is one MurmurHash3 round. */
  lemma MixStateIsRound(res: bv32, k: bv32)
    ensures MixState(res, k) == Murmur3.MixRound(res, k)
  {
    RotateMulAddIsStir(res ^ k);
  }

  lemma RotateMulAddIsStir(a: bv32)
    ensures RotateMulAdd(a) == Murmur3.StirState(a)
  {
  }

  /** The finalizer is MurmurHash3's `fmix32`. */
  lemma FinalizeIsFmix(h: bv32)
    ensures Finalize(h) == Murmur3.Fmix32(h)
  {
  }

  /** The length xor is MurmurHash3's for a 4-byte input. */
  lemma WithLengthIsXorLength(res: bv32)
    ensures WithLength(res) == Murmur3.XorLength(res, 4)
  {
    assert Murmur3.LengthWord(4) == 4;
  }

  /** Finalization after the length xor agrees on states known to be
      equal. The two states are separate parameters so that a caller can
      pass the state in the hash's own terms and in the reference's terms;
      the solver then matches each side without first rewriting one into
      the other. */
  lemma FinalizeAfterLength(a: bv32, b: bv32)
    requires a == b
    ensures Finalize(WithLength(a)) == Murmur3.Fmix32(Murmur3.XorLength(b, 4))
  {
    WithLengthIsXorLength(a);
    FinalizeIsFmix(WithLength(a));
  }

  /** `hash_32` on the 32-bit pattern of its input: MurmurHash3_x86_32 of
      the word's four little-endian bytes with seed 0x139. */
  function HashWord(q: bv32): (h: bv32)
    ensures h == Murmur3.Hash(Murmur3.LittleEndian(q), InitialState)
  {
    Murmur3.HashOfWord(q, InitialState);
    MixBlockIsScramble(q);
    MixStateIsRound(InitialState, MixBlock(q));
    FinalizeAfterLength(MixState(InitialState, MixBlock(q)), Murmur3.MixRound(InitialState, Murmur3.ScrambleKey(q)));
    Finalize(WithLength(MixState(InitialState, MixBlock(q))))
  }

  /** `hash_32(x)`: the input enters as its 32-bit pattern `uint32_t q = x`,
      so every `int`, negative ones included, hashes as the four
      little-endian bytes of that pattern. */
  function Hash32(x: i32): (h: bv32)
    ensures h == Murmur3.Hash(Murmur3.LittleEndian(ToUnsigned(x)), InitialState)
  {
    HashWord(ToUnsigned(x))
  }
}
