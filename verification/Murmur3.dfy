/** MurmurHash3 x86_32 (Austin Appleby's reference algorithm) over byte
    strings of any length, written independently of `hash_32`: blocks are
    read little-endian, full blocks are mixed into the state, the one to
    three trailing bytes are folded in, the byte length is xored in, and
    the state goes through the `fmix32` finalizer.

    It serves as the reference definition that `hash_32` is checked
    against: `hash_32(x)` is this hash of the four bytes of `x` with seed
    0x139. The test-value lemmas pin the definition to the published
    algorithm. */
module Murmur3 {
  /** The 4-byte block at the front of `data`, least significant byte
      first. */
  function Block(data: seq<bv8>): bv32
    requires |data| >= 4
  {
    (data[0] as bv32) | ((data[1] as bv32) << 8) | ((data[2] as bv32) << 16) | ((data[3] as bv32) << 24)
  }

  /** The four bytes of a word, least significant first. */
  function LittleEndian(u: bv32): (b: seq<bv8>)
    ensures |b| == 4
  {
    [(u & 0xff) as bv8, ((u >> 8) & 0xff) as bv8, ((u >> 16) & 0xff) as bv8, (u >> 24) as bv8]
  }

  /** Reading back the bytes of a word gives the word. */
  lemma BlockOfLittleEndian(u: bv32)
    ensures Block(LittleEndian(u)) == u
  {
  }

  /** The per-block key scramble: multiply by c1, rotate left by 15
      (`ROTL32`, a shift pair), multiply by c2. */
  function ScrambleKey(k: bv32): bv32 {
    var k1 := k * 0xcc9e2d51;
    ((k1 << 15) | (k1 >> 17)) * 0x1b873593
  }

  /** The state update after the xor: rotate left by 13, multiply by 5
      and add 0xe6546b64. */
  function StirState(h1: bv32): bv32 {
    ((h1 << 13) | (h1 >> 19)) * 5 + 0xe6546b64
  }

  /** Mixing one already scrambled block into the state. */
  function MixRound(h: bv32, k1: bv32): bv32 {
    StirState(h ^ k1)
  }

  /** The state after every full block of `data`; the bytes after the last
      full block are left for Tail. */
  function Body(data: seq<bv8>, h: bv32): bv32
    decreases |data|
  {
    if |data| < 4 then h else Body(data[4..], MixRound(h, ScrambleKey(Block(data))))
  }

  /** The trailing one to three bytes, scrambled and xored into the state
      without a rotation or a multiply. */
  function Tail(rest: seq<bv8>, h: bv32): bv32
    requires |rest| < 4
  {
    if |rest| == 0 then h
    else
      var k := (if |rest| >= 3 then (rest[2] as bv32) << 16 else 0)
             ^ (if |rest| >= 2 then (rest[1] as bv32) << 8 else 0)
             ^ (rest[0] as bv32);
      h ^ ScrambleKey(k)
  }

  /** The avalanche finalizer `fmix32`. */
  function Fmix32(h: bv32): bv32 {
    var h1 := h ^ (h >> 16);
    var h2 := h1 * 0x85ebca6b;
    var h3 := h2 ^ (h2 >> 13);
    var h4 := h3 * 0xc2b2ae35;
    h4 ^ (h4 >> 16)
  }

  /** A byte count as a 32-bit word: counting up from zero in `uint32_t`,
      so it is the count modulo 2^32. */
  function LengthWord(n: nat): bv32 {
    if n == 0 then 0 else LengthWord(n - 1) + 1
  }

  /** The xor of the byte length into the state. */
  function XorLength(h: bv32, n: nat): bv32 {
    h ^ LengthWord(n)
  }

  /** The state just before finalization: every block and the tail mixed
      in, then the length xored in. */
  function Absorb(data: seq<bv8>, seed: bv32): bv32 {
    var full := |data| / 4 * 4;
    XorLength(Tail(data[full..], Body(data[..full], seed)), |data|)
  }

  /** MurmurHash3_x86_32(data, seed). */
  function Hash(data: seq<bv8>, seed: bv32): bv32 {
    Fmix32(Absorb(data, seed))
  }

  /** Known MurmurHash3_x86_32 values: the empty string under three seeds,
      four zero bytes, "aaaa" and "abc". */
  lemma TestValuesEmpty()
    ensures Hash([], 0) == 0
    ensures Hash([], 1) == 0x514e28b7
    ensures Hash([], 0xffffffff) == 0x81f16f39
  {
  }

  lemma TestValueZeros()
    ensures Hash([0, 0, 0, 0], 0) == 0x2362f9de
  {
    var d: seq<bv8> := [0, 0, 0, 0];
    OneBlock(d, 0);
    assert Block(d) == 0;
    assert ScrambleKey(0) == 0;
    assert MixRound(0, 0) == 0xe6546b64;
    assert Absorb(d, 0) == 0xe6546b60;
  }

  lemma TestValueBlock()
    ensures Hash([0x61, 0x61, 0x61, 0x61], 0x9747b28c) == 0x5a97808a
  {
    var d: seq<bv8> := [0x61, 0x61, 0x61, 0x61];
    OneBlock(d, 0x9747b28c);
    assert Block(d) == 0x61616161;
    assert ScrambleKey(0x61616161) == 0xf6d8f77f;
    assert MixRound(0x9747b28c, 0xf6d8f77f) == 0x720c8863;
    assert Absorb(d, 0x9747b28c) == 0x720c8867;
  }

  lemma TestValueTail()
    ensures Hash([0x61, 0x62, 0x63], 0) == 0xb3dd93fa
  {
    var d: seq<bv8> := [0x61, 0x62, 0x63];
    assert d[..0] == [] && d[0..] == d;
    assert LengthWord(3) == 3;
    assert Tail(d, 0) == ScrambleKey(0x636261);
    assert ScrambleKey(0x636261) == 0xa7349db7;
    assert Absorb(d, 0) == 0xa7349db4;
  }

  /** Absorbing exactly one block: one round, no tail, length 4. */
  lemma OneBlock(d: seq<bv8>, seed: bv32)
    requires |d| == 4
    ensures Absorb(d, seed) == XorLength(MixRound(seed, ScrambleKey(Block(d))), 4)
  {
    assert |d| / 4 * 4 == 4;
    assert d[..4] == d && d[4..] == [];
    var h := MixRound(seed, ScrambleKey(Block(d)));
    assert Body(d, seed) == Body([], h) == h;
  }

  /** The hash of the four bytes of a word. */
  lemma HashOfWord(q: bv32, seed: bv32)
    ensures Hash(LittleEndian(q), seed) == Fmix32(XorLength(MixRound(seed, ScrambleKey(q)), 4))
  {
    BlockOfLittleEndian(q);
    OneBlock(LittleEndian(q), seed);
  }
}
