/** Compile-time configuration of the sketch: REGISTER_BIT_WIDTH and the
    quantities derived from it. */
module Config {
  import opened Bits

  /** How many high bits of a hash select a register. */
  const RegisterBitWidth: bv8 := 13

  /** Number of registers, 1 << RegisterBitWidth. */
  const RegisterSize: nat := 8192

  /** Hash bits left for the rank once the index bits are shifted out,
      32 - RegisterBitWidth. It is the shift that extracts the index and the
      cap on the leading-zero count. */
  const RankBits: bv8 := 19

  /** The largest rank the capped counter can produce, 33 - RegisterBitWidth. */
  const MaxRank: bv8 := 20

  /** The literal constants agree with their definitions in terms of
      RegisterBitWidth. */
  lemma ConstantsConsistent()
    ensures RegisterSize == Pow2(RegisterBitWidth)
    ensures RankBits == 32 - RegisterBitWidth
    ensures MaxRank == 33 - RegisterBitWidth
  {
    assert Pow2(4) == 16;
    assert Pow2(8) == 256;
    assert Pow2(12) == 4096;
  }
}
