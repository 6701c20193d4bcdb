/** The capped rank counter `_count_leading_zeros`.

    Despite its name it is not a plain count of leading zeros: it starts at
    1 and stops after RankBits steps, so it returns one more than the
    number of leading zero bits of its argument, capped at MaxRank. */
module CappedRank {
  import opened Config

  /** `n` is the number of leading zero bits of `x`: the top `n` bits are
      zero and, unless every bit is zero, the bit just below them is one. */
  predicate IsLeadingZeros(x: bv32, n: bv8) {
    n <= 32 && x >> (32 - n) == 0 && (n == 32 || x >> (31 - n) == 1)
  }

  /** Leading zeros of `x`, counted from position `i` on, when the top `i`
      bits are already known to be zero. */
  function LeadingZerosFrom(x: bv32, i: bv8): (n: bv8)
    requires i <= 32
    requires x >> (32 - i) == 0
    ensures i <= n <= 32
    ensures IsLeadingZeros(x, n)
    decreases 32 - i
  {
    if i == 32 then 32
    else if x >> (31 - i) == 1 then i
    else
      TopBitsZero(x, i);
      LeadingZerosFrom(x, i + 1)
  }

  lemma TopBitsZero(x: bv32, i: bv8)
    requires i < 32
    requires x >> (32 - i) == 0
    requires x >> (31 - i) != 1
    ensures x >> (31 - i) == 0
  {
  }

  /** The number of leading zero bits of a 32-bit word, 32 for zero. */
  function LeadingZeros(x: bv32): (n: bv8)
    ensures IsLeadingZeros(x, n)
    ensures n == 32 <==> x == 0
  {
    LeadingZerosFrom(x, 0)
  }

  /** Zero high bits stay zero when fewer of them are looked at. */
  lemma ShiftFurther(x: bv32, a: bv8, b: bv8)
    requires a <= b <= 32
    requires x >> a == 0
    ensures x >> b == 0
  {
    assert x >> b == (x >> a) >> (b - a);
  }

  /** IsLeadingZeros describes exactly one count per word, the one
      LeadingZeros computes. */
  lemma LeadingZerosUnique(x: bv32, n: bv8)
    ensures IsLeadingZeros(x, n) <==> n == LeadingZeros(x)
  {
    var m := LeadingZeros(x);
    if IsLeadingZeros(x, n) {
      if n <= m {
        CountsAgree(x, n, m);
      } else {
        CountsAgree(x, m, n);
      }
    }
  }

  lemma CountsAgree(x: bv32, n: bv8, m: bv8)
    requires n <= m
    requires IsLeadingZeros(x, n) && IsLeadingZeros(x, m)
    ensures n == m
  {
    if n < m {
      ShiftFurther(x, 32 - m, 31 - n);
    }
  }

  /** The value `_count_leading_zeros(x)` returns: one plus the number of
      leading zeros, where the count stops at RankBits. */
  function Rank(x: bv32): (r: bv8)
    ensures 1 <= r <= MaxRank
    ensures x >= 0x8000_0000 ==> r == 1
    ensures x >> (32 - RankBits) == 0 <==> r == MaxRank
    ensures x == 0 ==> r == MaxRank
  {
    var n := LeadingZeros(x);
    if n < RankBits then
      assert x >= 0x8000_0000 ==> n == 0;
      OneBelowCap(x, n);
      n + 1
    else
      ShiftFurther(x, 32 - n, 13);
      MaxRank
  }

  /** A word with fewer than RankBits leading zeros has a one among its
      top RankBits bits. */
  lemma OneBelowCap(x: bv32, n: bv8)
    requires n < RankBits && IsLeadingZeros(x, n)
    ensures x >> (32 - RankBits) != 0
  {
    if x >> 13 == 0 {
      ShiftFurther(x, 13, 31 - n);
    }
  }

  /** Rank in terms of the leading-zero count: below the cap it is one
      more than the count, and it is MaxRank exactly when the count
      reaches RankBits. */
  lemma RankOfLeadingZeros(x: bv32)
    ensures LeadingZeros(x) < RankBits ==> Rank(x) == LeadingZeros(x) + 1
    ensures LeadingZeros(x) >= RankBits <==> Rank(x) == MaxRank
  {
  }

  /** `_count_leading_zeros`: the loop shifts `x` left until its top bit is
      set, counting from 1, but gives up once the counter passes
      RankBits. The counter is a `uint8_t` and never exceeds MaxRank. */
  method CountLeadingZeros(x: bv32) returns (res: bv8)
    ensures res == Rank(x)
  {
    var y := x;
    res := 1;
    while res <= RankBits && y & 0x8000_0000 == 0
      invariant 1 <= res <= MaxRank
      invariant y == x << (res - 1)
      invariant x >> (33 - res) == 0
      decreases MaxRank - res
    {
      Advance(x, res);
      res := res + 1;
      y := y << 1;
    }
    if res <= RankBits {
      TopBitFound(x, res);
      LeadingZerosUnique(x, res - 1);
    }
  }

  /** One more zero bit is known once the shifted word's top bit is clear. */
  lemma Advance(x: bv32, res: bv8)
    requires 1 <= res <= RankBits
    requires x >> (33 - res) == 0
    requires (x << (res - 1)) & 0x8000_0000 == 0
    ensures x >> (32 - res) == 0
  {
  }

  lemma TopBitFound(x: bv32, res: bv8)
    requires 1 <= res <= RankBits
    requires x >> (33 - res) == 0
    requires (x << (res - 1)) & 0x8000_0000 != 0
    ensures IsLeadingZeros(x, res - 1)
  {
  }
}
