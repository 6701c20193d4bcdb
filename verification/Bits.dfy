/** Fixed-width machine words: the signed `int` the sketch accepts, its
    conversion to an unsigned 32-bit word, and the rotation helper
    `reorder_bits`.

    `uint32_t` is `bv32` and `uint8_t` is `bv8`. The unsigned value a word
    holds is computed bit by bit (`ValueOf`), and a number is turned into a
    word bit by bit (`WordOf`), so that the conversion between the signed
    `int` and the word is stated and proved without relying on the solver's
    built-in integer/bit-vector casts. */
module Bits {

  /** A C `int`: 32-bit two's complement. */
  newtype i32 = x: int | -0x8000_0000 <= x < 0x8000_0000

  /** A C `uint8_t` as a number. Registers hold these; keeping them as
      integers rather than `bv8` keeps the register-array proofs in
      integer arithmetic. */
  newtype u8 = x: int | 0 <= x < 0x100

  const Two32: nat := 0x1_0000_0000

  function Pow2(n: bv8): (p: nat)
    ensures p >= 1
  {
    if n == 0 then 1 else 2 * Pow2(n - 1)
  }

  lemma Pow2Of32()
    ensures Pow2(32) == Two32
  {
    assert Pow2(8) == 0x100;
    assert Pow2(16) == 0x1_0000;
    assert Pow2(24) == 0x100_0000;
  }

  /** The number held by the low `k` bits of `u`, least significant bit first. */
  function ValueOf(u: bv32, k: bv8): (v: nat)
    requires k <= 32
    ensures v < Pow2(k)
  {
    if k == 0 then 0 else (if u & 1 == 1 then 1 else 0) + 2 * ValueOf(u >> 1, k - 1)
  }

  /** The word whose low `k` bits are the low `k` binary digits of `n` and
      whose other bits are zero. */
  function WordOf(n: nat, k: bv8): (w: bv32)
    requires k <= 32
    ensures w >> k == 0
  {
    if k == 0 then 0 else (WordOf(n / 2, k - 1) << 1) | (if n % 2 == 1 then 1 else 0)
  }

  /** The number a `uint32_t` holds. */
  function Unsigned(u: bv32): (v: nat)
    ensures v < Two32
  {
    Pow2Of32();
    ValueOf(u, 32)
  }

  /** `uint32_t q = x;`: the conversion keeps `x` modulo 2^32, so a negative
      `int` becomes `x + 2^32` and keeps its bit pattern. */
  function ToUnsigned(x: i32): (u: bv32)
    ensures Unsigned(u) == (x as int) % Two32
    ensures x >= 0 ==> Unsigned(u) == x as int
    ensures x < 0 ==> Unsigned(u) == x as int + Two32
  {
    var n: nat := if x < 0 then x as int + Two32 else x as int;
    WrapIsMod(x, n);
    ValueOfWordOf(n, 32);
    Pow2Of32();
    WordOf(n, 32)
  }

  lemma WrapIsMod(x: i32, n: nat)
    requires n == if x < 0 then x as int + Two32 else x as int
    ensures n % Two32 == n == (x as int) % Two32
  {
    if x < 0 {
      ModUnique(x as int, Two32, -1, n);
    } else {
      ModUnique(x as int, Two32, 0, n);
    }
    ModUnique(n, Two32, 0, n);
  }

  /** The two's complement reading of a word as a signed `int`. */
  function ToSigned(u: bv32): (x: i32)
    ensures ToUnsigned(x) == u
  {
    var v := Unsigned(u);
    var x: i32 := if v < 0x8000_0000 then v as i32 else (v - Two32) as i32;
    ToSignedInverse(u, x);
    x
  }

  /** Reinterpreting a signed value as unsigned loses nothing: the two
      conversions are mutually inverse. */
  lemma SignedRoundTrip(x: i32)
    ensures ToSigned(ToUnsigned(x)) == x
  {
  }

  lemma ToSignedInverse(u: bv32, x: i32)
    requires Unsigned(u) == (x as int) % Two32
    ensures ToUnsigned(x) == u
  {
    var n: nat := if x < 0 then x as int + Two32 else x as int;
    WrapIsMod(x, n);
    assert ValueOf(u, 32) == n;
    WordOfValueOf(u, 32);
    assert ToUnsigned(x) == WordOf(n, 32);
  }

  /** Reading back a word built from `n` gives `n` modulo 2^k. */
  lemma {:induction false} ValueOfWordOf(n: nat, k: bv8)
    requires k <= 32
    ensures ValueOf(WordOf(n, k), k) == n % Pow2(k)
  {
    if k > 0 {
      var w := WordOf(n / 2, k - 1);
      var b: bv32 := if n % 2 == 1 then 1 else 0;
      ShiftBack(w, b, k);
      ValueOfWordOf(n / 2, k - 1);
      ModStep(n, k);
    }
  }

  /** Building a word from the value of a word with at most `k` significant
      bits gives the word back. */
  lemma {:induction false} WordOfValueOf(u: bv32, k: bv8)
    requires k <= 32
    requires u >> k == 0
    ensures WordOf(ValueOf(u, k), k) == u
  {
    if k > 0 {
      ShiftSplit(u, k);
      WordOfValueOf(u >> 1, k - 1);
      WordOfValueOfStep(u, k);
    }
  }

  lemma WordOfValueOfStep(u: bv32, k: bv8)
    requires 1 <= k <= 32
    requires WordOf(ValueOf(u >> 1, k - 1), k - 1) == u >> 1
    ensures WordOf(ValueOf(u, k), k) == u
  {
    WordOfStep(u, ValueOf(u >> 1, k - 1), k);
    Reassemble(u);
  }

  lemma WordOfStep(u: bv32, v: nat, k: bv8)
    requires 1 <= k <= 32
    ensures WordOf((if u & 1 == 1 then 1 else 0) + 2 * v, k) == (WordOf(v, k - 1) << 1) | (u & 1)
  {
    var b: nat := if u & 1 == 1 then 1 else 0;
    assert (b + 2 * v) / 2 == v && (b + 2 * v) % 2 == b;
  }

  lemma ShiftBack(w: bv32, b: bv32, k: bv8)
    requires 1 <= k <= 32 && w >> (k - 1) == 0 && b <= 1
    ensures ((w << 1) | b) >> 1 == w
    ensures ((w << 1) | b) & 1 == b
  {
  }

  lemma ShiftSplit(u: bv32, k: bv8)
    requires 1 <= k <= 32 && u >> k == 0
    ensures (u >> 1) >> (k - 1) == 0
  {
  }

  lemma Reassemble(u: bv32)
    ensures ((u >> 1) << 1) | (u & 1) == u
  {
  }

  lemma ModStep(n: nat, k: bv8)
    requires 1 <= k
    ensures n % Pow2(k) == n % 2 + 2 * ((n / 2) % Pow2(k - 1))
  {
    var p := Pow2(k - 1);
    var q := n / 2;
    assert n == 2 * q + n % 2;
    assert q == (q / p) * p + q % p;
    assert n == (q / p) * (2 * p) + (n % 2 + 2 * (q % p));
    ModUnique(n, 2 * p, q / p, n % 2 + 2 * (q % p));
  }

  lemma ModUnique(n: int, d: int, q: int, r: int)
    requires d > 0 && 0 <= r < d && n == q * d + r
    ensures n % d == r
  {
    var q0, r0 := n / d, n % d;
    assert (q0 - q) * d == r - r0;
    if q0 > q { MulAtLeast(q0 - q, d); }
    if q0 < q { MulAtLeast(q - q0, d); }
  }

  lemma MulAtLeast(a: int, d: int)
    requires a >= 1 && d > 0
    ensures a * d >= d
  {
  }

  /** The expression `reorder_bits` evaluates, `(x << r) | (x >> (32 - r))`.
      Both shifts are only defined in C for 0 < r < 32. */
  function ShiftPair(x: bv32, r: bv32): bv32
    requires 0 < r < 32
  {
    (x << r) | (x >> (32 - r))
  }

  /** `reorder_bits(x, r)`: the shift pair, which rotates `x` left by `r`. */
  function RotateLeft(x: bv32, r: bv32): (y: bv32)
    requires 0 < r < 32
    ensures IsRotation(x, r, y)
  {
    ShiftPairIsRotation(x, r);
    ShiftPair(x, r)
  }

  /** `y` is `x` rotated left by `r`: the high 32 - r bits of `y` are the
      low 32 - r bits of `x`, and the low r bits of `y` are the high r bits
      of `x`. */
  predicate IsRotation(x: bv32, r: bv32, y: bv32)
    requires 0 < r < 32
  {
    && y >> r == (x << r) >> r
    && y << (32 - r) == (x >> (32 - r)) << (32 - r)
  }

  lemma ShiftPairIsRotation(x: bv32, r: bv32)
    requires 0 < r < 32
    ensures IsRotation(x, r, ShiftPair(x, r))
  {
    ShiftPairHigh(x, r);
    ShiftPairLow(x, r);
  }

  lemma ShiftPairHigh(x: bv32, r: bv32)
    requires 0 < r < 32
    ensures ShiftPair(x, r) >> r == (x << r) >> r
  {
  }

  lemma ShiftPairLow(x: bv32, r: bv32)
    requires 0 < r < 32
    ensures ShiftPair(x, r) << (32 - r) == (x >> (32 - r)) << (32 - r)
  {
  }

  /** A word is fixed by its high 32 - r bits together with its low r bits. */
  lemma WordDetermined(y: bv32, z: bv32, r: bv32)
    requires 0 < r < 32
    requires y >> r == z >> r
    requires y << (32 - r) == z << (32 - r)
    ensures y == z
  {
  }

  lemma RotationsAgree(x: bv32, r: bv32, y: bv32, z: bv32)
    requires 0 < r < 32
    requires IsRotation(x, r, y) && IsRotation(x, r, z)
    ensures y == z
  {
    WordDetermined(y, z, r);
  }

  /** IsRotation pins down a single word, so it is a complete description
      of RotateLeft. */
  lemma RotationUnique(x: bv32, r: bv32, y: bv32)
    requires 0 < r < 32
    ensures IsRotation(x, r, y) <==> y == RotateLeft(x, r)
  {
    var z := RotateLeft(x, r);
    if IsRotation(x, r, y) {
      RotationsAgree(x, r, y, z);
    }
  }

  /** Rotating by r and then by 32 - r restores the word. */
  lemma RotateInverse(x: bv32, r: bv32)
    requires r == 13 || r == 15
    ensures RotateLeft(RotateLeft(x, r), 32 - r) == x
  {
  }

  /** At the two amounts the hash uses, RotateLeft agrees with Dafny's
      built-in bit-vector rotation. */
  lemma RotateMatchesBuiltin(x: bv32)
    ensures RotateLeft(x, 15) == x.RotateLeft(15)
    ensures RotateLeft(x, 13) == x.RotateLeft(13)
  {
  }

  /** The two calls `reorder_bits(q, 15)` and `reorder_bits(res, 13)` as
      the shift pairs they evaluate to. */
  lemma ReorderBitsAt(x: bv32)
    ensures RotateLeft(x, 15) == (x << 15) | (x >> 17)
    ensures RotateLeft(x, 13) == (x << 13) | (x >> 19)
  {
  }
}
