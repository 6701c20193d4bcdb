# UniqCounter — a Dafny model of the HyperLogLog sketch's integer core

`UniqCounter` (main.cpp) is a HyperLogLog distinct-value counter with
8192 one-byte registers. `add(x)` does four things:

1. It hashes the `int` with `hash_32`, which is MurmurHash3_x86_32 of one 4-byte block with seed 0x139.
2. It selects a register with the top 13 bits of the hash.
3. It computes a capped rank from the other 19 bits with `_count_leading_zeros`.
4. It raises the register to that rank.

`get_uniq_num()` turns the registers into an estimate. It uses floating point throughout, except for its small-range branch, which counts the registers that are still zero.

This project models the integer part of the class and proves properties of it.

| module | file | models |
|---|---|---|
| `Config` | Config.dfy | `REGISTER_BIT_WIDTH`, `REGISTER_SIZE` and the quantities derived from them |
| `Bits` | Bits.dfy | the C `int` (`i32`), `uint8_t` (`u8`), the `int` to `uint32_t` conversion, and `reorder_bits` |
| `Murmur3` | Murmur3.dfy | an independent reference MurmurHash3_x86_32 over byte strings of any length, pinned by published test values |
| `Hash` | Hash.dfy | `hash_32`, step by step, and its equality with the reference |
| `CappedRank` | CappedRank.dfy | `_count_leading_zeros`: a reference leading-zero count, the capped rank, and the loop |
| `Sketch` | Sketch.dfy | the register array, `add`, runs of `add`, and the zero count of `get_uniq_num` |

Types:

- `uint32_t` is `bv32`, so `*`, `+` and the shifts wrap modulo 2^32 exactly as in C.
- The rank counter of `_count_leading_zeros` is `bv8`.
- The registers are `u8`, an integer type with range 0..255, so that the register proofs stay in integer arithmetic.

The object is updated in place in C++. Here a counter is an immutable `Counter` value, and `add` returns the new value.

`Sketch` keeps the update rule and the hash apart. Lines 19-21 of `add` are modelled as `Raise`, which acts on an `Update` (a register index and a rank). All the algebra of the register array is proved once at that level:

- a raise never lowers a register;
- raises commute and are idempotent;
- after a run of raises, a register holds the maximum of its start value and the ranks aimed at it;
- the result depends only on the set of updates;
- the effect on the zero count.

`Add`, `AddAll` and the lemmas about values then instantiate those lemmas with the update that `hash_32` produces.

## Model

| member | source | states |
|---|---|---|
| Config.ConstantsConsistent | main.cpp:8-9 | the register count is 2^13, the index shift is 32 - 13 = 19, and the rank cap is 33 - 13 = 20 |
| Bits.ToUnsigned | main.cpp:62 | `uint32_t q = x` keeps x modulo 2^32: the word holds x when x >= 0 and x + 2^32 when x < 0 |
| Bits.SignedRoundTrip | main.cpp:62 | the conversion loses nothing: reading the word back as a two's-complement `int` gives x |
| Bits.ToSigned | main.cpp:62 | every 32-bit word is the conversion of some `int`, so the conversion is a bijection |
| Bits.RotateLeft | main.cpp:57-59 | `reorder_bits(x, r)` rotates x left by r for every 0 < r < 32: the high 32 - r bits of the result are the low 32 - r bits of x, and its low r bits are the high r bits of x |
| Bits.RotationUnique | main.cpp:57-59 | for every 0 < r < 32, y is `reorder_bits(x, r)` exactly when the high 32 - r bits of y are the low bits of x and the low r bits of y are the high bits of x |
| Bits.RotateInverse | main.cpp:57-59 | `reorder_bits` by r followed by a rotation by 32 - r restores the word (r = 13, 15), so no bit is lost |
| Bits.RotateMatchesBuiltin | main.cpp:57-59 | at the two amounts the hash uses, `reorder_bits` is a left rotation |
| Bits.ReorderBitsAt | main.cpp:64-68 | the calls `reorder_bits(q, 15)` and `reorder_bits(res, 13)` are the shift pairs written in the hash model |
| Hash.MixBlockIsScramble | main.cpp:63-65 | the block mix is MurmurHash3's key scramble (multiply by c1, rotate by 15, multiply by c2) |
| Hash.MixStateIsRound | main.cpp:66-69 | xoring the block into the state, rotating by 13, then `* 5 + 0xe6546b64` is one MurmurHash3 body round |
| Hash.WithLengthIsXorLength | main.cpp:70 | `res ^= 4` is MurmurHash3's length xor for a 4-byte input |
| Hash.FinalizeIsFmix | main.cpp:71-75 | the final xor-shift/multiply chain is MurmurHash3's `fmix32` |
| Hash.HashWord | main.cpp:63-76 | `hash_32` of a word equals MurmurHash3_x86_32 of the word's four little-endian bytes with seed 0x139 |
| Hash.Hash32 | main.cpp:61-77 | for every `int`, negative ones included, `hash_32(x)` is MurmurHash3_x86_32 of the four little-endian bytes of its 32-bit pattern with seed 0x139 |
| CappedRank.LeadingZeros | main.cpp:48-55 | the reference leading-zero count: the top n bits are zero, the next bit is one, and n = 32 exactly for zero |
| CappedRank.LeadingZerosUnique | main.cpp:48-55 | that description fits exactly one count per word, the one LeadingZeros returns |
| CappedRank.Rank | main.cpp:48-55 | the rank is in 1..20; it is 1 when the top bit is set; it is 20 exactly when the top 19 bits are all zero, including for the zero word |
| CappedRank.RankOfLeadingZeros | main.cpp:48-55 | below the cap the rank is the leading-zero count plus one, and it is 20 exactly when that count reaches 19 |
| CappedRank.CountLeadingZeros | main.cpp:48-55 | the shifting loop with its `uint8_t` counter returns exactly Rank(x) |
| Sketch.New | main.cpp:46 | a fresh counter has 8192 registers, all zero |
| Sketch.Index | main.cpp:17 | `hash >> 19` selects one of the 8192 registers |
| Sketch.IndexIsTopBits | main.cpp:17 | the index, as a 13-bit word, is the top 13 bits of the hash |
| Sketch.HashSplits | main.cpp:17-18 | the index bits and the fragment `hash << 13` together recover the whole hash |
| Sketch.Fragment | main.cpp:18 | `hash << 13` moves the low 19 bits of the hash to the top and leaves the low 13 bits zero |
| Sketch.RankOf | main.cpp:18 | the rank stored for a hash is in 1..20 |
| Sketch.Raise | main.cpp:19-21 | the named register becomes the larger of its old value and the rank; every other register is unchanged |
| Sketch.RaiseAt | main.cpp:19-21 | one register after a raise: the maximum when it is the named one, otherwise its old value |
| Sketch.RaiseMonotone | main.cpp:19-21 | a raise never lowers a register, and it keeps every register within 0..20 |
| Sketch.RaiseIdempotent | main.cpp:19-21 | repeating a raise changes nothing |
| Sketch.RaiseCommutes | main.cpp:19-21 | two raises commute |
| Sketch.RaiseAll | main.cpp:19-21 | a run of raises, in order, keeps 8192 registers and never lowers any of them |
| Sketch.RaiseAllAtLeast | main.cpp:19-21 | after a run, a register is at least its start value and at least every rank aimed at it |
| Sketch.RaiseAllAttained | main.cpp:19-21 | after a run, a register equals its start value or one of the ranks aimed at it, so it is their maximum |
| Sketch.RaiseAllZero | main.cpp:19-21 | from a fresh counter, a register is still zero exactly when no update of the run names it |
| Sketch.RaiseAllValid | main.cpp:19-21 | a run keeps every register within 0..20 |
| Sketch.RaiseAllBelow | main.cpp:19-21 | a run whose updates all occur in a second run leaves each register no higher than the second run does |
| Sketch.RaiseAllSetDetermined | main.cpp:19-21 | two runs with the same set of updates, in any order and with any repetitions, give the same counter |
| Sketch.UpdateOf | main.cpp:17-18 | the update for a hash names an existing register with a rank in 1..20 |
| Sketch.AddHash | main.cpp:17-21 | the register selected by the hash's top bits becomes the larger of its old value and the rank of the rest; the others are unchanged |
| Sketch.Add | main.cpp:15-22 | `add(x)` does this for `hash_32(x)` |
| Sketch.Updates | main.cpp:15-22 | the updates of a run of `add` calls, one per value, in order, each naming a register with a positive rank of at most 20 |
| Sketch.AddAll | main.cpp:15-22 | a run of `add` calls keeps 8192 registers and never lowers any of them |
| Sketch.AddAllStep | main.cpp:15-22 | a run of `add` calls is `add` applied to each value in turn |
| Sketch.AddIdempotent | main.cpp:15-22 | adding the same value again changes nothing |
| Sketch.AddCommutes | main.cpp:15-22 | the order in which two values are added does not matter |
| Sketch.AddAllRegister | main.cpp:15-22 | after a run of `add` calls, each register is the maximum of its start value and the ranks of the values whose hashes select it |
| Sketch.AddAllZero | main.cpp:15-22 | in a counter that has only seen `add` calls, a register is zero exactly when no added value selects it |
| Sketch.SameUpdates | main.cpp:15-22 | values that all occur in a second run give updates that all occur in that run's updates |
| Sketch.AddAllSetDetermined | main.cpp:15-22 | the counter depends only on the set of values added, not on their order or repetitions |
| Sketch.AddAllStaysInRange | main.cpp:26-28 | registers never exceed 20, so `1 << i` in the estimator's sum shifts an `int` by less than 31 |
| Sketch.ZeroCount | main.cpp:31-36 | the number of zero registers is at most the number of registers, and equals it exactly when every register is zero |
| Sketch.ZeroCountIsPositions | main.cpp:31-36 | the zero count is the number of positions that hold zero |
| Sketch.CountZeros | main.cpp:31-36 | the counting loop returns the zero count, which is at most 8192, so the `uint32_t` counter never wraps |
| Sketch.NewZeroCount | main.cpp:31-36 | on a fresh counter the zero count is 8192 |
| Sketch.ZeroCountUpdate | main.cpp:19-21 | writing one register changes the zero count only through what that register held before and holds after |
| Sketch.ZeroCountAfterRaise | main.cpp:19-21 | a raise by a positive rank lowers the zero count by one exactly when the raised register was zero |
| Sketch.ZeroCountRaiseAll | main.cpp:19-21 | a run of raises by positive ranks never increases the zero count |
| Sketch.ZeroCountAfterAdd | main.cpp:15-22 | each `add` lowers the zero count by one exactly when the selected register was zero, and leaves it unchanged otherwise |
| Sketch.ZeroCountNonIncreasing | main.cpp:15-22 | the zero count never grows under `add` |
| Sketch.ZeroCountUnselected | main.cpp:31-36 | the zero count of a counter that has only seen `add` calls is the number of registers no added value selects |

## Left out

- The floating-point estimator is not modelled (main.cpp lines 25-30 and 37-43). This covers the harmonic sum of `1.0 / (1 << i)`, the bias-corrected raw estimate, the `zeros != 0` linear-counting branch with its logarithm, the large-range correction, and the final truncation to `int`. What is kept is the integer input to the estimator: the registers, their range (which makes the shift at line 27 safe), and the zero count.
- The statistical accuracy of the estimate is not modelled. It is a probabilistic property of the hash over random inputs, not a property of any single run.
- `main` and `relative_error` (main.cpp lines 80-107) and the `#include`s are not modelled. They are the random test driver around the class, not part of it.
- `add` updates its array in place, and `get_uniq_num` is `const`. The model uses values instead. A counter is immutable, so reading the zero count cannot change it.
- Sketch.CountZeros: the `uint32_t zeros` counter is modelled as an unbounded `nat`. The contract bounds it by 8192, so it cannot wrap.
- Hash.Hash32: `hash_32` is a bijection on 32-bit words, because every step is invertible: odd multipliers, right xor-shifts, and rotations. That bijection is not proved. Inverting the multiply/xor-shift chain is beyond what the solver handles within its resource bound. Only the equality with the reference hash is stated.
- Bits.RotateInverse: stated for the two amounts `reorder_bits` is called with (13 and 15), not for every 0 < r < 32. For a symbolic r the proof needs 32 - (32 - r) = r inside shift amounts, which the solver does not settle within its resource bound.
- Bits.RotateMatchesBuiltin: stated for the two amounts `reorder_bits` is called with (13 and 15), not for every 0 < r < 32. Comparing with the built-in rotation for a symbolic amount is beyond the solver's resource bound. RotateLeft's own contract describes the rotation for every amount.
