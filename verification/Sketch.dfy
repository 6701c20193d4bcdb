/** The register array of `UniqCounter` and the integer parts of its two
    public operations: `add`, which raises one register, and the count of
    zero registers that `get_uniq_num` takes before its floating-point
    estimate.

    The C++ object owns a fixed array of RegisterSize `uint8_t` registers
    and updates it in place; here a counter is an immutable value and an
    update returns the new value. */
module Sketch {
  import opened Bits
  import opened Config
  import opened CappedRank
  import opened Hash

  /** The state of a counter: one `uint8_t` per register. */
  datatype Counter = Counter(registers: seq<u8>)

  /** The array has its fixed length and no register exceeds the largest
      rank the counter can produce. */
  ghost predicate Valid(c: Counter) {
    && |c.registers| == RegisterSize
    && forall j :: 0 <= j < |c.registers| ==> c.registers[j] <= MaxRegister
  }

  /** MaxRank as a register value. */
  const MaxRegister: u8 := MaxRank as u8

  /** A freshly constructed counter: `register_[REGISTER_SIZE]{}` is all
      zeros. */
  function New(): (c: Counter)
    ensures Valid(c)
    ensures forall j :: 0 <= j < |c.registers| ==> c.registers[j] == 0
  {
    Counter(seq(RegisterSize, _ => 0))
  }

  function Max(a: u8, b: u8): u8 {
    if a < b then b else a
  }

  /** The register a hash selects, `hash >> (32 - REGISTER_BIT_WIDTH)`: the
      number held by the top RegisterBitWidth bits. */
  function Index(h: bv32): (i: nat)
    ensures i < RegisterSize
  {
    ConstantsConsistent();
    ValueOf(h >> RankBits, RegisterBitWidth)
  }

  /** The bits left once the index is shifted out,
      `hash << REGISTER_BIT_WIDTH`: the low RankBits bits of the hash move
      to the top, and the bits below them are zero. */
  function Fragment(h: bv32): (f: bv32)
    ensures f >> RegisterBitWidth == h & 0x7_ffff
    ensures f & 0x1fff == 0
  {
    h << RegisterBitWidth
  }

  /** The rank `add` computes for a hash, stored into a `uint8_t`
      register. */
  function RankOf(h: bv32): (r: u8)
    ensures 1 <= r <= MaxRegister
  {
    Rank(Fragment(h)) as u8
  }

  /** Index is exactly the top RegisterBitWidth bits of the hash, read as a
      number. */
  lemma IndexIsTopBits(h: bv32)
    ensures WordOf(Index(h), RegisterBitWidth) == h >> RankBits
  {
    WordOfValueOf(h >> RankBits, RegisterBitWidth);
  }

  /** The index and the fragment together hold the whole hash, so `add`
      splits the hash without losing a bit. */
  lemma HashSplits(h: bv32)
    ensures h == (WordOf(Index(h), RegisterBitWidth) << RankBits) | (Fragment(h) >> RegisterBitWidth)
  {
    IndexIsTopBits(h);
  }

  /** One register update, lines 19-21 of `add`: the register to raise
      and the rank to raise it to. */
  datatype Update = Update(index: nat, rank: u8)

  /** Every update of the run names an existing register. */
  ghost predicate Targets(us: seq<Update>) {
    forall k :: 0 <= k < |us| ==> us[k].index < RegisterSize
  }

  /** Raise the named register to the rank when the rank is larger;
      every other register is left alone. */
  function Raise(c: Counter, u: Update): (d: Counter)
    requires |c.registers| == RegisterSize && u.index < RegisterSize
    ensures |d.registers| == RegisterSize
    ensures d.registers[u.index] == Max(c.registers[u.index], u.rank)
    ensures forall j :: 0 <= j < RegisterSize && j != u.index ==> d.registers[j] == c.registers[j]
  {
    if u.rank > c.registers[u.index] then Counter(c.registers[u.index := u.rank]) else c
  }

  /** A raise never lowers a register, and it keeps a valid counter valid
      when its rank is in range. */
  lemma RaiseMonotone(c: Counter, u: Update)
    requires |c.registers| == RegisterSize && u.index < RegisterSize
    ensures forall j :: 0 <= j < RegisterSize ==> c.registers[j] <= Raise(c, u).registers[j]
    ensures Valid(c) && u.rank <= MaxRegister ==> Valid(Raise(c, u))
  {
  }

  /** The same raise twice changes nothing the second time. */
  lemma RaiseIdempotent(c: Counter, u: Update)
    requires |c.registers| == RegisterSize && u.index < RegisterSize
    ensures Raise(Raise(c, u), u) == Raise(c, u)
  {
    var d := Raise(c, u);
    assert Raise(d, u).registers == d.registers;
  }

  /** The order of two raises does not matter. */
  lemma RaiseCommutes(c: Counter, u: Update, v: Update)
    requires |c.registers| == RegisterSize && u.index < RegisterSize && v.index < RegisterSize
    ensures Raise(Raise(c, u), v) == Raise(Raise(c, v), u)
  {
    var a := Raise(Raise(c, u), v).registers;
    var b := Raise(Raise(c, v), u).registers;
    forall j | 0 <= j < RegisterSize
      ensures a[j] == b[j]
    {
      RaiseAt(c, u, j);
      RaiseAt(c, v, j);
      RaiseAt(Raise(c, u), v, j);
      RaiseAt(Raise(c, v), u, j);
    }
  }

  /** One register after a raise. */
  lemma RaiseAt(c: Counter, u: Update, j: nat)
    requires |c.registers| == RegisterSize && u.index < RegisterSize && j < RegisterSize
    ensures Raise(c, u).registers[j] == if j == u.index then Max(c.registers[j], u.rank) else c.registers[j]
  {
  }

  /** A run of raises, in order. */
  function RaiseAll(c: Counter, us: seq<Update>): (d: Counter)
    requires |c.registers| == RegisterSize && Targets(us)
    ensures |d.registers| == RegisterSize
    ensures forall j :: 0 <= j < RegisterSize ==> c.registers[j] <= d.registers[j]
  {
    if |us| == 0 then c else Raise(RaiseAll(c, us[..|us| - 1]), us[|us| - 1])
  }

  /** After a run of raises a register is at least its start value and at
      least the rank of every update that names it. */
  lemma {:induction false} RaiseAllAtLeast(c: Counter, us: seq<Update>, j: nat)
    requires |c.registers| == RegisterSize && Targets(us) && j < RegisterSize
    ensures c.registers[j] <= RaiseAll(c, us).registers[j]
    ensures forall k :: 0 <= k < |us| && us[k].index == j ==> us[k].rank <= RaiseAll(c, us).registers[j]
  {
    if |us| > 0 {
      var front := us[..|us| - 1];
      RaiseAllAtLeast(c, front, j);
      forall k | 0 <= k < |us| && us[k].index == j
        ensures us[k].rank <= RaiseAll(c, us).registers[j]
      {
        if k < |front| {
          assert us[k] == front[k];
        }
      }
    }
  }

  /** ... and it equals one of them: the start value or the rank of an
      update that names it. With RaiseAllAtLeast, it is their maximum. */
  lemma {:induction false} RaiseAllAttained(c: Counter, us: seq<Update>, j: nat)
    requires |c.registers| == RegisterSize && Targets(us) && j < RegisterSize
    ensures || RaiseAll(c, us).registers[j] == c.registers[j]
            || exists k :: 0 <= k < |us| && us[k].index == j && RaiseAll(c, us).registers[j] == us[k].rank
  {
    if |us| > 0 {
      var front := us[..|us| - 1];
      var u := us[|us| - 1];
      RaiseAllAttained(c, front, j);
      var before := RaiseAll(c, front).registers[j];
      var after := RaiseAll(c, us).registers[j];
      if after != before {
        assert u.index == j && after == u.rank;
      } else if after != c.registers[j] {
        var k :| 0 <= k < |front| && front[k].index == j && before == front[k].rank;
        assert us[k] == front[k];
      }
    }
  }

  /** From a fresh counter, a register is still zero exactly when no
      update of the run names it, since every rank is positive. */
  lemma RaiseAllZero(us: seq<Update>, j: nat)
    requires Targets(us) && j < RegisterSize
    requires forall k :: 0 <= k < |us| ==> us[k].rank >= 1
    ensures RaiseAll(New(), us).registers[j] == 0 <==> forall k :: 0 <= k < |us| ==> us[k].index != j
  {
    RaiseAllAtLeast(New(), us, j);
    RaiseAllAttained(New(), us, j);
  }

  /** A run keeps a valid counter valid when every rank is in range. */
  lemma {:induction false} RaiseAllValid(c: Counter, us: seq<Update>)
    requires Valid(c) && Targets(us)
    requires forall k :: 0 <= k < |us| ==> us[k].rank <= MaxRegister
    ensures Valid(RaiseAll(c, us))
  {
    forall j | 0 <= j < RegisterSize
      ensures RaiseAll(c, us).registers[j] <= MaxRegister
    {
      RaiseAllAttained(c, us, j);
    }
  }

  lemma RaiseAllBelow(c: Counter, us: seq<Update>, vs: seq<Update>, j: nat)
    requires |c.registers| == RegisterSize && Targets(us) && Targets(vs) && j < RegisterSize
    requires forall u :: u in us ==> u in vs
    ensures RaiseAll(c, us).registers[j] <= RaiseAll(c, vs).registers[j]
  {
    RaiseAllAttained(c, us, j);
    RaiseAllAtLeast(c, vs, j);
    if RaiseAll(c, us).registers[j] != c.registers[j] {
      var k :| 0 <= k < |us| && us[k].index == j && RaiseAll(c, us).registers[j] == us[k].rank;
      assert us[k] in vs;
      var m :| 0 <= m < |vs| && vs[m] == us[k];
    }
  }

  /** The final registers depend only on which updates occurred, not on
      their order or on repetitions. */
  lemma RaiseAllSetDetermined(c: Counter, us: seq<Update>, vs: seq<Update>)
    requires |c.registers| == RegisterSize && Targets(us) && Targets(vs)
    requires forall u :: u in us <==> u in vs
    ensures RaiseAll(c, us) == RaiseAll(c, vs)
  {
    var a := RaiseAll(c, us).registers;
    var b := RaiseAll(c, vs).registers;
    forall j | 0 <= j < RegisterSize
      ensures a[j] == b[j]
    {
      RaiseAllBelow(c, us, vs, j);
      RaiseAllBelow(c, vs, us, j);
    }
  }

  /** The update `add` makes for a hash. */
  function UpdateOf(h: bv32): (u: Update)
    ensures u.index < RegisterSize
    ensures 1 <= u.rank <= MaxRegister
  {
    Update(Index(h), RankOf(h))
  }

  /** Lines 17-21 of `add` for an already computed hash: the selected
      register is raised to the rank when the rank is larger. */
  function AddHash(c: Counter, h: bv32): (d: Counter)
    requires |c.registers| == RegisterSize
    ensures |d.registers| == RegisterSize
    ensures d.registers[Index(h)] == Max(c.registers[Index(h)], RankOf(h))
    ensures forall j :: 0 <= j < RegisterSize && j != Index(h) ==> d.registers[j] == c.registers[j]
  {
    Raise(c, UpdateOf(h))
  }

  /** `add(x)`: hash the value, then update the register it selects. */
  function Add(c: Counter, x: i32): (d: Counter)
    requires |c.registers| == RegisterSize
    ensures |d.registers| == RegisterSize
    ensures d.registers[Index(Hash32(x))] == Max(c.registers[Index(Hash32(x))], RankOf(Hash32(x)))
    ensures forall j :: 0 <= j < RegisterSize && j != Index(Hash32(x)) ==> d.registers[j] == c.registers[j]
  {
    AddHash(c, Hash32(x))
  }

  /** The updates a sequence of values makes, in order. */
  function Updates(xs: seq<i32>): (us: seq<Update>)
    ensures |us| == |xs|
    ensures forall k :: 0 <= k < |xs| ==> us[k] == UpdateOf(Hash32(xs[k]))
    ensures Targets(us)
    ensures forall k :: 0 <= k < |us| ==> 1 <= us[k].rank <= MaxRegister
  {
    seq(|xs|, k requires 0 <= k < |xs| => UpdateOf(Hash32(xs[k])))
  }

  /** A sequence of `add` calls, in order. */
  function AddAll(c: Counter, xs: seq<i32>): (d: Counter)
    requires |c.registers| == RegisterSize
    ensures |d.registers| == RegisterSize
    ensures forall j :: 0 <= j < RegisterSize ==> c.registers[j] <= d.registers[j]
  {
    RaiseAll(c, Updates(xs))
  }

  /** AddAll is `add` applied to each value in turn. */
  lemma AddAllStep(c: Counter, xs: seq<i32>, x: i32)
    requires |c.registers| == RegisterSize
    ensures AddAll(c, xs + [x]) == Add(AddAll(c, xs), x)
  {
    assert Updates(xs + [x])[..|xs|] == Updates(xs);
  }

  /** Adding the same value twice changes nothing the second time. */
  lemma AddIdempotent(c: Counter, x: i32)
    requires |c.registers| == RegisterSize
    ensures Add(Add(c, x), x) == Add(c, x)
  {
    RaiseIdempotent(c, UpdateOf(Hash32(x)));
  }

  /** The order in which two values are added does not matter. */
  lemma AddCommutes(c: Counter, x: i32, y: i32)
    requires |c.registers| == RegisterSize
    ensures Add(Add(c, x), y) == Add(Add(c, y), x)
  {
    RaiseCommutes(c, UpdateOf(Hash32(x)), UpdateOf(Hash32(y)));
  }

  /** After a run of `add` calls a register is the largest of its start
      value and the ranks of the values whose hashes select it. */
  lemma AddAllRegister(c: Counter, xs: seq<i32>, j: nat)
    requires |c.registers| == RegisterSize && j < RegisterSize
    ensures c.registers[j] <= AddAll(c, xs).registers[j]
    ensures forall k :: 0 <= k < |xs| && Index(Hash32(xs[k])) == j ==> RankOf(Hash32(xs[k])) <= AddAll(c, xs).registers[j]
    ensures || AddAll(c, xs).registers[j] == c.registers[j]
            || exists k :: 0 <= k < |xs| && Index(Hash32(xs[k])) == j && AddAll(c, xs).registers[j] == RankOf(Hash32(xs[k]))
  {
    var us := Updates(xs);
    RaiseAllAtLeast(c, us, j);
    RaiseAllAttained(c, us, j);
  }

  /** No added value's hash selects register `j`. */
  ghost predicate Unselected(xs: seq<i32>, j: nat) {
    forall k :: 0 <= k < |xs| ==> Index(Hash32(xs[k])) != j
  }

  /** In a counter that has only seen `add` calls, a register is zero
      exactly when no added value selects it. */
  lemma AddAllZero(xs: seq<i32>, j: nat)
    requires j < RegisterSize
    ensures AddAll(New(), xs).registers[j] == 0 <==> Unselected(xs, j)
  {
    RaiseAllZero(Updates(xs), j);
  }

  /** The counter after a run of `add` calls depends only on the set of
      values added: reordering or repeating them changes nothing. */
  lemma AddAllSetDetermined(c: Counter, xs: seq<i32>, ys: seq<i32>)
    requires |c.registers| == RegisterSize
    requires forall v :: v in xs <==> v in ys
    ensures AddAll(c, xs) == AddAll(c, ys)
  {
    var us, vs := Updates(xs), Updates(ys);
    SameUpdates(xs, ys);
    SameUpdates(ys, xs);
    RaiseAllSetDetermined(c, us, vs);
  }

  lemma SameUpdates(xs: seq<i32>, ys: seq<i32>)
    requires forall v :: v in xs ==> v in ys
    ensures forall u :: u in Updates(xs) ==> u in Updates(ys)
  {
    var us, vs := Updates(xs), Updates(ys);
    forall u | u in us ensures u in vs {
      var k :| 0 <= k < |us| && us[k] == u;
      assert xs[k] in ys;
      var m :| 0 <= m < |ys| && ys[m] == xs[k];
      assert vs[m] == u;
    }
  }

  /** Registers are always within 0 .. MaxRank, so `1 << register` in the
      estimator's sum (main.cpp line 27) shifts an `int` by less than 31. */
  lemma AddAllStaysInRange(xs: seq<i32>)
    ensures Valid(AddAll(New(), xs))
    ensures forall j :: 0 <= j < RegisterSize ==> AddAll(New(), xs).registers[j] < 31
  {
    RaiseAllValid(New(), Updates(xs));
  }

  /** The number of zero registers. */
  function ZeroCount(regs: seq<u8>): (n: nat)
    ensures n <= |regs|
    ensures n == |regs| <==> forall j :: 0 <= j < |regs| ==> regs[j] == 0
  {
    if |regs| == 0 then 0
    else
      var front := regs[..|regs| - 1];
      assert forall j :: 0 <= j < |front| ==> front[j] == regs[j];
      ZeroCount(front) + (if regs[|regs| - 1] == 0 then 1 else 0)
  }

  /** The positions of the zero registers. */
  function ZeroPositions(regs: seq<u8>): set<nat> {
    set j: nat | j < |regs| && regs[j] == 0
  }

  /** ZeroCount is the number of positions that hold zero. */
  lemma {:induction false} ZeroCountIsPositions(regs: seq<u8>)
    ensures ZeroCount(regs) == |ZeroPositions(regs)|
  {
    if |regs| > 0 {
      var n := |regs|;
      var front := regs[..n - 1];
      ZeroCountIsPositions(front);
      if regs[n - 1] == 0 {
        assert ZeroPositions(regs) == ZeroPositions(front) + {n - 1};
      } else {
        assert ZeroPositions(regs) == ZeroPositions(front);
      }
    }
  }

  /** The zero-count loop of `get_uniq_num` (lines 31-36). The `uint32_t`
      counter never exceeds the number of registers, so it cannot wrap. */
  method CountZeros(c: Counter) returns (zeros: nat)
    requires |c.registers| == RegisterSize
    ensures zeros == ZeroCount(c.registers)
    ensures zeros <= RegisterSize
  {
    zeros := 0;
    var i := 0;
    while i < |c.registers|
      invariant 0 <= i <= |c.registers|
      invariant zeros == ZeroCount(c.registers[..i])
    {
      assert c.registers[..i + 1][..i] == c.registers[..i];
      if c.registers[i] == 0 {
        zeros := zeros + 1;
      }
      i := i + 1;
    }
    assert c.registers[..i] == c.registers;
  }

  /** A fresh counter has every register at zero. */
  lemma NewZeroCount()
    ensures ZeroCount(New().registers) == RegisterSize
  {
  }

  /** Writing one register changes the zero count only by what that
      register held before and holds after. */
  lemma {:induction false} ZeroCountUpdate(regs: seq<u8>, i: nat, v: u8)
    requires i < |regs|
    ensures ZeroCount(regs[i := v]) + (if regs[i] == 0 then 1 else 0)
         == ZeroCount(regs) + (if v == 0 then 1 else 0)
  {
    var n := |regs|;
    var front := regs[..n - 1];
    if i == n - 1 {
      assert regs[i := v][..n - 1] == front;
    } else {
      assert regs[i := v][..n - 1] == front[i := v];
      ZeroCountUpdate(front, i, v);
    }
  }

  /** A raise by a positive rank empties nothing: the zero count drops by
      one exactly when the raised register was zero. */
  lemma ZeroCountAfterRaise(c: Counter, u: Update)
    requires |c.registers| == RegisterSize && u.index < RegisterSize && u.rank >= 1
    ensures ZeroCount(Raise(c, u).registers)
         == ZeroCount(c.registers) - (if c.registers[u.index] == 0 then 1 else 0)
  {
    if u.rank > c.registers[u.index] {
      ZeroCountUpdate(c.registers, u.index, u.rank);
    }
  }

  /** A run of raises by positive ranks never increases the zero count. */
  lemma {:induction false} ZeroCountRaiseAll(c: Counter, us: seq<Update>)
    requires |c.registers| == RegisterSize && Targets(us)
    requires forall k :: 0 <= k < |us| ==> us[k].rank >= 1
    ensures ZeroCount(RaiseAll(c, us).registers) <= ZeroCount(c.registers)
  {
    if |us| > 0 {
      var front := us[..|us| - 1];
      ZeroCountRaiseAll(c, front);
      ZeroCountAfterRaise(RaiseAll(c, front), us[|us| - 1]);
    }
  }

  /** Each `add` empties at most one register: the zero count drops by one
      exactly when the selected register was zero. */
  lemma ZeroCountAfterAdd(c: Counter, x: i32)
    requires |c.registers| == RegisterSize
    ensures ZeroCount(Add(c, x).registers)
         == ZeroCount(c.registers) - (if c.registers[Index(Hash32(x))] == 0 then 1 else 0)
  {
    ZeroCountAfterRaise(c, UpdateOf(Hash32(x)));
  }

  /** `add` never creates a zero register, so the zero count never grows. */
  lemma ZeroCountNonIncreasing(c: Counter, xs: seq<i32>)
    requires |c.registers| == RegisterSize
    ensures ZeroCount(AddAll(c, xs).registers) <= ZeroCount(c.registers)
  {
    ZeroCountRaiseAll(c, Updates(xs));
  }

  /** The zero count `get_uniq_num` takes is the number of registers that
      no added value selects. */
  lemma ZeroCountUnselected(xs: seq<i32>)
    ensures ZeroCount(AddAll(New(), xs).registers)
         == |set j: nat | j < RegisterSize && Unselected(xs, j)|
  {
    var regs := AddAll(New(), xs).registers;
    ZeroCountIsPositions(regs);
    forall j: nat | j < RegisterSize
      ensures regs[j] == 0 <==> Unselected(xs, j)
    {
      AddAllZero(xs, j);
    }
    assert ZeroPositions(regs) == set j: nat | j < RegisterSize && Unselected(xs, j);
  }
}
