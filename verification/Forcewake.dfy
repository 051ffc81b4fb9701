/** The forcewake reference count and the register accessors: each locked section as one atomic
    operation, and every run of them. */
module Forcewake {
  import opened Bits

  const FORCEWAKE_MT: nat := 0xA188
  const FORCEWAKE: nat := 0xA18C
  const FORCEWAKE_KERNEL: bv32 := 1

  // ---- masked registers ----

  function MaskEnable(a: bv32): bv32 {
    (a << 16) | a
  }

  function MaskDisable(a: bv32): bv32 {
    a << 16
  }

  /** The hardware's rule: the upper half of the word selects which lower bits change. */
  function MaskedWrite(reg: bv32, word: bv32): bv32 {
    ((reg & !(word >> 16)) | (word & (word >> 16))) & 0xFFFF
  }

  /** Enabling sets and disabling clears exactly the named bits. */
  lemma MaskedBits(reg: bv32, a: bv32)
    requires reg <= 0xFFFF && a <= 0xFFFF
    ensures MaskedWrite(reg, MaskEnable(a)) == reg | a
    ensures MaskedWrite(reg, MaskDisable(a)) == reg & !a
  {
  }

  lemma OrderDifference(reg: bv32, a: bv32, b: bv32)
    requires reg <= 0xFFFF && a <= 0xFFFF && b <= 0xFFFF
    ensures MaskedWrite(MaskedWrite(reg, MaskDisable(a)), MaskEnable(b))
            ^ MaskedWrite(MaskedWrite(reg, MaskEnable(b)), MaskDisable(a)) == a & b
  {
  }

  lemma XorZero(x: bv32, y: bv32, z: bv32)
    requires x ^ y == z
    ensures x == y <==> z == 0
  {
  }

  lemma WriteBoth(reg: bv32, a: bv32, b: bv32)
    requires reg <= 0xFFFF && a <= 0xFFFF && b <= 0xFFFF
    ensures MaskedWrite(reg, MaskDisable(a) | MaskEnable(b)) == (reg & !a) | b
  {
  }

  lemma DisableThenEnable(reg: bv32, a: bv32, b: bv32)
    requires reg <= 0xFFFF && a <= 0xFFFF && b <= 0xFFFF
    ensures MaskedWrite(MaskedWrite(reg, MaskDisable(a)), MaskEnable(b)) == (reg & !a) | b
  {
  }

  /** The order of two separate writes is irrelevant exactly when the bits are disjoint. */
  lemma WritesCommute(reg: bv32, a: bv32, b: bv32)
    requires reg <= 0xFFFF && a <= 0xFFFF && b <= 0xFFFF
    ensures (MaskedWrite(MaskedWrite(reg, MaskDisable(a)), MaskEnable(b))
             == MaskedWrite(MaskedWrite(reg, MaskEnable(b)), MaskDisable(a)))
            <==> a & b == 0
  {
    hide MaskedWrite, MaskEnable, MaskDisable;
    OrderDifference(reg, a, b);
    XorZero(MaskedWrite(MaskedWrite(reg, MaskDisable(a)), MaskEnable(b)),
            MaskedWrite(MaskedWrite(reg, MaskEnable(b)), MaskDisable(a)), a & b);
  }

  /** On the same bit the last write wins. */
  lemma LastWriteWins(reg: bv32, a: bv32)
    requires reg <= 0xFFFF && 0 < a <= 0xFFFF
    ensures MaskedWrite(MaskedWrite(reg, MaskDisable(a)), MaskEnable(a)) & a == a
    ensures MaskedWrite(MaskedWrite(reg, MaskEnable(a)), MaskDisable(a)) & a == 0
  {
  }

  /** One combined word disables `a` and then enables `b`, as two writes in that order would. */
  lemma CombinedWrite(reg: bv32, a: bv32, b: bv32)
    requires reg <= 0xFFFF && a <= 0xFFFF && b <= 0xFFFF
    ensures MaskedWrite(reg, MaskDisable(a) | MaskEnable(b))
            == MaskedWrite(MaskedWrite(reg, MaskDisable(a)), MaskEnable(b))
  {
    hide MaskedWrite, MaskEnable, MaskDisable;
    WriteBoth(reg, a, b);
    DisableThenEnable(reg, a, b);
  }

  /** The wake bit as the hardware has it. */
  predicate Awake(mt: bv32) {
    mt & 1 == 1
  }

  // ---- atomic operations ----

  /** Registers outside the always-on range, where a read needs the core awake. */
  predicate NeedsForcewake(reg: nat) {
    reg < 0x40000 && reg != FORCEWAKE
  }

  /** A locked section: taking or dropping a reference (dropping also as deferred work), or one
      access through the register accessors. */
  datatype Op = Get | Put | Work | Read(reg: nat) | Write(reg: nat, word: U32)

  /** What reaches the hardware: writes to the wake register by forcewake itself, accessor reads
      with the wake bit at that moment, accessor writes. */
  datatype Access = WakeWrite(mask: bv32) | RegRead(reg: nat, awake: bool) | RegWrite(reg: nat, word: U32)

  datatype Core = Core(count: U32, mt: bv32, log: seq<Access>)

  function WakeOn(c: Core): Core {
    var word := MaskEnable(FORCEWAKE_KERNEL);
    c.(mt := MaskedWrite(c.mt, word), log := c.log + [WakeWrite(word)])
  }

  function WakeOff(c: Core): Core {
    var word := MaskDisable(FORCEWAKE_KERNEL);
    c.(mt := MaskedWrite(c.mt, word), log := c.log + [WakeWrite(word)])
  }

  function RawRead(c: Core, reg: nat): Core {
    c.(log := c.log + [RegRead(reg, Awake(c.mt))])
  }

  function RawWrite(c: Core, reg: nat, word: U32): Core {
    c.(mt := if reg == FORCEWAKE_MT then MaskedWrite(c.mt, word as bv32) else c.mt,
       log := c.log + [RegWrite(reg, word)])
  }

  function Dropped(c: Core): Core {
    var c' := c.(count := Sub32(c.count, 1));
    if c'.count == 0 then WakeOff(c') else c'
  }

  function Atomic(c: Core, op: Op): Core {
    match op
    case Get =>
      var c' := c.(count := Trunc32(c.count + 1));
      if c.count == 0 then WakeOn(c') else c'
    case Put => Dropped(c)
    case Work => Dropped(c)
    case Read(reg) =>
      if c.count == 0 && NeedsForcewake(reg) then WakeOff(RawRead(WakeOn(c), reg)) else RawRead(c, reg)
    case Write(reg, word) => RawWrite(c, reg, word)
  }

  function RunOps(c: Core, ops: seq<Op>): Core {
    if ops == [] then c else Atomic(RunOps(c, ops[..|ops| - 1]), ops[|ops| - 1])
  }

  /** References taken less references dropped. */
  function Delta(op: Op): int {
    match op
    case Get => 1
    case Put => -1
    case Work => -1
    case _ => 0
  }

  function Balance(ops: seq<Op>): int {
    if ops == [] then 0 else Balance(ops[..|ops| - 1]) + Delta(ops[|ops| - 1])
  }

  ghost predicate LeavesWakeRegister(ops: seq<Op>) {
    forall i :: 0 <= i < |ops| && ops[i].Write? ==> ops[i].reg != FORCEWAKE_MT
  }

  /** No reference is dropped that was not taken, and fewer than 2^32 are held. */
  ghost predicate Balanced(ops: seq<Op>) {
    forall i :: 0 <= i <= |ops| ==> 0 <= Balance(ops[..i]) < TWO_32
  }

  predicate WakeMatches(c: Core) {
    Awake(c.mt) <==> c.count > 0
  }

  ghost predicate WakeAlwaysMatches(c: Core, ops: seq<Op>) {
    forall i :: 0 <= i <= |ops| ==> WakeMatches(RunOps(c, ops[..i]))
  }

  /** Every register the hardware answers for only when awake was read awake: all below 0x40000 but
      one. */
  ghost predicate ReadsAwake(log: seq<Access>) {
    forall i :: 0 <= i < |log| && log[i].RegRead? && log[i].reg < 0x4_0000 && log[i].reg != 0xA18C ==> log[i].awake
  }

  /** After the early sanitize: every wake bit disabled, no reference. */
  const SANITIZED: Core := Core(0, 0, [])

  /** An accessor operation that leaves the wake register to forcewake. */
  predicate QuietOp(op: Op) {
    op.Read? || (op.Write? && op.reg != FORCEWAKE_MT)
  }

  ghost predicate Quiet(ops: seq<Op>) {
    forall op :: op in ops ==> QuietOp(op)
  }

  lemma WakeWords()
    ensures MaskEnable(FORCEWAKE_KERNEL) == 0x1_0001 && MaskDisable(FORCEWAKE_KERNEL) == 0x1_0000
  {
  }

  lemma WakeBit(mt: bv32)
    ensures Awake(MaskedWrite(mt, MaskEnable(FORCEWAKE_KERNEL)))
    ensures !Awake(MaskedWrite(mt, MaskDisable(FORCEWAKE_KERNEL)))
    ensures mt <= 0xFFFF && !Awake(mt) ==>
              MaskedWrite(MaskedWrite(mt, MaskEnable(FORCEWAKE_KERNEL)), MaskDisable(FORCEWAKE_KERNEL)) == mt
    ensures forall word :: MaskedWrite(mt, word) <= 0xFFFF
  {
  }

  /** A read leaves count and wake register as they were. Without a reference, a read of a register
      below 0x40000, the wake register's neighbour excepted, enables the wake bit before and disables it
      after; any other read touches nothing and finds the core awake exactly if a reference is held. */
  lemma ReadRestores(c: Core, reg: nat)
    requires WakeMatches(c) && c.mt <= 0xFFFF
    ensures var c' := Atomic(c, Read(reg));
            && c'.count == c.count && c'.mt == c.mt
            && c'.log == c.log
                 + (if c.count == 0 && reg < 0x4_0000 && reg != 0xA18C
                    then [WakeWrite(0x1_0001), RegRead(reg, true), WakeWrite(0x1_0000)]
                    else [RegRead(reg, c.count > 0)])
  {
    WakeBit(c.mt);
    WakeWords();
    hide MaskedWrite, MaskEnable, MaskDisable, Awake;
  }

  /** The first reference taken enables the wake bit, the last one dropped disables it, and no other does
      anything to the hardware. */
  lemma ReferenceWrites(c: Core)
    ensures Atomic(c, Get).log == c.log + if c.count == 0 then [WakeWrite(0x1_0001)] else []
    ensures Atomic(c, Put).log == c.log + if c.count == 1 then [WakeWrite(0x1_0000)] else []
    ensures Atomic(c, Work) == Atomic(c, Put)
  {
    WakeWords();
    hide MaskedWrite, MaskEnable, MaskDisable;
  }

  /** An accessor write reaches its register and nothing else; only register 0xA188 is the wake
      register. */
  lemma WriteExact(c: Core, reg: nat, word: U32)
    ensures var c' := Atomic(c, Write(reg, word));
            && c'.count == c.count && c'.log == c.log + [RegWrite(reg, word)]
            && c'.mt == if reg == 0xA188 then MaskedWrite(c.mt, word as bv32) else c.mt
  {
    hide MaskedWrite;
  }

  /** Taking a reference and dropping it leaves count and wake register as they were. */
  lemma GetPutRestores(c: Core)
    requires WakeMatches(c) && c.count + 1 < TWO_32 && c.mt <= 0xFFFF
    ensures var c' := Atomic(Atomic(c, Get), Put);
            c'.count == c.count && c'.mt == c.mt
  {
    WakeBit(c.mt);
    hide MaskedWrite, MaskEnable, MaskDisable, Awake;
  }

  /** One operation from a state where the bit matches a count equal to the balance `b`: it
      matches again exactly when the new balance is a 32-bit count. */
  lemma OneOp(c: Core, op: Op, b: int)
    requires WakeMatches(c) && c.count == b && c.mt <= 0xFFFF
    requires op.Write? ==> op.reg != FORCEWAKE_MT
    ensures var c' := Atomic(c, op); var b' := b + Delta(op);
            && c'.mt <= 0xFFFF
            && (WakeMatches(c') <==> 0 <= b' < TWO_32)
            && (0 <= b' < TWO_32 ==> c'.count == b')
            && (ReadsAwake(c.log) ==> ReadsAwake(c'.log))
  {
    WakeBit(c.mt);
    hide MaskedWrite, MaskEnable, MaskDisable, Awake;
    if op.Read? {
      ReadRestores(c, op.reg);
    }
  }

  /** From the sanitised state, the wake bit is set exactly while references are held, the
      count is the balance, and every read that needs it is awake. */
  lemma {:induction false} BalancedRun(ops: seq<Op>)
    requires LeavesWakeRegister(ops) && Balanced(ops)
    ensures var c' := RunOps(SANITIZED, ops);
            && WakeMatches(c') && c'.count == Balance(ops) && c'.mt <= 0xFFFF
            && ReadsAwake(c'.log)
  {
    if ops != [] {
      var n := |ops| - 1;
      BalancedSnoc(ops, n);
      BalancedRun(ops[..n]);
      hide Atomic, Awake, WakeMatches, Delta, Balance, Balanced;
      OneOp(RunOps(SANITIZED, ops[..n]), ops[n], Balance(ops[..n]));
    }
  }

  lemma MatchesSnoc(c: Core, ops: seq<Op>, n: nat)
    requires |ops| == n + 1
    ensures WakeAlwaysMatches(c, ops) <==> WakeAlwaysMatches(c, ops[..n]) && WakeMatches(RunOps(c, ops))
  {
    hide RunOps, WakeMatches;
    assert forall i :: 0 <= i <= n ==> ops[..n][..i] == ops[..i];
    assert ops[..n + 1] == ops;
  }

  lemma BalancedSnoc(ops: seq<Op>, n: nat)
    requires |ops| == n + 1
    ensures Balanced(ops) <==> Balanced(ops[..n]) && 0 <= Balance(ops) < TWO_32
    ensures Balance(ops) == Balance(ops[..n]) + Delta(ops[n])
  {
    hide Delta;
    assert Balance(ops) == Balance(ops[..n]) + Delta(ops[n]);
    hide Balance;
    assert forall i :: 0 <= i <= n ==> ops[..n][..i] == ops[..i];
    assert ops[..n + 1] == ops;
  }

  /** The bit matches the count at every point of a run exactly when callers keep the references
      balanced: a drop too many, or 2^32 held at once, breaks it on the spot. */
  lemma {:induction false} WakeExact(ops: seq<Op>)
    requires LeavesWakeRegister(ops)
    ensures WakeAlwaysMatches(SANITIZED, ops) <==> Balanced(ops)
  {
    if ops == [] {
      assert ops[..0] == [];
    } else {
      var n := |ops| - 1;
      MatchesSnoc(SANITIZED, ops, n);
      BalancedSnoc(ops, n);
      WakeExact(ops[..n]);
      if Balanced(ops[..n]) {
        BalancedRun(ops[..n]);
        OneOp(RunOps(SANITIZED, ops[..n]), ops[n], Balance(ops[..n]));
      }
      hide Atomic, Delta, Balance, Awake, WakeMatches, Balanced, WakeAlwaysMatches;
    }
  }

  /** A reference dropped that was never taken leaves a count of 2^32 - 1 and the core asleep. */
  lemma UnpairedPut()
    ensures var c := RunOps(SANITIZED, [Put]); c.count == TWO_32 - 1 && !Awake(c.mt)
  {
    assert [Put][..0] == [] && RunOps(SANITIZED, [Put]) == Atomic(SANITIZED, Put);
  }

  // ---- runs one operation longer ----

  lemma RunOpsSnoc(c: Core, ops: seq<Op>, op: Op)
    ensures RunOps(c, ops + [op]) == Atomic(RunOps(c, ops), op)
  {
    assert (ops + [op])[..|ops|] == ops;
  }

  lemma BalanceSnoc(ops: seq<Op>, op: Op)
    ensures Balance(ops + [op]) == Balance(ops) + Delta(op)
    ensures Balanced(ops) && 0 <= Balance(ops) + Delta(op) < TWO_32 ==> Balanced(ops + [op])
  {
    assert (ops + [op])[..|ops|] == ops;
    BalancedSnoc(ops + [op], |ops|);
    hide Balanced, Balance;
  }

  /** Accessor operations change neither the balance nor what makes a run balanced. */
  lemma {:induction false} QuietAppend(ops: seq<Op>, more: seq<Op>)
    requires Quiet(more) && Balanced(ops) && LeavesWakeRegister(ops)
    ensures Balance(ops + more) == Balance(ops)
    ensures Balanced(ops + more) && LeavesWakeRegister(ops + more)
  {
    if more == [] {
      assert ops + more == ops;
    } else {
      var n := |more| - 1;
      QuietAppend(ops, more[..n]);
      BalancedAt(ops);
      BalanceSnoc(ops + more[..n], more[n]);
      assert QuietOp(more[n]);
      hide Balanced, Balance;
      assert ops + more == ops + more[..n] + [more[n]];
    }
  }

  lemma {:induction false} BalanceAppend(a: seq<Op>, b: seq<Op>)
    ensures Balance(a + b) == Balance(a) + Balance(b)
    decreases |b|
  {
    if b == [] {
      assert a + b == a;
    } else {
      var n := |b| - 1;
      BalanceAppend(a, b[..n]);
      assert (a + b)[..|a + b| - 1] == a + b[..n];
    }
  }

  lemma BalancedAt(ops: seq<Op>)
    requires Balanced(ops)
    ensures 0 <= Balance(ops) < TWO_32
  {
    assert ops[..|ops|] == ops;
  }

  // ---- the driver's object ----

  /** `log` is what reached the hardware, `trace` the operations since the early sanitize. */
  class Device {
    var forcewakeCount: U32
    var forcewakeMt: bv32
    ghost var log: seq<Access>
    ghost var trace: seq<Op>

    /** The state is the outcome of the operations so far. */
    ghost predicate Valid()
      reads this
    {
      State() == RunOps(SANITIZED, trace)
    }

    ghost function State(): Core
      reads this
    {
      Core(forcewakeCount, forcewakeMt, log)
    }

    /** The early sanitize, whatever the firmware left in the wake register. */
    constructor (firmware: bv32)
      ensures Valid() && State() == SANITIZED && trace == []
    {
      forcewakeCount := 0;
      forcewakeMt := MaskedWrite(firmware, MaskDisable(0xFFFF));
      log := [];
      trace := [];
    }

    /** Notes an operation that has just been done. */
    ghost method Done(op: Op, before: Core)
      requires before == RunOps(SANITIZED, trace) && State() == Atomic(before, op)
      modifies this`trace
      ensures Valid() && State() == old(State()) && trace == old(trace) + [op]
    {
      RunOpsSnoc(SANITIZED, trace, op);
      trace := trace + [op];
    }

    method ForcewakeOn(reg: nat, force: bool)
      modifies this`forcewakeMt, this`log
      ensures State() == if force || NeedsForcewake(reg) then WakeOn(old(State())) else old(State())
    {
      if force || NeedsForcewake(reg) {
        forcewakeMt := MaskedWrite(forcewakeMt, MaskEnable(FORCEWAKE_KERNEL));
        log := log + [WakeWrite(MaskEnable(FORCEWAKE_KERNEL))];
      }
    }

    method ForcewakeOff(reg: nat, force: bool)
      modifies this`forcewakeMt, this`log
      ensures State() == if force || NeedsForcewake(reg) then WakeOff(old(State())) else old(State())
    {
      if force || NeedsForcewake(reg) {
        forcewakeMt := MaskedWrite(forcewakeMt, MaskDisable(FORCEWAKE_KERNEL));
        log := log + [WakeWrite(MaskDisable(FORCEWAKE_KERNEL))];
      }
    }

    method ForcewakeGet()
      requires Valid()
      modifies this
      ensures Valid() && trace == old(trace) + [Get]
      ensures State() == Atomic(old(State()), Get)
    {
      var before := forcewakeCount;
      forcewakeCount := Trunc32(forcewakeCount + 1);
      if before == 0 {
        ForcewakeOn(0, true);
      }
      Done(Get, old(State()));
    }

    method ForcewakePut()
      requires Valid()
      modifies this
      ensures Valid() && trace == old(trace) + [Put]
      ensures State() == Atomic(old(State()), Put)
    {
      forcewakeCount := Sub32(forcewakeCount, 1);
      if forcewakeCount == 0 {
        ForcewakeOff(0, true);
      }
      Done(Put, old(State()));
    }

    method ForcewakeWork()
      requires Valid()
      modifies this
      ensures Valid() && trace == old(trace) + [Work]
      ensures State() == Atomic(old(State()), Work)
    {
      forcewakeCount := Sub32(forcewakeCount, 1);
      if forcewakeCount == 0 {
        ForcewakeOff(0, true);
      }
      Done(Work, old(State()));
    }

    /** An accessor read of a register that holds `held`. */
    method GpuRead(reg: nat, held: U32) returns (val: U32)
      requires Valid()
      modifies this`forcewakeMt, this`log, this`trace
      ensures val == held
      ensures Valid() && trace == old(trace) + [Read(reg)]
      ensures State() == Atomic(old(State()), Read(reg))
    {
      if forcewakeCount == 0 {
        ForcewakeOn(reg, false);
      }
      log := log + [RegRead(reg, Awake(forcewakeMt))];
      val := held;
      if forcewakeCount == 0 {
        ForcewakeOff(reg, false);
      }
      Done(Read(reg), old(State()));
    }

    /** A read for its effect alone. */
    method Touch(reg: nat)
      requires Valid()
      modifies this`forcewakeMt, this`log, this`trace
      ensures Valid() && trace == old(trace) + [Read(reg)]
    {
      var held: U32 := *;
      held := GpuRead(reg, held);
    }

    method GpuWrite(reg: nat, word: U32)
      requires Valid()
      modifies this`forcewakeMt, this`log, this`trace
      ensures Valid() && trace == old(trace) + [Write(reg, word)]
      ensures State() == Atomic(old(State()), Write(reg, word))
    {
      log := log + [RegWrite(reg, word)];
      if reg == FORCEWAKE_MT {
        forcewakeMt := MaskedWrite(forcewakeMt, word as bv32);
      }
      Done(Write(reg, word), old(State()));
    }
  }
}
