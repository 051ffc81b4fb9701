/** The set-up's self-test, the first and only packet the driver itself sends: one more page is mapped,
    nine dwords are emitted where eight were reserved, and the registers are dumped before and after. */
module SelfTest {
  import opened Bits
  import opened Pte
  import opened Memmgr
  import opened Gtt
  import opened RingSpec
  import opened RingFifo
  import opened RingTail
  import opened RingBooks
  import opened RingPackets
  import opened RingBuffer
  import opened RingMemory
  import opened RingWindow
  import opened RingSystem
  import opened Forcewake
  import opened Effects
  import opened RingProgram
  import opened Setup

  /** What the kernel answers: one more page, and its mapping. */
  datatype TestPage = TestPage(page: Kernel, kmapOk: bool)

  predicate TestRuns(t: TestPage) {
    AllocationStatus(t.page, 1) == 0 && t.kmapOk
  }

  // ---- the packet ----

  /** The nine dwords of the self-test, which reserves eight. */
  function TestDwords(gfxAddr: U32): (data: seq<U32>)
    ensures |data| == 9
  {
    [MI_NOOP, MI_NOOP, MI_BATCH_BUFFER_START, gfxAddr, MI_NOOP,
     MI_STORE_DWORD_INDEX, 0x30 * 4, 0xDEAD_BEEF, MI_NOOP]
  }

  function TestPacket(gfxAddr: U32): seq<Event> {
    Reserving(8, TestDwords(gfxAddr))
  }

  /** What the GPU takes of it: a batch start at the page's address, and a store of the marker at dword
      0x30 of the status page. */
  function TestTaken(gfxAddr: U32): seq<U32> {
    [0, 0, 0x31 * 0x80_0000, gfxAddr, 0, 0x21 * 0x80_0000 + 1, 0xC0, 0xDEAD_BEEF]
  }

  lemma TakenIs(gfxAddr: U32)
    ensures TestDwords(gfxAddr)[..8] == TestTaken(gfxAddr)
  {
  }

  /** On a fresh ring the packet is legal; the GPU takes its first eight dwords, the store included, and
      is idle: the ninth waits for the next packet. */
  lemma TestDelivered(k: nat, m: Machine, gfxAddr: U32)
    requires Fresh(k, m)
    ensures LegalRun(m, TestPacket(gfxAddr))
    ensures var m' := Run(m, TestPacket(gfxAddr)); var last := Run(m', Fetches(8));
            && m'.h.emitted == TestTaken(gfxAddr) + [0] && m'.h.published == 9
            && last.h.fetched == TestTaken(gfxAddr) && Idle(last.r)
  {
    TakenIs(gfxAddr);
    assert TestDwords(gfxAddr) == TestDwords(gfxAddr)[..8] + [0];
    hide Pow2, Fresh, Run, HeadOffset, TailOffset, Idle, Fetches, TestDwords, TestTaken, Reserving, RingSpace;
    FirstPacketFits(k, m);
    FirstPacketDelivered(k, m, 8, TestDwords(gfxAddr));
  }

  // ---- the register dump ----

  /** The registers of the dump, in order. */
  const DUMPED: seq<nat> := [
    0x100100, 0x108000, 0x108040, 0x108080, 0x1080c0, 0x108100, 0x108340,
    0xA090, 0xA008, 0xA168, 0x4402C, 0x44028, 0xA180, FORCEWAKE, FORCEWAKE_MT, 0x2214, 0x9008, RENDER_HWS_PGA,
    RING_TAIL, RING_HEAD, RING_START, RING_CTL, RING_MI_MODE, RENDER_RING_BASE + 0x74, RENDER_RING_BASE + 0x6c]

  lemma DumpedRegisters()
    ensures DUMPED == [
      0x10_0100, 0x10_8000, 0x10_8040, 0x10_8080, 0x10_80C0, 0x10_8100, 0x10_8340,
      0xA090, 0xA008, 0xA168, 0x4_402C, 0x4_4028, 0xA180, 0xA18C, 0xA188, 0x2214, 0x9008, 0x4080,
      0x2030, 0x2034, 0x2038, 0x203C, 0x209C, 0x2074, 0x206C]
  {
  }

  function ReadsOf(regs: seq<nat>): (ops: seq<Op>)
    ensures |ops| == |regs|
  {
    seq(|regs|, i requires 0 <= i < |regs| => Read(regs[i]))
  }

  lemma ReadsOfQuiet(regs: seq<nat>)
    ensures Quiet(ReadsOf(regs))
  {
  }

  method Dump(dev: Device)
    requires dev.Valid()
    modifies dev
    ensures dev.Valid() && dev.trace == old(dev.trace) + ReadsOf(DUMPED)
  {
    hide Atomic, RunOps, DUMPED;
    ghost var before := dev.trace;
    var i := 0;
    while i < |DUMPED|
      invariant i <= |DUMPED| && dev.Valid()
      invariant dev.trace == before + ReadsOf(DUMPED[..i])
    {
      dev.Touch(DUMPED[i]);
      assert ReadsOf(DUMPED[..i + 1]) == ReadsOf(DUMPED[..i]) + [Read(DUMPED[i])];
      i := i + 1;
    }
    assert DUMPED[..i] == DUMPED;
  }

  // ---- the self-test ----

  /** Register accesses of a self-test after which TAIL is `tail`. */
  function TestOps(t: TestPage, tail: U32): seq<Op> {
    InsertOps(t.page, 1)
    + if TestRuns(t) then ReadsOf(DUMPED) + [Write(RING_TAIL, tail)] + ReadsOf(DUMPED) else []
  }

  /** The accesses by register: the page's flush, and the tail between two dumps. */
  lemma TestAccesses(t: TestPage, tail: U32)
    ensures TestOps(t, tail)
         == (if Obtained(t.page, 1) then [Write(0x10_1008, 1), Read(0x10_1008)] else [])
            + if Obtained(t.page, 1) && t.kmapOk then ReadsOf(DUMPED) + [Write(0x2030, tail)] + ReadsOf(DUMPED) else []
  {
    StatusIs(t.page, 1);
    hide AllocationStatus, Obtained, DUMPED, ReadsOf;
  }

  method EmitTest(dev: Device, ring: Ring, gfxAddr: U32)
    requires dev.Valid()
    modifies dev, ring`space, ring`tail, ring`regTail, ring`history, ring.virtualStart
    ensures ring.State() == Run(old(ring.State()), TestPacket(gfxAddr))
    ensures dev.Valid() && dev.trace == old(dev.trace) + [Write(RING_TAIL, ring.regTail)]
  {
    hide Step, Run, RunOps, Atomic;
    ghost var m := ring.State();
    ghost var done := RunNothing(m);
    done := RunOn(m, done, Begin(8));
    var _ := ring.BeginPacket(8);
    done := RunOn(m, done, Emit(MI_NOOP));
    ring.EmitDword(MI_NOOP);
    done := RunOn(m, done, Emit(MI_NOOP));
    ring.EmitDword(MI_NOOP);
    done := RunOn(m, done, Emit(MI_BATCH_BUFFER_START));
    ring.EmitDword(MI_BATCH_BUFFER_START);
    done := RunOn(m, done, Emit(gfxAddr));
    ring.EmitDword(gfxAddr);
    done := RunOn(m, done, Emit(MI_NOOP));
    ring.EmitDword(MI_NOOP);
    done := RunOn(m, done, Emit(MI_STORE_DWORD_INDEX));
    ring.EmitDword(MI_STORE_DWORD_INDEX);
    done := RunOn(m, done, Emit(0x30 * 4));
    ring.EmitDword(0x30 * 4);
    done := RunOn(m, done, Emit(0xDEAD_BEEF));
    ring.EmitDword(0xDEAD_BEEF);
    done := RunOn(m, done, Emit(MI_NOOP));
    ring.EmitDword(MI_NOOP);
    done := RunOn(m, done, Advance);
    ring.AdvanceTail(dev);
    assert done == TestPacket(gfxAddr);
  }

  /** The self-test: it gives up if there is no page for it. */
  method CheckDwordTemp(gtt: GttDevice, dev: Device, ring: Ring, t: TestPage)
    requires gtt.Valid() && dev.Valid() && gtt.gsm != ring.virtualStart
    modifies gtt, gtt.gsm, dev, ring`space, ring`tail, ring`regTail, ring`history, ring.virtualStart
    ensures gtt.Valid() && gtt.State() == AfterMapping(old(gtt.State()), t.page, 1)
    ensures dev.Valid() && dev.trace == old(dev.trace) + TestOps(t, ring.regTail)
    ensures ring.State() == if TestRuns(t) then Run(old(ring.State()), TestPacket(GfxAddr(old(gtt.State()))))
                            else old(ring.State())
  {
    hide InsertList, AllocationStatus, GfxAddr, InsertOps, TestPacket, Run, RunOps, DUMPED;
    var tempObj := new GpuObject();
    var ret, gfxAddr := AllocateAndMap(t.page, tempObj, 1, gtt, dev);
    if ret != 0 {
      return;
    }
    if !t.kmapOk {
      return;
    }
    Dump(dev);
    EmitTest(dev, ring, gfxAddr);
    Dump(dev);
  }

  /** From the ring and the table that set-up leaves, whatever memory holds: the page is mapped, the
      packet stored through the window, and the GPU loads exactly its first eight dwords through the
      ring start, and is idle. */
  lemma TestThroughTheTable(g: GttState, frames: seq<nat>, m: Machine, mem: Memory, o: PageList, gfxAddr: U32)
    requires Fresh(17, m) && 1 + RING_PAGES <= g.next && g.next + |o.pages| < TWO_32
    requires RingWired(Ways(g.table, PAGE_SIZE, PAGE_SIZE), frames) && FramesApart(frames[..RING_PAGES])
    ensures var s, xs := SetUpSystem(g, PAGE_SIZE, m, mem), [Mapping(o)] + AtAll(TestPacket(gfxAddr));
            && SystemLegal(s, xs)
            && var s' := SystemRun(s, xs); var last := PhysicalRun(WaysOf(s'), s'.p, Fetches(8));
              && s'.g == InsertList(g, o) && s'.p.h.emitted == TestTaken(gfxAddr) + [0]
              && last.h.fetched == TestTaken(gfxAddr) && Idle(last.r)
  {
    var s, es := SetUpSystem(g, PAGE_SIZE, m, mem), TestPacket(gfxAddr);
    var s1 := SystemStep(s, Mapping(o));
    hide RingWired, FramesApart, TestPacket, TestTaken, Run, LegalRun, Idle, InsertList, PhysicalRun, Fetches;
    SetUpWired(g, frames, m, mem);
    MappingKeeps(s, o);
    FreshInv(17, Seen(WaysOf(s), s.p));
    TestDelivered(17, Seen(WaysOf(s), s.p), gfxAddr);
    hide Inv, Wired, Fresh, Seen;
    EventsLegal(17, s1, es);
    assert ([Mapping(o)] + AtAll(es))[1..] == AtAll(es);
    SystemSeen(17, s1, AtAll(es));
    var s' := SystemRun(s1, AtAll(es));
    assert SystemRun(s, [Mapping(o)] + AtAll(es)) == s';
    hide SystemRun, SystemLegal, AtAll;
    SeenParts(s');
    GoodDrains(17, s', 8);
  }

  lemma GoodDrains(k: nat, s: System, count: nat)
    requires Good(k, s)
    ensures var p := PhysicalRun(WaysOf(s), s.p, Fetches(count)); var m := Run(Seen(WaysOf(s), s.p), Fetches(count));
            p.h == m.h && p.r == m.r
  {
    hide Inv, Seen, PhysicalRun, Run, Fetches, WaysAgree, SlotsApart;
    DrainSeen(k, WaysOf(s), s.p, count);
  }

  // ---- the whole of set-up ----

  /** A fresh ring's TAIL after the self-test's nine dwords. */
  const TEST_TAIL: U32 := 36

  /** Reserving eight dwords and emitting nine: 32 bytes off the space, 36 on the tail. */
  lemma FieldsAfterTest(m: Machine, gfxAddr: U32)
    requires Fresh(17, m) && m.r.space == 0x2_0000 - 64
    ensures var r := Run(m, TestPacket(gfxAddr)).r;
            r.space == 0x2_0000 - 64 - 32 && r.tail == r.regTail == TEST_TAIL
  {
    hide Run, TestDwords, Reserving, Pow2, ToInt32;
    FirstPacketFits(17, m);
    PublishedAll(m, 8, TestDwords(gfxAddr));
    ClosedTailCounts(17, m, TestPacket(gfxAddr));
    CountPacket(8, TestDwords(gfxAddr));
    Int32Same(m.r.space);
    SpaceOfRun(m, TestPacket(gfxAddr));
    Int32Same(0x2_0000 - 64 - 32);
    hide Fresh;
    SmallTail(m.r.size);
  }

  lemma SmallTail(size: nat)
    requires size > 36
    ensures 36 % size == 36
  {
  }

  /** Every register access of set-up, in order. */
  function InitOps(env: Environment, t: TestPage, status: U32, start: U32): seq<Op> {
    SetupOps(env, status, start) + if InitStatus(env, start) == 0 then TestOps(t, TEST_TAIL) else []
  }

  function AfterTest(m: Machine, t: TestPage, gfxAddr: U32): Machine {
    if TestRuns(t) then Run(m, TestPacket(gfxAddr)) else m
  }

  /** The page for the self-test and its mapping. */
  predicate PageGiven(t: TestPage) {
    Obtained(t.page, 1) && t.kmapOk
  }

  lemma TestRunsIs(t: TestPage)
    ensures TestRuns(t) <==> PageGiven(t)
  {
    StatusIs(t.page, 1);
    hide AllocationStatus, Obtained;
  }

  // ---- the words that reach the hardware ----

  /** A flush for the self-test's page, and the tail behind nine dwords. */
  function TestWords(t: TestPage): seq<Op> {
    (if Obtained(t.page, 1) then [Write(0x10_1008, 1)] else [])
    + if PageGiven(t) then [Write(0x2030, 36)] else []
  }

  /** Every reference and every word of set-up, in order. */
  function InitWords(env: Environment, t: TestPage, status: U32, start: U32): seq<Op> {
    SetupWords(env, status, start)
    + if KernelGives(env) && SeenRunning(env.hw, start) then TestWords(t) else []
  }

  lemma TestEffects(t: TestPage)
    ensures EffectsOf(TestOps(t, TEST_TAIL)) == TestWords(t)
  {
    InsertEffects(t.page, 1);
    TestRunsIs(t);
    hide EffectsOf, AllocationStatus, Obtained, InsertOps, DUMPED, TestRuns, PageGiven;
    var tail := [Write(RING_TAIL, TEST_TAIL)];
    var send := if TestRuns(t) then ReadsOf(DUMPED) + tail + ReadsOf(DUMPED) else [];
    EffectsAppend(InsertOps(t.page, 1), send);
    EffectsOfReads([]);
    EffectsOfReads(ReadsOf(DUMPED));
    EffectsOfWrites(tail);
    EffectsAppend(ReadsOf(DUMPED), tail);
    EffectsAppend(ReadsOf(DUMPED) + tail, ReadsOf(DUMPED));
  }

  lemma InitEffects(env: Environment, t: TestPage, status: U32, start: U32)
    ensures EffectsOf(InitOps(env, t, status, start)) == InitWords(env, t, status, start)
  {
    SetupEffects(env, status, start);
    TestEffects(t);
    ReachesIs(env);
    StartedIs(env.hw, start);
    EffectsOfReads([]);
    hide EffectsOf, SetupOps, SetupWords, TestOps, TestWords, ReachesHardware, KernelGives, RingStarted, SeenRunning;
    EffectsAppend(SetupOps(env, status, start), if InitStatus(env, start) == 0 then TestOps(t, TEST_TAIL) else []);
  }

  /** At most one flush, as a count. */
  lemma FlushCount(c: bool)
    ensures WriteCount(if c then [Write(0x10_1008, 1)] else [], 0x10_1008) == if c then 1 else 0
  {
    WordSnoc([], Write(0x10_1008, 1), 0x10_1008);
    NoWord([], 0x10_1008);
    assert [] + [Write(0x10_1008, 1)] == [Write(0x10_1008, 1)];
    hide WriteCount;
  }

  lemma ProgramFlushes(status: U32, start: U32, hw: Hardware)
    ensures WriteCount(ProgramWords(status, start, hw), 0x10_1008) == 0
  {
    hide SeenRunning, WriteCount;
    NoWord(ProgramWords(status, start, hw), 0x10_1008);
  }

  lemma SetupFlushes(env: Environment, status: U32, start: U32)
    ensures WriteCount(SetupWords(env, status, start), 0x10_1008)
         == (if Obtained(env.status, 1) then 1 else 0)
            + if Obtained(env.status, 1) && env.kmapStatusOk && Obtained(env.ring, 32) then 1 else 0
  {
    hide WriteCount, ProgramWords, Obtained;
    var two := Obtained(env.status, 1) && env.kmapStatusOk && Obtained(env.ring, 32);
    var first := if Obtained(env.status, 1) then [Write(0x10_1008, 1)] else [];
    var second := if two then [Write(0x10_1008, 1)] else [];
    var third := if KernelGives(env) then ProgramWords(status, start, env.hw) else [];
    FlushCount(Obtained(env.status, 1));
    FlushCount(two);
    FlushCount(false);
    ProgramFlushes(status, start, env.hw);
    WordAppend(first, second, 0x10_1008);
    WordAppend(first + second, third, 0x10_1008);
  }

  lemma TestFlushes(t: TestPage)
    ensures WriteCount(TestWords(t), 0x10_1008) == if Obtained(t.page, 1) then 1 else 0
  {
    hide WriteCount, Obtained;
    var page := if Obtained(t.page, 1) then [Write(0x10_1008, 1)] else [];
    var tail := if PageGiven(t) then [Write(0x2030, 36)] else [];
    FlushCount(Obtained(t.page, 1));
    NoWord(tail, 0x10_1008);
    WordAppend(page, tail, 0x10_1008);
  }

  /** The GPU's translations are flushed once for every object mapped. */
  lemma FlushPerObject(env: Environment, t: TestPage, status: U32, start: U32)
    ensures WriteCount(InitOps(env, t, status, start), 0x10_1008)
         == |Mapped(env)| + if InitStatus(env, start) == 0 && Obtained(t.page, 1) then 1 else 0
  {
    InitEffects(env, t, status, start);
    MappedCount(env);
    ReachesIs(env);
    StartedIs(env.hw, start);
    hide LastWord, WriteCount, EffectsOf, InitOps, Mapped, Obtained, SetupWords, TestWords, ReachesHardware;
    hide KernelGives, RingStarted, SeenRunning;
    WordOfEffects(InitOps(env, t, status, start), 0x10_1008);
    var last := if KernelGives(env) && SeenRunning(env.hw, start) then TestWords(t) else [];
    SetupFlushes(env, status, start);
    TestFlushes(t);
    FlushCount(false);
    WordAppend(SetupWords(env, status, start), last, 0x10_1008);
  }

  lemma MappedCount(env: Environment)
    ensures |Mapped(env)| == (if Obtained(env.status, 1) then 1 else 0)
                             + if Obtained(env.status, 1) && env.kmapStatusOk && Obtained(env.ring, 32) then 1 else 0
  {
    StatusIs(env.status, 1);
    StatusIs(env.ring, RING_PAGES);
    hide AllocationStatus, Obtained;
    MappedCases(env);
  }

  /** TAIL after a set-up that succeeds. */
  lemma TailRegister(before: seq<Op>, env: Environment, t: TestPage, status: U32, start: U32)
    requires InitStatus(env, start) == 0
    ensures LastWord(before + InitOps(env, t, status, start), 0x2030) == if PageGiven(t) then 36 else 0
  {
    var ops := InitOps(env, t, status, start);
    InitEffects(env, t, status, start);
    WordOfEffects(ops, 0x2030);
    WordAppend(before, ops, 0x2030);
    ReachesIs(env);
    StartedIs(env.hw, start);
    SetupTail(env, status, start);
    TestTail(t);
    hide LastWord, EffectsOf, InitOps, SetupWords, TestWords, PageGiven, ReachesHardware, KernelGives;
    hide RingStarted, SeenRunning;
    WordAppend(SetupWords(env, status, start), TestWords(t), 0x2030);
  }

  lemma TestTail(t: TestPage)
    ensures LastWord(TestWords(t), 0x2030) == if PageGiven(t) then 36 else -1
  {
    hide LastWord, WriteCount, Obtained;
    var page := if Obtained(t.page, 1) then [Write(0x10_1008, 1)] else [];
    if PageGiven(t) {
      assert TestWords(t) == page + [Write(0x2030, 36)] + [];
      WordThenOthers(page, 0x2030, 36, []);
    } else {
      NoWord(TestWords(t), 0x2030);
    }
  }

  lemma SetupTail(env: Environment, status: U32, start: U32)
    requires KernelGives(env)
    ensures LastWord(SetupWords(env, status, start), 0x2030) == 0
  {
    hide LastWord, WriteCount, Obtained, EffectsOf, ProgramOps, Programmed;
    var flushes := [Write(0x10_1008, 1), Write(0x10_1008, 1)];
    assert SetupWords(env, status, start) == flushes + ProgramWords(status, start, env.hw);
    WordAppend(flushes, ProgramWords(status, start, env.hw), 0x2030);
    ProgrammedTail(status, start, env.hw);
  }

  lemma ProgrammedTail(status: U32, start: U32, hw: Hardware)
    ensures LastWord(ProgramWords(status, start, hw), 0x2030) == 0
  {
    ProgrammedRegisters([], status, start, hw);
    ProgramEffects(status, start, hw);
    assert [] + ProgramOps(status, start, hw) == ProgramOps(status, start, hw);
    hide LastWord, EffectsOf, ProgramOps, ProgramWords, RingLength;
    WordOfEffects(ProgramOps(status, start, hw), 0x2030);
  }

  // ---- what set-up leaves behind ----

  /** The table after an initialisation that began at table `g` and had table `gm` and ring `ready` before
      the self-test: all pages served as far as the table has room, and a ring that serves if the table
      was empty. */
  ghost predicate TablesDone(g: GttState, gm: GttState, start: nat, ready: Machine, env: Environment, t: TestPage) {
    var g' := AfterMapping(gm, t.page, 1);
    && (g.next + 1 + RING_PAGES <= |g.table| ==> PagesServed(g'.table, g.next, env))
    && (g.next + 2 + RING_PAGES <= |g.table| && Obtained(t.page, 1) ==>
        && BytesAt(g'.table, GfxAddr(gm), t.page.frames, 1)
        && CachedEntries(g'.table, g.next + 1 + RING_PAGES, g.next + 2 + RING_PAGES))
    && (g.next == 0 && 1 + RING_PAGES <= |g.table| ==>
        && Serves(gm, start, ready, env.ring.frames)
        && RingWired(Ways(g'.table, PAGE_SIZE, start), env.ring.frames))
  }

  /** The outcome of a successful initialisation that began at table `g`: `ready` is the ring before the
      self-test, `gm` the table then. */
  ghost predicate InitDone(g: GttState, gm: GttState, ready: Machine, ring: Ring, mappableBase: nat,
                           env: Environment, t: TestPage)
    reads ring, ring.virtualStart
  {
    && HardwareSet(ring, g.next, mappableBase)
    && Fresh(17, ready) && ready.r.space == 0x2_0000 - 64
    && ring.State() == AfterTest(ready, t, GfxAddr(gm))
    && ring.space == (if PageGiven(t) then 0x2_0000 - 64 - 32 else 0x2_0000 - 64)
    && ring.tail == ring.regTail == (if PageGiven(t) then 36 else 0)
    && TablesDone(g, gm, ring.regStart, ready, env, t)
  }

  /** What set-up has written, and where TAIL stands if it succeeded. */
  ghost predicate Reported(before: seq<Op>, after: seq<Op>, ret: int, env: Environment, t: TestPage, entry: nat) {
    && EffectsOf(after) == EffectsOf(before) + InitWords(env, t, entry * 4096 % 0x1_0000_0000,
                                                        (entry + 1) * 4096 % 0x1_0000_0000)
    && (ret == 0 ==> LastWord(after, 0x2030) == if PageGiven(t) then 36 else 0)
  }

  lemma ReportedInit(before: seq<Op>, env: Environment, t: TestPage, entry: nat)
    ensures var status, start := Trunc32(entry * PAGE_SIZE), Trunc32((entry + 1) * PAGE_SIZE);
            Reported(before, before + InitOps(env, t, status, start), InitStatus(env, start), env, t, entry)
  {
    var status, start := Trunc32(entry * PAGE_SIZE), Trunc32((entry + 1) * PAGE_SIZE);
    InitEffects(env, t, status, start);
    if InitStatus(env, start) == 0 {
      TailRegister(before, env, t, status, start);
    }
    hide EffectsOf, InitOps, InitWords, LastWord, PageGiven, InitStatus;
    EffectsAppend(before, InitOps(env, t, status, start));
  }

  lemma WiredKept(g: GttState, o: PageList, frames: seq<nat>)
    requires RingWired(Ways(g.table, PAGE_SIZE, PAGE_SIZE), frames) && 1 + RING_PAGES <= g.next
    ensures RingWired(Ways(InsertList(g, o).table, PAGE_SIZE, PAGE_SIZE), frames)
  {
    var w, w' := Ways(g.table, PAGE_SIZE, PAGE_SIZE), Ways(InsertList(g, o).table, PAGE_SIZE, PAGE_SIZE);
    SameTable(g, o);
    hide InsertList, Translate, FrameByte;
    forall t | 0 <= t < RING_BYTES
      ensures CpuAddr(w', t) == GpuAddr(w', t) == FrameByte(frames, t)
    {
      assert CpuAddr(w, t) == FrameByte(frames, t);
      MappingKeepsByte(g, o, PAGE_SIZE + t);
    }
  }

  lemma ReadyParts(g: GttState, gm: GttState, ring: Ring, mappableBase: nat, env: Environment)
    requires SetUpDone(g, gm, ring, mappableBase, env)
    ensures HardwareSet(ring, g.next, mappableBase)
    ensures Fresh(17, ring.State()) && ring.space == RING_BYTES - RING_FREE_SPACE
    ensures ring.regStart == Trunc32((g.next + 1) * PAGE_SIZE)
    ensures g.next == 0 && 1 + RING_PAGES <= |g.table| ==>
              Serves(gm, ring.regStart, ring.State(), env.ring.frames)
  {
    hide Fresh, Serves, RingLength, RingSpace, Trunc32;
  }

  /** A further insertion leaves the pages served. */
  lemma ServedKept(g: GttState, o: PageList, next: nat, env: Environment)
    requires PagesServed(g.table, next, env) && next + 1 + RING_PAGES <= g.next
    ensures PagesServed(InsertList(g, o).table, next, env)
  {
    SameTable(g, o);
    CachedKept(g, o, next, next + 1 + RING_PAGES);
    BytesKept(g, o, next * PAGE_SIZE, env.status.frames, 1);
    BytesKept(g, o, (next + 1) * PAGE_SIZE, env.ring.frames, RING_PAGES);
    hide InsertList, CachedEntries, BytesAt;
  }

  lemma CachedKept(g: GttState, o: PageList, lo: nat, hi: nat)
    requires CachedEntries(g.table, lo, hi) && hi <= g.next
    ensures CachedEntries(InsertList(g, o).table, lo, hi)
  {
    hide PteEncode, PteIsValid, PteCacheability;
  }

  lemma BytesKept(g: GttState, o: PageList, base: nat, frames: seq<nat>, count: nat)
    requires count <= |frames| && BytesAt(g.table, base, frames, count)
    requires base + count * PAGE_SIZE <= g.next * PAGE_SIZE
    ensures BytesAt(InsertList(g, o).table, base, frames, count)
  {
    SameTable(g, o);
    hide InsertList, Translate, FrameByte;
    forall t: nat | t < count * PAGE_SIZE
      ensures ByteAt(InsertList(g, o).table, base, frames, t)
    {
      assert ByteAt(g.table, base, frames, t);
      MappingKeepsByte(g, o, base + t);
    }
  }

  /** The self-test's page, if the table has an entry left for it. */
  lemma TestPageServed(g: GttState, k: Kernel)
    requires Obtained(k, 1) && Fits(g, 1)
    ensures BytesAt(AfterMapping(g, k, 1).table, GfxAddr(g), k.frames, 1)
    ensures CachedEntries(AfterMapping(g, k, 1).table, g.next, g.next + 1)
  {
    var o := PageList(k.frames[..1], CACHE_LLC);
    StatusIs(k, 1);
    TotalOfOne(o);
    InsertOne(g, o);
    assert [o][..0] == [] && InsertAll(g, []) == g;
    hide InsertList, Total, InsertAll;
    CachedList(g, o);
    ObjectAt(g, [o], 0, k.frames, GfxAddr(g));
  }

  /** All table entries are in place before and after the self-test. */
  lemma DoneBeforeTest(g: GttState, gm: GttState, ring: Ring, mappableBase: nat, env: Environment, t: TestPage)
    requires SetUpDone(g, gm, ring, mappableBase, env) && ReachesHardware(env)
    requires gm == InsertAll(g, Mapped(env)) && |g.table| <= MAX_ENTRIES
    ensures HardwareSet(ring, g.next, mappableBase)
    ensures Fresh(17, ring.State()) && ring.space == 0x2_0000 - 64
    ensures TablesDone(g, gm, ring.regStart, ring.State(), env, t)
  {
    ReadyParts(g, gm, ring, mappableBase, env);
    hide SetUpDone, Serves, HardwareSet, InsertAll, Mapped, InsertList, Fresh, RingWired, ReachesHardware, Trunc32;
    hide PagesServed, BytesAt, CachedEntries, Obtained, GfxAddr;
    var o := if AllocationStatus(t.page, 1) == 0 then PageList(t.page.frames[..1], CACHE_LLC) else PageList([], 0);
    if g.next + 1 + RING_PAGES <= |g.table| {
      MappedNext(g, env);
      if AllocationStatus(t.page, 1) == 0 {
        ServedKept(gm, o, g.next, env);
      }
      if g.next + 2 + RING_PAGES <= |g.table| && Obtained(t.page, 1) {
        TestPageServed(gm, t.page);
      }
    }
    if g.next == 0 && 1 + RING_PAGES <= |g.table| {
      MappedBytes(g, env);
      if AllocationStatus(t.page, 1) == 0 {
        WiredKept(gm, o, env.ring.frames);
      }
    }
  }

  lemma MappedNext(g: GttState, env: Environment)
    requires Fits(g, 1 + RING_PAGES) && ReachesHardware(env)
    ensures InsertAll(g, Mapped(env)).next == g.next + 1 + RING_PAGES
    ensures |InsertAll(g, Mapped(env)).table| == |g.table|
  {
    MappedCases(env);
    MappedTotal(env);
    hide InsertAll, Total, Mapped;
    NextExact(g, Mapped(env));
  }

  lemma DoneAfterTest(ready: Machine, t: TestPage, gfxAddr: U32)
    requires Fresh(17, ready) && ready.r.space == 0x2_0000 - 64
    ensures var r := AfterTest(ready, t, gfxAddr).r;
            && r.space == (if PageGiven(t) then 0x2_0000 - 64 - 32 else 0x2_0000 - 64)
            && r.tail == r.regTail == (if PageGiven(t) then 36 else 0)
  {
    TestRunsIs(t);
    hide Run, TestPacket, HeadOffset, Pow2, TestRuns, PageGiven;
    if TestRuns(t) {
      FieldsAfterTest(ready, gfxAddr);
    }
  }

  /** The set-up of the render ring, self-test included. */
  method RenderInit(gtt: GttDevice, dev: Device, ring: Ring, mappableBase: nat, env: Environment, t: TestPage)
    returns (ret: int, ghost ready: Machine)
    requires gtt.Valid() && dev.Valid()
    modifies gtt, gtt.gsm, dev, ring, ring.virtualStart
    ensures gtt.Valid() && gtt.State() == var gm := InsertAll(old(gtt.State()), Mapped(env));
                                          if ret == 0 then AfterMapping(gm, t.page, 1) else gm
    ensures ret == InitStatus(env, Trunc32((old(gtt.gttEntry) + 1) * PAGE_SIZE))
    ensures Outcome(ret, env, old(gtt.gttEntry))
    ensures dev.Valid()
    ensures dev.trace == old(dev.trace) + InitOps(env, t, Trunc32(old(gtt.gttEntry) * PAGE_SIZE),
                                                  Trunc32((old(gtt.gttEntry) + 1) * PAGE_SIZE))
    ensures Reported(old(dev.trace), dev.trace, ret, env, t, old(gtt.gttEntry))
    ensures ret == 0 ==> InitDone(old(gtt.State()), InsertAll(old(gtt.State()), Mapped(env)), ready, ring,
                                  mappableBase, env, t)
  {
    hide InsertAll, Mapped, ReachesHardware, RingStarted, Trunc32, SetupOps, InitStatus, RunOps, Atomic, Outcome;
    hide SetUpDone, TestOps, AfterMapping, TablesDone, RingLength, Fresh, AfterTest, PageGiven, Reported;
    ghost var g := gtt.State();
    ReportedInit(dev.trace, env, t, g.next);
    ready := ring.State();
    ret := SetUpRing(gtt, dev, ring, mappableBase, env);
    if ret != 0 {
      return;
    }
    ready := ring.State();
    ReachedIfDone(env, Trunc32((g.next + 1) * PAGE_SIZE));
    DoneBeforeTest(g, gtt.State(), ring, mappableBase, env, t);
    DoneAfterTest(ready, t, GfxAddr(gtt.State()));
    AfterTestIs(ready, t, GfxAddr(gtt.State()));
    CheckDwordTemp(gtt, dev, ring, t);
    TestRunsIs(t);
    TailOnlyIfRun(t, ring.regTail);
  }

  lemma AfterTestIs(m: Machine, t: TestPage, gfxAddr: U32)
    ensures AfterTest(m, t, gfxAddr) == if TestRuns(t) then Run(m, TestPacket(gfxAddr)) else m
  {
  }

  lemma ReachedIfDone(env: Environment, start: U32)
    requires InitStatus(env, start) == 0
    ensures ReachesHardware(env)
  {
    hide ReachesHardware, RingStarted;
  }

  lemma TailOnlyIfRun(t: TestPage, tail: U32)
    requires TestRuns(t) ==> tail == TEST_TAIL
    ensures TestOps(t, tail) == TestOps(t, TEST_TAIL)
  {
    hide InsertOps, AllocationStatus, DUMPED;
  }

  // ---- forcewake over the whole of set-up ----

  lemma TestQuiet(t: TestPage)
    ensures Quiet(TestOps(t, TEST_TAIL))
  {
    ReadsOfQuiet(DUMPED);
    hide AllocationStatus, DUMPED, ReadsOf;
  }

  /** Over all register accesses of set-up, after any balanced run and whatever kernel and hardware
      answer, every read that needs the core finds it awake. A ring that was programmed but did not start
      leaves one reference taken and the core awake; otherwise count and wake bit are as before. */
  lemma InitAwake(before: seq<Op>, env: Environment, t: TestPage, status: U32, start: U32)
    requires Balanced(before) && LeavesWakeRegister(before) && Balance(before) + 1 < TWO_32
    ensures var c := RunOps(SANITIZED, before);
            var c' := RunOps(SANITIZED, before + InitOps(env, t, status, start));
            var stalled := ReachesHardware(env) && !RingStarted(env.hw, start);
            && ReadsAwake(c'.log)
            && c'.count == c.count + (if stalled then 1 else 0)
            && (Awake(c'.mt) <==> Awake(c.mt) || stalled)
  {
    InitBalanced(before, env, t, status, start);
    BalancedRun(before);
    hide RunOps, Balance, Balanced, ReadsAwake, Awake, LeavesWakeRegister, InitOps, RingStarted, ReachesHardware;
    BalancedRun(before + InitOps(env, t, status, start));
  }

  lemma InitBalanced(before: seq<Op>, env: Environment, t: TestPage, status: U32, start: U32)
    requires Balanced(before) && LeavesWakeRegister(before) && Balance(before) + 1 < TWO_32
    ensures var after := before + InitOps(env, t, status, start);
            && Balanced(after) && LeavesWakeRegister(after)
            && Balance(after) == Balance(before)
               + (if ReachesHardware(env) && !RingStarted(env.hw, start) then 1 else 0)
  {
    var setUp := SetupOps(env, status, start);
    TestQuiet(t);
    hide Balance, Balanced, Quiet, LeavesWakeRegister, ReachesHardware, RingStarted, TestOps, SetupOps;
    SetupBalanced(before, env, status, start);
    if InitStatus(env, start) == 0 {
      QuietAppend(before + setUp, TestOps(t, TEST_TAIL));
      assert before + InitOps(env, t, status, start) == before + setUp + TestOps(t, TEST_TAIL);
    } else {
      assert before + InitOps(env, t, status, start) == before + setUp;
    }
  }

  /** The failing case can happen: set-up returns -EIO with a reference taken and the core awake. */
  lemma StalledInit(t: TestPage, status: U32, start: U32)
    ensures InitStatus(STALLED, start) == -EIO
    ensures var c := RunOps(SANITIZED, InitOps(STALLED, t, status, start));
            c.count == 1 && Awake(c.mt)
  {
    assert ReachesHardware(STALLED) && !RingStarted(STALLED.hw, start);
    assert RunOps(SANITIZED, []) == SANITIZED;
    assert [] + InitOps(STALLED, t, status, start) == InitOps(STALLED, t, status, start);
    hide RunOps, InitOps, Awake, ReachesHardware, RingStarted;
    InitAwake([], STALLED, t, status, start);
  }
}
