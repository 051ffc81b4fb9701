/** Setting the render ring up: status page and ring mapped one after the other, the ring
    registers programmed, and what that means for every byte of the ring. */
module Setup {
  import opened Bits
  import opened Pte
  import opened Memmgr
  import opened Gtt
  import opened RingSpec
  import opened RingFifo
  import opened RingBuffer
  import opened RingMemory
  import opened RingWindow
  import opened RingSystem
  import opened Forcewake
  import opened Effects
  import opened RingProgram

  const CACHE_LLC: U32 := 1
  const EIO: int := 5

  // ---- the set-up sequence ----

  /** What the kernel and the hardware answer during set-up: the two allocations, the mappings,
      and the ring registers. */
  datatype Environment = Environment(status: Kernel, ring: Kernel, kmapStatusOk: bool,
                                     kmapRingOk: bool, ioremapOk: bool, hw: Hardware)

  /** The objects that get mapped, in order. */
  function Mapped(env: Environment): seq<PageList> {
    if AllocationStatus(env.status, 1) != 0 then []
    else
      var status := PageList(env.status.frames[..1], CACHE_LLC);
      if !env.kmapStatusOk || AllocationStatus(env.ring, RING_PAGES) != 0 then [status]
      else [status, PageList(env.ring.frames[..RING_PAGES], CACHE_LLC)]
  }

  predicate ReachesHardware(env: Environment) {
    && AllocationStatus(env.status, 1) == 0 && env.kmapStatusOk
    && AllocationStatus(env.ring, RING_PAGES) == 0 && env.kmapRingOk && env.ioremapOk
  }

  /** The kernel gives both objects and all their mappings. */
  predicate KernelGives(env: Environment) {
    && Obtained(env.status, 1) && env.kmapStatusOk
    && Obtained(env.ring, 32) && env.kmapRingOk && env.ioremapOk
  }

  lemma ReachesIs(env: Environment)
    ensures ReachesHardware(env) <==> KernelGives(env)
  {
    StatusIs(env.status, 1);
    StatusIs(env.ring, RING_PAGES);
    hide AllocationStatus, Obtained;
  }

  /** The outcome of set-up: 1 if the kernel does not give everything, 0 if the ring is seen running at
      the address behind the entry, -5 otherwise. */
  ghost predicate Outcome(ret: int, env: Environment, entry: nat) {
    var start := (entry + 1) * 4096 % 0x1_0000_0000;
    && (ret == 1 <==> !KernelGives(env))
    && (ret == 0 <==> KernelGives(env) && SeenRunning(env.hw, start))
    && (ret == 0 || ret == 1 || ret == -5)
  }

  lemma StatusMeans(env: Environment, entry: nat)
    ensures Outcome(InitStatus(env, Trunc32((entry + 1) * PAGE_SIZE)), env, entry)
  {
    ReachesIs(env);
    StartedIs(env.hw, Trunc32((entry + 1) * PAGE_SIZE));
    hide ReachesHardware, KernelGives, RingStarted, SeenRunning;
  }

  function InitStatus(env: Environment, start: U32): int {
    if !ReachesHardware(env) then 1 else if !RingStarted(env.hw, start) then -EIO else 0
  }

  lemma MappedTotal(env: Environment)
    ensures Total(Mapped(env)) <= 1 + RING_PAGES
    ensures |Mapped(env)| == 2 ==> Total(Mapped(env)) == 1 + RING_PAGES
  {
    if AllocationStatus(env.status, 1) == 0 {
      var status := PageList(env.status.frames[..1], CACHE_LLC);
      TotalOfOne(status);
      if AllocationStatus(env.ring, RING_PAGES) == 0 {
        TotalOfTwo(status, PageList(env.ring.frames[..RING_PAGES], CACHE_LLC));
      }
    }
  }

  lemma MappedCases(env: Environment)
    ensures AllocationStatus(env.status, 1) != 0 ==> Mapped(env) == [] && !ReachesHardware(env)
    ensures AllocationStatus(env.status, 1) == 0 ==>
              && 1 <= |env.status.frames|
              && var status := PageList(env.status.frames[..1], CACHE_LLC);
                if !env.kmapStatusOk || AllocationStatus(env.ring, RING_PAGES) != 0
                then Mapped(env) == [status] && !ReachesHardware(env)
                else RING_PAGES <= |env.ring.frames|
                     && Mapped(env) == [status, PageList(env.ring.frames[..RING_PAGES], CACHE_LLC)]
                     && (ReachesHardware(env) <==> env.kmapRingOk && env.ioremapOk)
  {
  }

  lemma TotalOfOne(a: PageList)
    ensures Total([a]) == |a.pages|
  {
    assert [a][..0] == [];
  }

  lemma TotalOfTwo(a: PageList, b: PageList)
    ensures Total([a, b]) == |a.pages| + |b.pages|
  {
    TotalOfOne(a);
    assert [a, b][..1] == [a];
  }

  lemma InsertOne(g: GttState, a: PageList)
    ensures InsertAll(g, [a]) == InsertList(g, a)
  {
    assert [a][..0] == [];
    assert InsertAll(g, []) == g;
  }

  lemma InsertTwo(g: GttState, a: PageList, b: PageList)
    ensures InsertAll(g, [a, b]) == InsertList(InsertList(g, a), b)
  {
    assert [a, b][..1] == [a];
    InsertOne(g, a);
    hide InsertList;
  }

  /** Register accesses of one allocation with its insertion. */
  function InsertOps(k: Kernel, num: U32): seq<Op> {
    if AllocationStatus(k, num) != 0 then [] else TLB_FLUSH
  }

  /** Register accesses of the mapping half of set-up. */
  function MapOps(env: Environment): seq<Op> {
    InsertOps(env.status, 1)
    + if AllocationStatus(env.status, 1) != 0 || !env.kmapStatusOk then [] else InsertOps(env.ring, RING_PAGES)
  }

  function SetupOps(env: Environment, status: U32, start: U32): seq<Op> {
    MapOps(env) + if ReachesHardware(env) then ProgramOps(status, start, env.hw) else []
  }

  /** One allocation followed by its insertion at the next free address. */
  method AllocateAndMap(k: Kernel, obj: GpuObject, num: U32, gtt: GttDevice, dev: Device)
    returns (ret: int, gva: U32)
    requires dev.Valid() && gtt.Valid() && num < WRAP_PAGES
    modifies obj, gtt, gtt.gsm, dev
    ensures dev.Valid() && dev.trace == old(dev.trace) + InsertOps(k, num)
    ensures gtt.Valid() && ret == AllocationStatus(k, num)
    ensures ret != 0 ==> gtt.State() == old(gtt.State())
    ensures ret == 0 ==> gtt.State() == InsertList(old(gtt.State()), PageList(k.frames[..num], CACHE_LLC))
    ensures ret == 0 ==> gva == GfxAddr(old(gtt.State())) && gva != NO_ADDRESS
  {
    gva := NO_ADDRESS;
    ret := AllocateObject(k, obj, num);
    if ret != 0 {
      return;
    }
    WalkRoundTripSmall(k.frames[..num]);
    NeverTheErrorValue(gtt.State());
    gva := gtt.Insert(dev, obj.pgList, CACHE_LLC);
  }

  /** The table after mapping a freshly allocated object, which may have failed. */
  function AfterMapping(g: GttState, k: Kernel, num: U32): GttState {
    if AllocationStatus(k, num) != 0 then g else InsertList(g, PageList(k.frames[..num], CACHE_LLC))
  }

  /** The status page: one page, mapped, and seen by the kernel. */
  method MapStatusPage(gtt: GttDevice, dev: Device, ring: Ring, env: Environment) returns (ok: bool)
    requires dev.Valid() && gtt.Valid()
    modifies gtt, gtt.gsm, dev, ring`gvaStatus
    ensures dev.Valid() && dev.trace == old(dev.trace) + InsertOps(env.status, 1)
    ensures gtt.Valid() && gtt.State() == AfterMapping(old(gtt.State()), env.status, 1)
    ensures ok <==> AllocationStatus(env.status, 1) == 0 && env.kmapStatusOk
    ensures ok ==> ring.gvaStatus == GfxAddr(old(gtt.State()))
  {
    hide InsertList, AllocationStatus, GfxAddr, InsertOps;
    var statusObj := new GpuObject();
    var ret, gva := AllocateAndMap(env.status, statusObj, 1, gtt, dev);
    if ret != 0 {
      return false;
    }
    ring.gvaStatus := gva;
    return env.kmapStatusOk;
  }

  /** The ring pages, mapped, and the window on them opened one page into the aperture. */
  method MapRing(gtt: GttDevice, dev: Device, ring: Ring, mappableBase: nat, env: Environment)
    returns (ok: bool)
    requires dev.Valid() && gtt.Valid()
    modifies gtt, gtt.gsm, dev, ring`gvaRingbuffer, ring`windowBase, ring`virtualStart
    ensures dev.Valid() && dev.trace == old(dev.trace) + InsertOps(env.ring, RING_PAGES)
    ensures gtt.Valid() && gtt.State() == AfterMapping(old(gtt.State()), env.ring, RING_PAGES)
    ensures ok <==> AllocationStatus(env.ring, RING_PAGES) == 0 && env.kmapRingOk && env.ioremapOk
    ensures ok ==> ring.gvaRingbuffer == GfxAddr(old(gtt.State())) && ring.windowBase == mappableBase + PAGE_SIZE
    ensures ok ==> fresh(ring.virtualStart) && ring.virtualStart.Length == RING_BYTES / 4
  {
    hide InsertList, AllocationStatus, GfxAddr, InsertOps;
    var ringObj := new GpuObject();
    var ret, gva := AllocateAndMap(env.ring, ringObj, RING_PAGES, gtt, dev);
    if ret != 0 {
      return false;
    }
    ring.gvaRingbuffer := gva;
    if !env.kmapRingOk || !env.ioremapOk {
      return false;
    }
    ring.windowBase := mappableBase + PAGE_SIZE;
    ring.virtualStart := new U32[RING_BYTES / 4](_ => 0);
    return true;
  }

  /** Mapping the status page and then, if it worked, the ring inserts exactly the objects in
      order. */
  lemma MappedInOrder(g: GttState, env: Environment)
    ensures InsertAll(g, Mapped(env))
         == var g1 := AfterMapping(g, env.status, 1);
            if AllocationStatus(env.status, 1) != 0 || !env.kmapStatusOk then g1
            else AfterMapping(g1, env.ring, RING_PAGES)
  {
    MappedCases(env);
    hide InsertAll, InsertList, Mapped;
    InsertNone(g);
    if AllocationStatus(env.status, 1) == 0 {
      var status := PageList(env.status.frames[..1], CACHE_LLC);
      InsertOne(g, status);
      if AllocationStatus(env.ring, RING_PAGES) == 0 {
        InsertTwo(g, status, PageList(env.ring.frames[..RING_PAGES], CACHE_LLC));
      }
    }
  }

  /** Behind one mapped page the next address is one page on. */
  lemma AddressBehindOne(g: GttState, k: Kernel)
    requires AllocationStatus(k, 1) == 0
    ensures GfxAddr(AfterMapping(g, k, 1)) == Trunc32((g.next + 1) * PAGE_SIZE)
  {
    InsertedNext(g, PageList(k.frames[..1], CACHE_LLC));
    hide InsertList, Trunc32;
    NextAddress(g.next);
  }

  lemma NextAddress(next: U32)
    ensures Trunc32(Trunc32(next + 1) * PAGE_SIZE) == Trunc32((next + 1) * PAGE_SIZE)
  {
  }

  /** First half of set-up: the status page, then the ring. */
  method MapObjects(gtt: GttDevice, dev: Device, ring: Ring, mappableBase: nat, env: Environment)
    returns (ok: bool)
    requires dev.Valid() && gtt.Valid()
    modifies gtt, gtt.gsm, dev, ring
    ensures gtt.Valid()
    ensures gtt.State() == InsertAll(old(gtt.State()), Mapped(env))
    ensures dev.Valid() && dev.trace == old(dev.trace) + MapOps(env)
    ensures ok <==> ReachesHardware(env)
    ensures ok ==>
              && ring.size == RING_BYTES && ring.windowBase == mappableBase + PAGE_SIZE
              && ring.gvaStatus == Trunc32(old(gtt.gttEntry) * PAGE_SIZE)
              && ring.gvaRingbuffer == Trunc32((old(gtt.gttEntry) + 1) * PAGE_SIZE)
              && fresh(ring.virtualStart) && ring.virtualStart.Length == RING_BYTES / 4
  {
    MappedInOrder(gtt.State(), env);
    if AllocationStatus(env.status, 1) == 0 {
      AddressBehindOne(gtt.State(), env.status);
    }
    MapCases(dev.trace, env);
    hide AfterMapping, Total, InsertAll, AllocationStatus, Trunc32, Mapped, InsertOps, MapOps, RunOps;
    ring.size := PAGE_SIZE * RING_PAGES;
    ok := MapStatusPage(gtt, dev, ring, env);
    if ok {
      ok := MapRing(gtt, dev, ring, mappableBase, env);
    }
  }

  lemma MapCases(before: seq<Op>, env: Environment)
    ensures before + MapOps(env)
         == if AllocationStatus(env.status, 1) != 0 || !env.kmapStatusOk then before + InsertOps(env.status, 1)
            else before + InsertOps(env.status, 1) + InsertOps(env.ring, RING_PAGES)
  {
    hide AllocationStatus, InsertOps;
  }

  lemma InsertNone(g: GttState)
    ensures InsertAll(g, []) == g
  {
  }

  lemma InsertedNext(g: GttState, a: PageList)
    ensures InsertList(g, a).next == Trunc32(g.next + |a.pages|)
  {
  }

  lemma StartedSpace(m: Machine)
    requires Fresh(17, m)
    ensures m.r.size == RING_BYTES && RingSpace(m.r) == RING_BYTES - RING_FREE_SPACE
  {
    Powers();
    hide Pow2, HeadOffset;
    RingSpaceExact(m.r);
  }

  // ---- the words that reach the hardware ----

  /** One flush of the translations for each object mapped, and the words of the programming. */
  function SetupWords(env: Environment, status: U32, start: U32): seq<Op> {
    (if Obtained(env.status, 1) then [Write(0x10_1008, 1)] else [])
    + (if Obtained(env.status, 1) && env.kmapStatusOk && Obtained(env.ring, 32) then [Write(0x10_1008, 1)] else [])
    + if KernelGives(env) then ProgramWords(status, start, env.hw) else []
  }

  lemma InsertEffects(k: Kernel, num: U32)
    ensures EffectsOf(InsertOps(k, num)) == if Obtained(k, num) then [Write(0x10_1008, 1)] else []
  {
    StatusIs(k, num);
    EffectsOfPair(TLB_FLUSH[0], TLB_FLUSH[1]);
    EffectsOfReads([]);
    hide AllocationStatus, Obtained, EffectsOf;
  }

  lemma SetupEffects(env: Environment, status: U32, start: U32)
    ensures EffectsOf(SetupOps(env, status, start)) == SetupWords(env, status, start)
  {
    InsertEffects(env.status, 1);
    InsertEffects(env.ring, RING_PAGES);
    EffectsOfReads([]);
    ReachesIs(env);
    StatusIs(env.status, 1);
    ProgramEffects(status, start, env.hw);
    hide EffectsOf, AllocationStatus, Obtained, ReachesHardware, KernelGives, InsertOps, ProgramOps, ProgramWords;
    var second := if AllocationStatus(env.status, 1) != 0 || !env.kmapStatusOk then []
                  else InsertOps(env.ring, RING_PAGES);
    EffectsAppend(InsertOps(env.status, 1), second);
    EffectsAppend(MapOps(env), if ReachesHardware(env) then ProgramOps(status, start, env.hw) else []);
  }

  // ---- the first half ends with a wired ring ----

  /** Mapped behind entry `next`: the status page and then the ring, every byte where its page is, all of
      it valid and cached. */
  ghost predicate PagesServed(table: seq<U32>, next: nat, env: Environment) {
    && 1 <= |env.status.frames| && RING_PAGES <= |env.ring.frames|
    && CachedEntries(table, next, next + 1 + RING_PAGES)
    && BytesAt(table, next * PAGE_SIZE, env.status.frames, 1)
    && BytesAt(table, (next + 1) * PAGE_SIZE, env.ring.frames, RING_PAGES)
  }

  /** The first `count` frames are reached, byte by byte, from GPU address `base` on. */
  ghost predicate BytesAt(table: seq<U32>, base: nat, frames: seq<nat>, count: nat)
    requires count <= |frames|
  {
    forall t: nat :: t < count * PAGE_SIZE ==> ByteAt(table, base, frames, t)
  }

  predicate ByteAt(table: seq<U32>, base: nat, frames: seq<nat>, t: nat)
    requires t < |frames| * PAGE_SIZE
  {
    base + t < |table| * PAGE_SIZE && Translate(table, base + t) == FrameByte(frames, t)
  }

  lemma ObjectAt(g: GttState, os: seq<PageList>, i: nat, frames: seq<nat>, base: nat)
    requires i < |os| && Fits(g, Total(os)) && Base(g, os, i) == base
    requires |os[i].pages| <= |frames| && os[i].pages == frames[..|os[i].pages|]
    ensures BytesAt(InsertAll(g, os).table, base, frames, |os[i].pages|)
  {
    hide InsertAll, Translate, Total, Base;
    forall t: nat | t < |os[i].pages| * PAGE_SIZE
      ensures ByteAt(InsertAll(g, os).table, base, frames, t)
    {
      AllObjectsMapped(g, os, i, t);
    }
  }

  lemma MappedServed(g: GttState, env: Environment)
    requires Fits(g, 1 + RING_PAGES) && ReachesHardware(env)
    ensures PagesServed(InsertAll(g, Mapped(env)).table, g.next, env)
  {
    MappedCases(env);
    MappedTotal(env);
    var os := Mapped(env);
    TotalOfOne(os[0]);
    assert os[..0] == [] && os[..1] == [os[0]] && Total([]) == 0;
    hide InsertAll, CachedEntries, Total, Base, Mapped, BytesAt, ReachesHardware, AllocationStatus;
    AllCached(g, os);
    BaseExact(g, os, 0);
    BaseExact(g, os, 1);
    ObjectAt(g, os, 0, env.status.frames, g.next * PAGE_SIZE);
    ObjectAt(g, os, 1, env.ring.frames, (g.next + 1) * PAGE_SIZE);
  }

  /** Mapped into an empty table, the ring is wired and lies below the next free entry. */
  lemma MappedBytes(g: GttState, env: Environment)
    requires g.next == 0 && Fits(g, 1 + RING_PAGES) && ReachesHardware(env)
    ensures var g' := InsertAll(g, Mapped(env));
            && g'.next == 1 + RING_PAGES && Trunc32((g.next + 1) * PAGE_SIZE) == PAGE_SIZE
            && RingWired(Ways(g'.table, PAGE_SIZE, PAGE_SIZE), env.ring.frames)
  {
    MappedCases(env);
    MappedTotal(env);
    var status := PageList(env.status.frames[..1], CACHE_LLC);
    var ring := PageList(env.ring.frames[..RING_PAGES], CACHE_LLC);
    assert Objects(status, ring, []) == Mapped(env);
    NextExact(g, Mapped(env));
    WaysCover(g, status, ring, []);
    hide InsertAll, CpuAddr, GpuAddr, Total, Base, Mapped;
    forall t | 0 <= t < RING_BYTES
      ensures CpuAddr(RingWays(g, status, ring, []), t) == GpuAddr(RingWays(g, status, ring, []), t)
              == FrameByte(env.ring.frames, t)
    {
      RingBytes(g, status, ring, [], t);
    }
  }

  /** The registers and addresses of a set-up that found `entry` the first free table entry. */
  ghost predicate HardwareSet(ring: Ring, entry: nat, mappableBase: nat)
    reads ring
  {
    && ring.windowBase == mappableBase + PAGE_SIZE
    && ring.regStatusPage == Trunc32(entry * PAGE_SIZE)
    && ring.regStart == Trunc32((entry + 1) * PAGE_SIZE)
    && RingLength(ring.regCtl) == ring.size == RING_BYTES
  }

  /** The ring as the registers' set-up leaves it. */
  ghost predicate RingReady(ring: Ring, entry: nat, mappableBase: nat)
    reads ring, ring.virtualStart
  {
    && Fresh(17, ring.State()) && HardwareSet(ring, entry, mappableBase)
    && ring.space == RingSpace(ring.Fields()) == RING_BYTES - RING_FREE_SPACE
  }

  lemma ProgrammedReady(ring: Ring, entry: nat, mappableBase: nat)
    requires Fresh(17, ring.State()) && ring.space == RingSpace(ring.Fields())
    requires ring.windowBase == mappableBase + PAGE_SIZE && ring.regCtl == CtlWord(RING_BYTES)
    requires ring.regStatusPage == Trunc32(entry * PAGE_SIZE)
    requires ring.regStart == Trunc32((entry + 1) * PAGE_SIZE)
    ensures RingReady(ring, entry, mappableBase)
  {
    StartedSpace(ring.State());
    CtlRoundTrip(RING_BYTES);
    hide RingSpace, RingLength, CtlWord, Fresh;
  }

  /** Second half: the mapped ring is programmed and, if it starts, ready. */
  method StartMapped(dev: Device, ring: Ring, hw: Hardware, ghost entry: nat, ghost mappableBase: nat)
    returns (started: bool)
    requires dev.Valid() && ring.size == RING_BYTES && ring.virtualStart.Length == RING_BYTES / 4
    requires ring.windowBase == mappableBase + PAGE_SIZE
    requires ring.gvaStatus == Trunc32(entry * PAGE_SIZE)
    requires ring.gvaRingbuffer == Trunc32((entry + 1) * PAGE_SIZE)
    modifies dev, ring
    ensures dev.Valid()
    ensures dev.trace == old(dev.trace) + ProgramOps(old(ring.gvaStatus), old(ring.gvaRingbuffer), hw)
    ensures started <==> RingStarted(hw, old(ring.gvaRingbuffer))
    ensures ring.regStart == old(ring.gvaRingbuffer) && ring.virtualStart == old(ring.virtualStart)
    ensures started ==> RingReady(ring, entry, mappableBase)
  {
    hide RingSpace, CtlWord, Fresh, ProgramOps, RingStarted, RingReady, Trunc32, RunOps;
    started := StartRing(dev, ring, hw);
    if started {
      ProgrammedReady(ring, entry, mappableBase);
    }
  }

  lemma SetupCases(before: seq<Op>, env: Environment, status: U32, start: U32)
    ensures !ReachesHardware(env) ==>
              InitStatus(env, start) == 1 && before + SetupOps(env, status, start) == before + MapOps(env)
    ensures ReachesHardware(env) ==>
              && InitStatus(env, start) == (if RingStarted(env.hw, start) then 0 else -EIO)
              && before + SetupOps(env, status, start) == before + MapOps(env) + ProgramOps(status, start, env.hw)
  {
    hide ReachesHardware, MapOps, ProgramOps, RingStarted;
  }

  // ---- from set-up to first in, first out ----

  function SetUpSystem(g: GttState, start: nat, m: Machine, mem: Memory): System {
    System(g, PAGE_SIZE, start, Physical(m.r, mem, m.h))
  }

  /** What the GPU has loaded is a published prefix of what the driver stored, and left to itself it
      loads everything published, up to an odd last dword. */
  ghost predicate InOrder(s: System) {
    var h := s.p.h;
    && |h.fetched| <= Even(h.published) <= h.published <= |h.emitted|
    && h.fetched == h.emitted[..|h.fetched|]
    && PhysicalRun(WaysOf(s), s.p, Fetches(Even(h.published) - |h.fetched|)).h.fetched
       == h.emitted[..Even(h.published)]
  }

  /** From this table and ring on, whatever memory holds and whatever is mapped meanwhile, every legal
      order of ring events is in order. */
  ghost predicate Delivers(g: GttState, start: nat, m: Machine) {
    forall mem: Memory, xs: seq<Happening> :: SystemLegal(SetUpSystem(g, start, m, mem), xs) ==>
      InOrder(SystemRun(SetUpSystem(g, start, m, mem), xs))
  }

  lemma SetUpWired(g: GttState, frames: seq<nat>, m: Machine, mem: Memory)
    requires Fresh(17, m) && 1 + RING_PAGES <= g.next
    requires RingWired(Ways(g.table, PAGE_SIZE, PAGE_SIZE), frames) && FramesApart(frames[..RING_PAGES])
    ensures var s := SetUpSystem(g, PAGE_SIZE, m, mem);
            Wired(s) && Fresh(17, Seen(WaysOf(s), s.p))
  {
    StartedSpace(m);
    hide Pow2, HeadOffset, CpuAddr, GpuAddr, RingSpace, FramesApart;
    WindowSlotsApart(Ways(g.table, PAGE_SIZE, PAGE_SIZE), frames);
    hide SlotsApart, WaysAgree, RingWired;
  }

  /** The whole chain: a fresh ring wired to distinct frames delivers in order. */
  lemma FifoThroughTheTable(g: GttState, frames: seq<nat>, m: Machine)
    requires Fresh(17, m) && 1 + RING_PAGES <= g.next
    requires RingWired(Ways(g.table, PAGE_SIZE, PAGE_SIZE), frames) && FramesApart(frames[..RING_PAGES])
    ensures Delivers(g, PAGE_SIZE, m)
  {
    hide Fresh, RingWired, FramesApart, SystemRun, SystemLegal, Wired, Seen;
    forall mem: Memory, xs: seq<Happening> | SystemLegal(SetUpSystem(g, PAGE_SIZE, m, mem), xs)
      ensures InOrder(SystemRun(SetUpSystem(g, PAGE_SIZE, m, mem), xs))
    {
      SetUpWired(g, frames, m, mem);
      FifoInSystem(17, SetUpSystem(g, PAGE_SIZE, m, mem), xs);
    }
  }

  /** The window and the ring start lead to the same byte of the allocated pages for every offset, and
      if those pages are distinct frames the ring delivers in order. */
  ghost predicate Serves(g: GttState, start: nat, m: Machine, frames: seq<nat>) {
    && RingWired(Ways(g.table, PAGE_SIZE, start), frames)
    && (FramesApart(frames[..RING_PAGES]) ==> Delivers(g, start, m))
  }

  lemma FirstSetUpServes(g: GttState, env: Environment, m: Machine)
    requires g.next == 0 && Fits(g, 1 + RING_PAGES) && ReachesHardware(env) && Fresh(17, m)
    ensures Serves(InsertAll(g, Mapped(env)), Trunc32((g.next + 1) * PAGE_SIZE), m, env.ring.frames)
  {
    MappedBytes(g, env);
    hide InsertAll, Mapped, FramesApart, Delivers, Fresh, Trunc32, CpuAddr, GpuAddr, FrameByte;
    if FramesApart(env.ring.frames[..RING_PAGES]) {
      FifoThroughTheTable(InsertAll(g, Mapped(env)), env.ring.frames, m);
    }
  }

  /** The outcome of a successful set-up that took the table from `g` to `g'`: a ready ring, its pages
      served if the table has room for them, and the ring itself if the table was empty. */
  ghost predicate SetUpDone(g: GttState, g': GttState, ring: Ring, mappableBase: nat, env: Environment)
    reads ring, ring.virtualStart
  {
    && RingReady(ring, g.next, mappableBase)
    && (g.next + 1 + RING_PAGES <= |g.table| ==> PagesServed(g'.table, g.next, env))
    && (g.next == 0 && 1 + RING_PAGES <= |g.table| ==>
        Serves(g', ring.regStart, ring.State(), env.ring.frames))
  }

  lemma ReadyServes(g: GttState, g': GttState, ring: Ring, mappableBase: nat, env: Environment)
    requires RingReady(ring, g.next, mappableBase) && ReachesHardware(env)
    requires g' == InsertAll(g, Mapped(env)) && |g.table| <= MAX_ENTRIES
    ensures SetUpDone(g, g', ring, mappableBase, env)
  {
    hide Serves, InsertAll, Mapped, Trunc32, ReachesHardware, PagesServed;
    if g.next + 1 + RING_PAGES <= |g.table| {
      MappedServed(g, env);
    }
    if g.next == 0 && 1 + RING_PAGES <= |g.table| {
      FirstSetUpServes(g, env, ring.State());
    }
  }

  /** Set-up up to the self-test. Done first of all in a table with room for it, it leaves the window
      and the ring start leading to the same byte of the allocated pages for every offset, and a ring
      that delivers in order. */
  method SetUpRing(gtt: GttDevice, dev: Device, ring: Ring, mappableBase: nat, env: Environment)
    returns (ret: int)
    requires gtt.Valid() && dev.Valid()
    modifies gtt, gtt.gsm, dev, ring
    ensures gtt.Valid() && gtt.State() == InsertAll(old(gtt.State()), Mapped(env))
    ensures ret == InitStatus(env, Trunc32((old(gtt.gttEntry) + 1) * PAGE_SIZE))
    ensures Outcome(ret, env, old(gtt.gttEntry))
    ensures dev.Valid()
    ensures dev.trace == old(dev.trace) + SetupOps(env, Trunc32(old(gtt.gttEntry) * PAGE_SIZE),
                                                   Trunc32((old(gtt.gttEntry) + 1) * PAGE_SIZE))
    ensures ret == 0 ==> SetUpDone(old(gtt.State()), gtt.State(), ring, mappableBase, env)
    ensures ret == 0 ==> fresh(ring.virtualStart)
  {
    ghost var g := gtt.State();
    ghost var ops := dev.trace;
    ghost var status, start := Trunc32(g.next * PAGE_SIZE), Trunc32((g.next + 1) * PAGE_SIZE);
    SetupCases(ops, env, status, start);
    StatusMeans(env, g.next);
    hide Outcome;
    hide RingSpace, RingLength, CtlWord, Fresh, InsertAll, Total, Mapped, MapOps, ProgramOps;
    hide ReachesHardware, RingStarted, RingReady, Trunc32, SetupOps, InitStatus, RunOps, Atomic, SetUpDone;
    var ok := MapObjects(gtt, dev, ring, mappableBase, env);
    if !ok {
      return 1;
    }
    var started := StartMapped(dev, ring, env.hw, g.next, mappableBase);
    if started {
      ReadyServes(g, gtt.State(), ring, mappableBase, env);
    }
    return if started then 0 else -EIO;
  }

  /** Set-up keeps a balanced run balanced. A ring that was programmed but did not start leaves a
      reference behind; otherwise the balance is as before. */
  lemma SetupBalanced(before: seq<Op>, env: Environment, status: U32, start: U32)
    requires Balanced(before) && LeavesWakeRegister(before) && Balance(before) + 1 < TWO_32
    ensures var after := before + SetupOps(env, status, start);
            && Balanced(after) && LeavesWakeRegister(after)
            && Balance(after) == Balance(before)
               + (if ReachesHardware(env) && !RingStarted(env.hw, start) then 1 else 0)
  {
    var mapped := before + MapOps(env);
    MapQuiet(env);
    hide MapOps, ProgramOps, Balance, Balanced, Quiet, LeavesWakeRegister, ReachesHardware, RingStarted;
    QuietAppend(before, MapOps(env));
    if ReachesHardware(env) {
      ProgramBalanced(mapped, status, start, env.hw);
      assert before + SetupOps(env, status, start) == mapped + ProgramOps(status, start, env.hw);
    } else {
      assert before + SetupOps(env, status, start) == mapped;
    }
  }

  /** A kernel that gives everything and a ring whose control register never turns valid. */
  const STALLED: Environment := Environment(
    Kernel(true, true, [0], true), Kernel(true, true, seq(RING_PAGES, i => i + 1), true), true, true, true,
    Hardware(0, 0, 0, Poll(0, 0, 0), [], Poll(0, 0, 0)))

  lemma MapQuiet(env: Environment)
    ensures Quiet(MapOps(env))
  {
    hide AllocationStatus;
  }
}
