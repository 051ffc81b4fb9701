/** The ring in physical memory: the CPU stores through the aperture, the GPU fetches through its
    own address, and both go through the translation table. */
module RingMemory {
  import opened Bits
  import opened Pte
  import opened Gtt
  import opened RingSpec
  import opened RingFifo

  /** Physical frames an entry can tell apart. */
  const FRAMES: nat := 0x800_0000

  /** Dwords by physical byte address; pages are handed out zeroed. */
  type Memory = map<nat, U32>

  function Load(mem: Memory, addr: nat): U32 {
    if addr in mem then mem[addr] else 0
  }

  /** The table with the two ways into the ring: the GPU address the aperture window starts at,
      and the GPU address programmed as ring start. */
  datatype Ways = Ways(table: seq<U32>, window: nat, start: nat)

  /** Both ways stay inside the table for a ring of `size` bytes. */
  predicate Covers(w: Ways, size: nat) {
    w.window + size <= |w.table| * PAGE_SIZE && w.start + size <= |w.table| * PAGE_SIZE
  }

  function CpuAddr(w: Ways, offset: nat): nat
    requires w.window + offset < |w.table| * PAGE_SIZE
  {
    Translate(w.table, w.window + offset)
  }

  function GpuAddr(w: Ways, offset: nat): nat
    requires w.start + offset < |w.table| * PAGE_SIZE
  {
    Translate(w.table, w.start + offset)
  }

  /** The two ways lead to the same byte for every ring offset. */
  ghost predicate WaysAgree(w: Ways, size: nat)
    requires Covers(w, size)
  {
    forall t :: 0 <= t < size ==> CpuAddr(w, t) == GpuAddr(w, t)
  }

  /** Different ring slots are different memory. */
  ghost predicate SlotsApart(w: Ways, size: nat)
    requires Covers(w, size)
  {
    forall i, j :: 0 <= i < j < size / 4 ==> CpuAddr(w, 4 * i) != CpuAddr(w, 4 * j)
  }

  datatype Physical = Physical(r: Regs, mem: Memory, h: History)

  /** The ring as the driver sees it through the window. */
  function View(w: Ways, size: nat, mem: Memory): (v: seq<U32>)
    requires Covers(w, size)
    ensures |v| == size / 4
  {
    seq(size / 4, i requires 0 <= i < size / 4 => Load(mem, CpuAddr(w, 4 * i)))
  }

  function Seen(w: Ways, p: Physical): Machine
    requires Covers(w, p.r.size)
  {
    Machine(p.r, View(w, p.r.size, p.mem), p.h)
  }

  /** Stores go through the window, fetches through the ring start; nothing is reached past the
      table. */
  function PhysicalStep(w: Ways, p: Physical, e: Event): Physical {
    var head := HeadOffset(p.r.regHead);
    var word := if w.start + head < |w.table| * PAGE_SIZE then Load(p.mem, GpuAddr(w, head)) else 0;
    var mem := if e.Emit? && w.window + p.r.tail < |w.table| * PAGE_SIZE
               then p.mem[CpuAddr(w, p.r.tail) := e.data] else p.mem;
    Physical(RegStep(p.r, e), mem, HistStep(p.r, p.h, e, word))
  }

  function PhysicalRun(w: Ways, p: Physical, es: seq<Event>): Physical
    decreases |es|
  {
    if es == [] then p else PhysicalRun(w, PhysicalStep(w, p, es[0]), es[1..])
  }

  lemma StoreInWindow(w: Ways, size: nat, mem: Memory, slot: nat, data: U32)
    requires Covers(w, size) && SlotsApart(w, size) && slot < size / 4
    ensures View(w, size, mem[CpuAddr(w, 4 * slot) := data]) == View(w, size, mem)[slot := data]
  {
    hide Translate;
    var mem' := mem[CpuAddr(w, 4 * slot) := data];
    forall i | 0 <= i < size / 4
      ensures Load(mem', CpuAddr(w, 4 * i)) == (if i == slot then data else Load(mem, CpuAddr(w, 4 * i)))
    {
      if i < slot {
        assert CpuAddr(w, 4 * i) != CpuAddr(w, 4 * slot);
      } else if slot < i {
        assert CpuAddr(w, 4 * slot) != CpuAddr(w, 4 * i);
      }
    }
    hide CpuAddr, Load;
  }

  /** Offsets of a reachable ring: the head is a slot of the ring, and so is the tail when a dword
      may be emitted. */
  lemma OffsetsInRing(k: nat, m: Machine)
    requires Inv(k, m)
    ensures HeadOffset(m.r.regHead) % 4 == 0 && HeadOffset(m.r.regHead) / 4 < m.r.size / 4
    ensures m.r.tail % 4 == 0 && (m.r.tail + 4 <= m.r.size ==> m.r.tail / 4 < m.r.size / 4)
    ensures m.r.size % 8 == 0
  {
    hide HeadOffset, TailOffset, Slot, UnreadIntact, Pow2;
  }

  lemma ViewAt(w: Ways, size: nat, mem: Memory, offset: nat)
    requires Covers(w, size) && WaysAgree(w, size) && offset % 4 == 0 && offset < size && size % 4 == 0
    ensures WordAt(View(w, size, mem), offset) == Load(mem, GpuAddr(w, offset))
  {
    assert CpuAddr(w, offset) == GpuAddr(w, offset);
    assert offset == 4 * (offset / 4);
    hide Translate, Load;
  }

  lemma EmitSeen(w: Ways, p: Physical, data: U32)
    requires Covers(w, p.r.size) && SlotsApart(w, p.r.size)
    requires p.r.tail % 4 == 0 && p.r.tail / 4 < p.r.size / 4
    ensures View(w, p.r.size, PhysicalStep(w, p, Emit(data)).mem)
         == MemStep(p.r, View(w, p.r.size, p.mem), Emit(data))
  {
    var slot := p.r.tail / 4;
    assert p.r.tail == 4 * slot;
    StoreInWindow(w, p.r.size, p.mem, slot, data);
    hide CpuAddr, View, HeadOffset, SlotsApart, RegStep, HistStep;
  }

  /** One event in physical memory does to the view what it does to the ring machine. */
  lemma StepSeen(k: nat, w: Ways, p: Physical, e: Event)
    requires Covers(w, p.r.size) && WaysAgree(w, p.r.size) && SlotsApart(w, p.r.size)
    requires Inv(k, Seen(w, p)) && Allowed(p.r, p.h, e)
    ensures PhysicalStep(w, p, e).r.size == p.r.size
    ensures Seen(w, PhysicalStep(w, p, e)) == Step(Seen(w, p), e)
  {
    OffsetsInRing(k, Seen(w, p));
    hide RingSpace;
    StepParts(w, p, e);
  }

  lemma StepParts(w: Ways, p: Physical, e: Event)
    requires Covers(w, p.r.size) && WaysAgree(w, p.r.size) && SlotsApart(w, p.r.size)
    requires HeadOffset(p.r.regHead) % 4 == 0 && HeadOffset(p.r.regHead) / 4 < p.r.size / 4
    requires p.r.size % 8 == 0
    requires e.Emit? ==> p.r.tail % 4 == 0 && p.r.tail / 4 < p.r.size / 4
    ensures PhysicalStep(w, p, e).r.size == p.r.size
    ensures Seen(w, PhysicalStep(w, p, e)) == Step(Seen(w, p), e)
  {
    ViewAt(w, p.r.size, p.mem, HeadOffset(p.r.regHead));
    if e.Emit? {
      EmitSeen(w, p, e.data);
    }
    SizeStays(p.r, e);
    hide HeadOffset, View, CpuAddr, GpuAddr, HistStep, RegStep, WordAt, SlotsApart, WaysAgree;
  }

  lemma SizeStays(r: Regs, e: Event)
    ensures RegStep(r, e).size == r.size
  {
    hide MaskedTail, NextHead, Idle, ToInt32, Trunc32;
  }

  lemma {:induction false} RunSeen(k: nat, w: Ways, p: Physical, es: seq<Event>)
    requires Covers(w, p.r.size) && WaysAgree(w, p.r.size) && SlotsApart(w, p.r.size)
    requires Inv(k, Seen(w, p)) && LegalRun(Seen(w, p), es)
    ensures PhysicalRun(w, p, es).r.size == p.r.size
    ensures Seen(w, PhysicalRun(w, p, es)) == Run(Seen(w, p), es)
    decreases |es|
  {
    hide Inv, Step, PhysicalStep, Allowed, Covers, WaysAgree, SlotsApart, View;
    if es != [] {
      StepSeen(k, w, p, es[0]);
      StepKeeps(k, Seen(w, p), es[0]);
      RunSeen(k, w, PhysicalStep(w, p, es[0]), es[1..]);
    }
  }

  lemma {:induction false} FetchesLegal(m: Machine, count: nat)
    ensures LegalRun(m, Fetches(count))
    decreases count
  {
    if count > 0 {
      assert Fetches(count)[1..] == Fetches(count - 1);
      hide Step;
      FetchesLegal(Step(m, Fetch), count - 1);
    }
  }

  /** Left to itself, the GPU fetches from memory what it fetches in the ring machine. */
  lemma DrainSeen(k: nat, w: Ways, p: Physical, count: nat)
    requires Covers(w, p.r.size) && WaysAgree(w, p.r.size) && SlotsApart(w, p.r.size)
    requires Inv(k, Seen(w, p))
    ensures PhysicalRun(w, p, Fetches(count)).h == Run(Seen(w, p), Fetches(count)).h
    ensures PhysicalRun(w, p, Fetches(count)).r == Run(Seen(w, p), Fetches(count)).r
  {
    hide Inv, LegalRun, WaysAgree, SlotsApart, PhysicalRun, Run, View;
    FetchesLegal(Seen(w, p), count);
    RunSeen(k, w, p, Fetches(count));
  }
}
