/** The render ring as a producer/consumer machine: the driver's fields, the four hardware
    registers' offsets, the ring memory, and the history a run leaves behind. */
module RingSpec {
  import opened Bits

  const RING_HEAD_ADDR: nat := 0x001F_FFFC
  const RING_TAIL_ADDR: nat := 0x001F_FFF8
  const RING_FREE_SPACE: nat := 64
  const MAX_RING: nat := 0x20_0000

  /** The driver's view (`size`, `head`, `tail`, `space`) and the HEAD and TAIL registers. */
  datatype Regs = Regs(size: nat, head: U32, tail: U32, space: int, regHead: U32, regTail: U32)

  /** Byte offset in a HEAD register word; the bits above count wraps. */
  function HeadOffset(head: U32): nat {
    And(head, RING_HEAD_ADDR)
  }

  /** Byte offset in a TAIL register word: whole qwords. */
  function TailOffset(tail: U32): nat {
    And(tail, RING_TAIL_ADDR)
  }

  /** `ring_space`: unsigned subtraction, read as a signed number, wrapped once. */
  function RingSpace(r: Regs): int {
    var space := ToInt32(Sub32(HeadOffset(r.head), Trunc32(r.tail + RING_FREE_SPACE)));
    if space < 0 then space + r.size else space
  }

  /** What happens at the ring. `Fetch` is the GPU taking one dword, `ReadHead` the driver
      copying the HEAD register into its `head` field. */
  datatype Event = Begin(dwords: int) | Emit(data: U32) | Advance | Fetch | ReadHead

  predicate Idle(r: Regs) {
    HeadOffset(r.regHead) == TailOffset(r.regTail)
  }

  /** The HEAD register after one dword: at the end of the ring it wraps and counts. */
  function NextHead(head: U32, size: nat): U32 {
    if HeadOffset(head) + 4 == size then Trunc32((head / MAX_RING + 1) * MAX_RING + head % 4)
    else Trunc32(head + 4)
  }

  function MaskedTail(r: Regs): U32 {
    Trunc32(And(r.tail, Sub32(r.size, 1)))
  }

  function RegStep(r: Regs, e: Event): Regs {
    match e
    case Begin(dwords) => r.(space := ToInt32(r.space - 4 * dwords))
    case Emit(_) => r.(tail := Trunc32(r.tail + 4))
    case Advance => r.(tail := MaskedTail(r), regTail := MaskedTail(r))
    case Fetch => if Idle(r) then r else r.(regHead := NextHead(r.regHead, r.size))
    case ReadHead => r.(head := r.regHead)
  }

  /** `emitted`: every dword the driver stored, in order. `published`: how many of them the last
      advance announced. `fetched`: what the GPU took. `seen`: how many the GPU had taken when
      the driver last copied HEAD. `room`: dwords still reserved in the open packet. */
  datatype History = History(emitted: seq<U32>, published: nat, fetched: seq<U32>, seen: nat,
                             open: bool, room: nat)

  /** `word` is what the ring memory holds at the HEAD offset. */
  function HistStep(r: Regs, h: History, e: Event, word: U32): History {
    match e
    case Begin(dwords) => h.(open := true, room := if dwords < 0 then 0 else dwords)
    case Emit(data) => h.(emitted := h.emitted + [data], room := if h.room == 0 then 0 else h.room - 1)
    case Advance => h.(published := |h.emitted|, open := false, room := 0)
    case Fetch => if Idle(r) then h else h.(fetched := h.fetched + [word])
    case ReadHead => h.(seen := |h.fetched|)
  }

  datatype Machine = Machine(r: Regs, mem: seq<U32>, h: History)

  /** The ring memory, one dword per slot; a store beyond it lands elsewhere. */
  function MemStep(r: Regs, mem: seq<U32>, e: Event): seq<U32> {
    if e.Emit? && r.tail / 4 < |mem| then mem[r.tail / 4 := e.data] else mem
  }

  function WordAt(mem: seq<U32>, offset: nat): U32 {
    if offset / 4 < |mem| then mem[offset / 4] else 0
  }

  function Step(m: Machine, e: Event): Machine {
    Machine(RegStep(m.r, e), MemStep(m.r, m.mem, e),
            HistStep(m.r, m.h, e, WordAt(m.mem, HeadOffset(m.r.regHead))))
  }

  function Run(m: Machine, es: seq<Event>): Machine
    decreases |es|
  {
    if es == [] then m else Run(Step(m, es[0]), es[1..])
  }

  // ---- what the driver leaves to its callers ----

  /** The code checks none of this: packets must not be nested, and every dword must fit the space
      computed from the driver's copy of HEAD and the rest of the ring. What a packet reserves does
      not matter. */
  predicate Allowed(r: Regs, h: History, e: Event) {
    match e
    case Begin(_) => !h.open
    case Emit(_) => h.open && 4 <= RingSpace(r) && r.tail + 4 <= r.size
    case Advance => h.open
    case Fetch => true
    case ReadHead => true
  }

  predicate LegalRun(m: Machine, es: seq<Event>)
    decreases |es|
  {
    es == [] || (Allowed(m.r, m.h, es[0]) && LegalRun(Step(m, es[0]), es[1..]))
  }

  /** A ring just initialised: registers at offset zero, nothing emitted. */
  predicate Fresh(k: nat, m: Machine) {
    && 7 <= k <= 21 && m.r.size == Pow2(k) && |m.mem| == m.r.size / 4
    && HeadOffset(m.r.head) == HeadOffset(m.r.regHead) == 0
    && m.r.tail == m.r.regTail == 0
    && m.h == History([], 0, [], 0, false, 0)
  }

  // ---- offsets as arithmetic ----

  predicate RingSize(size: nat) {
    128 <= size <= MAX_RING && size % 8 == 0
  }

  lemma SizeFacts(k: nat, size: nat)
    requires 7 <= k <= 21 && size == Pow2(k)
    ensures RingSize(size)
    ensures TWO_32 == size * Pow2(32 - k)
  {
    Powers();
    Pow2Monotone(7, k);
    Pow2Monotone(k, 21);
    Pow2Add(k, 32 - k);
    Pow2Add(3, k - 3);
    hide Pow2;
    assert size == 8 * Pow2(k - 3);
  }

  lemma HeadOffsetIs(head: U32)
    ensures HeadOffset(head) == head / 4 % 0x8_0000 * 4
  {
    hide Pow2, And;
    Powers();
    AndShifted(2, head, 0x7_FFFF, RING_HEAD_ADDR);
    AndSizeMask(19, head / 4);
  }

  lemma TailOffsetIs(tail: U32)
    ensures TailOffset(tail) == tail / 8 % 0x4_0000 * 8
  {
    hide Pow2, And;
    Powers();
    AndShifted(3, tail, 0x3_FFFF, RING_TAIL_ADDR);
    AndSizeMask(18, tail / 8);
  }

  lemma MaskedTailIs(k: nat, r: Regs)
    requires 7 <= k <= 21 && r.size == Pow2(k)
    ensures MaskedTail(r) == r.tail % r.size
  {
    hide Pow2, And;
    SizeFacts(k, r.size);
    AndSizeMask(k, r.tail);
    ModBelow(r.tail, r.size);
  }

  lemma ModBelow(x: nat, n: nat)
    requires 0 < n
    ensures x % n < n
  {
  }

  lemma WrappedHead(wraps: nat, low: nat)
    requires low < 4
    ensures Trunc32(wraps * MAX_RING + low) / 4 % 0x8_0000 == 0
  {
    assert (wraps * MAX_RING + low) % TWO_32 == wraps % 2048 * MAX_RING + low;
    assert (wraps % 2048 * MAX_RING + low) / 4 == wraps % 2048 * 0x8_0000;
  }

  lemma AdvancedHead(head: U32)
    requires head / 4 % 0x8_0000 + 1 < 0x8_0000
    ensures Trunc32(head + 4) / 4 % 0x8_0000 == head / 4 % 0x8_0000 + 1
  {
    assert head + 4 < TWO_32;
  }

  lemma NextHeadOffset(head: U32, size: nat)
    requires RingSize(size) && HeadOffset(head) + 4 <= size
    ensures HeadOffset(NextHead(head, size)) == if HeadOffset(head) + 4 == size then 0 else HeadOffset(head) + 4
  {
    HeadOffsetIs(head);
    HeadOffsetIs(NextHead(head, size));
    hide HeadOffset, Trunc32;
    if HeadOffset(head) + 4 == size {
      WrappedHead(head / MAX_RING + 1, head % 4);
    } else {
      AdvancedHead(head);
    }
  }
}
