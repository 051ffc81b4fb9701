/** First-in first-out delivery through the ring, over every legal interleaving of packets with
    GPU fetches, across any number of wraps. */
module RingFifo {
  import opened Bits
  import opened RingSpec

  /** The TAIL register counts whole qwords, so an odd dword stays hidden from the GPU. */
  function Even(n: nat): nat {
    n - n % 2
  }

  /** Ring slot of the i-th dword ever emitted, for a ring of `n` slots. */
  function Slot(i: nat, n: nat): (slot: nat)
    requires 0 < n
    ensures slot < n
  {
    i % n
  }

  /** The registers stand at the offsets of the counters in the history. */
  ghost predicate OffsetsAgree(n: nat, r: Regs, h: History)
    requires 0 < n
  {
    && h.published <= |h.emitted|
    && HeadOffset(r.head) == 4 * Slot(h.seen, n)
    && HeadOffset(r.regHead) == 4 * Slot(|h.fetched|, n)
    && TailOffset(r.regTail) == 4 * Slot(Even(h.published), n)
    && r.tail == 4 * (Slot(h.published, n) + |h.emitted| - h.published)
  }

  /** Nothing is fetched before it is published, and everything emitted since the driver last
      looked at HEAD stays 64 bytes short of a full ring. */
  ghost predicate CountersAgree(n: nat, h: History) {
    && h.seen <= |h.fetched| <= Even(h.published) && h.published <= |h.emitted|
    && |h.emitted| + 16 <= h.seen + n
    && (!h.open ==> h.published == |h.emitted|)
  }

  /** Every dword not yet fetched is still in its slot. */
  ghost predicate UnreadIntact(n: nat, mem: seq<U32>, h: History)
    requires 0 < n == |mem|
  {
    forall i :: |h.fetched| <= i < |h.emitted| ==> mem[Slot(i, n)] == h.emitted[i]
  }

  ghost predicate Inv(k: nat, m: Machine) {
    && 7 <= k <= 21 && m.r.size == Pow2(k) && |m.mem| == m.r.size / 4
    && RingSize(m.r.size)
    && var n := |m.mem|;
      && OffsetsAgree(n, m.r, m.h)
      && CountersAgree(n, m.h)
      && m.r.tail <= m.r.size
      && m.h.fetched <= m.h.emitted
      && UnreadIntact(n, m.mem, m.h)
  }

  lemma FreshInv(k: nat, m: Machine)
    requires Fresh(k, m)
    ensures Inv(k, m)
  {
    SizeFacts(k, m.r.size);
    TailOffsetIs(0);
    hide HeadOffset, TailOffset;
  }

  // ---- slots ----

  lemma SlotApart(i: nat, p: nat, n: nat)
    requires 0 < n && i < p < i + n
    ensures Slot(i, n) != Slot(p, n)
  {
    ModDistance(i, p, n);
  }

  lemma SlotForward(q: nat, p: nat, n: nat)
    requires 0 < n && q <= p && Slot(q, n) + (p - q) <= n
    ensures Slot(p, n) == if Slot(q, n) + (p - q) == n then 0 else Slot(q, n) + (p - q)
  {
    var low, high := DivMod(q, n);
    if low + (p - q) == n {
      assert p == (high + 1) * n + 0;
      ModUnique(p, n, high + 1, 0);
    } else {
      assert p == high * n + (low + (p - q));
      ModUnique(p, n, high, low + (p - q));
    }
  }

  lemma SlotEven(p: nat, n: nat)
    requires 0 < n && n % 2 == 0
    ensures Slot(Even(p), n) == Even(Slot(p, n))
  {
    var half := n / 2;
    var low, high := DivMod(p / 2, half);
    assert p == high * n + (2 * low + p % 2) by {
      assert high * n == 2 * (half * high);
    }
    ModUnique(p, n, high, 2 * low + p % 2);
    ModUnique(Even(p), n, high, 2 * low);
  }

  // ---- the space computation ----

  /** Cyclic distance from the tail up to the head; an empty ring counts whole. */
  function Gap(head: nat, tail: nat, size: nat): nat
    requires tail < size
  {
    if head > tail then head - tail else head + size - tail
  }

  /** `ring_space` is the gap less the reserve, except for a head 1 to 63 bytes ahead of the
      tail, where it reports a whole ring too much. HEAD bits outside the mask do not matter. */
  lemma RingSpaceExact(r: Regs)
    requires RingSize(r.size) && HeadOffset(r.head) < r.size && r.tail < r.size
    ensures var head := HeadOffset(r.head);
            RingSpace(r) == Gap(head, r.tail, r.size) - RING_FREE_SPACE
                            + (if 0 < head - r.tail < RING_FREE_SPACE then r.size else 0)
  {
    hide HeadOffset;
  }

  /** Slots of two counters less than a ring apart: the cyclic distance is their difference. */
  lemma SlotGap(v: nat, p: nat, n: nat)
    requires 0 < n && v <= p < v + n
    ensures Gap(4 * Slot(v, n), 4 * Slot(p, n), 4 * n) == 4 * n - 4 * (p - v)
  {
    ModDistance(v, p, n);
  }

  /** A tail inside the ring stands at the next dword's slot. */
  lemma TailAtSlot(k: nat, m: Machine)
    requires Inv(k, m) && m.r.tail < m.r.size
    ensures 0 < |m.mem| && m.r.size == 4 * |m.mem| && m.r.tail == 4 * Slot(|m.h.emitted|, |m.mem|)
  {
    hide HeadOffset, TailOffset, RingSpace, Slot, Pow2, UnreadIntact;
    SlotForward(m.h.published, |m.h.emitted|, |m.mem|);
  }

  lemma CountersOf(k: nat, m: Machine)
    requires Inv(k, m)
    ensures RingSize(m.r.size) && 0 < |m.mem| && HeadOffset(m.r.head) == 4 * Slot(m.h.seen, |m.mem|) < m.r.size
    ensures m.h.seen <= |m.h.emitted| && |m.h.emitted| + 16 <= m.h.seen + |m.mem|
  {
    hide HeadOffset, TailOffset, RingSpace, Slot, Pow2, UnreadIntact;
  }

  /** The space is the free bytes behind the dwords emitted since HEAD was last copied. */
  lemma SpaceCountsUnseen(k: nat, m: Machine)
    requires Inv(k, m) && m.r.tail < m.r.size
    ensures RingSpace(m.r) == m.r.size - RING_FREE_SPACE - 4 * (|m.h.emitted| - m.h.seen)
  {
    TailAtSlot(k, m);
    CountersOf(k, m);
    hide Inv, HeadOffset, RingSpace, Slot;
    SlotGap(m.h.seen, |m.h.emitted|, |m.mem|);
    SpaceOfGap(m.r, m.h.seen, |m.h.emitted|, |m.mem|);
  }

  lemma SpaceOfGap(r: Regs, v: nat, p: nat, n: nat)
    requires RingSize(r.size) && r.size == 4 * n && v <= p && p + 16 <= v + n
    requires HeadOffset(r.head) < r.size && r.tail < r.size
    requires Gap(HeadOffset(r.head), r.tail, r.size) == 4 * n - 4 * (p - v)
    ensures RingSpace(r) == r.size - RING_FREE_SPACE - 4 * (p - v)
  {
    hide HeadOffset, RingSpace;
    RingSpaceExact(r);
  }

  // ---- every step keeps the invariant ----

  lemma BeginKeeps(k: nat, m: Machine, dwords: int)
    requires Inv(k, m) && Allowed(m.r, m.h, Begin(dwords))
    ensures Inv(k, Step(m, Begin(dwords)))
  {
    hide HeadOffset, TailOffset, RingSpace, ToInt32, Pow2;
  }

  /** Where an allowed dword goes, and that it leaves the reserve. */
  lemma EmitFits(k: nat, m: Machine, data: U32)
    requires Inv(k, m) && Allowed(m.r, m.h, Emit(data))
    ensures m.r.tail + 4 <= m.r.size && Trunc32(m.r.tail + 4) == m.r.tail + 4
    ensures |m.mem| > 0 && m.r.tail == 4 * Slot(|m.h.emitted|, |m.mem|)
    ensures |m.h.emitted| + 17 <= m.h.seen + |m.mem|
  {
    TailAtSlot(k, m);
    CountersOf(k, m);
    SpaceCountsUnseen(k, m);
    hide Inv, HeadOffset, RingSpace, Slot, Trunc32;
    Trunc32Same(m.r.tail + 4);
  }

  lemma EmitIntact(n: nat, mem: seq<U32>, h: History, data: U32)
    requires 0 < n == |mem| && UnreadIntact(n, mem, h) && |h.emitted| < |h.fetched| + n
    ensures UnreadIntact(n, mem[Slot(|h.emitted|, n) := data], h.(emitted := h.emitted + [data]))
  {
    var p := |h.emitted|;
    forall i | |h.fetched| <= i < p
      ensures Slot(i, n) != Slot(p, n)
    {
      SlotApart(i, p, n);
    }
    hide Slot;
  }

  lemma EmitKeeps(k: nat, m: Machine, data: U32)
    requires Inv(k, m) && Allowed(m.r, m.h, Emit(data))
    ensures Inv(k, Step(m, Emit(data)))
    ensures m.r.tail + 4 <= m.r.size && Trunc32(m.r.tail + 4) == m.r.tail + 4
  {
    EmitFits(k, m, data);
    EmitIntact(|m.mem|, m.mem, m.h, data);
    hide HeadOffset, TailOffset, RingSpace, Pow2, Slot, UnreadIntact, Trunc32;
    assert UnreadIntact(|m.mem|, Step(m, Emit(data)).mem, Step(m, Emit(data)).h) by {
      SameUnread(|m.mem|, Step(m, Emit(data)).mem, m.h.(emitted := m.h.emitted + [data]), Step(m, Emit(data)).h);
    }
  }

  lemma SameUnread(n: nat, mem: seq<U32>, h: History, h': History)
    requires 0 < n == |mem| && UnreadIntact(n, mem, h) && h'.emitted == h.emitted && h'.fetched == h.fetched
    ensures UnreadIntact(n, mem, h')
  {
  }

  /** Masking the tail only matters at the very end of the ring. */
  lemma WholeRing(k: nat, r: Regs, slot: nat)
    requires 7 <= k <= 21 && r.size == Pow2(k)
    requires 4 * slot < r.size && (r.tail == 4 * slot || (slot == 0 && r.tail == r.size))
    ensures MaskedTail(r) == 4 * slot
  {
    MaskedTailIs(k, r);
    hide MaskedTail, Pow2;
    if r.tail == r.size {
      ModUnique(r.tail, r.size, 1, 0);
    } else {
      ModUnique(r.tail, r.size, 0, r.tail);
    }
  }

  lemma HalfSlot(slot: nat)
    requires slot < 0x8_0000
    ensures 4 * slot / 8 % 0x4_0000 * 8 == 4 * Even(slot)
  {
    assert 4 * slot / 8 == slot / 2;
  }

  lemma SlotTailOffset(slot: nat)
    requires slot < 0x8_0000
    ensures TailOffset(4 * slot) == 4 * Even(slot)
  {
    TailOffsetIs(4 * slot);
    HalfSlot(slot);
    hide TailOffset;
  }

  lemma AdvancedTail(k: nat, m: Machine)
    requires Inv(k, m) && m.h.open
    ensures MaskedTail(m.r) == 4 * Slot(|m.h.emitted|, |m.mem|)
    ensures TailOffset(MaskedTail(m.r)) == 4 * Slot(Even(|m.h.emitted|), |m.mem|)
  {
    hide HeadOffset, TailOffset, RingSpace, MaskedTail, Pow2, Slot, UnreadIntact;
    var n, p := |m.mem|, |m.h.emitted|;
    SlotForward(m.h.published, p, n);
    var slot := Slot(p, n);
    WholeRing(k, m.r, slot);
    SlotTailOffset(slot);
    SlotEven(p, n);
  }

  lemma AdvanceKeeps(k: nat, m: Machine)
    requires Inv(k, m) && Allowed(m.r, m.h, Advance)
    ensures Inv(k, Step(m, Advance))
  {
    AdvancedTail(k, m);
    hide HeadOffset, TailOffset, RingSpace, MaskedTail, Pow2, Slot;
  }

  /** The hardware's idle test sees exactly whether all published qwords are fetched. */
  lemma IdleExact(k: nat, m: Machine)
    requires Inv(k, m)
    ensures Idle(m.r) <==> |m.h.fetched| == Even(m.h.published)
  {
    var n, c := |m.mem|, |m.h.fetched|;
    hide HeadOffset, TailOffset, RingSpace, Pow2, Slot, UnreadIntact;
    if c < Even(m.h.published) {
      SlotApart(c, Even(m.h.published), n);
    }
  }

  lemma NextFetch(k: nat, m: Machine)
    requires Inv(k, m) && |m.h.fetched| < Even(m.h.published)
    ensures 0 < |m.mem| && WordAt(m.mem, HeadOffset(m.r.regHead)) == m.h.emitted[|m.h.fetched|]
    ensures HeadOffset(NextHead(m.r.regHead, m.r.size)) == 4 * Slot(|m.h.fetched| + 1, |m.mem|)
  {
    var n, c := |m.mem|, |m.h.fetched|;
    hide HeadOffset, TailOffset, RingSpace, NextHead, Pow2, Slot;
    SlotForward(c, c + 1, n);
    NextHeadOffset(m.r.regHead, m.r.size);
  }

  lemma FetchKeeps(k: nat, m: Machine)
    requires Inv(k, m)
    ensures Inv(k, Step(m, Fetch))
    ensures Idle(m.r) <==> |m.h.fetched| == Even(m.h.published)
  {
    IdleExact(k, m);
    hide HeadOffset, TailOffset, RingSpace, NextHead, Pow2, Slot, WordAt, Idle;
    if |m.h.fetched| < Even(m.h.published) {
      NextFetch(k, m);
    }
  }

  lemma ReadHeadKeeps(k: nat, m: Machine)
    requires Inv(k, m)
    ensures Inv(k, Step(m, ReadHead))
  {
    hide HeadOffset, TailOffset, RingSpace, Pow2;
  }

  lemma StepKeeps(k: nat, m: Machine, e: Event)
    requires Inv(k, m) && Allowed(m.r, m.h, e)
    ensures Inv(k, Step(m, e))
  {
    match e
    case Begin(dwords) => BeginKeeps(k, m, dwords);
    case Emit(data) => EmitKeeps(k, m, data);
    case Advance => AdvanceKeeps(k, m);
    case Fetch => FetchKeeps(k, m);
    case ReadHead => ReadHeadKeeps(k, m);
  }

  lemma {:induction false} RunKeeps(k: nat, m: Machine, es: seq<Event>)
    requires Inv(k, m) && LegalRun(m, es)
    ensures Inv(k, Run(m, es))
    decreases |es|
  {
    hide Inv, Step, Allowed;
    if es != [] {
      StepKeeps(k, m, es[0]);
      RunKeeps(k, Step(m, es[0]), es[1..]);
    }
  }

  // ---- the theorems ----

  /** Safety over all runs: the GPU has taken exactly a prefix of the emitted dwords, in order
      and nothing unpublished, and no dword it has yet to take has been overwritten. */
  lemma Fifo(k: nat, m: Machine, es: seq<Event>)
    requires Fresh(k, m) && LegalRun(m, es)
    ensures var m' := Run(m, es); var h := m'.h;
            && |h.fetched| <= h.published <= |h.emitted|
            && h.fetched == h.emitted[..|h.fetched|]
            && |m'.mem| == m'.r.size / 4 > 0
            && forall i :: |h.fetched| <= i < |h.emitted| ==> m'.mem[i % |m'.mem|] == h.emitted[i]
  {
    hide Step, Allowed;
    FreshInv(k, m);
    RunKeeps(k, m, es);
  }

  function Fetches(count: nat): (es: seq<Event>)
    ensures |es| == count
  {
    seq(count, _ => Fetch)
  }

  lemma {:induction false} DrainInv(k: nat, m: Machine, count: nat)
    requires Inv(k, m) && |m.h.fetched| + count == Even(m.h.published)
    ensures var m' := Run(m, Fetches(count));
            Inv(k, m') && m'.h == m.h.(fetched := m.h.emitted[..Even(m.h.published)])
    decreases count
  {
    if count == 0 {
    } else {
      FetchKeeps(k, m);
      var m' := Step(m, Fetch);
      assert Fetches(count)[1..] == Fetches(count - 1);
      DrainInv(k, m', count - 1);
    }
  }

  /** Delivery: after any legal run the GPU, left to itself, takes everything published, up to
      an odd last dword that the qword TAIL register cannot announce. */
  lemma Drain(k: nat, m: Machine, es: seq<Event>)
    requires Fresh(k, m) && LegalRun(m, es)
    ensures var m' := Run(m, es);
            && |m'.h.fetched| <= Even(m'.h.published) <= |m'.h.emitted|
            && Run(m', Fetches(Even(m'.h.published) - |m'.h.fetched|)).h.fetched
               == m'.h.emitted[..Even(m'.h.published)]
  {
    hide Step, Allowed, Run;
    FreshInv(k, m);
    RunKeeps(k, m, es);
    DrainInv(k, Run(m, es), Even(Run(m, es).h.published) - |Run(m, es).h.fetched|);
  }
}
