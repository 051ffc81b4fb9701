/** Packets behind any legal run: which are delivered, whatever they reserve, which the hardware can
    see, and how the space computation comes to be a whole ring too large. */
module RingPackets {
  import opened Bits
  import opened RingSpec
  import opened RingFifo
  import opened RingTail

  // ---- why the reserve is needed ----

  /** A packet as large as the whole ring leaves TAIL equal to HEAD: the GPU sees an empty ring
      and takes none of it. The code accepts such a packet. */
  lemma FullRingLooksEmpty(k: nat, m: Machine, data: seq<U32>)
    requires Fresh(k, m) && 4 * |data| == m.r.size
    ensures var m' := Run(m, Packet(data));
            m'.h.published == |data| && Idle(m'.r) && m'.h.fetched == []
  {
    var es := Packet(data);
    var m' := Run(m, es);
    SizeFacts(k, m.r.size);
    PublishedAll(m, |data|, data);
    PublishedTail(k, m, es);
    NoFetches(m, es);
    TailOffsetIs(0);
    hide Run, Pow2, HeadOffset;
    ModUnique(4 * |data|, m.r.size, 1, 0);
  }

  lemma {:induction false} NoFetches(m: Machine, es: seq<Event>)
    requires Fetch !in es
    ensures Run(m, es).h.fetched == m.h.fetched && Run(m, es).r.regHead == m.r.regHead
    decreases |es|
  {
    if es != [] {
      hide MaskedTail;
      NoFetches(Step(m, es[0]), es[1..]);
    }
  }

  // ---- one more packet ----

  lemma {:induction false} RunAppend(m: Machine, es: seq<Event>, fs: seq<Event>)
    ensures Run(m, es + fs) == Run(Run(m, es), fs)
    ensures LegalRun(m, es + fs) <==> LegalRun(m, es) && LegalRun(Run(m, es), fs)
    decreases |es|
  {
    hide Step, Allowed;
    if es == [] {
      assert [] + fs == fs;
    } else {
      assert (es + fs)[1..] == es[1..] + fs;
      RunAppend(Step(m, es[0]), es[1..], fs);
    }
  }

  lemma {:induction false} EmitsLegal(k: nat, m: Machine, data: seq<U32>)
    requires Inv(k, m) && m.h.open
    requires data != [] ==> 4 * |data| <= RingSpace(m.r) && m.r.tail + 4 * |data| <= m.r.size
    ensures LegalRun(m, Emits(data) + [Advance])
    decreases |data|
  {
    var es := Emits(data) + [Advance];
    if data == [] {
      assert es[1..] == [];
    } else {
      assert es[1..] == Emits(data[1..]) + [Advance];
      EmitKeeps(k, m, data[0]);
      SpaceAfterEmit(k, m, data[0]);
      hide Inv, MaskedTail, RingSpace;
      EmitsLegal(k, Step(m, es[0]), data[1..]);
    }
  }

  /** A dword takes four bytes off the computed space, up to the end of the ring. */
  lemma SpaceAfterEmit(k: nat, m: Machine, data: U32)
    requires Inv(k, m) && Allowed(m.r, m.h, Emit(data))
    ensures var m' := Step(m, Emit(data));
            && m'.r.tail == m.r.tail + 4 && m'.r.size == m.r.size && m'.h.open
            && (m'.r.tail < m'.r.size ==> RingSpace(m'.r) == RingSpace(m.r) - 4)
  {
    EmitKeeps(k, m, data);
    var m' := Step(m, Emit(data));
    SpaceCountsUnseen(k, m);
    if m'.r.tail < m'.r.size {
      SpaceCountsUnseen(k, m');
    }
    hide Inv, RingSpace, HeadOffset, TailOffset;
  }

  lemma PacketLegal(k: nat, m: Machine, dwords: int, data: seq<U32>)
    requires Inv(k, m) && !m.h.open
    requires 4 * |data| <= RingSpace(m.r) && m.r.tail + 4 * |data| <= m.r.size
    ensures LegalRun(m, Reserving(dwords, data))
  {
    assert Reserving(dwords, data)[1..] == Emits(data) + [Advance];
    BeginKeeps(k, m, dwords);
    SpaceAfterBegin(m, dwords);
    hide Inv, RingSpace;
    EmitsLegal(k, Step(m, Begin(dwords)), data);
  }

  lemma SpaceAfterBegin(m: Machine, dwords: int)
    ensures var m' := Step(m, Begin(dwords));
            RingSpace(m'.r) == RingSpace(m.r) && m'.r.tail == m.r.tail && m'.r.size == m.r.size && m'.h.open
  {
    hide ToInt32, HeadOffset, Trunc32, Sub32;
  }

  /** Behind any legal run, a packet whose dwords fit the computed space and the rest of the ring is
      again legal, whatever it reserves, and the GPU, left to itself, takes all of it behind
      everything before it, up to an odd last dword, and is then idle. */
  lemma PacketDelivered(k: nat, m: Machine, es: seq<Event>, dwords: int, data: seq<U32>)
    requires Fresh(k, m) && LegalRun(m, es) && !Run(m, es).h.open
    requires 4 * |data| <= RingSpace(Run(m, es).r) && Run(m, es).r.tail + 4 * |data| <= m.r.size
    ensures LegalRun(m, es + Reserving(dwords, data))
    ensures var m' := Run(m, es + Reserving(dwords, data)); var all := Run(m, es).h.emitted + data;
            && m'.h.emitted == all && m'.h.published == |all| && |m'.h.fetched| <= Even(|all|)
            && var last := Run(m', Fetches(Even(|all|) - |m'.h.fetched|));
              last.h.fetched == all[..Even(|all|)] && Idle(last.r)
  {
    var before := Run(m, es);
    SizeKept(m, es);
    FreshInv(k, m);
    RunKeeps(k, m, es);
    hide Run, Inv, Fresh, RingSpace, Reserving, Even, Fetches, Idle, Pow2, HeadOffset, TailOffset;
    PacketLegal(k, before, dwords, data);
    RunAppend(m, es, Reserving(dwords, data));
    PublishedAll(before, dwords, data);
    Drain(k, m, es + Reserving(dwords, data));
    DrainedIdle(k, m, es + Reserving(dwords, data));
  }

  // ---- exactly which packets the GPU sees ----

  /** Dwords the hardware takes to be waiting: the cyclic distance from HEAD to TAIL. */
  function Backlog(r: Regs): nat {
    var head, tail := HeadOffset(r.regHead), TailOffset(r.regTail);
    if head <= tail then (tail - head) / 4 else if head <= tail + r.size then (tail + r.size - head) / 4 else 0
  }

  lemma SlotDistance(c: nat, p: nat, n: nat)
    requires 0 < n && c <= p
    ensures var d := if Slot(c, n) <= Slot(p, n) then Slot(p, n) - Slot(c, n) else Slot(p, n) + n - Slot(c, n);
            d == (p - c) % n
  {
    var lc, hc := DivMod(c, n);
    var lp, hp := DivMod(p, n);
    assert n * hp - n * hc == (hp - hc) * n;
    if lc <= lp {
      ModUnique(p - c, n, hp - hc, lp - lc);
    } else {
      assert (hp - hc) * n == (hp - hc - 1) * n + n;
      ModUnique(p - c, n, hp - hc - 1, lp + n - lc);
    }
  }

  lemma BacklogIs(n: nat, r: Regs, c: nat, p: nat)
    requires 0 < n && r.size == 4 * n && c <= p
    requires HeadOffset(r.regHead) == 4 * Slot(c, n) && TailOffset(r.regTail) == 4 * Slot(p, n)
    ensures Backlog(r) == (p - c) % n
  {
    SlotDistance(c, p, n);
    hide HeadOffset, TailOffset, Slot;
  }

  lemma ModKeepsExactly(x: nat, n: nat)
    requires 0 < n
    ensures x % n == x <==> x < n
  {
    if x < n {
      ModUnique(x, n, 0, x);
    }
  }

  /** Behind any legal run and any packet: the hardware sees all the waiting dwords exactly when an
      even number is out and those waiting are fewer than the ring has slots. A ring filled to the
      last slot looks empty, which is what the reserve prevents. */
  lemma PacketVisibleExactly(k: nat, m: Machine, es: seq<Event>, data: seq<U32>)
    requires Fresh(k, m) && LegalRun(m, es)
    ensures var before := Run(m, es); var after := Run(before, Packet(data));
            && |before.h.fetched| <= |before.h.emitted|
            && var out := |before.h.emitted| + |data|;
              var waiting := out - |before.h.fetched|;
              Backlog(after.r) == waiting <==> out % 2 == 0 && 4 * waiting < m.r.size
  {
    var before := Run(m, es);
    var p, c := |before.h.emitted| + |data|, |before.h.fetched|;
    FreshInv(k, m);
    RunKeeps(k, m, es);
    SizeKept(m, es);
    AfterPacket(k, m, es, data);
    InvCounters(k, before);
    assert c <= Even(p);
    hide Run, Fresh, Inv, Backlog, HeadOffset, TailOffset, Slot, Packet, LegalRun, Even;
    VisibleExactly(m.r.size, Run(before, Packet(data)).r, c, p);
  }

  lemma VisibleExactly(size: nat, r: Regs, c: nat, p: nat)
    requires 0 < size == r.size && size % 8 == 0 && c <= Even(p)
    requires HeadOffset(r.regHead) == 4 * Slot(c, size / 4)
    requires TailOffset(r.regTail) == 4 * Slot(Even(p), size / 4)
    ensures Backlog(r) == p - c <==> p % 2 == 0 && 4 * (p - c) < size
  {
    hide HeadOffset, TailOffset, Slot, Backlog;
    BacklogIs(size / 4, r, c, Even(p));
    ModKeepsExactly(Even(p) - c, size / 4);
    ModAtMost(Even(p) - c, size / 4);
  }

  lemma ModAtMost(x: nat, n: nat)
    requires 0 < n
    ensures x % n <= x
  {
    if x < n {
      ModUnique(x, n, 0, x);
    }
  }

  lemma InvCounters(k: nat, m: Machine)
    requires Inv(k, m)
    ensures |m.h.fetched| <= Even(m.h.published) && m.h.published <= |m.h.emitted| && 0 < m.r.size && m.r.size % 8 == 0
    ensures HeadOffset(m.r.regHead) == 4 * Slot(|m.h.fetched|, m.r.size / 4)
  {
    hide HeadOffset, TailOffset, Slot, UnreadIntact, Pow2;
  }

  lemma AfterPacket(k: nat, m: Machine, es: seq<Event>, data: seq<U32>)
    requires Fresh(k, m)
    ensures var before := Run(m, es); var after := Run(before, Packet(data));
            && m.r.size % 8 == 0 && 0 < m.r.size
            && after.r.size == m.r.size && after.r.regHead == before.r.regHead
            && TailOffset(after.r.regTail) == 4 * Slot(Even(|before.h.emitted| + |data|), m.r.size / 4)
  {
    var before, all := Run(m, es), es + Packet(data);
    RunAppend(m, es, Packet(data));
    SizeKept(m, all);
    PublishedAll(before, |data|, data);
    PublishedSlot(k, m, all);
    NoFetches(before, Packet(data));
    hide Run, Fresh, Pow2, Packet, TailOffset, LegalRun, Slot, Even;
    QwordsOfTail(|before.h.emitted| + |data|, m.r.size);
  }

  lemma QwordsOfTail(p: nat, size: nat)
    requires RingSize(size)
    ensures TailOffset(4 * Slot(p, size / 4)) == 4 * Slot(Even(p), size / 4)
  {
    SlotEven(p, size / 4);
    hide TailOffset;
    SlotTailOffset(Slot(p, size / 4));
  }

  // ---- the first packet ----

  /** The first packet on a fresh ring is delivered as long as it leaves the reserve. */
  lemma FirstPacketDelivered(k: nat, m: Machine, dwords: int, data: seq<U32>)
    requires Fresh(k, m) && 4 * |data| <= m.r.size - RING_FREE_SPACE
    ensures LegalRun(m, Reserving(dwords, data))
    ensures var m' := Run(m, Reserving(dwords, data)); var last := Run(m', Fetches(Even(|data|)));
            && m'.h.emitted == data && m'.h.published == |data|
            && last.h.fetched == data[..Even(|data|)] && Idle(last.r)
  {
    FirstPacketFits(k, m);
    NoFetches(m, Reserving(dwords, data));
    assert Run(m, []) == m && [] + data == data && [] + Reserving(dwords, data) == Reserving(dwords, data);
    hide Pow2, RingSpace, HeadOffset, TailOffset, Idle, Fetches, Reserving, Emits;
    PacketDelivered(k, m, [], dwords, data);
    hide Run, Even;
  }

  lemma FirstPacketFits(k: nat, m: Machine)
    requires Fresh(k, m)
    ensures RingSpace(m.r) == m.r.size - RING_FREE_SPACE >= 64
  {
    SizeFacts(k, m.r.size);
    hide Pow2, HeadOffset;
    RingSpaceExact(m.r);
  }

  lemma DrainedIdle(k: nat, m: Machine, es: seq<Event>)
    requires Fresh(k, m) && LegalRun(m, es)
    ensures var m' := Run(m, es);
            && |m'.h.fetched| <= Even(m'.h.published)
            && Idle(Run(m', Fetches(Even(m'.h.published) - |m'.h.fetched|)).r)
  {
    var m' := Run(m, es);
    FreshInv(k, m);
    RunKeeps(k, m, es);
    hide Run, Fresh, LegalRun, Idle, Inv, Fetches;
    InvPublished(k, m');
    var last := Run(m', Fetches(Even(m'.h.published) - |m'.h.fetched|));
    DrainInv(k, m', Even(m'.h.published) - |m'.h.fetched|);
    FetchKeeps(k, last);
  }

  lemma InvPublished(k: nat, m: Machine)
    requires Inv(k, m)
    ensures |m.h.fetched| <= Even(m.h.published) <= |m.h.emitted|
  {
    hide HeadOffset, TailOffset, Slot, UnreadIntact, Pow2;
  }

  // ---- how the space computation comes to be a whole ring too large ----

  lemma {:induction false} NoHeadRead(m: Machine, es: seq<Event>)
    requires ReadHead !in es
    ensures Run(m, es).r.head == m.r.head
    decreases |es|
  {
    if es != [] {
      hide MaskedTail;
      NoHeadRead(Step(m, es[0]), es[1..]);
    }
  }

  /** The driver copies HEAD once, in set-up. In every run without a further copy, legal or not,
      `ring_space` is the ring less the tail and the reserve whenever the tail is inside the ring: it
      never comes to be too large, and never grows again but when the tail wraps. */
  lemma SpaceWithoutHeadCopy(k: nat, m: Machine, es: seq<Event>)
    requires Fresh(k, m) && ReadHead !in es && Run(m, es).r.tail < m.r.size
    ensures RingSpace(Run(m, es).r) == m.r.size - Run(m, es).r.tail - RING_FREE_SPACE
  {
    NoHeadRead(m, es);
    SizeKept(m, es);
    FreshRingSize(k, m);
    hide Run, HeadOffset, RingSpace, Pow2;
    RingSpaceExact(Run(m, es).r);
  }

  /** Eight dwords sent, taken, and seen to be taken by a caller that copies HEAD. */
  function FirstLap(a: seq<U32>): seq<Event> {
    Packet(a) + Fetches(8) + [ReadHead]
  }

  lemma AfterFirstLap(k: nat, m: Machine, a: seq<U32>)
    requires Fresh(k, m) && |a| == 8
    ensures var m' := Run(m, FirstLap(a));
            && m'.h.emitted == m'.h.fetched == a && m'.r.size == m.r.size >= 128
            && HeadOffset(m'.r.head) == 32
  {
    var m0 := Run(m, Packet(a));
    FirstPacketFits(k, m);
    FirstPacketDelivered(k, m, 8, a);
    NoFetches(m, Packet(a));
    SizeKept(m, Packet(a));
    FreshInv(k, m);
    RunKeeps(k, m, Packet(a));
    RunAppend(m, Packet(a), Fetches(8));
    RunAppend(m, Packet(a) + Fetches(8), [ReadHead]);
    assert [ReadHead][1..] == [];
    var m1 := Run(m0, Fetches(8));
    assert Run(m1, [ReadHead]) == Run(Step(m1, ReadHead), []) == Step(m1, ReadHead);
    hide Run, Inv, Fresh, RingSpace, Packet, Idle, HeadOffset, TailOffset, Fetches, LegalRun, Pow2, RegStep;
    hide Slot, FirstLap;
    DrainInv(k, m0, 8);
    HeadSeen(k, m1);
  }

  lemma HeadSeen(k: nat, m: Machine)
    requires Inv(k, m) && |m.h.fetched| == 8
    ensures HeadOffset(Step(m, ReadHead).r.head) == 32 && Step(m, ReadHead).r.size == m.r.size
  {
    EighthSlot(|m.mem|);
    hide HeadOffset, TailOffset, UnreadIntact, Pow2, Slot;
  }

  lemma EighthSlot(n: nat)
    requires 8 < n
    ensures Slot(8, n) == 8
  {
  }

  lemma AfterSecondPacket(k: nat, m: Machine, a: seq<U32>, b: seq<U32>)
    requires Fresh(k, m) && |a| == 8
    ensures var m' := Run(m, FirstLap(a) + Packet(b));
            && HeadOffset(m'.r.head) == 32 && m'.h.fetched == a
            && m'.h.published == |m'.h.emitted| == 8 + |b|
  {
    var m1 := Run(m, FirstLap(a));
    AfterFirstLap(k, m, a);
    RunAppend(m, FirstLap(a), Packet(b));
    PublishedAll(m1, |b|, b);
    NoFetches(m1, Packet(b));
    NoHeadRead(m1, Packet(b));
    hide Run, Fresh, FirstLap, Packet, LegalRun, HeadOffset;
  }

  /** For a caller that does copy HEAD between packets the computation can fail: after that first lap
      the code accepts a packet that runs up to the end of the ring, and then reports all but 32 bytes
      free where 32 are. No legal run comes there, by `SpaceCountsUnseen`, and no run of the driver
      itself, by `SpaceWithoutHeadCopy`. */
  lemma OverestimateReached(k: nat, m: Machine, a: seq<U32>, b: seq<U32>)
    requires Fresh(k, m) && |a| == 8 && 4 * |b| == m.r.size - 32
    ensures var m' := Run(m, FirstLap(a) + Packet(b));
            && m'.r.tail == 0 && HeadOffset(m'.r.head) == 32
            && m'.h.fetched == a && m'.h.published == |m'.h.emitted|
            && m.r.size - 4 * (|m'.h.emitted| - |m'.h.fetched|) == 32
            && RingSpace(m'.r) == m.r.size - 32
  {
    var es := FirstLap(a) + Packet(b);
    hide Run, FirstLap, Packet, LegalRun, HeadOffset, RingSpace;
    AfterSecondPacket(k, m, a, b);
    ClosedTailCounts(k, m, es);
    FreshRingSize(k, m);
    hide Fresh;
    WholeLap(4 * |Run(m, es).h.emitted|, m.r.size);
    Overestimate(Run(m, es).r);
  }

  lemma WholeLap(bytes: nat, size: nat)
    requires bytes == size > 0
    ensures bytes % size == 0
  {
  }

  lemma Overestimate(r: Regs)
    requires RingSize(r.size) && HeadOffset(r.head) == 32 && r.tail == 0
    ensures RingSpace(r) == r.size - 32
  {
    hide HeadOffset, RingSpace;
    RingSpaceExact(r);
  }

  lemma FreshRingSize(k: nat, m: Machine)
    requires Fresh(k, m)
    ensures RingSize(m.r.size)
  {
    SizeFacts(k, m.r.size);
  }
}
