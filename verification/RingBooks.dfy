/** The driver's own bookkeeping: `space` is computed once and only ever reduced, and nothing checks
    that a packet emits what it reserved. */
module RingBooks {
  import opened Bits
  import opened RingSpec
  import opened RingFifo
  import opened RingTail

  // ---- the driver's own bookkeeping ----

  function Reserved(es: seq<Event>): int {
    if es == [] then 0 else (if es[0].Begin? then es[0].dwords else 0) + Reserved(es[1..])
  }

  function EmitCount(es: seq<Event>): nat {
    if es == [] then 0 else (if es[0].Emit? then 1 else 0) + EmitCount(es[1..])
  }

  lemma Int32Same(x: int)
    requires -0x8000_0000 <= x < 0x8000_0000
    ensures ToInt32(x) == x
  {
  }

  lemma Int32Step(x: int, y: int)
    ensures ToInt32(ToInt32(x) - y) == ToInt32(x - y)
  {
    var q := x / TWO_32;
    assert x == q * TWO_32 + x % TWO_32;
    assert (ToInt32(x) - y) % TWO_32 == (x - y) % TWO_32;
  }

  lemma SpaceOfStep(m: Machine, e: Event)
    ensures Step(m, e).r.space == if e.Begin? then ToInt32(m.r.space - 4 * e.dwords) else m.r.space
  {
    hide And, MaskedTail, NextHead, HeadOffset, TailOffset, ToInt32, Trunc32;
  }

  /** `space` is what it started with less all reservations, as a 32-bit `int`. */
  lemma {:induction false} SpaceOfRun(m: Machine, es: seq<Event>)
    requires ToInt32(m.r.space) == m.r.space
    ensures Run(m, es).r.space == ToInt32(m.r.space - 4 * Reserved(es))
    decreases |es|
  {
    if es != [] {
      SpaceOfStep(m, es[0]);
      if es[0].Begin? {
        var x := m.r.space - 4 * es[0].dwords;
        Int32Step(x, 0);
        Int32Step(x, 4 * Reserved(es[1..]));
      }
      hide Step, ToInt32;
      SpaceOfRun(Step(m, es[0]), es[1..]);
    }
  }

  lemma {:induction false} EmittedCount(m: Machine, es: seq<Event>)
    ensures |Run(m, es).h.emitted| == |m.h.emitted| + EmitCount(es)
    decreases |es|
  {
    if es != [] {
      hide RegStep, MemStep, WordAt, HeadOffset;
      EmittedCount(Step(m, es[0]), es[1..]);
    }
  }

  /** In every run, legal or not, over any number of wraps, even inside a packet: `tail + space` is the
      ring less its reserve exactly when the bytes reserved are, modulo 2^32, the bytes emitted, those
      published modulo the ring, and the tail has not run 2^31 bytes past that. Callers can count all
      of these. */
  lemma ConservedAlways(k: nat, m: Machine, es: seq<Event>)
    requires Fresh(k, m) && m.r.space == RingSpace(m.r)
    ensures 0 < m.r.size && Run(m, es).h.published <= EmitCount(es)
    ensures var m' := Run(m, es); var n := m'.h.published;
            var bytes := (4 * n % m.r.size + 4 * (EmitCount(es) - n)) % TWO_32;
            m'.r.tail + m'.r.space == m.r.size - RING_FREE_SPACE
            <==> 4 * Reserved(es) % TWO_32 == bytes && bytes <= m.r.size - RING_FREE_SPACE + 0x8000_0000
  {
    FreshSpace(k, m);
    FieldsAlways(k, m, es);
    hide Run, Fresh, RingSpace, Reserved, EmitCount, ToInt32;
    BalanceExact(m.r.size, Run(m, es).r.tail, 4 * Reserved(es));
  }

  lemma SpaceAlways(k: nat, m: Machine, es: seq<Event>)
    requires Fresh(k, m) && m.r.space == RingSpace(m.r)
    ensures Run(m, es).r.space == ToInt32(m.r.size - RING_FREE_SPACE - 4 * Reserved(es))
  {
    FreshSpace(k, m);
    hide Run, RingSpace, Reserved, ToInt32, Fresh;
    SpaceOfRun(m, es);
  }

  lemma FreshEmitted(k: nat, m: Machine)
    requires Fresh(k, m)
    ensures m.h.emitted == [] && TailAhead(m)
  {
    hide HeadOffset, Pow2;
  }

  /** The two fields after any run. */
  lemma FieldsAlways(k: nat, m: Machine, es: seq<Event>)
    requires Fresh(k, m) && m.r.space == RingSpace(m.r)
    ensures 0 < m.r.size && Run(m, es).h.published <= EmitCount(es)
    ensures Run(m, es).r.space == ToInt32(m.r.size - RING_FREE_SPACE - 4 * Reserved(es))
    ensures var n := Run(m, es).h.published;
            Run(m, es).r.tail == (4 * n % m.r.size + 4 * (EmitCount(es) - n)) % TWO_32
  {
    hide Run, RingSpace, Reserved, EmitCount, ToInt32, Fresh;
    SpaceAlways(k, m, es);
    FreshEmitted(k, m);
    EmittedCount(m, es);
    PublishedTail(k, m, es);
    TailAheadRun(m, es);
  }

  /** The same between packets, when everything emitted is published: there the tail is inside the
      ring. */
  lemma ConservedExactly(k: nat, m: Machine, es: seq<Event>)
    requires Fresh(k, m) && m.r.space == RingSpace(m.r)
    requires Run(m, es).h.published == |Run(m, es).h.emitted|
    ensures 0 < m.r.size
    ensures Run(m, es).r.tail + Run(m, es).r.space == m.r.size - RING_FREE_SPACE
       <==> 4 * Reserved(es) % TWO_32 == 4 * EmitCount(es) % m.r.size
  {
    FreshSpace(k, m);
    EmittedCount(m, es);
    ConservedAlways(k, m, es);
    hide Run, Fresh, RingSpace, Reserved, EmitCount;
    SmallMod(4 * EmitCount(es), m.r.size);
  }

  lemma SmallMod(x: nat, n: nat)
    requires 0 < n <= MAX_RING
    ensures x % n % TWO_32 == x % n < n
  {
  }

  lemma FreshSpace(k: nat, m: Machine)
    requires Fresh(k, m)
    ensures 128 <= m.r.size <= MAX_RING && RingSpace(m.r) == m.r.size - RING_FREE_SPACE
    ensures ToInt32(RingSpace(m.r)) == RingSpace(m.r)
  {
    SizeFacts(k, m.r.size);
    hide Pow2, HeadOffset;
    RingSpaceExact(m.r);
  }

  lemma BalanceExact(size: nat, tail: U32, reserved: int)
    requires RING_FREE_SPACE <= size <= MAX_RING
    ensures tail + ToInt32(size - RING_FREE_SPACE - reserved) == size - RING_FREE_SPACE
       <==> reserved % TWO_32 == tail && tail <= size - RING_FREE_SPACE + 0x8000_0000
  {
  }

  /** The self-test that reserves eight dwords and emits nine: the books no longer balance and
      the GPU is told of eight only. */
  lemma NinthDword(k: nat, m: Machine, data: seq<U32>)
    requires Fresh(k, m) && m.r.space == RingSpace(m.r) && |data| == 9
    ensures var m' := Run(m, Reserving(8, data));
            && m'.r.tail + m'.r.space == m.r.size - RING_FREE_SPACE + 4
            && TailOffset(m'.r.regTail) == 32 && m'.h.published == 9
  {
    var es := Reserving(8, data);
    FreshSpace(k, m);
    SpaceOfRun(m, es);
    CountPacket(8, data);
    PublishedAll(m, 8, data);
    ClosedTailCounts(k, m, es);
    hide Run, Pow2, RingSpace, Fresh, ToInt32, TailOffset;
    Int32Same(m.r.size - RING_FREE_SPACE - 32);
    ModUnique(36, m.r.size, 0, 36);
    TailOffsetIs(36);
  }

  lemma {:induction false} CountEmits(data: seq<U32>)
    ensures EmitCount(Emits(data) + [Advance]) == |data| && Reserved(Emits(data) + [Advance]) == 0
    decreases |data|
  {
    var es := Emits(data) + [Advance];
    if data == [] {
      assert es[1..] == [];
    } else {
      assert es[1..] == Emits(data[1..]) + [Advance];
      CountEmits(data[1..]);
    }
  }

  lemma CountPacket(dwords: nat, data: seq<U32>)
    ensures var es := Reserving(dwords, data);
            EmitCount(es) == |data| && Reserved(es) == dwords
  {
    var es := Reserving(dwords, data);
    assert es[1..] == Emits(data) + [Advance];
    CountEmits(data);
  }

  // ---- driver bookkeeping as the callers' only guard ----

  /** Callers that trust the `space` field alone and emit exactly what they reserved. */
  predicate Accounted(r: Regs, h: History, e: Event) {
    match e
    case Begin(dwords) => !h.open && 0 <= 4 * dwords <= r.space
    case Emit(_) => h.open && 0 < h.room
    case Advance => h.open && h.room == 0
    case Fetch => true
    case ReadHead => false
  }

  predicate AccountedRun(m: Machine, es: seq<Event>)
    decreases |es|
  {
    es == [] || (Accounted(m.r, m.h, es[0]) && AccountedRun(Step(m, es[0]), es[1..]))
  }

  predicate Ledger(m: Machine) {
    && m.h.seen == 0
    && m.r.tail == 4 * |m.h.emitted|
    && m.r.tail + 4 * m.h.room + m.r.space == m.r.size - RING_FREE_SPACE
    && 0 <= m.r.space && (!m.h.open ==> m.h.room == 0)
  }

  ghost predicate Books(k: nat, m: Machine) {
    Inv(k, m) && Ledger(m)
  }

  lemma LedgerStep(m: Machine, e: Event)
    requires Ledger(m) && Accounted(m.r, m.h, e) && m.r.size <= MAX_RING
    requires MaskedTail(m.r) == m.r.tail
    requires e.Begin? ==> ToInt32(m.r.space - 4 * e.dwords) == m.r.space - 4 * e.dwords
    ensures Ledger(Step(m, e))
  {
    hide MaskedTail, RingSpace, NextHead, ToInt32, Idle, MemStep, WordAt;
  }

  lemma BooksBegin(k: nat, m: Machine, dwords: int)
    requires Books(k, m) && Accounted(m.r, m.h, Begin(dwords))
    ensures ToInt32(m.r.space - 4 * dwords) == m.r.space - 4 * dwords
  {
    hide Inv, RingSpace;
    BooksBounds(k, m);
  }

  lemma BooksEmit(k: nat, m: Machine, data: U32)
    requires Books(k, m) && Accounted(m.r, m.h, Emit(data))
    ensures Allowed(m.r, m.h, Emit(data))
  {
    hide Inv, RingSpace;
    SpaceCountsUnseen(k, m);
  }

  lemma UnmaskedTail(k: nat, m: Machine)
    requires Books(k, m)
    ensures MaskedTail(m.r) == m.r.tail
  {
    hide MaskedTail, Pow2, OffsetsAgree, CountersAgree, UnreadIntact;
    UnmaskedAt(k, m.r);
  }

  lemma BooksStep(k: nat, m: Machine, e: Event)
    requires Books(k, m) && Accounted(m.r, m.h, e)
    ensures Allowed(m.r, m.h, e) && Books(k, Step(m, e))
  {
    BooksAllow(k, m, e);
    StepKeeps(k, m, e);
    UnmaskedTail(k, m);
    BooksBounds(k, m);
    hide Inv, Allowed, Pow2, MaskedTail, ToInt32, Ledger, Step;
    LedgerStep(m, e);
  }

  lemma BooksAllow(k: nat, m: Machine, e: Event)
    requires Books(k, m) && Accounted(m.r, m.h, e)
    ensures Allowed(m.r, m.h, e)
    ensures e.Begin? ==> ToInt32(m.r.space - 4 * e.dwords) == m.r.space - 4 * e.dwords
  {
    if e.Begin? {
      BooksBegin(k, m, e.dwords);
    } else if e.Emit? {
      BooksEmit(k, m, e.data);
    }
    hide Inv, RingSpace, ToInt32;
  }

  lemma BooksBounds(k: nat, m: Machine)
    requires Books(k, m)
    ensures m.r.size <= MAX_RING
  {
  }

  lemma {:induction false} BooksRun(k: nat, m: Machine, es: seq<Event>)
    requires Books(k, m) && AccountedRun(m, es)
    ensures LegalRun(m, es) && Books(k, Run(m, es))
    decreases |es|
  {
    hide Books, Accounted, Allowed, Step;
    if es != [] {
      BooksStep(k, m, es[0]);
      BooksRun(k, Step(m, es[0]), es[1..]);
    }
  }

  /** Trusting `space` is safe: such a run is legal, so everything is delivered in order, every
      store lands in the ring, the mask would change nothing, and between packets `tail + space`
      is the ring less its reserve. The price: all packets together never exceed that one ring
      less its reserve. */
  lemma TrustingSpace(k: nat, m: Machine, es: seq<Event>)
    requires Fresh(k, m) && m.r.space == RingSpace(m.r) && AccountedRun(m, es)
    ensures LegalRun(m, es) && InBounds(m, es)
    ensures var m' := Run(m, es);
            && MaskedTail(m'.r) == m'.r.tail
            && m'.r.tail == 4 * |m'.h.emitted| <= m.r.size - RING_FREE_SPACE
            && (!m'.h.open ==> m'.r.tail + m'.r.space == m.r.size - RING_FREE_SPACE)
  {
    FreshInv(k, m);
    RingSpaceExact(m.r);
    SizeKept(m, es);
    hide RingSpace, Run, Pow2, HeadOffset, MaskedTail, InBounds;
    BooksRun(k, m, es);
    LegalInBounds(k, m, es);
    UnmaskedTail(k, Run(m, es));
  }
}
