/** What holds of the ring in every run, legal or not: the tail as modular arithmetic, the
    qwords the TAIL register can announce, and the bounds of a packet. */
module RingTail {
  import opened Bits
  import opened RingSpec
  import opened RingFifo

  // ---- the masked tail ----

  lemma ModStep(a: nat, b: nat, n: nat)
    requires 0 < n && a % n == b % n
    ensures (a + 4) % n == (b + 4) % n
  {
    var la, ha := DivMod(a + 4, n);
    var lb, hb := DivMod(b, n);
    assert a + 4 == la + n * ha;
    var q := hb - a / n;
    assert b + 4 == (ha + q) * n + la by {
      assert b - a == n * q by {
        assert a == n * (a / n) + a % n;
        assert n * q == n * hb - n * (a / n);
      }
      assert (ha + q) * n == n * ha + n * q;
    }
    ModUnique(b + 4, n, ha + q, la);
  }

  lemma ModOfMultiple(x: nat, n: nat, j: nat, w: nat)
    requires 0 < n && 0 < j && w == n * j
    ensures x % w % n == x % n
  {
    assert 0 < w by { MulGap(0, j, n); }
    var low, high := DivMod(x, w);
    var low', high' := DivMod(low, n);
    assert x == (j * high + high') * n + low' by {
      assert w * high == (j * high) * n;
      assert (j * high + high') * n == (j * high) * n + high' * n;
    }
    ModUnique(x, n, j * high + high', low');
  }

  ghost predicate TailCounts(k: nat, m: Machine) {
    && 7 <= k <= 21 && m.r.size == Pow2(k)
    && m.r.tail % m.r.size == 4 * |m.h.emitted| % m.r.size
    && m.r.regTail == 4 * m.h.published % m.r.size
  }

  lemma TailCountsStep(k: nat, m: Machine, e: Event)
    requires TailCounts(k, m)
    ensures TailCounts(k, Step(m, e))
  {
    var n := m.r.size;
    SizeFacts(k, n);
    match e
    case Emit(_) =>
      hide Pow2, And;
      ModStep(m.r.tail, 4 * |m.h.emitted|, n);
      ModOfMultiple(m.r.tail + 4, n, Pow2(32 - k), TWO_32);
    case Advance =>
      MaskedTailIs(k, m.r);
      hide Pow2, And, MaskedTail;
      ModModSame(m.r.tail, n);
    case _ => hide Pow2, And, NextHead;
  }

  lemma ModModSame(x: nat, n: nat)
    requires 0 < n
    ensures x % n % n == x % n
  {
    ModUnique(x % n, n, 0, x % n);
  }

  lemma {:induction false} TailCountsRun(k: nat, m: Machine, es: seq<Event>)
    requires TailCounts(k, m)
    ensures TailCounts(k, Run(m, es))
    decreases |es|
  {
    hide TailCounts, Step;
    if es != [] {
      TailCountsStep(k, m, es[0]);
      TailCountsRun(k, Step(m, es[0]), es[1..]);
    }
  }

  lemma FreshTailCounts(k: nat, m: Machine, es: seq<Event>)
    requires Fresh(k, m)
    ensures TailCounts(k, Run(m, es)) && Run(m, es).r.size == m.r.size && RingSize(m.r.size)
  {
    SizeFacts(k, m.r.size);
    SizeKept(m, es);
    ModUnique(0, m.r.size, 0, 0);
    hide Pow2, Run, HeadOffset;
    TailCountsRun(k, m, es);
  }

  /** In every run, whatever the callers do, the tail written to the hardware is the number of
      bytes emitted up to the last advance, modulo the ring size. */
  lemma PublishedTail(k: nat, m: Machine, es: seq<Event>)
    requires Fresh(k, m)
    ensures Run(m, es).r.size == m.r.size > 0
    ensures Run(m, es).r.regTail == 4 * Run(m, es).h.published % m.r.size
  {
    FreshTailCounts(k, m, es);
    hide Pow2, Run, Fresh;
  }

  /** The same, counted in ring slots. */
  lemma PublishedSlot(k: nat, m: Machine, es: seq<Event>)
    requires Fresh(k, m)
    ensures RingSize(m.r.size)
    ensures Run(m, es).r.regTail == 4 * Slot(Run(m, es).h.published, m.r.size / 4)
  {
    FreshTailCounts(k, m, es);
    hide Pow2, Run, Fresh, Slot;
    SlotOfTail(Run(m, es).h.published, m.r.size);
  }

  lemma SlotOfTail(p: nat, size: nat)
    requires RingSize(size)
    ensures 4 * p % size == 4 * Slot(p, size / 4)
  {
    hide Slot;
    QuarterMod(p, size / 4, size);
  }

  lemma {:induction false} SizeKept(m: Machine, es: seq<Event>)
    ensures Run(m, es).r.size == m.r.size
    decreases |es|
  {
    if es != [] {
      SizeKept(Step(m, es[0]), es[1..]);
    }
  }

  /** The driver's tail runs ahead of the published one by the bytes emitted since. */
  ghost predicate TailAhead(m: Machine) {
    && m.h.published <= |m.h.emitted|
    && m.r.tail == (m.r.regTail + 4 * (|m.h.emitted| - m.h.published)) % TWO_32
  }

  lemma TailAheadStep(m: Machine, e: Event)
    requires TailAhead(m)
    ensures TailAhead(Step(m, e))
  {
    hide And, MaskedTail, NextHead, HeadOffset, TailOffset, ToInt32;
    match e
    case Emit(_) => TruncSum(m.r.regTail + 4 * (|m.h.emitted| - m.h.published));
    case _ =>
  }

  lemma TruncSum(x: nat)
    ensures Trunc32(x % TWO_32 + 4) == (x + 4) % TWO_32
  {
  }

  lemma {:induction false} TailAheadRun(m: Machine, es: seq<Event>)
    requires TailAhead(m)
    ensures TailAhead(Run(m, es))
    decreases |es|
  {
    hide TailAhead, Step;
    if es != [] {
      TailAheadStep(m, es[0]);
      TailAheadRun(Step(m, es[0]), es[1..]);
    }
  }

  /** Whenever everything emitted is published, the driver's tail is the published one: the bytes
      emitted so far modulo the ring size. */
  lemma ClosedTailCounts(k: nat, m: Machine, es: seq<Event>)
    requires Fresh(k, m) && Run(m, es).h.published == |Run(m, es).h.emitted|
    ensures Run(m, es).r.size == m.r.size > 0
    ensures Run(m, es).r.tail == Run(m, es).r.regTail == 4 * |Run(m, es).h.emitted| % m.r.size
  {
    PublishedTail(k, m, es);
    TailAheadRun(m, es);
    hide Pow2, Run, Fresh;
  }

  /** The published tail loses no bits to the register's qword mask exactly when an even number
      of dwords has been published. */
  lemma QwordTail(k: nat, m: Machine, es: seq<Event>)
    requires Fresh(k, m)
    ensures var m' := Run(m, es);
            TailOffset(m'.r.regTail) == m'.r.regTail <==> m'.h.published % 2 == 0
  {
    PublishedSlot(k, m, es);
    SlotParity(Run(m, es).h.published, m.r.size / 4);
    hide Run, Pow2, Fresh, TailOffset, Slot;
    QwordSlot(Slot(Run(m, es).h.published, m.r.size / 4), Run(m, es).h.published);
  }

  lemma QwordSlot(slot: nat, p: nat)
    requires slot < 0x8_0000 && slot % 2 == p % 2
    ensures TailOffset(4 * slot) == 4 * slot <==> p % 2 == 0
  {
    SlotTailOffset(slot);
    hide TailOffset;
  }

  lemma SlotParity(p: nat, n: nat)
    requires 0 < n && n % 2 == 0
    ensures Slot(p, n) % 2 == p % 2
  {
    var low, high := DivMod(p, n);
    assert n * high == 2 * (n / 2 * high);
  }

  lemma QuarterMod(p: nat, n: nat, size: nat)
    requires 0 < n && size == 4 * n
    ensures 4 * p % size == 4 * Slot(p, n)
  {
    var low, high := DivMod(p, n);
    assert 4 * p == high * size + 4 * low by {
      assert high * size == 4 * (n * high);
    }
    ModUnique(4 * p, size, high, 4 * low);
  }

  lemma UnmaskedAt(k: nat, r: Regs)
    requires 7 <= k <= 21 && r.size == Pow2(k) && r.tail < r.size
    ensures MaskedTail(r) == r.tail
  {
    MaskedTailIs(k, r);
    hide MaskedTail, Pow2;
    ModUnique(r.tail, r.size, 0, r.tail);
  }

  // ---- packets ----

  function Emits(data: seq<U32>): (es: seq<Event>)
    ensures |es| == |data|
  {
    seq(|data|, i requires 0 <= i < |data| => Emit(data[i]))
  }

  /** A packet that reserves `dwords` dwords, whatever it then emits. */
  function Reserving(dwords: int, data: seq<U32>): seq<Event> {
    [Begin(dwords)] + Emits(data) + [Advance]
  }

  /** Begin for all the data, one emit each, advance. */
  function Packet(data: seq<U32>): seq<Event> {
    Reserving(|data|, data)
  }

  /** Every store of the run lands in the ring memory. */
  predicate InBounds(m: Machine, es: seq<Event>)
    decreases |es|
  {
    es == [] || ((es[0].Emit? ==> m.r.tail / 4 < |m.mem|) && InBounds(Step(m, es[0]), es[1..]))
  }

  lemma {:induction false} EmitsInBounds(m: Machine, data: seq<U32>)
    requires RingSize(m.r.size) && |m.mem| == m.r.size / 4
    requires m.r.tail % 4 == 0 && m.r.tail <= m.r.size
    ensures InBounds(m, Emits(data) + [Advance]) <==> m.r.tail + 4 * |data| <= m.r.size
    decreases |data|
  {
    var es := Emits(data) + [Advance];
    hide MaskedTail;
    if data == [] {
      assert es[1..] == [];
    } else if m.r.tail < m.r.size {
      assert es[1..] == Emits(data[1..]) + [Advance];
      EmitsInBounds(Step(m, es[0]), data[1..]);
    }
  }

  /** A packet stays inside the ring exactly when it does not cross the end; one that stops at
      the end is fine. */
  lemma PacketInBounds(m: Machine, data: seq<U32>)
    requires RingSize(m.r.size) && |m.mem| == m.r.size / 4
    requires m.r.tail % 4 == 0 && m.r.tail < m.r.size
    ensures InBounds(m, Packet(data)) <==> m.r.tail + 4 * |data| <= m.r.size
  {
    assert Packet(data)[1..] == Emits(data) + [Advance];
    EmitsInBounds(Step(m, Begin(|data|)), data);
  }

  /** In a legal run every store lands in the ring. */
  lemma {:induction false} LegalInBounds(k: nat, m: Machine, es: seq<Event>)
    requires Inv(k, m) && LegalRun(m, es)
    ensures InBounds(m, es)
    decreases |es|
  {
    if es != [] {
      StepKeeps(k, m, es[0]);
      if es[0].Emit? {
        EmitKeeps(k, m, es[0].data);
      }
      hide Step, Inv;
      LegalInBounds(k, Step(m, es[0]), es[1..]);
      assert es[0].Emit? ==> m.r.tail / 4 < |m.mem| by {
        InvBounds(k, m);
      }
    }
  }

  lemma InvBounds(k: nat, m: Machine)
    requires Inv(k, m)
    ensures |m.mem| == m.r.size / 4 && m.r.size % 8 == 0
  {
  }

  // ---- what a packet leaves behind ----

  lemma {:induction false} EmittedAll(m: Machine, data: seq<U32>)
    ensures var h := Run(m, Emits(data) + [Advance]).h;
            h.emitted == m.h.emitted + data && h.published == |h.emitted|
    decreases |data|
  {
    var es := Emits(data) + [Advance];
    hide MaskedTail;
    if data == [] {
      assert es[1..] == [];
      assert Run(Step(m, Advance), []) == Step(m, Advance);
    } else {
      assert es[1..] == Emits(data[1..]) + [Advance];
      EmittedAll(Step(m, es[0]), data[1..]);
      assert m.h.emitted + data == m.h.emitted + [data[0]] + data[1..];
    }
  }

  lemma PublishedAll(m: Machine, dwords: int, data: seq<U32>)
    ensures var h := Run(m, Reserving(dwords, data)).h;
            h.emitted == m.h.emitted + data && h.published == |h.emitted|
  {
    var es := Reserving(dwords, data);
    assert es[1..] == Emits(data) + [Advance];
    EmittedAll(Step(m, Begin(dwords)), data);
  }
}
