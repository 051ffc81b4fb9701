/** The render ring object: driver fields and registers updated in place. Every operation is a
    step of the ring machine. */
module RingBuffer {
  import opened Bits
  import opened RingSpec
  import opened RingTail
  import opened RingPackets
  import opened Forcewake
  import opened Effects

  const RING_PAGES: nat := 32
  const RING_BYTES: nat := 0x2_0000

  const RENDER_RING_BASE: nat := 0x02000
  const RING_TAIL: nat := RENDER_RING_BASE + 0x30
  const RING_HEAD: nat := RENDER_RING_BASE + 0x34

  // Command words: the opcode from bit 23 on, flags below.
  const MI_NOOP: U32 := 0
  const MI_STORE_DWORD_INDEX: U32 := 0x1080_0001
  const MI_BATCH_BUFFER_START: U32 := 0x1880_0000

  class Ring {
    var size: nat
    var head: U32
    var tail: U32
    var space: int
    var virtualStart: array<U32>
    var regHead: U32
    var regTail: U32
    var regCtl: U32
    var regStart: U32
    var regStatusPage: U32
    var gvaStatus: U32
    var gvaRingbuffer: U32
    var windowBase: nat
    ghost var history: History

    ghost function Fields(): Regs
      reads this
    {
      Regs(size, head, tail, space, regHead, regTail)
    }

    ghost function State(): Machine
      reads this, virtualStart
    {
      Machine(Fields(), virtualStart[..], history)
    }

    /** The statically zeroed ring structure, before set-up. */
    constructor ()
      ensures fresh(virtualStart) && regHead == regTail == regCtl == regStart == 0
    {
      size, head, tail, space := 0, 0, 0, 0;
      virtualStart := new U32[0];
      regHead, regTail, regCtl, regStart, regStatusPage := 0, 0, 0, 0, 0;
      gvaStatus, gvaRingbuffer, windowBase := 0, 0, 0;
      history := History([], 0, [], 0, false, 0);
    }

    /** Reserves room for a packet. Nothing is checked. */
    method BeginPacket(numDwords: int) returns (ret: int)
      modifies this`space, this`history
      ensures ret == 0
      ensures State() == Step(old(State()), Begin(numDwords))
    {
      history := HistStep(Fields(), history, Begin(numDwords), 0);
      space := ToInt32(space - numDwords * 4);
      ret := 0;
    }

    /** Stores one dword at the tail, unless that lies beyond the mapped ring. */
    method EmitDword(data: U32)
      modifies this`tail, this`history, virtualStart
      ensures State() == Step(old(State()), Emit(data))
    {
      history := HistStep(Fields(), history, Emit(data), 0);
      if tail / 4 < virtualStart.Length {
        virtualStart[tail / 4] := data;
      }
      tail := Trunc32(tail + 4);
    }

    /** Wraps the tail and tells the hardware, through the register accessor. */
    method AdvanceTail(dev: Device)
      requires dev.Valid()
      modifies this`tail, this`regTail, this`history, dev
      ensures State() == Step(old(State()), Advance)
      ensures dev.Valid() && dev.trace == old(dev.trace) + [Write(0x2030, regTail)]
    {
      hide Atomic, RunOps;
      history := HistStep(Fields(), history, Advance, 0);
      tail := Trunc32(And(tail, Sub32(size, 1)));
      dev.GpuWrite(RING_TAIL, tail);
      regTail := tail;
    }

    method SpaceLeft() returns (left: int)
      ensures left == RingSpace(Fields())
    {
      left := ToInt32(Sub32(And(head, RING_HEAD_ADDR), Trunc32(tail + RING_FREE_SPACE)));
      if left < 0 {
        left := left + size;
      }
    }

    /** Copies the HEAD register. */
    method RefreshHead(dev: Device)
      requires dev.Valid()
      modifies this`head, this`history, dev
      ensures State() == Step(old(State()), ReadHead)
      ensures dev.Valid() && dev.trace == old(dev.trace) + [Read(0x2034)]
    {
      hide Atomic, RunOps;
      history := HistStep(Fields(), history, ReadHead, 0);
      head := dev.GpuRead(RING_HEAD, regHead);
    }

    /** Starts a batch buffer: one packet of two dwords. */
    method Dispatch(dev: Device, offset: U32) returns (ret: int)
      requires dev.Valid()
      modifies this`space, this`tail, this`regTail, this`history, virtualStart, dev
      ensures ret == 0
      ensures State() == Run(old(State()), Packet([0x31 * 0x80_0000, offset]))
      ensures dev.Valid() && dev.trace == old(dev.trace) + [Write(0x2030, regTail)]
    {
      hide Step, Run, RunOps;
      ghost var m := State();
      ghost var done := RunNothing(m);
      done := RunOn(m, done, Begin(2));
      ret := BeginPacket(2);
      done := RunOn(m, done, Emit(MI_BATCH_BUFFER_START));
      EmitDword(MI_BATCH_BUFFER_START);
      done := RunOn(m, done, Emit(offset));
      EmitDword(offset);
      done := RunOn(m, done, Advance);
      AdvanceTail(dev);
      assert done == Packet([MI_BATCH_BUFFER_START, offset]);
    }
  }

  /** In every run, legal or not, the word an advance writes to register 0x2030 is the number of bytes
      emitted modulo the ring. */
  lemma AnnouncedTail(k: nat, m: Machine, es: seq<Event>, before: seq<Op>)
    requires Fresh(k, m)
    ensures var m' := Run(m, es + [Advance]);
            && m'.h.emitted == Run(m, es).h.emitted && 0 < m.r.size
            && LastWord(before + [Write(0x2030, m'.r.regTail)], 0x2030) == 4 * |m'.h.emitted| % m.r.size
  {
    var m1, m' := Run(m, es), Run(m, es + [Advance]);
    var more := RunOn(m, es, Advance);
    assert m'.h.published == |m'.h.emitted| && m'.h.emitted == m1.h.emitted by {
      hide Run, MaskedTail;
      assert m' == Step(m1, Advance);
    }
    hide Run, Fresh, LastWord, Step;
    PublishedTail(k, m, es + [Advance]);
    WordSnoc(before, Write(0x2030, m'.r.regTail), 0x2030);
  }

  lemma RunNothing(m: Machine) returns (done: seq<Event>)
    ensures done == [] && Run(m, done) == m
  {
    done := [];
  }

  /** A run one event longer. */
  lemma RunOn(m: Machine, done: seq<Event>, e: Event) returns (more: seq<Event>)
    ensures more == done + [e] && Run(m, more) == Step(Run(m, done), e)
  {
    more := done + [e];
    RunAppend(m, done, [e]);
    hide Step;
    assert [e][1..] == [];
    assert Run(Step(Run(m, done), e), []) == Step(Run(m, done), e);
  }
}
