/** Programming the render ring's registers: every register access in order, under a forcewake
    reference that is dropped only if the ring starts. */
module RingProgram {
  import opened Bits
  import opened Pte
  import opened RingSpec
  import opened RingBuffer
  import opened Forcewake
  import opened Effects

  const RING_NR_PAGES: nat := 0x001F_F000
  const RING_VALID: nat := 1

  const RING_START: nat := RENDER_RING_BASE + 0x38
  const RING_CTL: nat := RENDER_RING_BASE + 0x3c
  const RING_MI_MODE: nat := RENDER_RING_BASE + 0x9c
  const RING_INSTPM: nat := RENDER_RING_BASE + 0xc0
  const RING_MODE_GEN7: nat := RENDER_RING_BASE + 0x29c
  const RENDER_HWS_PGA: nat := 0x04080

  const INSTPM_SYNC_FLUSH: bv32 := 1 << 5
  const VS_TIMER_DISPATCH: bv32 := 1 << 6
  const INSTPM_FORCE_ORDERING: bv32 := 1 << 7
  const INSTPM_TLB_INVALIDATE: bv32 := 1 << 9
  const GFX_REPLAY_MODE: bv32 := 1 << 11
  const GFX_TLB_INVALIDATE_ALWAYS: bv32 := 1 << 13
  const ASYNC_FLIP_PERF_DISABLE: bv32 := 1 << 14

  const FLUSH_REQUEST: U32 := MaskEnable(INSTPM_TLB_INVALIDATE | INSTPM_SYNC_FLUSH) as nat
  const TIMER_DISPATCH_ON: U32 := MaskEnable(VS_TIMER_DISPATCH) as nat
  const ASYNC_FLIP_PERF_OFF: U32 := MaskEnable(ASYNC_FLIP_PERF_DISABLE) as nat
  const REPLAY_MODE_ON: U32 := (MaskDisable(GFX_TLB_INVALIDATE_ALWAYS) | MaskEnable(GFX_REPLAY_MODE)) as nat
  const FORCE_ORDERING_ON: U32 := MaskEnable(INSTPM_FORCE_ORDERING) as nat

  // ---- the ring control word ----

  function CtlWord(size: U32): U32 {
    Trunc32(Or(And(Sub32(size, PAGE_SIZE), RING_NR_PAGES), RING_VALID))
  }

  /** The ring length the hardware takes from the control word. */
  function RingLength(ctl: U32): nat {
    And(ctl, RING_NR_PAGES) + PAGE_SIZE
  }

  lemma LengthField(x: nat)
    ensures And(x, RING_NR_PAGES) == x / PAGE_SIZE % 512 * PAGE_SIZE
  {
    hide And, Pow2;
    Powers();
    AndShifted(12, x, 511, RING_NR_PAGES);
    AndSizeMask(9, Shr(x, 12));
  }

  /** The control word carries the valid bit, and its length field gives back the size, exactly
      for whole numbers of pages from 1 to 512. */
  lemma CtlRoundTrip(size: U32)
    ensures And(CtlWord(size), RING_VALID) == RING_VALID
    ensures RingLength(CtlWord(size)) == size <==> size % PAGE_SIZE == 0 && PAGE_SIZE <= size <= 512 * PAGE_SIZE
  {
    var field := Sub32(size, PAGE_SIZE) / PAGE_SIZE % 512;
    LengthField(Sub32(size, PAGE_SIZE));
    CtlIs(size, field);
    LengthField(PAGE_SIZE * field + 1);
    ValidBit(PAGE_SIZE * field + 1);
    hide And, CtlWord;
    LengthExact(size, field);
  }

  lemma CtlIs(size: U32, field: nat)
    requires And(Sub32(size, PAGE_SIZE), RING_NR_PAGES) == field * PAGE_SIZE && field < 512
    ensures CtlWord(size) == PAGE_SIZE * field + 1
  {
    hide And, Or;
    OrPage(1, field);
  }

  lemma ValidBit(x: nat)
    requires x % 2 == 1
    ensures And(x, RING_VALID) == RING_VALID
  {
    AndZero(x / 2);
  }

  lemma LengthExact(size: U32, field: nat)
    requires field == Sub32(size, PAGE_SIZE) / PAGE_SIZE % 512
    ensures (PAGE_SIZE * field + 1) / PAGE_SIZE % 512 == field
    ensures (field + 1) * PAGE_SIZE == size <==> size % PAGE_SIZE == 0 && PAGE_SIZE <= size <= 512 * PAGE_SIZE
  {
  }

  // ---- what the hardware answers ----

  /** The three registers as one evaluation of the start condition finds them. */
  datatype Poll = Poll(ctl: U32, start: U32, head: U32)

  /** How often the flush is asked after again before it is done or given up, HEAD after each attempt
      to clear it, and what the evaluations of the start condition would find: the first, those up to
      the time-out, and the last one after it, which every failing wait still makes. */
  datatype Hardware = Hardware(flushRetries: nat, headAfterReset: U32, headAfterRetry: U32,
                               firstPoll: Poll, morePolls: seq<Poll>, lastPoll: Poll)

  function Polls(hw: Hardware): seq<Poll> {
    [hw.firstPoll] + hw.morePolls + [hw.lastPoll]
  }

  predicate PollOk(p: Poll, start: U32) {
    And(p.ctl, RING_VALID) != 0 && p.start == start && HeadOffset(p.head) == 0
  }

  predicate RingStarted(hw: Hardware, start: U32) {
    exists p :: p in Polls(hw) && PollOk(p, start)
  }

  /** Some evaluation found the ring valid, at the right start, and its head at offset zero. */
  predicate SeenRunning(hw: Hardware, start: U32) {
    Running(hw.firstPoll, start) || Running(hw.lastPoll, start) || exists p :: p in hw.morePolls && Running(p, start)
  }

  predicate Running(p: Poll, start: U32) {
    p.ctl % 2 == 1 && p.start == start && p.head / 4 % 0x8_0000 == 0
  }

  lemma PollOkIs(p: Poll, start: U32)
    ensures PollOk(p, start) <==> Running(p, start)
  {
    Powers();
    AndSizeMask(1, p.ctl);
    HeadOffsetIs(p.head);
    hide And, Pow2, HeadOffset;
  }

  lemma StartedIs(hw: Hardware, start: U32)
    ensures RingStarted(hw, start) <==> SeenRunning(hw, start)
  {
    forall p: Poll
      ensures PollOk(p, start) <==> Running(p, start)
    {
      PollOkIs(p, start);
    }
    hide PollOk, Running;
    assert forall p: Poll :: p in Polls(hw) <==> p == hw.firstPoll || p in hw.morePolls || p == hw.lastPoll;
  }

  // ---- the register accesses, in order ----

  function FlushOps(hw: Hardware): seq<Op> {
    [Write(RING_INSTPM, FLUSH_REQUEST), Read(RING_INSTPM)]
    + Reads(RING_INSTPM, hw.flushRetries)
  }

  function Reads(reg: nat, count: nat): seq<Op> {
    if count == 0 then [] else Reads(reg, count - 1) + [Read(reg)]
  }

  /** A HEAD that does not clear is cleared once more, and reported if that fails too. */
  function ClearedOps(hw: Hardware): seq<Op> {
    if HeadOffset(hw.headAfterReset) == 0 then []
    else
      [Write(RING_HEAD, 0), Read(RING_HEAD)]
      + if HeadOffset(hw.headAfterRetry) == 0 then []
        else [Read(RING_CTL), Read(RING_HEAD), Read(RING_TAIL), Read(RING_START)]
  }

  function StatusOps(status: U32): seq<Op> {
    [Write(RENDER_HWS_PGA, status), Read(RENDER_HWS_PGA)]
  }

  const STOP_OPS: seq<Op> := [Write(RING_CTL, 0), Write(RING_HEAD, 0), Write(RING_TAIL, 0)]

  function ResetOps(status: U32, hw: Hardware): seq<Op> {
    StatusOps(status) + FlushOps(hw) + STOP_OPS + ([Read(RING_HEAD)] + ClearedOps(hw)) + [Read(RING_HEAD)]
  }

  /** Each evaluation stops at the first register that is not as it should be. */
  function PollOps(p: Poll, start: U32): seq<Op> {
    if And(p.ctl, RING_VALID) == 0 then [Read(RING_CTL)]
    else if p.start != start then [Read(RING_CTL), Read(RING_START)]
    else [Read(RING_CTL), Read(RING_START), Read(RING_HEAD)]
  }

  /** The wait ends with the first evaluation that succeeds. */
  function WaitOps(polls: seq<Poll>, start: U32): seq<Op>
    decreases |polls|
  {
    if polls == [] then []
    else PollOps(polls[0], start) + if PollOk(polls[0], start) then [] else WaitOps(polls[1..], start)
  }

  function StartOps(start: U32, hw: Hardware): seq<Op> {
    [Write(RING_START, start), Write(RING_CTL, CtlWord(RING_BYTES))] + WaitOps(Polls(hw), start)
  }

  const MODE_OPS: seq<Op> := [
    Write(RING_MI_MODE, TIMER_DISPATCH_ON),
    Write(RING_MI_MODE, ASYNC_FLIP_PERF_OFF),
    Write(RING_MODE_GEN7, REPLAY_MODE_ON),
    Write(RING_INSTPM, FORCE_ORDERING_ON)]

  const READ_BACK: seq<Op> := [Read(RING_HEAD), Read(RING_TAIL)]

  function ProgramOps(status: U32, start: U32, hw: Hardware): seq<Op> {
    [Get] + (ResetOps(status, hw) + StartOps(start, hw))
    + if RingStarted(hw, start) then READ_BACK + [Put] + MODE_OPS else []
  }

  /** The accesses of the reset and of one evaluation of the start condition, by register. */
  lemma AccessesAre(status: U32, hw: Hardware, p: Poll, start: U32)
    ensures ResetOps(status, hw)
         == [Write(0x4080, status), Read(0x4080), Write(0x20C0, 0x0220_0220), Read(0x20C0)]
            + Reads(0x20C0, hw.flushRetries)
            + [Write(0x203C, 0), Write(0x2034, 0), Write(0x2030, 0), Read(0x2034)]
            + (if hw.headAfterReset / 4 % 0x8_0000 == 0 then []
               else [Write(0x2034, 0), Read(0x2034)]
                    + if hw.headAfterRetry / 4 % 0x8_0000 == 0 then []
                      else [Read(0x203C), Read(0x2034), Read(0x2030), Read(0x2038)])
            + [Read(0x2034)]
    ensures PollOps(p, start)
         == [Read(0x203C)] + if p.ctl % 2 == 0 then []
                             else [Read(0x2038)] + if p.start != start then [] else [Read(0x2034)]
    ensures READ_BACK == [Read(0x2034), Read(0x2030)]
  {
    ModeWords();
    Powers();
    AndSizeMask(1, p.ctl);
    HeadOffsetIs(hw.headAfterReset);
    HeadOffsetIs(hw.headAfterRetry);
    hide FLUSH_REQUEST, HeadOffset, And, Pow2, Reads;
  }

  /** The accesses of evaluations made one after the other. */
  function Evaluations(polls: seq<Poll>, start: U32): seq<Op> {
    if polls == [] then [] else PollOps(polls[0], start) + Evaluations(polls[1..], start)
  }

  /** The wait makes every evaluation up to the first that succeeds, or all of them, and nothing more. */
  lemma {:induction false} WaitExact(polls: seq<Poll>, start: U32, n: nat)
    requires n <= |polls| && forall j :: 0 <= j < n ==> !Running(polls[j], start)
    ensures n == |polls| ==> WaitOps(polls, start) == Evaluations(polls, start)
    ensures n < |polls| && Running(polls[n], start) ==> WaitOps(polls, start) == Evaluations(polls[..n + 1], start)
    decreases |polls|
  {
    if polls != [] {
      PollOkIs(polls[0], start);
      hide PollOk, PollOps, Running;
      if n > 0 {
        WaitExact(polls[1..], start, n - 1);
        assert n < |polls| ==> polls[..n + 1][0] == polls[0] && polls[..n + 1][1..] == polls[1..][..n];
      } else {
        assert polls[..1][1..] == [];
      }
    }
  }

  // ---- the words that reach the hardware ----

  /** Status page, flush request, and control, head and tail cleared, under a reference. */
  function ResetWords(status: U32): seq<Op> {
    [Get, Write(0x4080, status), Write(0x20C0, 0x0220_0220),
     Write(0x203C, 0), Write(0x2034, 0), Write(0x2030, 0)]
  }

  /** The head once more, if it did not clear. */
  function AgainWords(hw: Hardware): seq<Op> {
    if hw.headAfterReset / 4 % 0x8_0000 == 0 then [] else [Write(0x2034, 0)]
  }

  /** Ring start, and then ring control. */
  function LaunchWords(start: U32): seq<Op> {
    [Write(0x2038, start), Write(0x203C, 0x1_F001)]
  }

  /** A ring that runs: the reference dropped and the modes set. */
  function RunningWords(hw: Hardware, start: U32): seq<Op> {
    if SeenRunning(hw, start) then
      [Put, Write(0x209C, 0x0040_0040), Write(0x209C, 0x4000_4000), Write(0x229C, 0x2800_0800),
       Write(0x20C0, 0x0080_0080)]
    else []
  }

  /** The words of the programming. */
  function ProgramWords(status: U32, start: U32, hw: Hardware): seq<Op> {
    ResetWords(status) + AgainWords(hw) + LaunchWords(start) + RunningWords(hw, start)
  }

  lemma ModeWords()
    ensures FLUSH_REQUEST == 0x0220_0220 && FORCE_ORDERING_ON == 0x0080_0080
    ensures TIMER_DISPATCH_ON == 0x0040_0040 && ASYNC_FLIP_PERF_OFF == 0x4000_4000
    ensures REPLAY_MODE_ON == 0x2800_0800
  {
  }

  /** After set-up the mode register has the replay bit set and the invalidate bit clear, and its other
      bits as before. */
  lemma ModeAfter(reg: bv32)
    requires reg <= 0xFFFF
    ensures MaskedWrite(reg, REPLAY_MODE_ON as bv32) == (reg & !0x2000) | 0x800
  {
    assert REPLAY_MODE_ON as bv32 == 0x2800_0800;
    hide REPLAY_MODE_ON;
  }

  lemma ReadsAreReads(reg: nat, count: nat)
    ensures forall op :: op in Reads(reg, count) ==> op.Read?
  {
    if count > 0 {
      ReadsAreReads(reg, count - 1);
    }
  }

  lemma {:induction false} WaitReads(polls: seq<Poll>, start: U32)
    ensures forall op :: op in WaitOps(polls, start) ==> op.Read?
    decreases |polls|
  {
    hide And, PollOk;
    if polls != [] {
      WaitReads(polls[1..], start);
    }
  }

  lemma EffectsOfPair(w: Op, r: Op)
    requires !w.Read? && r.Read?
    ensures EffectsOf([w, r]) == [w]
  {
    assert [w, r] == [w] + [r];
    EffectsAppend([w], [r]);
    EffectsOfWrites([w]);
    EffectsOfReads([r]);
  }

  lemma ResetEffects(status: U32, hw: Hardware)
    ensures EffectsOf(ResetOps(status, hw))
         == [Write(0x4080, status)] + [Write(0x20C0, 0x0220_0220)]
            + [Write(0x203C, 0), Write(0x2034, 0), Write(0x2030, 0)]
            + (if hw.headAfterReset / 4 % 0x8_0000 == 0 then [] else [Write(0x2034, 0)])
  {
    ModeWords();
    hide FLUSH_REQUEST, EffectsOf;
    var flush := [Write(RING_INSTPM, FLUSH_REQUEST), Read(RING_INSTPM)];
    var cleared := [Read(RING_HEAD)] + ClearedOps(hw);
    ReadsAreReads(RING_INSTPM, hw.flushRetries);
    EffectsOfPair(Write(RENDER_HWS_PGA, status), Read(RENDER_HWS_PGA));
    EffectsOfPair(Write(RING_INSTPM, FLUSH_REQUEST), Read(RING_INSTPM));
    EffectsOfReads(Reads(RING_INSTPM, hw.flushRetries));
    EffectsAppend(flush, Reads(RING_INSTPM, hw.flushRetries));
    EffectsOfWrites(STOP_OPS);
    ClearedEffects(hw);
    EffectsOfReads([Read(RING_HEAD)]);
    hide ClearedOps, Reads;
    EffectsAppend(StatusOps(status), FlushOps(hw));
    EffectsAppend(StatusOps(status) + FlushOps(hw), STOP_OPS);
    EffectsAppend(StatusOps(status) + FlushOps(hw) + STOP_OPS, cleared);
    EffectsAppend(StatusOps(status) + FlushOps(hw) + STOP_OPS + cleared, [Read(RING_HEAD)]);
  }

  lemma ClearedEffects(hw: Hardware)
    ensures EffectsOf([Read(RING_HEAD)] + ClearedOps(hw))
         == if hw.headAfterReset / 4 % 0x8_0000 == 0 then [] else [Write(0x2034, 0)]
  {
    HeadOffsetIs(hw.headAfterReset);
    hide HeadOffset, EffectsOf;
    EffectsAppend([Read(RING_HEAD)], ClearedOps(hw));
    EffectsOfReads([Read(RING_HEAD)]);
    if HeadOffset(hw.headAfterReset) == 0 {
      EffectsOfReads([]);
    } else {
      var pair := [Write(RING_HEAD, 0), Read(RING_HEAD)];
      var dump := if HeadOffset(hw.headAfterRetry) == 0 then []
                  else [Read(RING_CTL), Read(RING_HEAD), Read(RING_TAIL), Read(RING_START)];
      EffectsAppend(pair, dump);
      EffectsOfPair(pair[0], pair[1]);
      EffectsOfReads(dump);
    }
  }

  lemma RingCtl()
    ensures CtlWord(RING_BYTES) == 0x1_F001
  {
    LengthField(Sub32(RING_BYTES, PAGE_SIZE));
    CtlIs(RING_BYTES, 31);
    hide CtlWord, And;
  }

  lemma StartEffects(start: U32, hw: Hardware)
    ensures EffectsOf(StartOps(start, hw)) == [Write(0x2038, start), Write(0x203C, 0x1_F001)]
  {
    RingCtl();
    WaitReads(Polls(hw), start);
    hide EffectsOf, WaitOps, CtlWord;
    var words := [Write(RING_START, start), Write(RING_CTL, CtlWord(RING_BYTES))];
    EffectsOfWrites(words);
    EffectsOfReads(WaitOps(Polls(hw), start));
    EffectsAppend(words, WaitOps(Polls(hw), start));
  }

  /** Programming writes exactly these words, in this order, with the reference taken before the first and
      dropped after the ring runs. */
  lemma ProgramEffects(status: U32, start: U32, hw: Hardware)
    ensures EffectsOf(ProgramOps(status, start, hw)) == ProgramWords(status, start, hw)
  {
    var first := ResetOps(status, hw) + StartOps(start, hw);
    var last := READ_BACK + [Put] + MODE_OPS;
    StartedIs(hw, start);
    ResetEffects(status, hw);
    StartEffects(start, hw);
    LastEffects();
    hide EffectsOf, ResetOps, StartOps, RingStarted, SeenRunning, READ_BACK, MODE_OPS;
    EffectsOfWrites([Get]);
    EffectsAppend(ResetOps(status, hw), StartOps(start, hw));
    EffectsAppend([Get], first);
    if RingStarted(hw, start) {
      EffectsAppend([Get] + first, last);
    } else {
      assert [Get] + first + [] == [Get] + first;
    }
  }

  lemma LastEffects()
    ensures EffectsOf(READ_BACK + [Put] + MODE_OPS)
         == [Put, Write(0x209C, 0x0040_0040), Write(0x209C, 0x4000_4000), Write(0x229C, 0x2800_0800),
             Write(0x20C0, 0x0080_0080)]
  {
    ModeWords();
    hide EffectsOf, TIMER_DISPATCH_ON, ASYNC_FLIP_PERF_OFF, REPLAY_MODE_ON, FORCE_ORDERING_ON;
    EffectsOfReads(READ_BACK);
    EffectsOfWrites([Put]);
    EffectsOfWrites(MODE_OPS);
    EffectsAppend(READ_BACK, [Put]);
    EffectsAppend(READ_BACK + [Put], MODE_OPS);
  }

  /** What the registers hold once the programming is over: status page, ring start, a ring control word
      that is valid and has the ring's length, head and tail at zero. */
  ghost predicate Programmed(after: seq<Op>, status: U32, start: U32) {
    && LastWord(after, 0x4080) == status && LastWord(after, 0x2038) == start
    && LastWord(after, 0x203C) == 0x1_F001 && RingLength(0x1_F001) == 0x2_0000
    && LastWord(after, 0x2030) == LastWord(after, 0x2034) == 0
  }

  lemma ResetRegisters(status: U32)
    ensures LastWord(ResetWords(status), 0x4080) == status
    ensures LastWord(ResetWords(status), 0x2030) == LastWord(ResetWords(status), 0x2034) == 0
  {
    hide LastWord;
    var w := ResetWords(status);
    assert w == w[..1] + [Write(0x4080, status)] + w[2..];
    WordThenOthers(w[..1], 0x4080, status, w[2..]);
    assert w == w[..4] + [Write(0x2034, 0)] + w[5..];
    WordThenOthers(w[..4], 0x2034, 0, w[5..]);
    assert w == w[..5] + [Write(0x2030, 0)] + [];
    WordThenOthers(w[..5], 0x2030, 0, []);
  }

  lemma LaunchRegisters(start: U32)
    ensures LastWord(LaunchWords(start), 0x2038) == start && LastWord(LaunchWords(start), 0x203C) == 0x1_F001
    ensures LastWord(LaunchWords(start), 0x4080) == -1
    ensures LastWord(LaunchWords(start), 0x2030) == LastWord(LaunchWords(start), 0x2034) == -1
  {
    hide LastWord;
    var w := LaunchWords(start);
    assert w == [] + [Write(0x2038, start)] + [w[1]] && w == [w[0]] + [Write(0x203C, 0x1_F001)] + [];
    WordThenOthers([], 0x2038, start, [w[1]]);
    WordThenOthers([w[0]], 0x203C, 0x1_F001, []);
    NoWord(w, 0x4080);
    NoWord(w, 0x2030);
    NoWord(w, 0x2034);
  }

  lemma AgainRegisters(hw: Hardware)
    ensures LastWord(AgainWords(hw), 0x2034) == 0 || LastWord(AgainWords(hw), 0x2034) == -1
    ensures LastWord(AgainWords(hw), 0x4080) == LastWord(AgainWords(hw), 0x2030) == -1
  {
    hide LastWord;
    var w := AgainWords(hw);
    NoWord(w, 0x4080);
    NoWord(w, 0x2030);
    if w == [] {
      NoWord(w, 0x2034);
    } else {
      assert w == [] + [Write(0x2034, 0)] + [];
      WordThenOthers([], 0x2034, 0, []);
    }
  }

  lemma LaunchedLength()
    ensures RingLength(0x1_F001) == 0x2_0000
  {
    RingCtl();
    CtlRoundTrip(RING_BYTES);
    hide RingLength, CtlWord;
  }

  /** A register of the programming, from the parts of its words. */
  lemma ProgramRegister(before: seq<Op>, status: U32, start: U32, hw: Hardware, reg: nat)
    requires reg == 0x4080 || reg == 0x2038 || reg == 0x203C || reg == 0x2030 || reg == 0x2034
    ensures var launch, again, reset := LastWord(LaunchWords(start), reg), LastWord(AgainWords(hw), reg),
                                        LastWord(ResetWords(status), reg);
            LastWord(before + ProgramOps(status, start, hw), reg)
            == if launch >= 0 then launch else if again >= 0 then again
               else if reset >= 0 then reset else LastWord(before, reg)
  {
    var ops, modes := ProgramOps(status, start, hw), RunningWords(hw, start);
    NoWord(modes, reg);
    ProgramEffects(status, start, hw);
    hide LastWord, WriteCount, EffectsOf, ProgramOps, ResetWords, AgainWords, LaunchWords, RunningWords;
    WordOfEffects(ops, reg);
    WordAppend(before, ops, reg);
    WordAppend(ResetWords(status), AgainWords(hw), reg);
    WordAppend(ResetWords(status) + AgainWords(hw), LaunchWords(start), reg);
    WordAppend(ResetWords(status) + AgainWords(hw) + LaunchWords(start), modes, reg);
  }

  lemma ProgrammedRegisters(before: seq<Op>, status: U32, start: U32, hw: Hardware)
    ensures var after := before + ProgramOps(status, start, hw);
            && EffectsOf(after) == EffectsOf(before) + ProgramWords(status, start, hw)
            && Programmed(after, status, start)
  {
    ProgramEffects(status, start, hw);
    ResetRegisters(status);
    AgainRegisters(hw);
    LaunchRegisters(start);
    LaunchedLength();
    hide LastWord, ProgramOps, ProgramWords, RingLength, EffectsOf, ResetWords, AgainWords, LaunchWords;
    EffectsAppend(before, ProgramOps(status, start, hw));
    ProgramRegister(before, status, start, hw, 0x4080);
    ProgramRegister(before, status, start, hw, 0x2038);
    ProgramRegister(before, status, start, hw, 0x203C);
    ProgramRegister(before, status, start, hw, 0x2030);
    ProgramRegister(before, status, start, hw, 0x2034);
  }

  // ---- forcewake over the programming ----

  lemma {:induction false} ReadsQuiet(reg: nat, count: nat)
    ensures Quiet(Reads(reg, count))
  {
    if count > 0 {
      ReadsQuiet(reg, count - 1);
    }
  }

  lemma {:induction false} WaitQuiet(polls: seq<Poll>, start: U32)
    ensures Quiet(WaitOps(polls, start))
    decreases |polls|
  {
    hide And, HeadOffset;
    if polls != [] {
      WaitQuiet(polls[1..], start);
    }
  }

  lemma ProgramQuiet(status: U32, start: U32, hw: Hardware)
    ensures Quiet(ResetOps(status, hw) + StartOps(start, hw)) && Quiet(READ_BACK) && Quiet(MODE_OPS)
  {
    ReadsQuiet(RING_INSTPM, hw.flushRetries);
    WaitQuiet(Polls(hw), start);
    hide HeadOffset, MaskEnable, MaskDisable, WaitOps, Reads, CtlWord;
  }

  /** Programming keeps a balanced run balanced. A started ring leaves the balance as it was; one
      that did not start leaves a reference behind. */
  lemma ProgramBalanced(before: seq<Op>, status: U32, start: U32, hw: Hardware)
    requires Balanced(before) && LeavesWakeRegister(before) && Balance(before) + 1 < TWO_32
    ensures var after := before + ProgramOps(status, start, hw);
            && Balanced(after) && LeavesWakeRegister(after)
            && Balance(after) == Balance(before) + (if RingStarted(hw, start) then 0 else 1)
  {
    ProgramQuiet(status, start, hw);
    var first := ResetOps(status, hw) + StartOps(start, hw);
    hide Balance, Balanced, ResetOps, StartOps, Quiet;
    BalancedAt(before);
    BalanceSnoc(before, Get);
    var held := before + [Get];
    QuietAppend(held, first);
    if RingStarted(hw, start) {
      QuietAppend(held + first, READ_BACK);
      var read := held + first + READ_BACK;
      BalanceSnoc(read, Put);
      QuietAppend(read + [Put], MODE_OPS);
      assert before + ProgramOps(status, start, hw) == read + [Put] + MODE_OPS;
    } else {
      assert before + ProgramOps(status, start, hw) == held + first;
    }
  }

  /** After any balanced run, programming the ring finds the core awake at every register read
      that needs it, whatever the hardware answers. Count and wake bit end as they began if the
      ring starts; otherwise one reference stays taken and the core awake. */
  lemma ProgramAwake(before: seq<Op>, status: U32, start: U32, hw: Hardware)
    requires Balanced(before) && LeavesWakeRegister(before) && Balance(before) + 1 < TWO_32
    ensures var c := RunOps(SANITIZED, before);
            var c' := RunOps(SANITIZED, before + ProgramOps(status, start, hw));
            && ReadsAwake(c'.log)
            && c'.count == c.count + (if RingStarted(hw, start) then 0 else 1)
            && (Awake(c'.mt) <==> Awake(c.mt) || !RingStarted(hw, start))
  {
    ProgramBalanced(before, status, start, hw);
    BalancedRun(before);
    hide RunOps, Balance, Balanced, ReadsAwake, Awake, LeavesWakeRegister, ProgramOps, RingStarted;
    BalancedRun(before + ProgramOps(status, start, hw));
  }

  // ---- the methods ----

  method FlushTlb(dev: Device, hw: Hardware)
    requires dev.Valid()
    modifies dev
    ensures dev.Valid() && dev.trace == old(dev.trace) + FlushOps(hw)
  {
    hide Atomic, RunOps, FLUSH_REQUEST;
    dev.GpuWrite(RING_INSTPM, FLUSH_REQUEST);
    dev.Touch(RING_INSTPM);
    ghost var asked := dev.trace;
    var retries := 0;
    while retries < hw.flushRetries
      invariant retries <= hw.flushRetries
      invariant dev.Valid() && dev.trace == asked + Reads(RING_INSTPM, retries)
    {
      dev.Touch(RING_INSTPM);
      retries := retries + 1;
    }
  }

  /** HEAD is read back, and cleared once more if it is not at offset zero. */
  method ClearHead(dev: Device, ring: Ring, hw: Hardware)
    requires dev.Valid() && ring.regHead == hw.headAfterReset
    modifies dev, ring`regHead
    ensures dev.Valid() && dev.trace == old(dev.trace) + ([Read(RING_HEAD)] + ClearedOps(hw))
  {
    hide Atomic, RunOps, HeadOffset;
    var head := dev.GpuRead(RING_HEAD, ring.regHead);
    if HeadOffset(head) != 0 {
      dev.GpuWrite(RING_HEAD, 0);
      ring.regHead := hw.headAfterRetry;
      head := dev.GpuRead(RING_HEAD, ring.regHead);
      if HeadOffset(head) != 0 {
        dev.Touch(RING_CTL);
        dev.Touch(RING_HEAD);
        dev.Touch(RING_TAIL);
        dev.Touch(RING_START);
      }
    }
  }

  method PointStatusPage(dev: Device, ring: Ring)
    requires dev.Valid()
    modifies dev, ring`regStatusPage
    ensures dev.Valid() && dev.trace == old(dev.trace) + StatusOps(ring.gvaStatus)
    ensures ring.regStatusPage == ring.gvaStatus
  {
    hide Atomic, RunOps;
    dev.GpuWrite(RENDER_HWS_PGA, ring.gvaStatus);
    ring.regStatusPage := ring.gvaStatus;
    dev.Touch(RENDER_HWS_PGA);
  }

  method StopRing(dev: Device, ring: Ring, hw: Hardware)
    requires dev.Valid()
    modifies dev, ring`regCtl, ring`regHead, ring`regTail
    ensures dev.Valid() && dev.trace == old(dev.trace) + STOP_OPS
    ensures ring.regCtl == ring.regTail == 0 && ring.regHead == hw.headAfterReset
  {
    hide Atomic, RunOps;
    dev.GpuWrite(RING_CTL, 0);
    ring.regCtl := 0;
    dev.GpuWrite(RING_HEAD, 0);
    ring.regHead := hw.headAfterReset;
    dev.GpuWrite(RING_TAIL, 0);
    ring.regTail := 0;
  }

  method ResetRing(dev: Device, ring: Ring, hw: Hardware)
    requires dev.Valid()
    modifies dev, ring`regStatusPage, ring`regCtl, ring`regHead, ring`regTail
    ensures dev.Valid() && dev.trace == old(dev.trace) + ResetOps(ring.gvaStatus, hw)
    ensures ring.regStatusPage == ring.gvaStatus && ring.regCtl == ring.regTail == 0
  {
    hide Atomic, RunOps, FlushOps, ClearedOps, StatusOps, STOP_OPS;
    PointStatusPage(dev, ring);
    FlushTlb(dev, hw);
    StopRing(dev, ring, hw);
    ClearHead(dev, ring, hw);
    dev.Touch(RING_HEAD);
  }

  method CheckStart(dev: Device, p: Poll, start: U32) returns (ok: bool)
    requires dev.Valid()
    modifies dev
    ensures dev.Valid() && dev.trace == old(dev.trace) + PollOps(p, start)
    ensures ok <==> PollOk(p, start)
  {
    hide Atomic, RunOps, HeadOffset, And;
    var reg := dev.GpuRead(RING_CTL, p.ctl);
    if And(reg, RING_VALID) == 0 {
      return false;
    }
    reg := dev.GpuRead(RING_START, p.start);
    if reg != start {
      return false;
    }
    reg := dev.GpuRead(RING_HEAD, p.head);
    return HeadOffset(reg) == 0;
  }

  /** Polls until the start condition holds or the time is up. */
  method PollForStart(dev: Device, polls: seq<Poll>, start: U32) returns (started: bool, head: U32)
    requires dev.Valid()
    modifies dev
    ensures dev.Valid() && dev.trace == old(dev.trace) + WaitOps(polls, start)
    ensures started <==> exists p :: p in polls && PollOk(p, start)
    ensures started ==> HeadOffset(head) == 0
  {
    hide Atomic, RunOps, PollOps;
    started, head := false, 0;
    var i := 0;
    assert polls[0..] == polls;
    while i < |polls|
      invariant i <= |polls| && dev.Valid()
      invariant forall j :: 0 <= j < i ==> !PollOk(polls[j], start)
      invariant dev.trace + WaitOps(polls[i..], start) == old(dev.trace) + WaitOps(polls, start)
    {
      assert polls[i..][1..] == polls[i + 1..];
      var ok := CheckStart(dev, polls[i], start);
      if ok {
        return true, polls[i].head;
      }
      i := i + 1;
    }
  }

  lemma PolledIs(polls: seq<Poll>, start: U32)
    ensures (exists p :: p in polls && PollOk(p, start)) <==> (exists p :: p in polls && Running(p, start))
  {
    forall p: Poll
      ensures PollOk(p, start) <==> Running(p, start)
    {
      PollOkIs(p, start);
    }
    hide PollOk, Running;
  }

  /** Waits for the ring to start: until some evaluation finds the valid bit set, START at the ring and HEAD
      at offset zero. `head` is HEAD when it did. */
  method WaitForStart(dev: Device, polls: seq<Poll>, start: U32) returns (started: bool, head: U32)
    requires dev.Valid()
    modifies dev
    ensures dev.Valid() && dev.trace == old(dev.trace) + WaitOps(polls, start)
    ensures started <==> exists p :: p in polls && PollOk(p, start)
    ensures started <==> exists p :: p in polls && Running(p, start)
    ensures started ==> HeadOffset(head) == 0
  {
    PolledIs(polls, start);
    hide Atomic, RunOps, WaitOps, PollOk, Running, HeadOffset;
    started, head := PollForStart(dev, polls, start);
  }

  lemma ZeroTail()
    ensures And(0, RING_TAIL_ADDR) == 0
  {
  }

  lemma SpaceFieldIrrelevant(r: Regs, space: int)
    ensures RingSpace(r.(space := space)) == RingSpace(r)
  {
  }

  lemma StartsFresh(m: Machine)
    requires m.r.size == RING_BYTES && |m.mem| == RING_BYTES / 4
    requires HeadOffset(m.r.head) == HeadOffset(m.r.regHead) == 0
    requires m.r.tail == m.r.regTail == 0 && m.h == History([], 0, [], 0, false, 0)
    ensures Fresh(17, m)
  {
    Powers();
    hide Pow2, HeadOffset;
  }

  /** The driver's fields, read back from a ring that started. */
  method ReadBack(dev: Device, ring: Ring)
    requires dev.Valid() && ring.size == RING_BYTES && ring.virtualStart.Length == RING_BYTES / 4
    requires HeadOffset(ring.regHead) == 0 && ring.regTail == 0
    modifies dev, ring`head, ring`tail, ring`space, ring`history
    ensures dev.Valid() && dev.trace == old(dev.trace) + READ_BACK
    ensures Fresh(17, ring.State()) && ring.space == RingSpace(ring.Fields())
  {
    hide Atomic, RunOps, And, RingSpace, HeadOffset, Fresh;
    ring.RefreshHead(dev);
    var tail := dev.GpuRead(RING_TAIL, ring.regTail);
    ZeroTail();
    ring.tail := Trunc32(And(tail, RING_TAIL_ADDR));
    ring.history := History([], 0, [], 0, false, 0);
    ghost var before := ring.Fields();
    ring.space := ring.SpaceLeft();
    SpaceFieldIrrelevant(before, ring.space);
    StartsFresh(ring.State());
  }

  method SetModes(dev: Device)
    requires dev.Valid()
    modifies dev
    ensures dev.Valid() && dev.trace == old(dev.trace) + MODE_OPS
  {
    hide Atomic, RunOps;
    dev.GpuWrite(RING_MI_MODE, TIMER_DISPATCH_ON);
    dev.GpuWrite(RING_MI_MODE, ASYNC_FLIP_PERF_OFF);
    dev.GpuWrite(RING_MODE_GEN7, REPLAY_MODE_ON);
    dev.GpuWrite(RING_INSTPM, FORCE_ORDERING_ON);
  }

  /** Points the hardware at the ring and waits for it to start. */
  method LaunchRing(dev: Device, ring: Ring, hw: Hardware) returns (started: bool)
    requires dev.Valid() && ring.size == RING_BYTES
    modifies dev, ring`regCtl, ring`regHead, ring`regStart
    ensures dev.Valid() && dev.trace == old(dev.trace) + StartOps(ring.gvaRingbuffer, hw)
    ensures started <==> RingStarted(hw, ring.gvaRingbuffer)
    ensures ring.regStart == ring.gvaRingbuffer && ring.regCtl == CtlWord(RING_BYTES)
    ensures started ==> HeadOffset(ring.regHead) == 0
  {
    hide Atomic, RunOps, WaitOps, CtlWord, HeadOffset, PollOk, Running;
    dev.GpuWrite(RING_START, ring.gvaRingbuffer);
    ring.regStart := ring.gvaRingbuffer;
    dev.GpuWrite(RING_CTL, CtlWord(ring.size));
    ring.regCtl := CtlWord(ring.size);
    var head;
    started, head := WaitForStart(dev, Polls(hw), ring.gvaRingbuffer);
    if started {
      ring.regHead := head;
    }
  }

  /** The registers programmed under a forcewake reference, and the driver's fields read back. */
  method ProgramRing(dev: Device, ring: Ring, hw: Hardware) returns (started: bool)
    requires dev.Valid() && ring.size == RING_BYTES && ring.virtualStart.Length == RING_BYTES / 4
    modifies dev, ring`regStatusPage, ring`regCtl, ring`regHead, ring`regTail, ring`regStart
    modifies ring`head, ring`tail, ring`space, ring`history
    ensures dev.Valid()
    ensures dev.trace == old(dev.trace) + ProgramOps(ring.gvaStatus, ring.gvaRingbuffer, hw)
    ensures started <==> RingStarted(hw, ring.gvaRingbuffer)
    ensures ring.regStatusPage == ring.gvaStatus && ring.regStart == ring.gvaRingbuffer
    ensures ring.regCtl == CtlWord(RING_BYTES)
    ensures started ==> Fresh(17, ring.State()) && ring.space == RingSpace(ring.Fields())
  {
    hide Atomic, RunOps, ResetOps, StartOps, CtlWord, RingStarted, Fresh, RingSpace;
    dev.ForcewakeGet();
    ResetRing(dev, ring, hw);
    started := LaunchRing(dev, ring, hw);
    if started {
      ReadBack(dev, ring);
      dev.ForcewakePut();
      SetModes(dev);
    }
  }

  /** The ring started under a forcewake reference. A ring that does not start leaves the reference
      taken. */
  method StartRing(dev: Device, ring: Ring, hw: Hardware) returns (started: bool)
    requires dev.Valid() && ring.size == RING_BYTES && ring.virtualStart.Length == RING_BYTES / 4
    modifies dev, ring`regStatusPage, ring`regCtl, ring`regHead, ring`regTail, ring`regStart
    modifies ring`head, ring`tail, ring`space, ring`history
    ensures dev.Valid()
    ensures dev.trace == old(dev.trace) + ProgramOps(ring.gvaStatus, ring.gvaRingbuffer, hw)
    ensures EffectsOf(dev.trace) == EffectsOf(old(dev.trace)) + ProgramWords(ring.gvaStatus, ring.gvaRingbuffer, hw)
    ensures Programmed(dev.trace, ring.gvaStatus, ring.gvaRingbuffer)
    ensures started <==> RingStarted(hw, ring.gvaRingbuffer)
    ensures started <==> SeenRunning(hw, ring.gvaRingbuffer)
    ensures ring.regStatusPage == ring.gvaStatus && ring.regStart == ring.gvaRingbuffer
    ensures ring.regCtl == CtlWord(RING_BYTES)
    ensures started ==> Fresh(17, ring.State()) && ring.space == RingSpace(ring.Fields())
  {
    hide Programmed, SeenRunning, RingStarted, ProgramOps, ProgramWords, EffectsOf, CtlWord, Fresh, RingSpace, RunOps;
    StartedIs(hw, ring.gvaRingbuffer);
    ProgrammedRegisters(dev.trace, ring.gvaStatus, ring.gvaRingbuffer, hw);
    started := ProgramRing(dev, ring, hw);
  }
}
