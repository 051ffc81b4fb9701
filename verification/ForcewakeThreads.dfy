/** Forcewake under concurrency: any number of threads step through the locked sections one raw
    register access at a time, while the hardware acknowledges at its own pace. Every
    interleaving refines the atomic operations in the order the lock was taken. */
module ForcewakeThreads {
  import opened Bits
  import opened Forcewake

  datatype Lock = Free | Held(tid: nat)

  /** Where a thread stands: outside, waiting for the lock with an operation, or at the next raw
      step of its locked section. */
  datatype Pc =
    | Outside
    | Wanting(op: Op)
    | Entered(op: Op)
    | WaitClear(op: Op)
    | Enable(op: Op)
    | WaitSet(op: Op)
    | ReadRaw(reg: nat)
    | Disable(op: Op)
    | Leaving(op: Op)

  /** `core` is the counter, the wake register and the access log; `ack` the hardware's
      acknowledgement; `tokens` the references callers hold and have not started to drop;
      `claims` those and the ones being taken; `order` the operations in the order the lock was
      taken; `timedOut` whether any wait ever gave up. */
  datatype Sys = Sys(lock: Lock, pcs: map<nat, Pc>, core: Core, ack: bool,
                     tokens: nat, claims: nat, order: seq<Op>, timedOut: bool)

  datatype Move = Call(tid: nat, op: Op) | Acquire(tid: nat) | Go(tid: nat, giveUp: bool) | Acknowledge

  function PcOf(s: Sys, t: nat): Pc {
    if t in s.pcs then s.pcs[t] else Outside
  }

  predicate IsDrop(op: Op) {
    op.Put? || op.Work?
  }

  /** Callers drop only references they hold, hold fewer than 2^32, and leave the wake register
      to forcewake. A wait ends when the acknowledgement arrives or it times out. */
  predicate Enabled(s: Sys, m: Move) {
    match m
    case Call(t, op) =>
      && PcOf(s, t) == Outside
      && (IsDrop(op) ==> 0 < s.tokens)
      && (op.Get? ==> s.claims + 1 < TWO_32)
      && (op.Write? ==> op.reg != FORCEWAKE_MT)
    case Acquire(t) => s.lock == Free && PcOf(s, t).Wanting?
    case Go(t, giveUp) =>
      && s.lock == Held(t) && !PcOf(s, t).Outside? && !PcOf(s, t).Wanting?
      && (PcOf(s, t).WaitClear? ==> giveUp || !s.ack)
      && (PcOf(s, t).WaitSet? ==> giveUp || s.ack)
    case Acknowledge => true
  }

  /** One raw step inside the locked section: the new core and the new position. */
  function Inside(c: Core, pc: Pc): (Core, Pc) {
    match pc
    case Entered(op) =>
      (match op
       case Get => (c.(count := Trunc32(c.count + 1)), if c.count == 0 then WaitClear(op) else Leaving(op))
       case Put => (c.(count := Sub32(c.count, 1)), if Sub32(c.count, 1) == 0 then Disable(op) else Leaving(op))
       case Work => (c.(count := Sub32(c.count, 1)), if Sub32(c.count, 1) == 0 then Disable(op) else Leaving(op))
       case Read(reg) => (c, if c.count == 0 && NeedsForcewake(reg) then WaitClear(op) else ReadRaw(reg))
       case Write(reg, word) => (RawWrite(c, reg, word), Leaving(op)))
    case WaitClear(op) => (c, Enable(op))
    case Enable(op) => (WakeOn(c), WaitSet(op))
    case WaitSet(op) => (c, if op.Read? then ReadRaw(op.reg) else Leaving(op))
    case ReadRaw(reg) =>
      (RawRead(c, reg), if c.count == 0 && NeedsForcewake(reg) then Disable(Read(reg)) else Leaving(Read(reg)))
    case Disable(op) => (WakeOff(c), Leaving(op))
    case _ => (c, pc)
  }

  function Next(s: Sys, m: Move): Sys {
    match m
    case Call(t, op) =>
      s.(pcs := s.pcs[t := Wanting(op)],
         tokens := if IsDrop(op) && 0 < s.tokens then s.tokens - 1 else s.tokens,
         claims := if op.Get? then s.claims + 1 else s.claims)
    case Acquire(t) =>
      var op := PcOf(s, t);
      if !op.Wanting? then s
      else s.(lock := Held(t), pcs := s.pcs[t := Entered(op.op)], order := s.order + [op.op],
              claims := if IsDrop(op.op) && 0 < s.claims then s.claims - 1 else s.claims)
    case Go(t, giveUp) =>
      var pc := PcOf(s, t);
      if pc.Leaving? then
        s.(lock := Free, pcs := s.pcs[t := Outside], tokens := if pc.op.Get? then s.tokens + 1 else s.tokens)
      else
        var (core, pc') := Inside(s.core, pc);
        s.(core := core, pcs := s.pcs[t := pc'], timedOut := s.timedOut || giveUp)
    case Acknowledge => s.(ack := Awake(s.core.mt))
  }

  function Moves(s: Sys, moves: seq<Move>): Sys
    decreases |moves|
  {
    if moves == [] then s else Moves(Next(s, moves[0]), moves[1..])
  }

  /** An interleaving in which every move is enabled when it happens. */
  predicate Interleaving(s: Sys, moves: seq<Move>)
    decreases |moves|
  {
    moves == [] || (Enabled(s, moves[0]) && Interleaving(Next(s, moves[0]), moves[1..]))
  }

  predicate Initial(s: Sys) {
    && s.lock == Free && s.pcs == map[] && s.core == SANITIZED
    && s.tokens == 0 && s.claims == 0 && s.order == [] && !s.timedOut
  }

  // ---- refinement of the atomic operations ----

  function FinishRead(c: Core, reg: nat): Core {
    if c.count == 0 && NeedsForcewake(reg) then WakeOff(RawRead(c, reg)) else RawRead(c, reg)
  }

  function FinishAwake(c: Core, op: Op): Core {
    if op.Read? then FinishRead(c, op.reg) else c
  }

  /** The core once the locked section has run to its end. */
  function Finish(c: Core, pc: Pc): Core {
    match pc
    case Entered(op) => Atomic(c, op)
    case WaitClear(op) => FinishAwake(WakeOn(c), op)
    case Enable(op) => FinishAwake(WakeOn(c), op)
    case WaitSet(op) => FinishAwake(c, op)
    case ReadRaw(reg) => FinishRead(c, reg)
    case Disable(_) => WakeOff(c)
    case _ => c
  }

  /** The abstract core: what it will be when the lock is next free. */
  function Committed(s: Sys): Core {
    if s.lock.Free? then s.core else Finish(s.core, PcOf(s, s.lock.tid))
  }

  lemma EnteredRefines(c: Core, op: Op)
    ensures Finish(Inside(c, Entered(op)).0, Inside(c, Entered(op)).1) == Atomic(c, op)
  {
    hide WakeOn, WakeOff, RawRead, RawWrite, NeedsForcewake, Trunc32, Sub32;
    match op
    case Read(reg) => ReadSection(c, reg);
    case _ =>
  }

  lemma ReadSection(c: Core, reg: nat)
    ensures Atomic(c, Read(reg))
         == if c.count == 0 && NeedsForcewake(reg) then FinishRead(WakeOn(c), reg) else FinishRead(c, reg)
  {
    hide MaskedWrite, MaskEnable, MaskDisable, Awake, NeedsForcewake;
  }

  /** A raw step inside a section does not change its outcome. */
  lemma InsideRefines(c: Core, pc: Pc)
    requires !pc.Leaving?
    ensures Finish(Inside(c, pc).0, Inside(c, pc).1) == Finish(c, pc)
  {
    if pc.Entered? {
      EnteredRefines(c, pc.op);
    }
    hide Atomic, MaskedWrite, MaskEnable, MaskDisable, Awake, NeedsForcewake, Trunc32, Sub32;
  }

  // ---- the invariant ----

  function PendingDrops(s: Sys): set<nat> {
    set t | t in s.pcs && s.pcs[t].Wanting? && IsDrop(s.pcs[t].op)
  }

  function PendingGets(s: Sys): set<nat> {
    set t | t in s.pcs && s.pcs[t].Wanting? && s.pcs[t].op.Get?
  }

  predicate InSection(pc: Pc) {
    !pc.Outside? && !pc.Wanting?
  }

  predicate IsGet(pc: Pc) {
    InSection(pc) && !pc.ReadRaw? && pc.op.Get?
  }

  /** A reference the lock holder has taken but not yet been told of. */
  function TakenNotReturned(s: Sys): nat {
    if s.lock.Held? && IsGet(PcOf(s, s.lock.tid)) then 1 else 0
  }

  /** Only the lock holder is inside a section. */
  ghost predicate Exclusive(s: Sys) {
    && (forall t :: t in s.pcs ==> (InSection(s.pcs[t]) <==> s.lock == Held(t)))
    && (s.lock.Held? ==> s.lock.tid in s.pcs)
  }

  /** References agree with the operations in lock order. */
  ghost predicate Accounts(s: Sys) {
    && Balance(s.order) == s.tokens + |PendingDrops(s)| + TakenNotReturned(s)
    && s.claims == Balance(s.order) + |PendingGets(s)|
    && s.claims < TWO_32
  }

  ghost predicate WritesElsewhere(s: Sys) {
    && LeavesWakeRegister(s.order)
    && forall t :: t in s.pcs && s.pcs[t].Wanting? && s.pcs[t].op.Write? ==> s.pcs[t].op.reg != FORCEWAKE_MT
  }

  /** The bit matches the count and, unless a wait gave up, a held reference is acknowledged. */
  predicate Settled(c: Core, ack: bool, timedOut: bool) {
    WakeMatches(c) && (!timedOut && c.count > 0 ==> ack)
  }

  /** The first reference being taken, or a read without a reference that needs the core. */
  predicate Waking(c: Core, op: Op) {
    (op.Get? && c.count > 0) || (op.Read? && c.count == 0 && NeedsForcewake(op.reg))
  }

  /** What the lock holder knows at each step. */
  predicate HolderKnows(c: Core, ack: bool, timedOut: bool, pc: Pc) {
    match pc
    case Entered(op) =>
      && Settled(c, ack, timedOut) && 0 <= c.count + Delta(op) < TWO_32
      && (op.Write? ==> op.reg != FORCEWAKE_MT)
    case WaitClear(op) => !Awake(c.mt) && Waking(c, op)
    case Enable(op) => !Awake(c.mt) && Waking(c, op)
    case WaitSet(op) => Awake(c.mt) && Waking(c, op)
    case ReadRaw(reg) =>
      if NeedsForcewake(reg) then Awake(c.mt) && (!timedOut ==> ack) else Settled(c, ack, timedOut)
    case Disable(op) => c.count == 0
    case Leaving(op) => Settled(c, ack, timedOut)
    case _ => false
  }

  ghost predicate Refines(s: Sys) {
    && Balanced(s.order)
    && Committed(s) == RunOps(SANITIZED, s.order)
  }

  ghost predicate Inv(s: Sys) {
    && Exclusive(s) && Accounts(s) && WritesElsewhere(s) && Refines(s)
    && ReadsAwake(s.core.log)
    && match s.lock
       case Free => Settled(s.core, s.ack, s.timedOut)
       case Held(t) => HolderKnows(s.core, s.ack, s.timedOut, PcOf(s, t))
  }

  lemma InitialInv(s: Sys)
    requires Initial(s)
    ensures Inv(s)
  {
    assert PendingDrops(s) == {} && PendingGets(s) == {};
    assert !Awake(0);
    assert forall i :: 0 <= i <= |s.order| ==> s.order[..i] == [];
  }

  // ---- every move keeps the invariant ----

  lemma CallAccounts(s: Sys, t: nat, op: Op)
    requires Exclusive(s) && Accounts(s) && WritesElsewhere(s) && Enabled(s, Call(t, op))
    ensures var s' := Next(s, Call(t, op)); Exclusive(s') && Accounts(s') && WritesElsewhere(s')
    ensures Next(s, Call(t, op)).lock.Held? ==>
              PcOf(Next(s, Call(t, op)), s.lock.tid) == PcOf(s, s.lock.tid)
  {
    DropsAfterCall(s, t, op);
    GetsAfterCall(s, t, op);
    hide Balance, LeavesWakeRegister, PendingDrops, PendingGets;
  }

  lemma PcsAfterCall(s: Sys, t: nat, op: Op)
    ensures Next(s, Call(t, op)).pcs == s.pcs[t := Wanting(op)]
  {
  }

  lemma DropsAfterCall(s: Sys, t: nat, op: Op)
    requires PcOf(s, t).Outside?
    ensures |PendingDrops(Next(s, Call(t, op)))| == |PendingDrops(s)| + (if IsDrop(op) then 1 else 0)
  {
    var s' := Next(s, Call(t, op));
    PcsAfterCall(s, t, op);
    hide Next, IsDrop;
    forall u
      ensures u in PendingDrops(s') <==> u in PendingDrops(s) || (u == t && IsDrop(op))
    {
    }
    assert t !in PendingDrops(s);
    hide PendingDrops;
    if IsDrop(op) {
      assert PendingDrops(s') == PendingDrops(s) + {t};
    } else {
      assert PendingDrops(s') == PendingDrops(s);
    }
  }

  lemma GetsAfterCall(s: Sys, t: nat, op: Op)
    requires PcOf(s, t).Outside?
    ensures |PendingGets(Next(s, Call(t, op)))| == |PendingGets(s)| + (if op.Get? then 1 else 0)
  {
    var s' := Next(s, Call(t, op));
    PcsAfterCall(s, t, op);
    hide Next;
    if op.Get? {
      assert t !in PendingGets(s);
      assert PendingGets(s') == PendingGets(s) + {t};
    } else {
      assert PendingGets(s') == PendingGets(s);
    }
  }

  lemma CallKeeps(s: Sys, t: nat, op: Op)
    requires Inv(s) && Enabled(s, Call(t, op))
    ensures Inv(Next(s, Call(t, op)))
  {
    var s' := Next(s, Call(t, op));
    CallAccounts(s, t, op);
    hide HolderKnows, ReadsAwake, Settled, Exclusive, Accounts, WritesElsewhere, Finish;
    assert Committed(s') == Committed(s);
    RefinesSame(s, s');
    hide Refines;
  }

  lemma RefinesSame(s: Sys, s': Sys)
    requires Refines(s) && s'.order == s.order && Committed(s') == Committed(s)
    ensures Refines(s')
  {
  }

  /** Between sections the core is the outcome of the operations so far. */
  lemma FreeCore(s: Sys)
    requires Inv(s) && s.lock.Free?
    ensures s.core == RunOps(SANITIZED, s.order)
    ensures WakeMatches(s.core) && s.core.count == Balance(s.order) && s.core.mt <= 0xFFFF
  {
    hide HolderKnows, Exclusive, Accounts;
    BalancedRun(s.order);
  }

  lemma DropsAfterAcquire(s: Sys, t: nat)
    requires PcOf(s, t).Wanting?
    ensures var s' := Next(s, Acquire(t));
            |PendingDrops(s')| == |PendingDrops(s)| - (if IsDrop(PcOf(s, t).op) then 1 else 0)
  {
    var s' := Next(s, Acquire(t));
    if IsDrop(PcOf(s, t).op) {
      assert t in PendingDrops(s);
      assert PendingDrops(s') == PendingDrops(s) - {t};
    } else {
      assert PendingDrops(s') == PendingDrops(s);
    }
  }

  lemma GetsAfterAcquire(s: Sys, t: nat)
    requires PcOf(s, t).Wanting?
    ensures var s' := Next(s, Acquire(t));
            |PendingGets(s')| == |PendingGets(s)| - (if PcOf(s, t).op.Get? then 1 else 0)
  {
    var s' := Next(s, Acquire(t));
    if PcOf(s, t).op.Get? {
      assert t in PendingGets(s);
      assert PendingGets(s') == PendingGets(s) - {t};
    } else {
      assert PendingGets(s') == PendingGets(s);
    }
  }

  lemma AcquireAccounts(s: Sys, t: nat)
    requires Accounts(s) && Enabled(s, Acquire(t))
    ensures var s' := Next(s, Acquire(t)); var op := PcOf(s, t).op;
            && Balance(s'.order) == Balance(s.order) + Delta(op)
            && 0 <= Balance(s'.order) < TWO_32
            && Accounts(s')
  {
    BalanceSnoc(s.order, PcOf(s, t).op);
    DropsAfterAcquire(s, t);
    GetsAfterAcquire(s, t);
    hide Balance, RunOps, Balanced, PendingDrops, PendingGets;
  }

  lemma AcquireOrder(s: Sys, t: nat)
    requires Exclusive(s) && WritesElsewhere(s) && Enabled(s, Acquire(t))
    ensures var s' := Next(s, Acquire(t)); Exclusive(s') && WritesElsewhere(s')
  {
  }

  lemma AcquireKeeps(s: Sys, t: nat)
    requires Inv(s) && Enabled(s, Acquire(t))
    ensures Inv(Next(s, Acquire(t)))
  {
    var s' := Next(s, Acquire(t));
    var op := PcOf(s, t).op;
    FreeCore(s);
    RunOpsSnoc(SANITIZED, s.order, op);
    BalanceSnoc(s.order, op);
    AcquireAccounts(s, t);
    AcquireOrder(s, t);
    hide Balance, Balanced, RunOps, Atomic, Accounts, WakeMatches, ReadsAwake, LeavesWakeRegister, Delta;
  }

  /** A raw step keeps the accounts: it starts and ends inside the section. */
  lemma InsideAccounts(s: Sys, t: nat, giveUp: bool)
    requires Exclusive(s) && Accounts(s) && WritesElsewhere(s)
    requires s.lock == Held(t) && !PcOf(s, t).Leaving?
    requires HolderKnows(s.core, s.ack, s.timedOut, PcOf(s, t))
    ensures var s' := Next(s, Go(t, giveUp)); Exclusive(s') && Accounts(s') && WritesElsewhere(s')
  {
    var s' := Next(s, Go(t, giveUp));
    assert PendingDrops(s') == PendingDrops(s);
    assert PendingGets(s') == PendingGets(s);
    hide Balance, LeavesWakeRegister, Awake, WakeOn, WakeOff, RawRead, RawWrite, NeedsForcewake;
    hide PendingDrops, PendingGets;
  }

  lemma EnteredKnows(c: Core, ack: bool, timedOut: bool, op: Op)
    requires HolderKnows(c, ack, timedOut, Entered(op)) && ReadsAwake(c.log)
    ensures var (c', pc') := Inside(c, Entered(op));
            HolderKnows(c', ack, timedOut, pc') && ReadsAwake(c'.log)
  {
    hide MaskedWrite, Awake, NeedsForcewake;
  }

  lemma InsideKnows(c: Core, ack: bool, timedOut: bool, pc: Pc, giveUp: bool)
    requires HolderKnows(c, ack, timedOut, pc) && !pc.Leaving? && ReadsAwake(c.log)
    requires pc.WaitSet? ==> giveUp || ack
    ensures var (c', pc') := Inside(c, pc);
            HolderKnows(c', ack, timedOut || giveUp, pc') && ReadsAwake(c'.log)
  {
    WakeBit(c.mt);
    hide MaskedWrite, MaskEnable, MaskDisable, Awake;
    if pc.Entered? {
      EnteredKnows(c, ack, timedOut, pc.op);
    }
    hide Trunc32, Sub32, NeedsForcewake;
  }

  lemma InsideKeeps(s: Sys, t: nat, giveUp: bool)
    requires Inv(s) && Enabled(s, Go(t, giveUp)) && !PcOf(s, t).Leaving?
    ensures Inv(Next(s, Go(t, giveUp)))
  {
    var s' := Next(s, Go(t, giveUp));
    InsideAccounts(s, t, giveUp);
    InsideKnows(s.core, s.ack, s.timedOut, PcOf(s, t), giveUp);
    InsideRefines(s.core, PcOf(s, t));
    hide HolderKnows, Inside, Finish, Exclusive, Accounts, WritesElsewhere, ReadsAwake;
    assert Committed(s') == Committed(s);
  }

  lemma LeaveKeeps(s: Sys, t: nat, giveUp: bool)
    requires Inv(s) && Enabled(s, Go(t, giveUp)) && PcOf(s, t).Leaving?
    ensures Inv(Next(s, Go(t, giveUp)))
  {
    var s' := Next(s, Go(t, giveUp));
    assert PendingDrops(s') == PendingDrops(s);
    assert PendingGets(s') == PendingGets(s);
    hide Balance, LeavesWakeRegister, ReadsAwake, Settled, Balanced, RunOps;
  }

  lemma AcknowledgeKeeps(s: Sys)
    requires Inv(s)
    ensures Inv(Next(s, Acknowledge))
  {
    var s' := Next(s, Acknowledge);
    assert PendingDrops(s') == PendingDrops(s) && PendingGets(s') == PendingGets(s);
    hide Awake, Balance, LeavesWakeRegister, ReadsAwake, Balanced, RunOps, Finish;
  }

  lemma MoveKeeps(s: Sys, m: Move)
    requires Inv(s) && Enabled(s, m)
    ensures Inv(Next(s, m))
  {
    hide Inv, Next;
    match m
    case Call(t, op) => CallKeeps(s, t, op);
    case Acquire(t) => AcquireKeeps(s, t);
    case Go(t, giveUp) =>
      if PcOf(s, t).Leaving? {
        LeaveKeeps(s, t, giveUp);
      } else {
        InsideKeeps(s, t, giveUp);
      }
    case Acknowledge => AcknowledgeKeeps(s);
  }

  lemma {:induction false} InterleavingKeeps(s: Sys, moves: seq<Move>)
    requires Inv(s) && Interleaving(s, moves)
    ensures Inv(Moves(s, moves))
    decreases |moves|
  {
    hide Inv, Next, Enabled;
    if moves != [] {
      MoveKeeps(s, moves[0]);
      InterleavingKeeps(Next(s, moves[0]), moves[1..]);
    }
  }

  // ---- the theorems ----

  /** Whenever the lock is free, in every interleaving: the state is that of the atomic operations
      in lock order, the wake bit is set exactly while references are held, the count is gets
      less drops, and no read that needed the core awake found it asleep. */
  lemma LockFree(s: Sys, moves: seq<Move>)
    requires Initial(s) && Interleaving(s, moves) && Moves(s, moves).lock.Free?
    ensures var s' := Moves(s, moves);
            && s'.core == RunOps(SANITIZED, s'.order)
            && WakeMatches(s'.core) && s'.core.count == Balance(s'.order)
            && ReadsAwake(s'.core.log)
  {
    InitialInv(s);
    InterleavingKeeps(s, moves);
    FreeCore(Moves(s, moves));
  }

  /** At any moment, even inside a section: a thread about to do a raw read that needs it finds the
      wake bit set, acknowledged unless some wait gave up; and no thread starts waking a core
      whose bit is already set. */
  lemma AtTheAccess(s: Sys, moves: seq<Move>, t: nat)
    requires Initial(s) && Interleaving(s, moves)
    ensures var s' := Moves(s, moves); var pc := PcOf(s', t);
            && (pc.ReadRaw? && pc.reg < 0x4_0000 && pc.reg != 0xA18C ==>
                Awake(s'.core.mt) && (s'.timedOut || s'.ack))
            && (pc.WaitClear? || pc.Enable? ==> !Awake(s'.core.mt))
            && (InSection(pc) ==> s'.lock == Held(t))
            && ReadsAwake(s'.core.log)
  {
    InitialInv(s);
    InterleavingKeeps(s, moves);
    hide Awake, Accounts, Refines, WritesElsewhere;
  }

  // ---- progress ----

  lemma {:induction false} MovesAppend(s: Sys, a: seq<Move>, b: seq<Move>)
    ensures Moves(s, a + b) == Moves(Moves(s, a), b)
    ensures Interleaving(s, a + b) <==> Interleaving(s, a) && Interleaving(Moves(s, a), b)
    decreases |a|
  {
    hide Next, Enabled;
    if a == [] {
      assert [] + b == b;
    } else {
      assert (a + b)[1..] == a[1..] + b;
      MovesAppend(Next(s, a[0]), a[1..], b);
    }
  }

  /** Raw steps a section has still to make, at most. */
  function Rank(pc: Pc): nat {
    match pc
    case Entered(_) => 6
    case WaitClear(_) => 5
    case Enable(_) => 4
    case WaitSet(_) => 3
    case ReadRaw(_) => 2
    case Disable(_) => 1
    case _ => 0
  }

  /** Everyone but `t` is where they were, and no wait has newly given up. */
  ghost predicate OthersStay(s: Sys, s': Sys, t: nat) {
    s'.timedOut == s.timedOut && forall u :: u != t ==> PcOf(s', u) == PcOf(s, u)
  }

  /** With the acknowledgement up to date, the holder can make its next step without giving up. */
  lemma HolderSteps(s: Sys, t: nat)
    requires Inv(s) && s.lock == Held(t)
    ensures var s1 := Next(s, Acknowledge); var s2 := Next(s1, Go(t, false));
            && Enabled(s, Acknowledge) && Enabled(s1, Go(t, false)) && OthersStay(s, s2, t)
            && if PcOf(s, t).Leaving? then s2.lock.Free? && PcOf(s2, t) == Outside
               else s2.lock == Held(t) && Rank(PcOf(s2, t)) < Rank(PcOf(s, t))
  {
    hide Awake, Accounts, WritesElsewhere, Refines, ReadsAwake, WakeOn, WakeOff, RawRead, RawWrite, NeedsForcewake;
    hide Trunc32, Sub32, WakeMatches, Settled, Waking;
  }

  /** A held lock can always be freed, without any wait giving up, by the hardware acknowledging and the
      holder going on. */
  lemma {:induction false} HolderFinishes(s: Sys, t: nat) returns (more: seq<Move>)
    requires Inv(s) && s.lock == Held(t)
    ensures Interleaving(s, more) && Inv(Moves(s, more)) && Moves(s, more).lock.Free?
    ensures PcOf(Moves(s, more), t) == Outside && OthersStay(s, Moves(s, more), t)
    decreases Rank(PcOf(s, t))
  {
    var s1 := Next(s, Acknowledge);
    var s2 := Next(s1, Go(t, false));
    HolderSteps(s, t);
    MoveKeeps(s, Acknowledge);
    MoveKeeps(s1, Go(t, false));
    var rest := [];
    if !PcOf(s, t).Leaving? {
      hide Inv, Next, Enabled, Rank;
      rest := HolderFinishes(s2, t);
    }
    hide Inv, Next, Enabled;
    TwoMoves(s, Acknowledge, Go(t, false));
    more := [Acknowledge, Go(t, false)] + rest;
    MovesAppend(s, [Acknowledge, Go(t, false)], rest);
  }

  lemma TwoMoves(s: Sys, m1: Move, m2: Move)
    ensures Moves(s, [m1, m2]) == Next(Next(s, m1), m2)
    ensures Interleaving(s, [m1, m2]) <==> Enabled(s, m1) && Enabled(Next(s, m1), m2)
  {
    hide Next, Enabled;
    assert [m1, m2][1..] == [m2] && [m2][1..] == [];
    assert Moves(Next(s, m1), [m2]) == Moves(Next(Next(s, m1), m2), []);
    assert Interleaving(Next(s, m1), [m2]) <==> Enabled(Next(s, m1), m2) && Interleaving(Next(Next(s, m1), m2), []);
  }

  lemma FreeOutside(s: Sys, t: nat)
    requires Inv(s)
    ensures InSection(PcOf(s, t)) <==> s.lock == Held(t)
  {
    hide Accounts, WritesElsewhere, Refines, ReadsAwake, HolderKnows, Settled;
  }

  /** From lock free on, a waiting thread can take the lock and finish. */
  lemma WaiterFinishes(s: Sys, t: nat) returns (more: seq<Move>)
    requires Inv(s) && s.lock.Free? && PcOf(s, t).Wanting?
    ensures Interleaving(s, more) && PcOf(Moves(s, more), t) == Outside
    ensures Moves(s, more).timedOut == s.timedOut
  {
    var s1 := Next(s, Acquire(t));
    MoveKeeps(s, Acquire(t));
    assert s1.lock == Held(t) && s1.timedOut == s.timedOut && Enabled(s, Acquire(t));
    hide Inv, Next, Enabled;
    var rest := HolderFinishes(s1, t);
    more := [Acquire(t)] + rest;
    assert more[1..] == rest;
  }

  /** No deadlock: after every interleaving, whatever any thread has called can still be completed, without
      any wait having to give up. */
  lemma EveryCallCompletes(s: Sys, moves: seq<Move>, t: nat) returns (more: seq<Move>)
    requires Initial(s) && Interleaving(s, moves)
    ensures Interleaving(s, moves + more) && PcOf(Moves(s, moves + more), t) == Outside
    ensures Moves(s, moves + more).timedOut == Moves(s, moves).timedOut
  {
    var s' := Moves(s, moves);
    InitialInv(s);
    InterleavingKeeps(s, moves);
    FreeOutside(s', t);
    hide Inv, Initial;
    more := [];
    if s'.lock.Held? {
      more := HolderFinishes(s', s'.lock.tid);
    }
    var s1 := Moves(s', more);
    MovesAppend(s', more, []);
    if PcOf(s1, t).Wanting? {
      var rest := WaiterFinishes(s1, t);
      MovesAppend(s', more, rest);
      more := more + rest;
    }
    MovesAppend(s, moves, more);
  }
}
