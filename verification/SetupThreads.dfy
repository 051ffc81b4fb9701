/** Set-up as one thread among any number: its register accesses are interleaved, one raw step at a time,
    with those of all others. */
module SetupThreads {
  import opened Bits
  import opened Forcewake
  import opened ForcewakeThreads
  import opened RingProgram
  import opened Setup
  import opened SelfTest

  // ---- what each thread does in an interleaving ----

  /** The operations thread `t` calls, in order. */
  function Calls(moves: seq<Move>, t: nat): seq<Op> {
    if moves == [] then []
    else (if moves[0].Call? && moves[0].tid == t then [moves[0].op] else []) + Calls(moves[1..], t)
  }

  /** The operation with which a move takes the lock, for thread `t` or for all others. */
  function Taken(s: Sys, m: Move, t: nat, own: bool): seq<Op> {
    if m.Acquire? && PcOf(s, m.tid).Wanting? && ((m.tid == t) <==> own) then [PcOf(s, m.tid).op] else []
  }

  /** The operations of thread `t`, or of all others, in the order they took the lock. */
  function Locked(s: Sys, moves: seq<Move>, t: nat, own: bool): seq<Op>
    decreases |moves|
  {
    if moves == [] then [] else Taken(s, moves[0], t, own) + Locked(Next(s, moves[0]), moves[1..], t, own)
  }

  function Waiting(s: Sys, t: nat): seq<Op> {
    if PcOf(s, t).Wanting? then [PcOf(s, t).op] else []
  }

  lemma OrderNext(s: Sys, m: Move, t: nat)
    ensures Next(s, m).order == s.order + Taken(s, m, t, true) + Taken(s, m, t, false)
  {
    hide Inside;
  }

  /** The lock order is made of the thread's own operations and those of all others. */
  lemma {:induction false} BalanceByThread(s: Sys, moves: seq<Move>, t: nat)
    ensures Balance(Moves(s, moves).order)
         == Balance(s.order) + Balance(Locked(s, moves, t, true)) + Balance(Locked(s, moves, t, false))
    decreases |moves|
  {
    if moves != [] {
      var m, s' := moves[0], Next(s, moves[0]);
      var own, others := Taken(s, m, t, true), Taken(s, m, t, false);
      OrderNext(s, m, t);
      BalanceByThread(s', moves[1..], t);
      hide Balance, Next, Taken;
      BalanceAppend(s.order + own, others);
      BalanceAppend(s.order, own);
      BalanceAppend(own, Locked(s', moves[1..], t, true));
      BalanceAppend(others, Locked(s', moves[1..], t, false));
    }
  }

  lemma WaitingNext(s: Sys, m: Move, t: nat)
    requires Enabled(s, m)
    ensures Waiting(s, t) + Calls([m], t) == Taken(s, m, t, true) + Waiting(Next(s, m), t)
  {
    assert Calls([m], t) == if m.Call? && m.tid == t then [m.op] else [] by {
      assert [m][1..] == [];
    }
    hide Inside, Calls;
  }

  lemma CallsFirst(moves: seq<Move>, t: nat)
    requires moves != []
    ensures Calls(moves, t) == Calls([moves[0]], t) + Calls(moves[1..], t)
  {
    assert [moves[0]][1..] == [];
  }

  /** If `w + x` is `y + v` and `v + x'` is `y' + z`, then `w + x + x'` is `y + y' + z`. */
  lemma Shifted(w: seq<Op>, x: seq<Op>, x': seq<Op>, y: seq<Op>, y': seq<Op>, v: seq<Op>, z: seq<Op>)
    requires w + x == y + v && v + x' == y' + z
    ensures w + (x + x') == (y + y') + z
  {
    assert w + (x + x') == w + x + x';
    assert y + v + x' == y + (v + x');
    assert y + (y' + z) == (y + y') + z;
  }

  /** A thread's operations take the lock in the order of its calls. */
  lemma {:induction false} CallsInOrder(s: Sys, moves: seq<Move>, t: nat)
    requires Interleaving(s, moves)
    ensures Waiting(s, t) + Calls(moves, t) == Locked(s, moves, t, true) + Waiting(Moves(s, moves), t)
    decreases |moves|
  {
    hide Next, Enabled, Taken, Waiting;
    if moves != [] {
      var m, rest, s' := moves[0], moves[1..], Next(s, moves[0]);
      WaitingNext(s, m, t);
      CallsInOrder(s', rest, t);
      CallsFirst(moves, t);
      hide Calls;
      Shifted(Waiting(s, t), Calls([m], t), Calls(rest, t), Taken(s, m, t, true), Locked(s', rest, t, true),
              Waiting(s', t), Waiting(Moves(s', rest), t));
    }
  }

  /** Whenever the lock is free, in every interleaving: the count is what thread `t` holds and what all
      others hold, and if that is anything the core is awake. */
  lemma CountByThread(s: Sys, moves: seq<Move>, t: nat)
    requires Initial(s) && Interleaving(s, moves) && Moves(s, moves).lock.Free?
    ensures var s' := Moves(s, moves);
            && s'.core.count == Balance(Locked(s, moves, t, true)) + Balance(Locked(s, moves, t, false))
            && WakeMatches(s'.core) && ReadsAwake(s'.core.log)
  {
    LockFree(s, moves);
    hide Locked, Moves, Interleaving, ReadsAwake, WakeMatches, RunOps;
    BalanceByThread(s, moves, t);
  }

  /** Set-up by thread `t`, with every other thread doing what it likes between any two raw steps: once its
      last operation has had the lock and the lock is free, what set-up adds to the count is one reference
      if the ring was programmed and did not start, and nothing otherwise; the wake bit matches, and every
      read that needed the core, of set-up and of all others, found it awake. */
  lemma SetupAmongThreads(s: Sys, moves: seq<Move>, t: nat, before: seq<Op>,
                          env: Environment, test: TestPage, status: U32, start: U32)
    requires Initial(s) && Interleaving(s, moves) && Moves(s, moves).lock.Free?
    requires Calls(moves, t) == before + InitOps(env, test, status, start) && !PcOf(Moves(s, moves), t).Wanting?
    ensures var s' := Moves(s, moves);
            && s'.core.count == Balance(Locked(s, moves, t, false)) + Balance(before)
                                + (if ReachesHardware(env) && !RingStarted(env.hw, start) then 1 else 0)
            && WakeMatches(s'.core) && ReadsAwake(s'.core.log)
  {
    CountByThread(s, moves, t);
    CallsInOrder(s, moves, t);
    InitBalance(env, test, status, start);
    assert Waiting(s, t) == [] && Waiting(Moves(s, moves), t) == [];
    assert [] + Calls(moves, t) == Calls(moves, t);
    assert Locked(s, moves, t, true) + [] == Locked(s, moves, t, true);
    hide Locked, Moves, Interleaving, ReadsAwake, WakeMatches, Calls, InitOps, Balance, ReachesHardware, RingStarted;
    BalanceAppend(before, InitOps(env, test, status, start));
  }

  lemma InitBalance(env: Environment, test: TestPage, status: U32, start: U32)
    ensures Balance(InitOps(env, test, status, start))
         == if ReachesHardware(env) && !RingStarted(env.hw, start) then 1 else 0
  {
    assert Balanced([]) && Balance([]) == 0 && LeavesWakeRegister([]);
    assert [] + InitOps(env, test, status, start) == InitOps(env, test, status, start);
    hide Balance, Balanced, LeavesWakeRegister, InitOps, ReachesHardware, RingStarted;
    InitBalanced([], env, test, status, start);
  }
}
