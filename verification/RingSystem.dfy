/** The ring in memory while the table keeps growing: ring events and further insertions in any
    order. */
module RingSystem {
  import opened Bits
  import opened Pte
  import opened Gtt
  import opened RingSpec
  import opened RingFifo
  import opened RingMemory

  /** The table with its allocator, the two ways into the ring, and the ring in memory. */
  datatype System = System(g: GttState, window: nat, start: nat, p: Physical)

  datatype Happening = AtRing(e: Event) | Mapping(o: PageList)

  function WaysOf(s: System): Ways {
    Ways(s.g.table, s.window, s.start)
  }

  function SystemStep(s: System, x: Happening): System {
    match x
    case AtRing(e) => s.(p := PhysicalStep(WaysOf(s), s.p, e))
    case Mapping(o) => s.(g := InsertList(s.g, o))
  }

  function SystemRun(s: System, xs: seq<Happening>): System
    decreases |xs|
  {
    if xs == [] then s else SystemRun(SystemStep(s, xs[0]), xs[1..])
  }

  function RingEvents(xs: seq<Happening>): seq<Event> {
    if xs == [] then []
    else (if xs[0].AtRing? then [xs[0].e] else []) + RingEvents(xs[1..])
  }

  /** Insertions may run past the end of the table, as the code lets them, but the entry counter must
      not wrap. */
  predicate SystemAllowed(s: System, x: Happening) {
    match x
    case AtRing(e) => Allowed(s.p.r, s.p.h, e)
    case Mapping(o) => s.g.next + |o.pages| < TWO_32
  }

  predicate SystemLegal(s: System, xs: seq<Happening>)
    decreases |xs|
  {
    xs == [] || (SystemAllowed(s, xs[0]) && SystemLegal(SystemStep(s, xs[0]), xs[1..]))
  }

  /** Both ways are inside the mapped part of the table, agree, and keep slots apart. */
  ghost predicate Wired(s: System) {
    var size := s.p.r.size;
    && s.window + size <= s.g.next * PAGE_SIZE && s.start + size <= s.g.next * PAGE_SIZE
    && Covers(WaysOf(s), size) && WaysAgree(WaysOf(s), size) && SlotsApart(WaysOf(s), size)
  }

  ghost predicate Good(k: nat, s: System) {
    Wired(s) && Inv(k, Seen(WaysOf(s), s.p))
  }

  /** An insertion leaves the translation of everything mapped before alone. */
  lemma MappingKeepsByte(g: GttState, o: PageList, addr: nat)
    requires addr < g.next * PAGE_SIZE && addr < |g.table| * PAGE_SIZE
    ensures Translate(InsertList(g, o).table, addr) == Translate(g.table, addr)
  {
    hide PteAddress, PteEncode;
    assert addr / PAGE_SIZE < g.next;
  }

  lemma MappingKeepsWays(s: System, o: PageList, t: nat)
    requires Wired(s) && t < s.p.r.size
    ensures var w, w' := WaysOf(s), WaysOf(SystemStep(s, Mapping(o)));
            CpuAddr(w', t) == CpuAddr(w, t) && GpuAddr(w', t) == GpuAddr(w, t)
  {
    MappingKeepsByte(s.g, o, s.window + t);
    MappingKeepsByte(s.g, o, s.start + t);
    hide Translate, InsertList, WaysAgree, SlotsApart;
    assert |InsertList(s.g, o).table| == |s.g.table| by { SameTable(s.g, o); }
  }

  lemma SameTable(g: GttState, o: PageList)
    ensures |InsertList(g, o).table| == |g.table|
    ensures g.next + |o.pages| < TWO_32 ==> InsertList(g, o).next == g.next + |o.pages|
  {
  }

  lemma MappingKeeps(s: System, o: PageList)
    requires Wired(s) && SystemAllowed(s, Mapping(o))
    ensures var s' := SystemStep(s, Mapping(o)); Wired(s') && Seen(WaysOf(s'), s'.p) == Seen(WaysOf(s), s.p)
  {
    var s' := SystemStep(s, Mapping(o));
    var size := s.p.r.size;
    SameTable(s.g, o);
    forall t | 0 <= t < size
      ensures CpuAddr(WaysOf(s'), t) == CpuAddr(WaysOf(s), t) && GpuAddr(WaysOf(s'), t) == GpuAddr(WaysOf(s), t)
    {
      MappingKeepsWays(s, o, t);
    }
    hide CpuAddr, GpuAddr, InsertList, Load;
    forall i, j | 0 <= i < j < size / 4
      ensures CpuAddr(WaysOf(s'), 4 * i) != CpuAddr(WaysOf(s'), 4 * j)
    {
      assert CpuAddr(WaysOf(s), 4 * i) != CpuAddr(WaysOf(s), 4 * j);
    }
    assert View(WaysOf(s'), size, s.p.mem) == View(WaysOf(s), size, s.p.mem);
  }

  lemma EventKeeps(k: nat, s: System, e: Event)
    requires Good(k, s) && SystemAllowed(s, AtRing(e))
    ensures var s' := SystemStep(s, AtRing(e));
            && Good(k, s') && Allowed(Seen(WaysOf(s), s.p).r, Seen(WaysOf(s), s.p).h, e)
            && Seen(WaysOf(s'), s'.p) == Step(Seen(WaysOf(s), s.p), e)
  {
    hide Inv, Step, Allowed, View, PhysicalStep, CpuAddr, GpuAddr;
    StepSeen(k, WaysOf(s), s.p, e);
    StepKeeps(k, Seen(WaysOf(s), s.p), e);
  }

  /** Through the two ways, a run of the whole system is a run of the ring machine. */
  lemma {:induction false} SystemSeen(k: nat, s: System, xs: seq<Happening>)
    requires Good(k, s) && SystemLegal(s, xs)
    ensures Good(k, SystemRun(s, xs)) && LegalRun(Seen(WaysOf(s), s.p), RingEvents(xs))
    ensures Seen(WaysOf(SystemRun(s, xs)), SystemRun(s, xs).p) == Run(Seen(WaysOf(s), s.p), RingEvents(xs))
    decreases |xs|
  {
    if xs != [] {
      var x, s' := xs[0], SystemStep(s, xs[0]);
      match x {
        case AtRing(e) =>
          EventKeeps(k, s, e);
          assert RingEvents(xs)[1..] == RingEvents(xs[1..]);
        case Mapping(o) =>
          MappingKeeps(s, o);
          assert RingEvents(xs) == RingEvents(xs[1..]);
      }
      hide Inv, SystemStep, Step, Allowed, SystemAllowed, Wired, Seen, PhysicalStep;
      SystemSeen(k, s', xs[1..]);
    }
  }

  /** First in, first out through memory while the table grows: in every legal order of ring events
      and insertions, what the GPU has loaded is a published prefix of what the driver stored, and
      left to itself it loads everything published, up to an odd last dword. */
  lemma FifoInSystem(k: nat, s: System, xs: seq<Happening>)
    requires Wired(s) && Fresh(k, Seen(WaysOf(s), s.p)) && SystemLegal(s, xs)
    ensures var s' := SystemRun(s, xs); var h := s'.p.h;
            && |h.fetched| <= Even(h.published) <= h.published <= |h.emitted|
            && h.fetched == h.emitted[..|h.fetched|]
            && PhysicalRun(WaysOf(s'), s'.p, Fetches(Even(h.published) - |h.fetched|)).h.fetched
               == h.emitted[..Even(h.published)]
  {
    var m, s' := Seen(WaysOf(s), s.p), SystemRun(s, xs);
    FreshInv(k, m);
    SystemSeen(k, s, xs);
    Fifo(k, m, RingEvents(xs));
    Drain(k, m, RingEvents(xs));
    hide Fresh, Inv, LegalRun, PhysicalRun, Run, View, Fetches, WaysAgree, SlotsApart, Covers, SystemLegal, SystemRun;
    DrainSeen(k, WaysOf(s'), s'.p, Even(s'.p.h.published) - |s'.p.h.fetched|);
  }

  function AtAll(es: seq<Event>): seq<Happening> {
    if es == [] then [] else [AtRing(es[0])] + AtAll(es[1..])
  }

  lemma SeenParts(s: System)
    requires Covers(WaysOf(s), s.p.r.size)
    ensures Seen(WaysOf(s), s.p).h == s.p.h && Seen(WaysOf(s), s.p).r == s.p.r
  {
    hide View;
  }

  lemma FirstLegal(k: nat, s: System, es: seq<Event>)
    requires Good(k, s) && es != [] && LegalRun(Seen(WaysOf(s), s.p), es)
    ensures SystemAllowed(s, AtRing(es[0])) && Good(k, SystemStep(s, AtRing(es[0])))
    ensures var s' := SystemStep(s, AtRing(es[0])); s'.g == s.g && LegalRun(Seen(WaysOf(s'), s'.p), es[1..])
  {
    SeenParts(s);
    hide Inv, Step, Allowed, PhysicalStep, WaysAgree, SlotsApart, Seen;
    EventKeeps(k, s, es[0]);
  }

  /** A run that is legal for the ring machine is legal for the system. */
  lemma {:induction false} EventsLegal(k: nat, s: System, es: seq<Event>)
    requires Good(k, s) && LegalRun(Seen(WaysOf(s), s.p), es)
    ensures SystemLegal(s, AtAll(es)) && RingEvents(AtAll(es)) == es && SystemRun(s, AtAll(es)).g == s.g
    decreases |es|
  {
    hide Good, Wired, Inv, SystemStep, SystemAllowed, LegalRun, Seen, WaysOf, Covers;
    if es != [] {
      FirstLegal(k, s, es);
      hide SystemLegal, SystemRun, RingEvents;
      EventsLegal(k, SystemStep(s, AtRing(es[0])), es[1..]);
      FirstEvent(s, es[0], AtAll(es[1..]));
    }
  }

  lemma FirstEvent(s: System, e: Event, rest: seq<Happening>)
    requires SystemAllowed(s, AtRing(e)) && SystemLegal(SystemStep(s, AtRing(e)), rest)
    ensures SystemLegal(s, [AtRing(e)] + rest)
    ensures RingEvents([AtRing(e)] + rest) == [e] + RingEvents(rest)
    ensures SystemRun(s, [AtRing(e)] + rest) == SystemRun(SystemStep(s, AtRing(e)), rest)
  {
    hide SystemStep, SystemAllowed;
    assert ([AtRing(e)] + rest)[1..] == rest;
  }
}
