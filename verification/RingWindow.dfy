/** The two ways into the ring after set-up: the CPU window one page into the aperture and the GPU's
    ring start, whatever else gets mapped behind the ring. */
module RingWindow {
  import opened Bits
  import opened Pte
  import opened Gtt
  import opened RingBuffer
  import opened RingMemory

  /** Status page, ring, and whatever is mapped later. */
  function Objects(status: PageList, ring: PageList, more: seq<PageList>): seq<PageList> {
    [status, ring] + more
  }

  ghost predicate SetUp(g: GttState, status: PageList, ring: PageList, more: seq<PageList>) {
    && |status.pages| == 1 && |ring.pages| == RING_PAGES
    && Fits(g, Total(Objects(status, ring, more)))
  }

  /** The window shows GPU address x at offset x of the aperture. */
  function RingWays(g: GttState, status: PageList, ring: PageList, more: seq<PageList>): Ways {
    var os := Objects(status, ring, more);
    Ways(InsertAll(g, os).table, PAGE_SIZE, Base(g, os, 1))
  }

  lemma TotalOfObjects(status: PageList, ring: PageList, more: seq<PageList>)
    ensures var os := Objects(status, ring, more);
            && Total(os[..1]) == |status.pages|
            && |status.pages| + |ring.pages| <= Total(os)
  {
    var os := Objects(status, ring, more);
    TotalPrefix(os, 0);
    TotalPrefix(os, 1);
  }

  /** Window and ring start are inside the table, and the start is one page behind the entry the
      set-up began with. */
  lemma WaysCover(g: GttState, status: PageList, ring: PageList, more: seq<PageList>)
    requires SetUp(g, status, ring, more)
    ensures var w := RingWays(g, status, ring, more);
            && Covers(w, RING_BYTES) && w.start == (g.next + 1) * PAGE_SIZE
            && |w.table| == |g.table| && g.next + 1 + RING_PAGES <= |g.table|
  {
    var os := Objects(status, ring, more);
    hide InsertAll, Base, Total;
    TotalOfObjects(status, ring, more);
    BaseExact(g, os, 1);
  }

  /** End to end: set up first of all, the window and the GPU lead to the same byte for every ring
      offset, byte t mod 4096 of the page t / 4096 allocated for the ring, whatever is mapped later. */
  lemma RingBytes(g: GttState, status: PageList, ring: PageList, more: seq<PageList>, t: nat)
    requires g.next == 0 && SetUp(g, status, ring, more) && t < RING_BYTES
    ensures var w := RingWays(g, status, ring, more);
            && Covers(w, RING_BYTES)
            && CpuAddr(w, t) == GpuAddr(w, t) == FrameByte(ring.pages, t)
  {
    var os := Objects(status, ring, more);
    WaysCover(g, status, ring, more);
    hide InsertAll, Translate, Total, PteIsValid, Base, Objects;
    assert os[1] == ring && |os| >= 2 by { Second(status, ring, more); }
    AllObjectsMapped(g, os, 1, t);
  }

  lemma Second(status: PageList, ring: PageList, more: seq<PageList>)
    ensures |Objects(status, ring, more)| >= 2 && Objects(status, ring, more)[1] == ring
  {
  }

  /** Byte `t` of the pages, as far as an entry can address them. */
  function FrameByte(frames: seq<nat>, t: nat): nat
    requires t < |frames| * PAGE_SIZE
  {
    frames[t / PAGE_SIZE] * PAGE_SIZE % TWO_39 + t % PAGE_SIZE
  }

  /** For every offset the window and the ring start lead to the same byte, that of the pages. */
  ghost predicate RingWired(w: Ways, frames: seq<nat>) {
    && RING_PAGES <= |frames| && Covers(w, RING_BYTES)
    && forall t :: 0 <= t < RING_BYTES ==> CpuAddr(w, t) == GpuAddr(w, t) == FrameByte(frames, t)
  }

  /** No two mapped entries lead to the same page. */
  ghost predicate EntriesDistinct(table: seq<U32>, count: nat)
    requires count <= |table|
  {
    forall i, j :: 0 <= i < j < count ==> PteAddress(table[i]) != PteAddress(table[j])
  }

  lemma WaysDiffer(w: Ways, next: nat)
    requires Covers(w, RING_BYTES) && w.window == PAGE_SIZE && w.start == (next + 1) * PAGE_SIZE
    requires next + 1 + RING_PAGES <= |w.table| && EntriesDistinct(w.table, next + 1 + RING_PAGES)
    ensures WaysAgree(w, RING_BYTES) <==> next == 0
  {
    hide PteAddress;
    if next != 0 {
      assert w.start / PAGE_SIZE == next + 1;
      assert PteAddress(w.table[1]) != PteAddress(w.table[next + 1]);
      assert CpuAddr(w, 0) != GpuAddr(w, 0);
    }
  }

  /** With distinct pages up to the end of the ring, the hard-coded window agrees with the ring start
      for all offsets exactly when the ring was the first thing set up, whatever is mapped later. */
  lemma WindowAgreesExactly(g: GttState, status: PageList, ring: PageList, more: seq<PageList>)
    requires SetUp(g, status, ring, more) && g.next + 1 + RING_PAGES <= |g.table|
    requires EntriesDistinct(RingWays(g, status, ring, more).table, g.next + 1 + RING_PAGES)
    ensures Covers(RingWays(g, status, ring, more), RING_BYTES)
    ensures WaysAgree(RingWays(g, status, ring, more), RING_BYTES) <==> g.next == 0
  {
    var w := RingWays(g, status, ring, more);
    WaysCover(g, status, ring, more);
    hide RingWays, PteAddress, SetUp;
    WaysDiffer(w, g.next);
  }

  // ---- distinct frames ----

  /** Frames an entry can tell apart: the 39-bit addresses differ. */
  ghost predicate FramesApart(pages: seq<nat>) {
    forall i, j :: 0 <= i < j < |pages| ==> pages[i] % FRAMES != pages[j] % FRAMES
  }

  lemma FrameAddress(frame: nat)
    ensures frame * PAGE_SIZE % TWO_39 == frame % FRAMES * PAGE_SIZE
  {
  }

  lemma SlotByte(frames: seq<nat>, i: nat)
    requires i < |frames| * 1024
    ensures FrameByte(frames, 4 * i) == frames[i / 1024] % FRAMES * PAGE_SIZE + i % 1024 * 4
  {
    FrameAddress(frames[i / 1024]);
    assert 4 * i / PAGE_SIZE == i / 1024 && 4 * i % PAGE_SIZE == i % 1024 * 4;
  }

  lemma BytesApart(f: nat, x: nat, f': nat, x': nat)
    requires x < 1024 && x' < 1024 && (f != f' || x != x')
    ensures f * PAGE_SIZE + x * 4 != f' * PAGE_SIZE + x' * 4
  {
  }

  lemma SlotsOfFrames(frames: seq<nat>, i: nat, j: nat)
    requires i < j < RING_PAGES * 1024 && RING_PAGES <= |frames| && FramesApart(frames[..RING_PAGES])
    ensures FrameByte(frames, 4 * i) != FrameByte(frames, 4 * j)
  {
    SlotByte(frames, i);
    SlotByte(frames, j);
    var ring := frames[..RING_PAGES];
    assert ring[i / 1024] == frames[i / 1024] && ring[j / 1024] == frames[j / 1024];
    hide FrameByte;
    if i / 1024 < j / 1024 {
      assert ring[i / 1024] % FRAMES != ring[j / 1024] % FRAMES;
    }
    BytesApart(frames[i / 1024] % FRAMES, i % 1024, frames[j / 1024] % FRAMES, j % 1024);
  }

  /** Over distinct frames, different ring slots are different memory, through either way. */
  lemma WindowSlotsApart(w: Ways, frames: seq<nat>)
    requires RingWired(w, frames) && FramesApart(frames[..RING_PAGES])
    ensures Covers(w, RING_BYTES) && WaysAgree(w, RING_BYTES) && SlotsApart(w, RING_BYTES)
  {
    hide CpuAddr, GpuAddr, FrameByte, FramesApart;
    forall i, j | 0 <= i < j < RING_BYTES / 4
      ensures CpuAddr(w, 4 * i) != CpuAddr(w, 4 * j)
    {
      SlotsOfFrames(frames, i, j);
    }
  }
}
