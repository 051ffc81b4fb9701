/** The graphics translation table: its size from the control word, the insertion of objects,
    and the translation of GPU addresses. */
module Gtt {
  import opened Bits
  import opened Pte
  import opened Memmgr
  import opened Forcewake

  const GMCH_GGMS_SHIFT: nat := 8
  const GMCH_GGMS_REVSHIFT: nat := 20
  const GMCH_GGMS_MASK: nat := 0x3
  const GMCH_GMS_SHIFT: nat := 3
  const GMCH_GMS_REVSHIFT: nat := 25
  const GMCH_GMS_MASK: nat := 0x1f
  const PTE_BYTES: nat := 4
  const PAGE_SHIFT: nat := 12
  const MAX_ENTRIES: nat := 786432
  const GIB: nat := 0x4000_0000
  const NO_ADDRESS: U32 := 0xFFFF_FFFF
  const GFX_FLSH_CNTL_HSW: nat := 0x101008
  const GFX_FLSH_CNTL_EN: U32 := 1

  /** The GPU's own translations are flushed after every insertion. */
  const TLB_FLUSH: seq<Op> := [Write(GFX_FLSH_CNTL_HSW, GFX_FLSH_CNTL_EN), Read(GFX_FLSH_CNTL_HSW)]

  type U16 = x: nat | x < 0x1_0000

  // ---- sizes ----

  function StolenSize(ctl: U16): nat {
    Shl(And(Shr(ctl, GMCH_GMS_SHIFT), GMCH_GMS_MASK), GMCH_GMS_REVSHIFT)
  }

  function GttSize(ctl: U16): nat {
    Shl(And(Shr(ctl, GMCH_GGMS_SHIFT), GMCH_GGMS_MASK), GMCH_GGMS_REVSHIFT)
  }

  function TotalSize(ctl: U16): nat {
    Shl(GttSize(ctl) / PTE_BYTES, PAGE_SHIFT)
  }

  function Entries(ctl: U16): nat {
    GttSize(ctl) / PTE_BYTES
  }

  /** Bits 9..8 of the control word give the translated space in GiB, bits 7..3 the stolen
      memory in units of 32 MiB; the table never has more than 786432 entries. */
  lemma ProbedSizes(ctl: U16)
    ensures TotalSize(ctl) == Field(ctl, 9, 8) * GIB && TotalSize(ctl) == Entries(ctl) * PAGE_SIZE
    ensures StolenSize(ctl) == Field(ctl, 7, 3) * 0x200_0000
    ensures Entries(ctl) <= MAX_ENTRIES && TotalSize(ctl) <= 3 * GIB && StolenSize(ctl) < GIB
  {
    Powers();
    AndSizeMask(2, ctl / 256);
    AndSizeMask(5, ctl / 8);
  }

  // ---- contents ----

  /** The table with one entry per page written from `entry` on, in order. What lies beyond the table
      is not part of it. */
  function Written(table: seq<U32>, entry: nat, pages: seq<nat>, level: U32): (t: seq<U32>)
    ensures |t| == |table|
  {
    seq(|table|, e requires 0 <= e < |table| => EntryAfter(table, entry, pages, level, e))
  }

  function EntryAfter(table: seq<U32>, entry: nat, pages: seq<nat>, level: U32, e: nat): U32
    requires e < |table|
  {
    if entry <= e < entry + |pages| then PteEncode(pages[e - entry] * PAGE_SIZE, level, true) else table[e]
  }

  /** The byte address a GPU address leads to. */
  function Translate(table: seq<U32>, addr: nat): nat
    requires addr / PAGE_SIZE < |table|
  {
    PteAddress(table[addr / PAGE_SIZE]) + addr % PAGE_SIZE
  }

  // ---- the allocator of GPU addresses ----

  datatype GttState = GttState(table: seq<U32>, next: U32)

  /** A page list to be mapped, with its cache level. */
  datatype PageList = PageList(pages: seq<nat>, level: U32)

  ghost predicate Fits(g: GttState, count: nat) {
    g.next + count <= |g.table| <= MAX_ENTRIES
  }

  function GfxAddr(g: GttState): U32 {
    Trunc32(g.next * PAGE_SIZE)
  }

  function InsertList(g: GttState, o: PageList): GttState {
    GttState(Written(g.table, g.next, o.pages, o.level), Trunc32(g.next + |o.pages|))
  }

  function Total(os: seq<PageList>): nat {
    if os == [] then 0 else Total(os[..|os| - 1]) + |os[|os| - 1].pages|
  }

  function InsertAll(g: GttState, os: seq<PageList>): (g': GttState)
    ensures |g'.table| == |g.table|
  {
    if os == [] then g else InsertList(InsertAll(g, os[..|os| - 1]), os[|os| - 1])
  }

  lemma {:induction false} TotalPrefix(os: seq<PageList>, i: nat)
    requires i <= |os|
    ensures Total(os[..i]) <= Total(os)
    ensures i < |os| ==> Total(os[..i]) + |os[i].pages| == Total(os[..i + 1]) <= Total(os)
    decreases |os|
  {
    var n := |os| - 1;
    if i < |os| {
      assert os[..i + 1][..i] == os[..i];
    }
    if i <= n {
      TotalPrefix(os[..n], i);
      assert os[..n][..i] == os[..i];
      if i < n {
        assert os[..n][..i + 1] == os[..i + 1];
      } else {
        assert os[..i + 1] == os;
      }
    } else {
      assert os[..i] == os;
    }
  }

  /** Inside the table the allocator counts the pages inserted. */
  lemma {:induction false} NextExact(g: GttState, os: seq<PageList>)
    requires Fits(g, Total(os))
    ensures InsertAll(g, os).next == g.next + Total(os)
  {
    hide Written;
    if os != [] {
      NextExact(g, os[..|os| - 1]);
    }
  }

  /** The GPU address handed out for the i-th object of a sequence of insertions. */
  function Base(g: GttState, os: seq<PageList>, i: nat): U32
    requires i < |os|
  {
    GfxAddr(InsertAll(g, os[..i]))
  }

  /** Every later insertion leaves the entries of an earlier object alone. */
  lemma {:induction false} EntriesSurvive(g: GttState, os: seq<PageList>, e: nat)
    requires Fits(g, Total(os)) && e < g.next
    ensures InsertAll(g, os).table[e] == g.table[e]
  {
    if os != [] {
      EntriesSurvive(g, os[..|os| - 1], e);
      NextExact(g, os[..|os| - 1]);
    }
  }

  lemma {:induction false} InsertAllSplit(g: GttState, os: seq<PageList>, i: nat)
    requires i <= |os|
    ensures Total(os[..i]) + Total(os[i..]) == Total(os)
    ensures InsertAll(g, os) == InsertAll(InsertAll(g, os[..i]), os[i..])
    decreases |os|
  {
    hide InsertList;
    if i == |os| {
      assert os[..i] == os && os[i..] == [];
    } else {
      var n := |os| - 1;
      InsertAllSplit(g, os[..n], i);
      assert os[..n][..i] == os[..i] && os[..n][i..] == os[i..][..n - i];
    }
  }

  /** Entry `base + k` of an inserted object stays the encoding of its k-th page, whatever is
      inserted later. */
  lemma InsertedEntry(g: GttState, os: seq<PageList>, i: nat, k: nat)
    requires i < |os| && k < |os[i].pages| && Fits(g, Total(os))
    ensures Total(os[..i]) + |os[i].pages| <= Total(os)
    ensures InsertAll(g, os).table[g.next + Total(os[..i]) + k]
         == PteEncode(os[i].pages[k] * PAGE_SIZE, os[i].level, true)
  {
    hide PteEncode, Written, InsertList, Total, InsertAll;
    TotalPrefix(os, i);
    InsertAllSplit(g, os, i + 1);
    InsertAllNext(g, os, i);
    NextExact(g, os[..i]);
    NextExact(g, os[..i + 1]);
    JustInserted(InsertAll(g, os[..i]), os[i], k);
    EntriesSurvive(InsertAll(g, os[..i + 1]), os[i + 1..], g.next + Total(os[..i]) + k);
  }

  lemma InsertAllNext(g: GttState, os: seq<PageList>, i: nat)
    requires i < |os|
    ensures InsertAll(g, os[..i + 1]) == InsertList(InsertAll(g, os[..i]), os[i])
  {
    assert os[..i + 1][..i] == os[..i];
    hide InsertList;
  }

  lemma JustInserted(g: GttState, o: PageList, k: nat)
    requires k < |o.pages| && g.next + k < |g.table|
    ensures InsertList(g, o).table[g.next + k] == PteEncode(o.pages[k] * PAGE_SIZE, o.level, true)
  {
    hide PteEncode;
  }

  /** A GPU address never equals the error value the callers test for. */
  lemma NeverTheErrorValue(g: GttState)
    ensures GfxAddr(g) != NO_ADDRESS && GfxAddr(g) % PAGE_SIZE == 0
  {
    assert g.next * PAGE_SIZE % TWO_32 == g.next % WRAP_PAGES * PAGE_SIZE;
  }

  lemma Untruncated(entry: nat)
    requires entry <= MAX_ENTRIES
    ensures Trunc32(entry * PAGE_SIZE) == entry * PAGE_SIZE
  {
  }

  /** Within the table, a GPU address is its entry times the page size, untruncated. */
  lemma BaseExact(g: GttState, os: seq<PageList>, i: nat)
    requires i < |os| && Fits(g, Total(os))
    ensures Total(os[..i]) <= Total(os)
    ensures Base(g, os, i) == (g.next + Total(os[..i])) * PAGE_SIZE
  {
    hide InsertAll, Total;
    TotalPrefix(os, i);
    NextExact(g, os[..i]);
    Untruncated(g.next + Total(os[..i]));
  }

  /** Address ranges of successive objects adjoin, so they are disjoint, in page units, and
      inside the translated space. */
  lemma RangesAdjoin(g: GttState, os: seq<PageList>, i: nat, j: nat)
    requires i < j < |os| && Fits(g, Total(os))
    ensures Total(os[..i]) <= Total(os) && Total(os[..j]) <= Total(os)
    ensures Base(g, os, i) + |os[i].pages| * PAGE_SIZE <= Base(g, os, j)
    ensures j == i + 1 ==> Base(g, os, i) + |os[i].pages| * PAGE_SIZE == Base(g, os, j)
    ensures Base(g, os, j) + |os[j].pages| * PAGE_SIZE <= |g.table| * PAGE_SIZE
  {
    BaseExact(g, os, i);
    BaseExact(g, os, j);
    TotalPrefix(os, i);
    TotalPrefix(os, j);
    TotalPrefix(os[..j], i);
    assert os[..j][..i] == os[..i] && os[..j][..i + 1] == os[..i + 1];
  }

  /** After any sequence of insertions, every byte of every object is reached through the GPU
      address handed out for it: offset `t` leads into page t / 4096, up to the 39 bits an entry
      holds. */
  lemma AllObjectsMapped(g: GttState, os: seq<PageList>, i: nat, t: nat)
    requires i < |os| && Fits(g, Total(os)) && t < |os[i].pages| * PAGE_SIZE
    ensures Total(os[..i]) <= Total(os)
    ensures var a := Base(g, os, i) + t; var g' := InsertAll(g, os);
            && a < |g'.table| * PAGE_SIZE
            && Translate(g'.table, a) == os[i].pages[t / PAGE_SIZE] * PAGE_SIZE % TWO_39 + t % PAGE_SIZE
            && PteIsValid(g'.table[a / PAGE_SIZE])
  {
    hide PteEncode, PteAddress, PteIsValid;
    BaseExact(g, os, i);
    var k := t / PAGE_SIZE;
    InsertedEntry(g, os, i, k);
    var e := g.next + Total(os[..i]);
    assert (e * PAGE_SIZE + t) / PAGE_SIZE == e + k;
    assert (e * PAGE_SIZE + t) % PAGE_SIZE == t % PAGE_SIZE;
    PteRoundTrip(os[i].pages[k] * PAGE_SIZE, os[i].level, true);
  }

  /** Every byte of the i-th object is reached through the address handed out for it. */
  ghost predicate ObjectMapped(g: GttState, os: seq<PageList>, i: nat)
    requires i < |os|
  {
    var table := InsertAll(g, os).table;
    forall t: nat :: t < |os[i].pages| * PAGE_SIZE ==> ByteMapped(table, Base(g, os, i), os[i].pages, t)
  }

  predicate ByteMapped(table: seq<U32>, base: nat, pages: seq<nat>, t: nat)
    requires t < |pages| * PAGE_SIZE
  {
    && base + t < |table| * PAGE_SIZE
    && Translate(table, base + t) == pages[t / PAGE_SIZE] * PAGE_SIZE % TWO_39 + t % PAGE_SIZE
  }

  /** The code never checks that an insertion stays inside the table. All objects of a sequence are
      mapped exactly when they fit into what was left of it. */
  lemma MappedExactly(g: GttState, os: seq<PageList>)
    requires g.next <= |g.table| <= MAX_ENTRIES
    ensures (forall i :: 0 <= i < |os| ==> ObjectMapped(g, os, i)) <==> Fits(g, Total(os))
  {
    hide InsertAll, Total, Base, Translate;
    if Fits(g, Total(os)) {
      forall i: nat, t: nat | i < |os| && t < |os[i].pages| * PAGE_SIZE
        ensures ByteMapped(InsertAll(g, os).table, Base(g, os, i), os[i].pages, t)
      {
        AllObjectsMapped(g, os, i, t);
      }
    } else {
      var i := FirstOutside(g, os);
      BaseAtPrefix(g, os, i);
      var t := (|g.table| - g.next - Total(os[..i])) * PAGE_SIZE;
      assert !ByteMapped(InsertAll(g, os).table, Base(g, os, i), os[i].pages, t);
      assert !ObjectMapped(g, os, i);
    }
  }

  lemma BaseAtPrefix(g: GttState, os: seq<PageList>, i: nat)
    requires i < |os| && Fits(g, Total(os[..i]))
    ensures Base(g, os, i) == (g.next + Total(os[..i])) * PAGE_SIZE
  {
    hide InsertAll, Total;
    NextExact(g, os[..i]);
    Untruncated(g.next + Total(os[..i]));
  }

  /** The first object that crosses the end of the table. */
  lemma {:induction false} FirstOutside(g: GttState, os: seq<PageList>) returns (i: nat)
    requires g.next <= |g.table| < g.next + Total(os)
    ensures i < |os| && Total(os[..i + 1]) == Total(os[..i]) + |os[i].pages|
    ensures g.next + Total(os[..i]) <= |g.table| < g.next + Total(os[..i + 1])
  {
    var n := |os| - 1;
    if g.next + Total(os[..n]) <= |g.table| {
      i := n;
      assert os[..n + 1] == os;
    } else {
      i := FirstOutside(g, os[..n]);
      assert os[..n][..i] == os[..i] && os[..n][..i + 1] == os[..i + 1];
    }
  }

  /** It can fail: control word 0x100 gives a table of 262144 entries, and of one object a page larger
      not every byte is mapped. */
  lemma OnePageTooMany(table: seq<U32>, o: PageList)
    requires |table| == Entries(0x100) && |o.pages| == 262145
    ensures Entries(0x100) == 262144
    ensures !ObjectMapped(GttState(table, 0), [o], 0)
  {
    ProbedSizes(0x100);
    Powers();
    assert [o][..0] == [] && Total([o]) == 262145;
    hide ObjectMapped, Entries, Pow2;
    MappedExactly(GttState(table, 0), [o]);
  }

  /** Entries that lead to cached memory. */
  ghost predicate CachedEntries(table: seq<U32>, lo: nat, hi: nat) {
    hi <= |table| && forall e :: lo <= e < hi ==> PteIsValid(table[e]) && PteCacheability(table[e]) == 2
  }

  lemma CachedEntry(page: nat, level: U32)
    requires level != 0
    ensures PteIsValid(PteEncode(page * PAGE_SIZE, level, true))
    ensures PteCacheability(PteEncode(page * PAGE_SIZE, level, true)) == 2
  {
    assert page * PAGE_SIZE % PAGE_SIZE == 0;
    PteRoundTrip(page * PAGE_SIZE, level, true);
  }

  lemma CachedList(g: GttState, o: PageList)
    requires o.level != 0 && g.next + |o.pages| <= |g.table|
    ensures CachedEntries(InsertList(g, o).table, g.next, g.next + |o.pages|)
  {
    forall page: nat
      ensures PteIsValid(PteEncode(page * PAGE_SIZE, o.level, true))
      ensures PteCacheability(PteEncode(page * PAGE_SIZE, o.level, true)) == 2
    {
      CachedEntry(page, o.level);
    }
    hide PteEncode, PteIsValid, PteCacheability;
  }

  /** All entries of lists inserted with a cache level lead to cached memory. */
  lemma {:induction false} AllCached(g: GttState, os: seq<PageList>)
    requires Fits(g, Total(os)) && forall o :: o in os ==> o.level != 0
    ensures CachedEntries(InsertAll(g, os).table, g.next, g.next + Total(os))
  {
    hide PteEncode, PteIsValid, PteCacheability;
    if os != [] {
      var n := |os| - 1;
      assert os[n] in os;
      AllCached(g, os[..n]);
      NextExact(g, os[..n]);
      CachedList(InsertAll(g, os[..n]), os[n]);
    }
  }

  // ---- the insertion loop ----

  lemma {:induction false} SgPagesPrefix(es: seq<SgEntry>, j: nat)
    requires j < |es|
    ensures SgPages(es[..j + 1]) == SgPages(es[..j]) + PagesOf(PageRun(es[j].page, SgPageCount(es[j])))
    ensures |SgPages(es[..j + 1])| <= |SgPages(es)|
    decreases |es|
  {
    assert es[..j + 1][..j] == es[..j];
    if j + 1 == |es| {
      assert es[..j + 1] == es;
    } else {
      var n := |es| - 1;
      SgPagesPrefix(es[..n], j);
      assert es[..n][..j + 1] == es[..j + 1];
    }
  }

  /** Writing one more entry behind those already written, if the table reaches that far. */
  lemma WrittenSnoc(table: seq<U32>, entry: nat, pages: seq<nat>, page: nat, level: U32)
    ensures var t := Written(table, entry, pages, level); var e := entry + |pages|;
            Written(table, entry, pages + [page], level)
            == if e < |table| then t[e := PteEncode(page * PAGE_SIZE, level, true)] else t
  {
    hide PteEncode;
  }

  lemma WrittenAppend(table: seq<U32>, entry: nat, a: seq<nat>, b: seq<nat>, level: U32)
    ensures Written(Written(table, entry, a, level), entry + |a|, b, level) == Written(table, entry, a + b, level)
  {
    hide PteEncode;
  }

  lemma WrittenAt(table: seq<U32>, entry: nat, pages: seq<nat>, k: nat, level: U32)
    requires k < |pages| && entry + k < |table|
    ensures Written(table, entry, pages, level)[entry + k] == PteEncode(pages[k] * PAGE_SIZE, level, true)
  {
    hide PteEncode;
  }

  lemma WrittenNothing(table: seq<U32>, entry: nat, level: U32)
    ensures Written(table, entry, [], level) == table
  {
  }

  lemma PagesOfSnoc(start: nat, count: nat)
    ensures PagesOf(PageRun(start, count + 1)) == PagesOf(PageRun(start, count)) + [start + count]
  {
  }

  method FlushTranslations(dev: Device)
    requires dev.Valid()
    modifies dev
    ensures dev.Valid() && dev.trace == old(dev.trace) + [Write(0x10_1008, 1), Read(0x10_1008)]
  {
    hide Atomic, RunOps;
    dev.GpuWrite(GFX_FLSH_CNTL_HSW, GFX_FLSH_CNTL_EN);
    dev.Touch(GFX_FLSH_CNTL_HSW);
  }

  /** The mapped table and the next free entry, which the driver keeps in a static variable. */
  class GttDevice {
    const gsm: array<U32>
    var gttEntry: U32

    ghost predicate Valid()
      reads this
    {
      gsm.Length <= MAX_ENTRIES
    }

    ghost function State(): GttState
      reads this, gsm
    {
      GttState(gsm[..], gttEntry)
    }

    /** Mapping the table sized by the control word; its contents are the firmware's. */
    constructor (ctl: U16)
      ensures Valid() && fresh(gsm)
      ensures gsm.Length * PAGE_SIZE == TotalSize(ctl) && gttEntry == 0
    {
      ProbedSizes(ctl);
      gsm := new U32[Entries(ctl)];
      gttEntry := 0;
    }

    /** The entries of one scatter-gather run, from `at` on; a store beyond the table hits other
        memory. */
    method WriteRun(sg: SgEntry, at: nat, level: U32, last: nat) returns (addr: nat)
      modifies gsm
      ensures gsm[..] == Written(old(gsm[..]), at, PagesOf(PageRun(sg.page, SgPageCount(sg))), level)
      ensures addr == if SgPageCount(sg) == 0 then last else (sg.page + SgPageCount(sg) - 1) * PAGE_SIZE
    {
      hide PteEncode, Written, SgPageCount;
      ghost var table := gsm[..];
      var off := 0;
      addr := last;
      WrittenNothing(table, at, level);
      assert PagesOf(PageRun(sg.page, 0)) == [];
      while off < SgPageCount(sg)
        invariant off <= SgPageCount(sg)
        invariant gsm[..] == Written(table, at, PagesOf(PageRun(sg.page, off)), level)
        invariant addr == if off == 0 then last else (sg.page + off - 1) * PAGE_SIZE
      {
        addr := (sg.page + off) * PAGE_SIZE;
        WrittenSnoc(table, at, PagesOf(PageRun(sg.page, off)), sg.page + off, level);
        PagesOfSnoc(sg.page, off);
        if at + off < gsm.Length {
          gsm[at + off] := PteEncode(addr, level, true);
        }
        off := off + 1;
      }
    }

    /** Reads an entry back; beyond the table `beyond` is found. */
    method LoadEntry(e: nat, beyond: U32) returns (pte: U32)
      ensures pte == if e < gsm.Length then gsm[e] else beyond
    {
      pte := beyond;
      if e < gsm.Length {
        pte := gsm[e];
      }
    }

    /** Writes one entry per page of the scatter-gather table from `entry` on, reads the last one
        back, flushes the GPU's translations, and returns the entry behind them. The read-back
        warns exactly if it is from beyond the table and finds something else. No object has 2^32
        pages. */
    method InsertEntries(dev: Device, st: SgTable, entry: U32, level: U32, beyond: U32)
      returns (next: U32, warned: bool)
      requires st.Valid() && |SgPages(st.Entries())| < TWO_32 && dev.Valid()
      modifies gsm, dev
      ensures dev.Valid() && dev.trace == old(dev.trace) + [Write(0x10_1008, 1), Read(0x10_1008)]
      ensures gsm[..] == Written(old(gsm[..]), entry, SgPages(st.Entries()), level)
      ensures next == Trunc32(entry + |SgPages(st.Entries())|)
      ensures var pages := SgPages(st.Entries());
              warned <==> pages != [] && gsm.Length < entry + |pages|
                          && beyond != PteEncode(pages[|pages| - 1] * PAGE_SIZE, level, true)
    {
      hide PteEncode, SgPageCount, Written;
      ghost var table := gsm[..];
      ghost var es := st.Entries();
      var i, j, addr := 0, 0, 0;
      WrittenNothing(table, entry, level);
      assert es[..0] == [];
      while j < st.nents
        modifies gsm
        invariant j <= st.nents && es == st.Entries()
        invariant i == |SgPages(es[..j])| <= |SgPages(es)|
        invariant gsm[..] == Written(table, entry, SgPages(es[..j]), level)
        invariant i > 0 ==> addr == SgPages(es[..j])[i - 1] * PAGE_SIZE
      {
        SgPagesPrefix(es, j);
        WrittenAppend(table, entry, SgPages(es[..j]), PagesOf(PageRun(es[j].page, SgPageCount(es[j]))), level);
        addr := WriteRun(st.sgl[j], entry + i, level, addr);
        i := i + SgPageCount(st.sgl[j]);
        j := j + 1;
      }
      assert es[..j] == es;
      warned := false;
      if i != 0 {
        var seen := LoadEntry(entry + i - 1, beyond);
        warned := seen != PteEncode(addr, level, true);
        if entry + i <= gsm.Length {
          WrittenAt(table, entry, SgPages(es), i - 1, level);
        }
      }
      FlushTranslations(dev);
      next := Trunc32(entry + i);
    }

    /** Maps the pages of the table at the next free GPU address and returns that address. */
    method Insert(dev: Device, st: SgTable, level: U32) returns (gfxAddr: U32)
      requires Valid() && st.Valid() && |SgPages(st.Entries())| < TWO_32 && dev.Valid()
      modifies this, gsm, dev
      ensures Valid()
      ensures dev.Valid() && dev.trace == old(dev.trace) + [Write(0x10_1008, 1), Read(0x10_1008)]
      ensures gfxAddr == GfxAddr(old(State()))
      ensures State() == InsertList(old(State()), PageList(SgPages(st.Entries()), level))
    {
      gfxAddr := Trunc32(gttEntry * PAGE_SIZE);
      var warned;
      var beyond: U32 := *;
      gttEntry, warned := InsertEntries(dev, st, gttEntry, level, beyond);
    }
  }
}
