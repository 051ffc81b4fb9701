/** Objects: page lists coalesced into scatter-gather runs, and the page order a walk of the
    table gives back. */
module Memmgr {
  import opened Bits
  import opened Pte

  const ENOMEM: int := 12
  const ENOSPC: int := 28

  /** Length in pages at which a 32-bit byte length wraps to zero. */
  const WRAP_PAGES: nat := 0x10_0000

  // ---- page runs ----

  datatype PageRun = PageRun(start: nat, count: nat)

  function PagesOf(r: PageRun): (s: seq<nat>)
    ensures |s| == r.count
  {
    seq(r.count, k => r.start + k)
  }

  function Expand(runs: seq<PageRun>): seq<nat> {
    if runs == [] then [] else Expand(runs[..|runs| - 1]) + PagesOf(runs[|runs| - 1])
  }

  /** First page frame after the run. */
  function NextPage(r: PageRun): nat {
    r.start + r.count
  }

  /** A page next to the last run lengthens it, any other page opens a new run. */
  function AddPage(runs: seq<PageRun>, page: nat): seq<PageRun> {
    var n := |runs|;
    if n == 0 || page != NextPage(runs[n - 1]) then runs + [PageRun(page, 1)]
    else runs[..n - 1] + [PageRun(runs[n - 1].start, runs[n - 1].count + 1)]
  }

  /** The runs after the pages have been handed out in order. */
  function Coalesce(pages: seq<nat>): seq<PageRun> {
    if pages == [] then [] else AddPage(Coalesce(pages[..|pages| - 1]), pages[|pages| - 1])
  }

  /** No run is empty. */
  ghost predicate Proper(runs: seq<PageRun>) {
    forall i :: 0 <= i < |runs| ==> 1 <= runs[i].count
  }

  /** No two neighbouring runs could be merged. */
  ghost predicate Maximal(runs: seq<PageRun>) {
    forall i :: 0 < i < |runs| ==> runs[i].start != NextPage(runs[i - 1])
  }

  lemma ExpandSnoc(runs: seq<PageRun>, r: PageRun)
    ensures Expand(runs + [r]) == Expand(runs) + PagesOf(r)
  {
    assert (runs + [r])[..|runs|] == runs;
  }

  lemma CoalesceSnoc(pages: seq<nat>, page: nat)
    ensures Coalesce(pages + [page]) == AddPage(Coalesce(pages), page)
  {
    assert (pages + [page])[..|pages|] == pages;
  }

  lemma CoalesceNext(pages: seq<nat>, i: nat)
    requires i < |pages|
    ensures Coalesce(pages[..i + 1]) == AddPage(Coalesce(pages[..i]), pages[i])
  {
    assert pages[..i + 1] == pages[..i] + [pages[i]];
    CoalesceSnoc(pages[..i], pages[i]);
  }

  /** A run one page longer has one page more at its end. */
  lemma ExpandLonger(front: seq<PageRun>, r: PageRun)
    ensures Expand(front + [PageRun(r.start, r.count + 1)]) == Expand(front + [r]) + [NextPage(r)]
  {
    ExpandSnoc(front, r);
    ExpandSnoc(front, PageRun(r.start, r.count + 1));
    assert PagesOf(PageRun(r.start, r.count + 1)) == PagesOf(r) + [NextPage(r)];
  }

  lemma AddPageExpands(runs: seq<PageRun>, page: nat)
    ensures Expand(AddPage(runs, page)) == Expand(runs) + [page]
  {
    var n := |runs|;
    if n == 0 || page != NextPage(runs[n - 1]) {
      ExpandSnoc(runs, PageRun(page, 1));
      assert PagesOf(PageRun(page, 1)) == [page];
    } else {
      ExpandLonger(runs[..n - 1], runs[n - 1]);
      assert runs == runs[..n - 1] + [runs[n - 1]];
    }
  }

  lemma AddPageKeeps(runs: seq<PageRun>, page: nat)
    requires Proper(runs) && Maximal(runs)
    ensures Proper(AddPage(runs, page)) && Maximal(AddPage(runs, page))
    ensures 0 < |AddPage(runs, page)| <= |runs| + 1
  {
  }

  lemma AddPageDescribes(runs: seq<PageRun>, pages: seq<nat>, page: nat)
    requires Expand(runs) == pages && Proper(runs) && Maximal(runs) && |runs| <= |pages|
    ensures var runs' := AddPage(runs, page);
            && Expand(runs') == pages + [page] && Proper(runs') && Maximal(runs')
            && 0 < |runs'| <= |pages| + 1
  {
    AddPageExpands(runs, page);
    AddPageKeeps(runs, page);
    hide AddPage, Expand, Proper, Maximal;
  }

  /** The run table describes exactly the allocated pages, in order, with proper maximal runs,
      never more of them than pages. */
  lemma {:induction false} CoalesceDescribes(pages: seq<nat>)
    ensures Expand(Coalesce(pages)) == pages
    ensures Proper(Coalesce(pages)) && Maximal(Coalesce(pages))
    ensures |Coalesce(pages)| <= |pages|
    ensures pages != [] ==> Coalesce(pages) != []
    decreases |pages|
  {
    if pages == [] {
    } else {
      var front, page := pages[..|pages| - 1], pages[|pages| - 1];
      assert pages == front + [page];
      CoalesceDescribes(front);
      AddPageDescribes(Coalesce(front), front, page);
    }
  }

  /** The last page of a proper split is the last page of its last run. */
  lemma LastPage(runs: seq<PageRun>)
    requires runs != [] && Proper(runs)
    ensures var pages := Expand(runs);
            pages != [] && pages[|pages| - 1] + 1 == NextPage(runs[|runs| - 1])
  {
  }

  /** Takes the last page off a proper split. */
  lemma TakeLastPage(runs: seq<PageRun>) returns (rest: seq<PageRun>, page: nat)
    requires runs != [] && Proper(runs)
    ensures Proper(rest) && Expand(runs) == Expand(rest) + [page]
    ensures Maximal(runs) ==> Maximal(rest) && AddPage(rest, page) == runs
    ensures |rest| + 1 == |runs| || (|rest| == |runs| && NextPage(rest[|rest| - 1]) == page)
  {
    var n := |runs| - 1;
    var front, last := runs[..n], runs[n];
    assert runs == front + [last];
    if last.count == 1 {
      rest, page := front, last.start;
      ExpandSnoc(front, last);
      assert PagesOf(last) == [page];
    } else {
      var shorter := PageRun(last.start, last.count - 1);
      rest, page := front + [shorter], NextPage(shorter);
      ExpandLonger(front, shorter);
      assert rest[..n] == front;
    }
  }

  /** A proper split in which no neighbours could be merged is the coalesced one. */
  lemma {:induction false} CoalesceUnique(runs: seq<PageRun>)
    requires Proper(runs) && Maximal(runs)
    ensures Coalesce(Expand(runs)) == runs
    decreases |Expand(runs)|
  {
    if runs != [] {
      var rest, page := TakeLastPage(runs);
      CoalesceUnique(rest);
      CoalesceSnoc(Expand(rest), page);
    }
  }

  /** No proper split of the pages has fewer runs than the coalesced one. */
  lemma {:induction false} CoalesceMinimal(runs: seq<PageRun>)
    requires Proper(runs)
    ensures |Coalesce(Expand(runs))| <= |runs|
    decreases |Expand(runs)|
  {
    if runs != [] {
      var rest, page := TakeLastPage(runs);
      var pages := Expand(rest);
      CoalesceMinimal(rest);
      CoalesceSnoc(pages, page);
      if |rest| == |runs| {
        LastPage(rest);
        CoalesceDescribes(pages);
        LastPage(Coalesce(pages));
      }
    }
  }

  // ---- the stored table ----

  /** One scatterlist entry: first page frame and byte length, a 32-bit quantity. */
  datatype SgEntry = SgEntry(page: nat, length: U32)

  function Stored(runs: seq<PageRun>): (es: seq<SgEntry>)
    ensures |es| == |runs|
  {
    seq(|runs|, i requires 0 <= i < |runs| => SgEntry(runs[i].start, Trunc32(runs[i].count * PAGE_SIZE)))
  }

  /** Pages a walk takes from one entry: its length rounded up to pages. */
  function SgPageCount(e: SgEntry): nat {
    (e.length + PAGE_SIZE - 1) / PAGE_SIZE
  }

  /** Page frames in the order a page walk over the entries visits them. */
  function SgPages(es: seq<SgEntry>): seq<nat> {
    if es == [] then []
    else
      var last := es[|es| - 1];
      SgPages(es[..|es| - 1]) + PagesOf(PageRun(last.page, SgPageCount(last)))
  }

  lemma StoredSnoc(runs: seq<PageRun>)
    requires runs != []
    ensures var last := runs[|runs| - 1];
            Stored(runs) == Stored(runs[..|runs| - 1]) + [SgEntry(last.start, Trunc32(last.count * PAGE_SIZE))]
  {
  }

  lemma StoredCount(count: nat)
    ensures SgPageCount(SgEntry(0, Trunc32(count * PAGE_SIZE))) == count % WRAP_PAGES
  {
    assert count * PAGE_SIZE % TWO_32 == count % WRAP_PAGES * PAGE_SIZE;
  }

  lemma {:induction false} WalkLength(runs: seq<PageRun>)
    ensures |SgPages(Stored(runs))| <= |Expand(runs)|
    ensures (forall i :: 0 <= i < |runs| ==> runs[i].count < WRAP_PAGES)
            ==> SgPages(Stored(runs)) == Expand(runs)
    ensures (exists i :: 0 <= i < |runs| && runs[i].count >= WRAP_PAGES)
            ==> |SgPages(Stored(runs))| < |Expand(runs)|
  {
    if runs != [] {
      var front, last := runs[..|runs| - 1], runs[|runs| - 1];
      WalkLength(front);
      StoredSnoc(runs);
      StoredCount(last.count);
      var es := Stored(runs);
      assert es[..|es| - 1] == Stored(front);
      assert SgPages(es) == SgPages(Stored(front)) + PagesOf(PageRun(last.start, last.count % WRAP_PAGES));
    }
  }

  // ---- when the stored table gives the pages back ----

  /** `m` page frames from position `i` on, each one after the other. */
  ghost predicate Stretch(pages: seq<nat>, i: nat, m: nat) {
    i + m <= |pages| && forall x :: i <= x < i + m ==> pages[x] == pages[i] + (x - i)
  }

  lemma {:induction false} RunIsStretch(runs: seq<PageRun>, j: nat) returns (i: nat)
    requires j < |runs|
    ensures Stretch(Expand(runs), i, runs[j].count)
  {
    var n := |runs| - 1;
    var front := Expand(runs[..n]);
    if j == n {
      i := |front|;
      assert forall x :: i <= x < i + runs[n].count ==> Expand(runs)[x] == PagesOf(runs[n])[x - i];
    } else {
      i := RunIsStretch(runs[..n], j);
      assert forall k :: 0 <= k < |front| ==> Expand(runs)[k] == front[k];
    }
  }

  lemma ShorterStretch(pages: seq<nat>, m: nat)
    requires 2 <= m <= |pages| && Stretch(pages, |pages| - m, m)
    ensures var before := pages[..|pages| - 1];
            && Stretch(before, |before| - (m - 1), m - 1)
            && pages[|pages| - 1] == before[|before| - 1] + 1
  {
    var first := |pages| - m;
    assert pages[..|pages| - 1][first] == pages[first];
  }

  /** Consecutive frames handed out last all end up in the last run. */
  lemma {:induction false} TailInLastRun(pages: seq<nat>, m: nat)
    requires 1 <= m <= |pages| && Stretch(pages, |pages| - m, m)
    ensures Coalesce(pages) != [] && Coalesce(pages)[|Coalesce(pages)| - 1].count >= m
  {
    var n := |pages| - 1;
    var before := pages[..n];
    CoalesceDescribes(before);
    if m >= 2 {
      ShorterStretch(pages, m);
      hide Stretch, Expand, Maximal;
      TailInLastRun(before, m - 1);
      LastPage(Coalesce(before));
    }
  }

  lemma {:induction false} StretchInRun(pages: seq<nat>, i: nat, m: nat) returns (j: nat)
    requires 1 <= m && Stretch(pages, i, m)
    ensures j < |Coalesce(pages)| && Coalesce(pages)[j].count >= m
    decreases |pages|
  {
    var n := |pages| - 1;
    if i + m == |pages| {
      TailInLastRun(pages, m);
      j := |Coalesce(pages)| - 1;
    } else {
      j := StretchInRun(pages[..n], i, m);
    }
  }

  /** 2^20 consecutive frames somewhere among the pages: a 4 GiB contiguous stretch. */
  ghost predicate HasWrappingStretch(pages: seq<nat>) {
    exists i :: Stretch(pages, i, WRAP_PAGES)
  }

  /** Walking the stored table visits exactly the allocated pages in order, unless 2^20
      consecutive frames made a run whose 32-bit length wrapped. */
  lemma WalkRoundTrip(pages: seq<nat>)
    ensures SgPages(Stored(Coalesce(pages))) == pages <==> !HasWrappingStretch(pages)
  {
    var runs := Coalesce(pages);
    CoalesceDescribes(pages);
    WalkLength(runs);
    if j :| 0 <= j < |runs| && runs[j].count >= WRAP_PAGES {
      var i := RunIsStretch(runs, j);
      assert Stretch(pages, i, WRAP_PAGES);
    }
    if i :| Stretch(pages, i, WRAP_PAGES) {
      var j := StretchInRun(pages, i, WRAP_PAGES);
    }
  }

  /** The count alone rules the wrap out below 2^20 pages, as for every object the driver
      allocates. */
  lemma WalkRoundTripSmall(pages: seq<nat>)
    requires |pages| < WRAP_PAGES
    ensures SgPages(Stored(Coalesce(pages))) == pages
  {
    WalkRoundTrip(pages);
  }

  lemma EmptyEntryWalk(start: nat)
    ensures SgPages([SgEntry(start, 0)]) == []
  {
    var es := [SgEntry(start, 0)];
    assert SgPages(es) == SgPages(es[..0]) + PagesOf(PageRun(start, 0));
  }

  /** The failing input: 2^20 consecutive frames make one run of stored length zero, and the
      walk visits no page at all. */
  lemma WrappedRunVanishes(start: nat, run: PageRun)
    requires run == PageRun(start, WRAP_PAGES)
    ensures Coalesce(PagesOf(run)) == [run]
    ensures SgPages(Stored(Coalesce(PagesOf(run)))) == []
  {
    var runs := [run];
    ExpandSnoc([], run);
    assert [] + [run] == runs;
    assert Expand(runs) == PagesOf(run);
    CoalesceUnique(runs);
    assert Stored(runs) == [SgEntry(start, 0)];
    EmptyEntryWalk(start);
  }

  // ---- the allocator ----

  class SgTable {
    const sgl: array<SgEntry>
    var nents: nat

    ghost predicate Valid()
      reads this
    {
      nents <= sgl.Length
    }

    ghost function Entries(): seq<SgEntry>
      reads this, sgl
      requires Valid()
    {
      sgl[..nents]
    }

    constructor (count: nat)
      ensures fresh(sgl) && sgl.Length == count && nents == 0
    {
      sgl := new SgEntry[count](_ => SgEntry(0, 0));
      nents := 0;
    }

    /** A new entry of one page at `sg`, just after the entries in use. */
    method Open(sg: nat, page: nat)
      requires Valid() && sg == nents < sgl.Length
      modifies this, sgl
      ensures Valid() && nents == old(nents) + 1
      ensures Entries() == old(Entries()) + [SgEntry(page, PAGE_SIZE)]
    {
      nents := nents + 1;
      sgl[sg] := SgEntry(page, PAGE_SIZE);
    }

    /** One more page in the entry at `sg`. */
    method Lengthen(sg: nat)
      requires Valid() && sg < nents
      modifies sgl
      ensures Valid()
      ensures var e := old(Entries())[sg];
              Entries() == old(Entries())[sg := e.(length := Trunc32(e.length + PAGE_SIZE))]
    {
      sgl[sg] := sgl[sg].(length := Trunc32(sgl[sg].length + PAGE_SIZE));
    }
  }

  class GpuObject {
    var pgList: SgTable?

    constructor ()
      ensures pgList == null
    {
      pgList := null;
    }
  }

  /** What the kernel answers during one allocation: the page frames `alloc_pages` hands out
      before it runs dry, and whether the other calls succeed. `dma_map_sg` maps every frame to
      its own physical address. */
  datatype Kernel = Kernel(headerOk: bool, tableOk: bool, frames: seq<nat>, dmaOk: bool)

  /** The status of an allocation: out of memory when any kernel allocation fails or no page is
      asked for, no space when only the mapping fails. */
  function AllocationStatus(k: Kernel, num: U32): int {
    if !k.headerOk || !k.tableOk || num == 0 || |k.frames| < num then -ENOMEM
    else if !k.dmaOk then -ENOSPC
    else 0
  }

  /** Everything asked of the kernel is given, at least one page included. */
  predicate Obtained(k: Kernel, num: nat) {
    k.headerOk && k.tableOk && 0 < num <= |k.frames| && k.dmaOk
  }

  lemma StatusIs(k: Kernel, num: U32)
    ensures AllocationStatus(k, num) == 0 <==> Obtained(k, num)
  {
  }

  /** The table holds the runs so far, `sg` is its last entry, `lastPfn` the last page. */
  ghost predicate Building(st: SgTable, runs: seq<PageRun>, sg: nat, lastPfn: nat)
    reads st, st.sgl
    ensures Building(st, runs, sg, lastPfn) ==>
              st.Valid() && st.Entries() == Stored(runs) && st.nents == |runs|
  {
    && st.Valid() && st.Entries() == Stored(runs)
    && (runs == [] ==> sg == 0)
    && (runs != [] ==> sg + 1 == st.nents && lastPfn + 1 == NextPage(runs[|runs| - 1]))
  }

  /** The body of the allocation loop: a new entry for the first page and for a page that does
      not follow the previous one, a longer entry otherwise. */
  method PlacePage(st: SgTable, sg: nat, first: bool, lastPfn: nat, page: nat, ghost runs: seq<PageRun>)
    returns (sg': nat)
    requires Building(st, runs, sg, lastPfn) && st.nents < st.sgl.Length
    requires first <==> runs == []
    modifies st, st.sgl
    ensures Building(st, AddPage(runs, page), sg', page)
    ensures 0 < st.nents <= old(st.nents) + 1
  {
    sg' := sg;
    if first || page != lastPfn + 1 {
      if !first {
        sg' := sg + 1;
      }
      NewEntry(runs, page);
      st.Open(sg', page);
    } else {
      LongerEntry(runs);
      st.Lengthen(sg');
    }
  }

  /** The allocation loop: takes `num` pages from the kernel and places them in the table. */
  method FillTable(st: SgTable, frames: seq<nat>, num: U32) returns (ok: bool)
    requires st.Valid() && st.nents == 0 && st.sgl.Length == num > 0
    modifies st, st.sgl
    ensures ok <==> num <= |frames|
    ensures ok ==> st.Valid() && st.Entries() == Stored(Coalesce(frames[..num]))
  {
    var sg, lastPfn := 0, 0;
    var i := 0;
    assert frames[..0] == [] && Building(st, Coalesce([]), 0, 0);
    hide Building, Coalesce, AddPage, Stored;
    while i < num
      invariant i <= num && i <= |frames|
      invariant Building(st, Coalesce(frames[..i]), sg, lastPfn)
      invariant st.nents <= i && (i == 0 <==> st.nents == 0)
    {
      if i == |frames| {
        return false;
      }
      var page := frames[i];
      CoalesceNext(frames, i);
      sg := PlacePage(st, sg, i == 0, lastPfn, page, Coalesce(frames[..i]));
      lastPfn := page;
      i := i + 1;
    }
    return true;
  }

  method AllocateObject(k: Kernel, obj: GpuObject, num: U32) returns (ret: int)
    modifies obj
    ensures ret == AllocationStatus(k, num)
    ensures ret == 0 <==> k.headerOk && k.tableOk && 0 < num <= |k.frames| && k.dmaOk
    ensures ret == -28 <==> k.headerOk && k.tableOk && 0 < num <= |k.frames| && !k.dmaOk
    ensures ret == 0 || ret == -28 || ret == -12
    ensures ret == 0 ==>
              && obj.pgList != null && fresh(obj.pgList) && fresh(obj.pgList.sgl)
              && obj.pgList.Valid() && obj.pgList.sgl.Length == num
              && obj.pgList.Entries() == Stored(Coalesce(k.frames[..num]))
    ensures ret != 0 ==> obj.pgList == old(obj.pgList)
  {
    if !k.headerOk {
      return -ENOMEM;
    }
    // a table for no pages cannot be allocated
    if !k.tableOk || num == 0 {
      return -ENOMEM;
    }
    var st := new SgTable(num);
    var ok := FillTable(st, k.frames, num);
    if !ok {
      return -ENOMEM;
    }
    if !k.dmaOk {
      return -ENOSPC;
    }
    obj.pgList := st;
    return 0;
  }

  /** Adding a page to the last run adds a page to the stored length, wrapping alike. */
  lemma LongerEntry(runs: seq<PageRun>)
    requires runs != []
    ensures var n := |runs| - 1;
            var longer := runs[..n] + [PageRun(runs[n].start, runs[n].count + 1)];
            Stored(longer) == Stored(runs)[n := SgEntry(runs[n].start, Trunc32(Stored(runs)[n].length + PAGE_SIZE))]
  {
  }

  lemma NewEntry(runs: seq<PageRun>, page: nat)
    ensures Stored(runs + [PageRun(page, 1)]) == Stored(runs) + [SgEntry(page, PAGE_SIZE)]
  {
  }
}
