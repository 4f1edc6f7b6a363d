/** The virtual-memory pool of mp4/vm_pool.C: a window of virtual addresses
    carved into page-multiple regions by bump allocation from the end of the
    last region. The region table lives in the first page of the window,
    which is itself region 0. */
module VMPool {
  import opened Common
  import opened VMWindow
  import PT = PageTable
  import PTV = PageTableVM

  /** One allocated region [base, base + size). */
  datatype Region = Region(base: nat, size: nat)

  /** A pool: its window, its regions in table order, and `availableSize`. */
  datatype Pool = Pool(window: Window, regions: seq<Region>, available: int)

  function End(r: Region): nat {
    r.base + r.size
  }

  /** The total size of a list of regions. */
  function Sum(rs: seq<Region>): nat {
    if |rs| == 0 then 0 else Sum(rs[..|rs| - 1]) + rs[|rs| - 1].size
  }

  lemma {:induction false} SumConcat(a: seq<Region>, b: seq<Region>)
    ensures Sum(a + b) == Sum(a) + Sum(b)
    decreases |b|
  {
    if |b| > 0 {
      assert (a + b)[..|a + b| - 1] == a + b[..|b| - 1];
      assert (a + b)[|a + b| - 1] == b[|b| - 1];
      SumConcat(a, b[..|b| - 1]);
    } else {
      assert a + b == a;
    }
  }

  /** Regions are page multiples, lie in ascending order without overlap,
      the available size is a non-negative page multiple, and the regions
      and the available size together make up the window. */
  predicate Valid(p: Pool) {
    && PageMultiples(p.regions)
    && Ascending(p.regions)
    && 0 <= p.available && p.available % PageSize == 0
    && Sum(p.regions) + p.available == p.window.size
  }

  predicate PageMultiples(rs: seq<Region>) {
    forall i :: 0 <= i < |rs| ==> rs[i].size % PageSize == 0
  }

  /** Each region ends before any later one begins. */
  predicate Ascending(rs: seq<Region>) {
    forall i, j :: 0 <= i < j < |rs| ==> End(rs[i]) <= rs[j].base
  }

  /** Every region lies inside the window. */
  ghost predicate Contained(p: Pool) {
    forall i :: 0 <= i < |p.regions| ==>
      p.window.base <= p.regions[i].base && End(p.regions[i]) <= p.window.base + p.window.size
  }

  /** `x - y` on the source's 32-bit unsigned long. */
  function Sub32(x: nat, y: nat): (r: nat)
    ensures r < 0x1_0000_0000
    ensures x < 0x1_0000_0000 && y <= x ==> r == x - y
  {
    (x - y) % 0x1_0000_0000
  }

  /** The pool and the paging state after the constructor has registered it. */
  datatype Made = Made(sys: PTV.System, pool: Pool)

  /** The constructor with its fields set as intended: the window is
      registered with the page table, region 0 is the first page of the
      window (it holds the region table), and the rest is available. */
  function New(sys: PTV.System, base: nat, size: nat): (m: Made)
    ensures m.sys == PTV.RegisterPool(sys, Window(base, size))
    ensures m.pool.window == Window(base, size)
    ensures m.pool.regions == [Region(base, PageSize)]
    ensures size < 0x1_0000_0000 && PageSize <= size ==> m.pool.available == size - PageSize
    ensures size < 0x1_0000_0000 && PageSize <= size && size % PageSize == 0 ==>
              Valid(m.pool) && Contained(m.pool)
  {
    var p := Pool(Window(base, size), [Region(base, PageSize)], Sub32(size, PageSize));
    assert Sum(p.regions) == PageSize by {
      assert p.regions[..0] == [];
    }
    Made(PTV.RegisterPool(sys, Window(base, size)), p)
  }

  /** The constructor as written: the base, size, frame pool and page table
      go into locals that shadow the fields, so the fields keep whatever
      they held before (`stale`, `staleAvailable`), and the pool registered
      with the page table has the stale window. Region 0 is still set from
      the argument. */
  function NewAsWritten(sys: PTV.System, base: nat, size: nat, stale: Window,
                        staleAvailable: nat): (m: Made)
    ensures m.sys.core == sys.core && m.sys.vmPools == sys.vmPools + [stale]
    ensures m.pool.window == stale
    ensures m.pool.available == Sub32(staleAvailable, PageSize)
    ensures m.pool.regions == New(sys, base, size).pool.regions
    ensures stale != Window(base, size) ==> m.sys != New(sys, base, size).sys
  {
    var m := Made(PTV.RegisterPool(sys, stale),
                  Pool(stale, [Region(base, PageSize)], Sub32(staleAvailable, PageSize)));
    assert m.sys.vmPools[|sys.vmPools|] == stale;
    assert New(sys, base, size).sys.vmPools[|sys.vmPools|] == Window(base, size);
    m
  }

  /** With zeroed fields the as-written pool claims almost 4 GB available,
      registers an empty window, and breaks the accounting. */
  lemma NewAsWrittenZeroed(sys: PTV.System, base: nat, size: nat)
    requires size < 0x1_0000_0000 && PageSize <= size && size % PageSize == 0
    ensures NewAsWritten(sys, base, size, Window(0, 0), 0).pool.available == 0xFFFF_F000
    ensures !Valid(NewAsWritten(sys, base, size, Window(0, 0), 0).pool)
    ensures Valid(New(sys, base, size).pool)
  {
    var p := NewAsWritten(sys, base, size, Window(0, 0), 0).pool;
    assert p.regions[..0] == [];
    assert Sum(p.regions) == PageSize;
  }

  /** The requested size rounded up to whole pages. */
  function RoundUp(s: nat): (r: nat)
    ensures r % PageSize == 0
    ensures s <= r < s + PageSize
  {
    (s / PageSize + (if s % PageSize > 0 then 1 else 0)) * PageSize
  }

  /** A request that passes the unrounded check never takes more than is
      available, because the available size is a page multiple. */
  lemma {:induction false} RoundUpFits(s: nat, available: nat)
    requires s <= available && available % PageSize == 0
    ensures RoundUp(s) <= available
  {
    var q := available / PageSize;
    assert available == q * PageSize;
    if s % PageSize > 0 {
      assert (s / PageSize) * PageSize < s;
      PagesBelow(s / PageSize, q);
    } else {
      assert RoundUp(s) == s;
    }
  }

  /** Page counts compare as their sizes do. */
  lemma PagesBelow(k: nat, m: nat)
    requires k * PageSize < m * PageSize
    ensures k < m
  {
  }

  /** The outcome of allocate: the pool afterwards and the returned address. */
  datatype Alloc = Alloc(pool: Pool, addr: nat)

  /** allocate: a request larger than the available size returns 0 and
      changes nothing; otherwise a region of the rounded size is appended
      right after the last region and its base is returned. */
  function Allocate(p: Pool, s: nat): (r: Alloc)
    requires |p.regions| > 0
    ensures s > p.available ==> r == Alloc(p, 0)
    ensures s <= p.available ==>
              var last := p.regions[|p.regions| - 1];
              && r.addr == End(last)
              && r.pool.window == p.window
              && r.pool.regions == p.regions + [Region(End(last), RoundUp(s))]
              && r.pool.available == p.available - RoundUp(s)
    ensures Valid(p) ==> Valid(r.pool)
  {
    if s > p.available then Alloc(p, 0)
    else
      var last := p.regions[|p.regions| - 1];
      var q := p.(regions := p.regions + [Region(End(last), RoundUp(s))],
                  available := p.available - RoundUp(s));
      if Valid(p) then
        AllocateKeepsValid(p, s, q);
        Alloc(q, End(last))
      else
        Alloc(q, End(last))
  }

  lemma AllocateKeepsValid(p: Pool, s: nat, q: Pool)
    requires Valid(p) && |p.regions| > 0 && s <= p.available
    requires q == p.(regions := p.regions + [Region(End(p.regions[|p.regions| - 1]), RoundUp(s))],
                     available := p.available - RoundUp(s))
    ensures Valid(q)
  {
    RoundUpFits(s, p.available);
    DiffMultiple(p.available, RoundUp(s));
    AppendKeepsOrder(p.regions, Region(End(p.regions[|p.regions| - 1]), RoundUp(s)));
  }

  lemma {:induction false} DiffMultiple(x: nat, y: nat)
    requires y <= x && x % PageSize == 0 && y % PageSize == 0
    ensures (x - y) % PageSize == 0
  {
    var a, b := x / PageSize, y / PageSize;
    assert x == a * PageSize && y == b * PageSize;
    assert x - y == (a - b) * PageSize;
  }

  lemma AppendKeepsOrder(rs: seq<Region>, r: Region)
    requires |rs| > 0 && PageMultiples(rs) && Ascending(rs)
    requires r.base == End(rs[|rs| - 1]) && r.size % PageSize == 0
    ensures PageMultiples(rs + [r]) && Ascending(rs + [r])
    ensures Sum(rs + [r]) == Sum(rs) + r.size
  {
    var t := rs + [r];
    assert t[..|t| - 1] == rs;
    var n := |rs|;
    forall i, j | 0 <= i < j < |t| ensures End(t[i]) <= t[j].base {
      if j == n && i < n - 1 {
        assert End(rs[i]) <= rs[n - 1].base;
      }
    }
  }

  /** The index of the region whose base is a: the last such region, as the
      source's scan has no break. None when there is none. */
  function FindRegion(rs: seq<Region>, a: nat): (r: Option<nat>)
    ensures r.Some? ==> r.value < |rs| && rs[r.value].base == a
    ensures r.Some? ==> forall j :: r.value < j < |rs| ==> rs[j].base != a
    ensures r.None? <==> forall j :: 0 <= j < |rs| ==> rs[j].base != a
  {
    if |rs| == 0 then None
    else if rs[|rs| - 1].base == a then Some(|rs| - 1)
    else
      var r := FindRegion(rs[..|rs| - 1], a);
      assert forall j :: 0 <= j < |rs| - 1 ==> rs[..|rs| - 1][j] == rs[j];
      r
  }

  /** The value `(unsigned long)-1` the source starts the search with. */
  const NotFoundAsWritten: nat := 0xFFFF_FFFF

  /** The search loop of release as written: the index i is never
      incremented, so with any region at all the same test repeats forever;
      only an empty table ends the loop, with the search value untouched.
      None when the loop has not ended within `fuel` iterations. */
  function FindRegionAsWritten(rs: seq<Region>, a: nat, fuel: nat): (r: Option<nat>)
    ensures |rs| == 0 ==> r == Some(NotFoundAsWritten)
    decreases fuel
  {
    if |rs| == 0 then Some(NotFoundAsWritten)
    else if fuel == 0 then None
    else FindRegionAsWritten(rs, a, fuel - 1)
  }

  /** With any region in the table, the as-written search never ends. */
  lemma {:induction false} FindRegionAsWrittenHangs(rs: seq<Region>, a: nat, fuel: nat)
    requires |rs| > 0
    ensures FindRegionAsWritten(rs, a, fuel).None?
    decreases fuel
  {
    if fuel > 0 {
      FindRegionAsWrittenHangs(rs, a, fuel - 1);
    }
  }

  /** When the search does end without a match, release goes on with an
      index past every region. */
  lemma NotFoundIndexOutOfRange(rs: seq<Region>, a: nat, fuel: nat)
    requires |rs| < NotFoundAsWritten
    requires FindRegionAsWritten(rs, a, fuel).Some?
    ensures FindRegionAsWritten(rs, a, fuel).value >= |rs|
  {
    if |rs| > 0 {
      FindRegionAsWrittenHangs(rs, a, fuel);
    }
  }

  /** The address of the k-th page from a. */
  function PageAt(a: nat, k: nat): nat {
    a + k * PageSize
  }

  /** free_page on the n pages from a, in ascending order. */
  function FreePages(s: PTV.System, a: nat, n: nat): (r: PTV.System)
    requires PTV.Valid(s)
    ensures PTV.Valid(r) && r.vmPools == s.vmPools
    ensures r.core.kernel == s.core.kernel && r.core.process == s.core.process
    decreases n
  {
    if n == 0 then s
    else FreePages(PTV.FreePage(s, a), a + PageSize, n - 1)
  }

  /** After freeing n pages from a, none of them is mapped, and a page that
      was not mapped before is not mapped after. */
  lemma {:induction false} FreePagesUnmaps(s: PTV.System, a: nat, n: nat)
    requires PTV.Valid(s)
    ensures forall k :: 0 <= k < n && PageAt(a, k) < 0x1_0000_0000 ==>
              !PT.Mapped(FreePages(s, a, n).core.current.value, PageAt(a, k))
    ensures forall b :: !PT.Mapped(s.core.current.value, b) ==>
              !PT.Mapped(FreePages(s, a, n).core.current.value, b)
    decreases n
  {
    if n > 0 {
      var s1 := PTV.FreePage(s, a);
      FreePagesUnmaps(s1, a + PageSize, n - 1);
      assert forall k :: 1 <= k < n ==> PageAt(a, k) == PageAt(a + PageSize, k - 1);
      assert PageAt(a, 0) == a;
    }
  }

  /** Freeing m pages and then the n pages after them is freeing m + n
      pages: the pages are given back one by one from the lowest. */
  lemma {:induction false} FreePagesSplit(s: PTV.System, a: nat, m: nat, n: nat)
    requires PTV.Valid(s)
    ensures FreePages(s, a, m + n) == FreePages(FreePages(s, a, m), PageAt(a, m), n)
    decreases m
  {
    if m == 0 {
      assert PageAt(a, 0) == a;
    } else {
      var s1, k := PTV.FreePage(s, a), m - 1;
      FreePagesSplit(s1, a + PageSize, k, n);
      assert PageAt(a + PageSize, k) == PageAt(a, m);
      assert FreePages(s, a, m) == FreePages(s1, a + PageSize, k);
      assert FreePages(s, a, m + n) == FreePages(s1, a + PageSize, k + n);
    }
  }

  /** The list without its i-th region, the others in their order. */
  function Remove(rs: seq<Region>, i: nat): (t: seq<Region>)
    requires i < |rs|
    ensures |t| == |rs| - 1
    ensures forall j :: 0 <= j < i ==> t[j] == rs[j]
    ensures forall j :: i <= j < |t| ==> t[j] == rs[j + 1]
    ensures Sum(t) == Sum(rs) - rs[i].size
  {
    assert rs == rs[..i] + [rs[i]] + rs[i + 1..];
    SumConcat(rs[..i] + [rs[i]], rs[i + 1..]);
    SumConcat(rs[..i], [rs[i]]);
    SumConcat(rs[..i], rs[i + 1..]);
    assert Sum([rs[i]]) == rs[i].size by {
      assert [rs[i]][..0] == [];
    }
    rs[..i] + rs[i + 1..]
  }

  /** The pool with region i removed and its size credited back. */
  function Forget(p: Pool, i: nat): (q: Pool)
    requires i < |p.regions|
    ensures q.window == p.window
    ensures q.regions == Remove(p.regions, i)
    ensures q.available == p.available + p.regions[i].size
    ensures Valid(p) ==> Valid(q)
  {
    var q := p.(regions := Remove(p.regions, i), available := p.available + p.regions[i].size);
    if Valid(p) then
      ForgetKeepsValid(p, i, q);
      q
    else
      q
  }

  lemma ForgetKeepsValid(p: Pool, i: nat, q: Pool)
    requires Valid(p) && i < |p.regions|
    requires q == p.(regions := Remove(p.regions, i), available := p.available + p.regions[i].size)
    ensures Valid(q)
  {
    RemoveKeepsOrder(p.regions, i);
    assert p.regions[i].size % PageSize == 0;
  }

  lemma RemoveKeepsOrder(rs: seq<Region>, i: nat)
    requires i < |rs| && PageMultiples(rs) && Ascending(rs)
    ensures PageMultiples(Remove(rs, i)) && Ascending(Remove(rs, i))
  {
    var t := Remove(rs, i);
    forall x, y | 0 <= x < y < |t| ensures End(t[x]) <= t[y].base {
      var x' := if x < i then x else x + 1;
      var y' := if y < i then y else y + 1;
      assert t[x] == rs[x'] && t[y] == rs[y'] && x' < y';
    }
    forall x | 0 <= x < |t| ensures t[x].size % PageSize == 0 {
      var x' := if x < i then x else x + 1;
      assert t[x] == rs[x'];
    }
  }

  /** release as intended: find the region starting at a, free each of its
      pages in ascending order, remove it keeping the others in order, and
      credit its size back. An address that starts no region is an error
      and changes nothing. */
  function Release(s: PTV.System, p: Pool, a: nat): (r: Result<Made>)
    requires PTV.Valid(s)
    ensures r.Err? <==> forall j :: 0 <= j < |p.regions| ==> p.regions[j].base != a
    ensures r.Err? ==> r.error == RegionNotFound
    ensures r.Ok? ==>
              var i := FindRegion(p.regions, a).value;
              && p.regions[i].base == a
              && r.value.sys == FreePages(s, a, p.regions[i].size / PageSize)
              && r.value.pool == Forget(p, i)
    ensures r.Ok? ==> PTV.Valid(r.value.sys) && r.value.sys.vmPools == s.vmPools
    ensures r.Ok? && Valid(p) ==> Valid(r.value.pool)
  {
    match FindRegion(p.regions, a)
    case None => Err(RegionNotFound)
    case Some(i) => Ok(Made(FreePages(s, a, p.regions[i].size / PageSize), Forget(p, i)))
  }

  /** Every page of the released region is unmapped afterwards. */
  lemma ReleaseUnmaps(s: PTV.System, p: Pool, a: nat, k: nat)
    requires PTV.Valid(s) && Valid(p) && Release(s, p, a).Ok?
    requires k * PageSize < p.regions[FindRegion(p.regions, a).value].size
    requires PageAt(a, k) < 0x1_0000_0000
    ensures !PT.Mapped(Release(s, p, a).value.sys.core.current.value, PageAt(a, k))
  {
    var i := FindRegion(p.regions, a).value;
    var size := p.regions[i].size;
    assert size == (size / PageSize) * PageSize;
    PagesBelow(k, size / PageSize);
    FreePagesUnmaps(s, a, size / PageSize);
  }

  /** The table after release's shift loop, which copies each slot from the
      one after it, up to and including the slot just past the last region
      (whose content is `stale`). */
  function Shifted(rs: seq<Region>, i: nat, stale: Region): (t: seq<Region>)
    requires i < |rs|
    ensures |t| == |rs|
    ensures t[..|rs| - 1] == rs[..i] + rs[i + 1..]
    ensures t[|rs| - 1] == stale
  {
    rs[..i] + rs[i + 1..] + [stale]
  }

  /** release as written credits the size read from slot i after the shift,
      that is, the size of the region that followed the released one. */
  function ReleaseCreditAsWritten(p: Pool, i: nat, stale: Region): (avail: int)
    requires i < |p.regions|
    ensures i + 1 < |p.regions| ==> avail == p.available + p.regions[i + 1].size
    ensures i + 1 == |p.regions| ==> avail == p.available + stale.size
  {
    var t := Shifted(p.regions, i, stale);
    p.available + t[i].size
  }

  /** The state release as written leaves: the paging state, the table slots
      that held regions, `countRegions` and `availableSize`. The count is an
      int here so that a decrement below 0 is visible. */
  datatype TailAsWritten = TailAsWritten(sys: PTV.System, table: seq<Region>, count: int,
                                         available: int)

  /** The contents of table slot k: a region, the slot just past the last
      region (`stale`), or any slot beyond (`junk`). */
  function Slot(rs: seq<Region>, k: nat, stale: Region, junk: Region): Region {
    if k < |rs| then rs[k] else if k == |rs| then stale else junk
  }

  /** release as written after its search, for the index `idx` the search
      left: the "not found" test only prints, so with any index the pages
      of slot idx are freed from a, the shift runs from idx while it is
      below the count (not at all when idx is past the table), the count
      drops by one, and the size read from slot idx after the shift is
      credited. */
  function ReleaseTailAsWritten(s: PTV.System, p: Pool, a: nat, idx: nat,
                                stale: Region, junk: Region): (t: TailAsWritten)
    requires PTV.Valid(s)
    ensures t.count == |p.regions| - 1 && |t.table| == |p.regions|
    ensures t.sys == FreePages(s, a, Slot(p.regions, idx, stale, junk).size / PageSize)
    ensures idx < |p.regions| ==>
              && t.table[..|p.regions| - 1] == Forget(p, idx).regions
              && t.available == ReleaseCreditAsWritten(p, idx, stale)
    ensures idx >= |p.regions| ==>
              t.table == p.regions
              && t.available == p.available + Slot(p.regions, idx, stale, junk).size
  {
    var pages := Slot(p.regions, idx, stale, junk).size / PageSize;
    var sys := FreePages(s, a, pages);
    if idx < |p.regions| then
      var table := Shifted(p.regions, idx, stale);
      assert table[..|p.regions| - 1] == Remove(p.regions, idx);
      TailAsWritten(sys, table, |p.regions| - 1, p.available + table[idx].size)
    else
      TailAsWritten(sys, p.regions, |p.regions| - 1, p.available + Slot(p.regions, idx, stale, junk).size)
  }

  /** With the index of the region found, the as-written tail frees the same
      pages and leaves the same regions as the intended release; only the
      credit differs (ReleaseCreditAsWritten). */
  lemma FoundTailAsWritten(s: PTV.System, p: Pool, a: nat, stale: Region, junk: Region)
    requires PTV.Valid(s) && FindRegion(p.regions, a).Some?
    ensures var i := FindRegion(p.regions, a).value;
            var t := ReleaseTailAsWritten(s, p, a, i, stale, junk);
            && Release(s, p, a).Ok?
            && t.sys == Release(s, p, a).value.sys
            && t.table[..|p.regions| - 1] == Release(s, p, a).value.pool.regions
            && t.count == |Release(s, p, a).value.pool.regions|
  {
  }

  /** With the not-found index, where the intended release refuses and
      changes nothing, the as-written tail still lowers the region count,
      so the last region drops out of the table, and credits whatever size
      lies in the slot at 0xFFFFFFFF. */
  lemma NotFoundTailAsWritten(s: PTV.System, p: Pool, a: nat, stale: Region, junk: Region)
    requires PTV.Valid(s) && |p.regions| < NotFoundAsWritten && junk.size > 0
    requires forall j :: 0 <= j < |p.regions| ==> p.regions[j].base != a
    ensures Release(s, p, a) == Err(RegionNotFound)
    ensures var t := ReleaseTailAsWritten(s, p, a, NotFoundAsWritten, stale, junk);
            && t.count == |p.regions| - 1
            && t.table == p.regions
            && t.available == p.available + junk.size
            && t.available != p.available
  {
    assert Slot(p.regions, NotFoundAsWritten, stale, junk) == junk;
  }

  /** Releasing the middle one of three regions of different sizes credits
      the third one's size, so the regions and the available size no longer
      add up to the window. */
  lemma ReleaseCreditAsWrittenBreaksAccounting()
    ensures var p := Pool(Window(0, 20480),
                          [Region(0, 4096), Region(4096, 4096), Region(8192, 8192)], 4096);
            && Valid(p)
            && ReleaseCreditAsWritten(p, 1, Region(0, 0)) == 12288
            && Forget(p, 1).available == 8192
            && Sum(Forget(p, 1).regions) + ReleaseCreditAsWritten(p, 1, Region(0, 0)) != 20480
  {
    var p := Pool(Window(0, 20480),
                  [Region(0, 4096), Region(4096, 4096), Region(8192, 8192)], 4096);
    assert p.regions[..2] == [Region(0, 4096), Region(4096, 4096)];
    assert p.regions[..2][..1] == [Region(0, 4096)];
    assert [Region(0, 4096)][..0] == [];
    assert Sum(p.regions) == 16384;
    var q := Forget(p, 1);
    assert q.regions == [Region(0, 4096), Region(8192, 8192)];
    assert q.regions[..1] == [Region(0, 4096)];
    assert Sum(q.regions) == 12288;
  }

  /** Allocation bumps from the last region, not from the lowest free
      address: after the middle region of a full window is released, the
      next allocation lies outside the window. */
  lemma AllocateEscapesWindow()
    ensures var p := Pool(Window(0, 16384),
                          [Region(0, 4096), Region(4096, 4096), Region(8192, 8192)], 0);
            && Valid(p) && Contained(p)
            && Valid(Forget(p, 1)) && Contained(Forget(p, 1))
            && Allocate(Forget(p, 1), 4096).addr == 16384
            && !Contained(Allocate(Forget(p, 1), 4096).pool)
  {
    var p := Pool(Window(0, 16384),
                  [Region(0, 4096), Region(4096, 4096), Region(8192, 8192)], 0);
    FullWindow();
    var q := Forget(p, 1);
    assert q == Pool(Window(0, 16384), [Region(0, 4096), Region(8192, 8192)], 4096);
    var r := Allocate(q, 4096);
    assert r.pool.regions[2] == Region(16384, 4096);
  }

  /** The window of the example above, filled by three regions. */
  lemma FullWindow()
    ensures var p := Pool(Window(0, 16384),
                          [Region(0, 4096), Region(4096, 4096), Region(8192, 8192)], 0);
            Valid(p) && Contained(p)
  {
    var rs := [Region(0, 4096), Region(4096, 4096), Region(8192, 8192)];
    assert rs[..2] == [Region(0, 4096), Region(4096, 4096)];
    assert rs[..2][..1] == [Region(0, 4096)];
    assert [Region(0, 4096)][..0] == [];
    assert Sum(rs) == 16384;
  }
}
