/** The page table of mp4/page_table.C: the mp3 table plus a registry of VM
    pools that decides which faults are served, and `free_page`, which gives
    a page's frame back and unmaps it. */
module PageTableVM {
  import opened Common
  import Frames = ContFramePool
  import FrameRegistry
  import opened Entries
  import opened VMWindow
  import PT = PageTable

  /** The static state: the mp3 paging state and, in registration order,
      the windows of the registered VM pools. */
  datatype System = System(core: PT.System, vmPools: seq<Window>)

  ghost predicate Valid(s: System) {
    PT.Valid(s.core)
  }

  /** init_paging as intended: as the intended mp3 one, and no VM pool is
      registered yet. */
  function InitPaging(pools: seq<Frames.Pool>, kernel: nat, process: nat, sharedSize: nat): (s: System)
    requires kernel < |pools| && process < |pools|
    ensures PT.Configured(s.core) && s.core.current.None? && s.vmPools == []
    ensures s.core.pools == pools && s.core.kernel == kernel && s.core.process == process
    ensures s.core.sharedSize == sharedSize
  {
    System(PT.InitPaging(pools, kernel, process, sharedSize), [])
  }

  /** init_paging as written: as in mp3, the size goes into a local constant,
      so the static shared size keeps its initial value 0. */
  function InitPagingAsWritten(pools: seq<Frames.Pool>, kernel: nat, process: nat,
                               sharedSize: nat): (s: System)
    requires kernel < |pools| && process < |pools|
    ensures s.core.sharedSize == 0 && s.vmPools == []
    ensures var i := InitPaging(pools, kernel, process, sharedSize);
            s == i.(core := i.core.(sharedSize := 0))
  {
    System(PT.InitPagingAsWritten(pools, kernel, process, sharedSize), [])
  }

  /** Any nonzero shared size is lost by the as-written init_paging. */
  lemma InitPagingAsWrittenDropsSize(pools: seq<Frames.Pool>, kernel: nat, process: nat,
                                     sharedSize: nat)
    requires kernel < |pools| && process < |pools| && sharedSize > 0
    ensures InitPagingAsWritten(pools, kernel, process, sharedSize).core.sharedSize
            != InitPaging(pools, kernel, process, sharedSize).core.sharedSize
  {
  }

  /** The constructor as written: after the directory frame is taken, slot
      1023 receives a reference to the directory itself; the table frame is
      taken, slot 0 receives it, and the loop over slots 1..1023 then marks
      them all not present, the self-reference included. The prior contents
      of the directory frame are `junk`. */
  function New(s: PT.System, junk: seq<Entry>): (b: PT.Built)
    requires PT.Configured(s) && |junk| == EntriesPerTable
    ensures b == PT.New(s)
    ensures b.table.dir[1023] == NotPresent
    ensures b.table.dir[1023] != Install(b.table.dirFrame)
  {
    var k1 := PT.TakeFrame(s.pools, s.kernel);
    var selfRef := junk[1023 := Install(k1.frame)];
    var k2 := PT.TakeFrame(k1.pools, s.kernel);
    var withTable := selfRef[0 := Install(k2.frame)];
    assert withTable[..1] == [Install(k2.frame)];
    var dir := withTable[..1] + Blank(EntriesPerTable - 1);
    var t := PT.Table(k1.frame, dir, map[k2.frame := PT.IdentityTable()]);
    assert t == PT.Initial(k1.frame, k2.frame);
    PT.Built(t, s.(pools := k2.pools))
  }

  /** load: the table becomes the current one; the VM pools are untouched. */
  function Load(s: System, t: PT.Table): (r: System)
    ensures r.core.current == Some(t) && r.vmPools == s.vmPools
    ensures r.core.pools == s.core.pools
  {
    s.(core := PT.Load(s.core, t))
  }

  /** register_pool with the list kept as intended: the window joins at the tail. */
  function RegisterPool(s: System, w: Window): (r: System)
    ensures r.core == s.core
    ensures r.vmPools == s.vmPools + [w]
  {
    s.(vmPools := s.vmPools + [w])
  }

  /** Registration widens the set of served addresses by exactly the new
      pool's window. */
  lemma {:induction false} RegisterPoolLegitimacy(s: System, w: Window, a: nat)
    ensures AnyLegitimate(RegisterPool(s, w).vmPools, a)
            <==> AnyLegitimate(s.vmPools, a) || IsLegitimate(w, a)
  {
    var ws := RegisterPool(s, w).vmPools;
    if AnyLegitimate(s.vmPools, a) {
      var i :| 0 <= i < |s.vmPools| && IsLegitimate(s.vmPools[i], a);
      assert ws[i] == s.vmPools[i];
    }
    if IsLegitimate(w, a) {
      assert ws[|s.vmPools|] == w;
    }
    if AnyLegitimate(ws, a) {
      var i :| 0 <= i < |ws| && IsLegitimate(ws[i], a);
      if i < |s.vmPools| {
        assert ws[i] == s.vmPools[i];
      }
    }
  }

  /** The list of VM pools as the source threads it through the pools'
      `vmPool_next` fields: pools are named by numbers, and a pool with no
      entry in `next` has a NULL successor. */
  datatype Links = Links(head: Option<nat>, next: map<nat, nat>)

  /** The walk of register_pool to the pool whose successor is NULL; None
      when it has not reached one within `fuel` steps. */
  function FindLast(next: map<nat, nat>, p: nat, fuel: nat): (r: Option<nat>)
    ensures r.Some? ==> r.value !in next
    decreases fuel
  {
    if fuel == 0 then None
    else if p !in next then Some(p)
    else FindLast(next, next[p], fuel - 1)
  }

  /** register_pool as written, for a pool whose successor the VM pool
      constructor has just set to NULL: an empty list first gets the pool as
      its head, then the walk from the head finds the last pool and makes
      the new pool its successor. None when the walk does not finish within
      `fuel` steps. */
  function RegisterPoolAsWritten(l: Links, id: nat, fuel: nat): (r: Option<Links>)
    requires id !in l.next
    ensures r.Some? ==> r.value.head.Some? && id in r.value.next.Values
  {
    var head := if l.head.None? then id else l.head.value;
    match FindLast(l.next, head, fuel)
    case None => None
    case Some(last) =>
      assert l.next[last := id][last] == id;
      Some(Links(Some(head), l.next[last := id]))
  }

  /** The first registration links the pool to itself. */
  lemma RegisterPoolAsWrittenCycles(id: nat, fuel: nat)
    requires fuel >= 1
    ensures RegisterPoolAsWritten(Links(None, map[]), id, fuel)
            == Some(Links(Some(id), map[id := id]))
  {
  }

  /** From a pool that is its own successor, the walk never reaches a NULL
      successor, however many steps it is given. */
  lemma {:induction false} FindLastOnCycle(id: nat, fuel: nat)
    ensures FindLast(map[id := id], id, fuel).None?
    decreases fuel
  {
    if fuel > 0 {
      FindLastOnCycle(id, fuel - 1);
    }
  }

  /** Hence the second registration as written never returns. */
  lemma SecondRegistrationHangs(id: nat, id2: nat, fuel: nat)
    requires id2 != id
    ensures RegisterPoolAsWritten(Links(Some(id), map[id := id]), id2, fuel).None?
  {
    FindLastOnCycle(id, fuel);
  }

  /** The outcome of handle_fault's scan over the list of pools: the flag
      `addr` and whether `ptr` is left non-NULL. */
  datatype ScanOutcome = ScanOutcome(found: bool, stoppedOnPool: bool)

  /** The scan as written, over the list as it is linked: from `ptr`, stop
      with the flag set on the first pool whose window (`win` gives each
      pool's window) passes is_legitimate, stop with it clear at NULL, and
      otherwise follow the successor. None when no stop is reached within
      `fuel` steps. Either way the scan stops on a pool exactly when it has
      set the flag. */
  function ScanLinksAsWritten(next: map<nat, nat>, win: nat -> Window, ptr: Option<nat>,
                              a: nat, fuel: nat): (r: Option<ScanOutcome>)
    ensures ptr.None? ==> r == Some(ScanOutcome(false, false))
    ensures r.Some? ==> (r.value.stoppedOnPool <==> r.value.found)
    decreases fuel
  {
    if ptr.None? then Some(ScanOutcome(false, false))
    else if IsLegitimateAsWritten(win(ptr.value), a) then Some(ScanOutcome(true, true))
    else if fuel == 0 then None
    else
      var succ := if ptr.value in next then Some(next[ptr.value]) else None;
      ScanLinksAsWritten(next, win, succ, a, fuel - 1)
  }

  /** handle_fault as written, on the list as it is linked: the scan, the
      abort, and the mp3 install. None when the scan does not stop within
      `fuel` steps. */
  function HandleFaultOnLinksAsWritten(s: System, l: Links, win: nat -> Window, a: nat,
                                       fuel: nat): (r: Option<Result<System>>)
    requires Valid(s)
    ensures r.None? <==> ScanLinksAsWritten(l.next, win, l.head, a, fuel).None?
    ensures r.Some? ==> r.value == Ok(s.(core := PT.HandleFault(s.core, a)))
  {
    match ScanLinksAsWritten(l.next, win, l.head, a, fuel)
    case None => None
    case Some(o) =>
      if !o.found && o.stoppedOnPool then Some(Err(AccessViolation))
      else Some(Ok(s.(core := PT.HandleFault(s.core, a))))
  }

  /** A pool that is its own successor and whose window rejects the address
      keeps the scan going forever. */
  lemma {:induction false} ScanOnSelfLink(id: nat, win: nat -> Window, a: nat, fuel: nat)
    requires !IsLegitimateAsWritten(win(id), a)
    ensures ScanLinksAsWritten(map[id := id], win, Some(id), a, fuel).None?
    decreases fuel
  {
    if fuel > 0 {
      ScanOnSelfLink(id, win, a, fuel - 1);
    }
  }

  /** After the first registration the list is one pool linked to itself
      (RegisterPoolAsWrittenCycles), and a fault at an address that pool's
      window rejects is never handled: the scan does not stop, however many
      steps it is given, so neither the abort nor the install is reached. */
  lemma HandleFaultOnSelfLinkHangs(s: System, id: nat, win: nat -> Window, a: nat, fuel: nat)
    requires Valid(s) && !IsLegitimateAsWritten(win(id), a)
    ensures HandleFaultOnLinksAsWritten(s, Links(Some(id), map[id := id]), win, a, fuel).None?
  {
    ScanOnSelfLink(id, win, a, fuel);
  }

  /** The scan as written, on a NULL-terminated list given as the sequence
      of its pools' windows: it breaks on the first pool whose is_legitimate
      holds, and otherwise runs off the end of the list. */
  function ScanAsWritten(ws: seq<Window>, a: nat): (r: ScanOutcome)
    ensures r.found <==> exists i :: 0 <= i < |ws| && IsLegitimateAsWritten(ws[i], a)
  {
    if |ws| == 0 then ScanOutcome(false, false)
    else if IsLegitimateAsWritten(ws[0], a) then ScanOutcome(true, true)
    else
      var r := ScanAsWritten(ws[1..], a);
      assert forall i :: 1 <= i < |ws| ==> ws[i] == ws[1..][i - 1];
      r
  }

  /** The abort condition `addr == 0 && ptr != NULL`. */
  predicate AbortsAsWritten(ws: seq<Window>, a: nat) {
    var o := ScanAsWritten(ws, a);
    !o.found && o.stoppedOnPool
  }

  /** On a NULL-terminated list the abort can never fire: the scan leaves ptr
      non-NULL only by breaking on a legitimate pool. */
  lemma {:induction false} AbortUnreachable(ws: seq<Window>, a: nat)
    ensures ScanAsWritten(ws, a).stoppedOnPool ==> ScanAsWritten(ws, a).found
    ensures !AbortsAsWritten(ws, a)
    decreases |ws|
  {
    if |ws| > 0 && !IsLegitimateAsWritten(ws[0], a) {
      AbortUnreachable(ws[1..], a);
    }
  }

  /** handle_fault as written, on a NULL-terminated list: the scan, the
      abort, and the mp3 install. */
  function HandleFaultAsWritten(s: System, a: nat): (r: Result<System>)
    requires Valid(s)
    ensures r.Ok? <==> !AbortsAsWritten(s.vmPools, a)
    ensures r.Ok? ==> r.value == s.(core := PT.HandleFault(s.core, a))
  {
    if AbortsAsWritten(s.vmPools, a) then Err(AccessViolation)
    else Ok(s.(core := PT.HandleFault(s.core, a)))
  }

  /** On a NULL-terminated list every fault is served by the as-written
      handler, even one no pool's window holds. */
  lemma HandleFaultAsWrittenServesAll(s: System, a: nat)
    requires Valid(s)
    ensures HandleFaultAsWritten(s, a).Ok?
  {
    AbortUnreachable(s.vmPools, a);
  }

  /** handle_fault as intended: a fault at an address no registered pool's
      window holds is refused and changes nothing; any other is served by
      the lazy install of mp3. */
  function HandleFault(s: System, a: nat): (r: Result<System>)
    requires Valid(s)
    ensures r.Err? <==> !(exists i :: 0 <= i < |s.vmPools| && IsLegitimate(s.vmPools[i], a))
    ensures r.Err? ==> r.error == AccessViolation
    ensures r.Ok? ==> Valid(r.value) && r.value.vmPools == s.vmPools
    ensures r.Ok? ==> PT.Mapped(r.value.core.current.value, a)
    ensures r.Ok? && PT.Mapped(s.core.current.value, a) ==> r.value == s
    ensures r.Ok? ==> r.value.core == PT.HandleFault(s.core, a)
  {
    if !AnyLegitimate(s.vmPools, a) then Err(AccessViolation)
    else Ok(s.(core := PT.HandleFault(s.core, a)))
  }

  /** On a NULL-terminated list the two handlers part exactly on the faults
      no window holds. */
  lemma HandleFaultAsWrittenDiffers(s: System, a: nat)
    requires Valid(s) && !AnyLegitimate(s.vmPools, a)
    ensures HandleFault(s, a).Err? && HandleFaultAsWritten(s, a).Ok?
  {
    HandleFaultAsWrittenServesAll(s, a);
  }

  /** The table entry that maps the page, when the directory holds its table. */
  function PageEntry(t: PT.Table, page: nat): (e: Option<Entry>)
    requires PT.WF(t)
    ensures e.Some? <==> t.dir[DirIndex(page)].present
  {
    var d := t.dir[DirIndex(page)];
    if d.present then Some(t.tables[d.frame][TableIndex(page)]) else None
  }

  /** free_page as intended: the frame recorded in the page's table entry is
      handed to the static release of the frame-pool registry, the entry's
      present bit is cleared, and the table is loaded again. A page whose
      directory entry is absent has no table entry, and nothing changes. */
  function FreePage(s: System, page: nat): (r: System)
    requires Valid(s)
    ensures Valid(r) && r.vmPools == s.vmPools
    ensures r.core.kernel == s.core.kernel && r.core.process == s.core.process
    ensures r.core.sharedSize == s.core.sharedSize
    ensures r.core.current.value.dir == s.core.current.value.dir
    ensures !PT.Mapped(r.core.current.value, page)
    ensures PageEntry(s.core.current.value, page).None? ==> r == s
    ensures PageEntry(s.core.current.value, page).Some? ==>
              var e := PageEntry(s.core.current.value, page).value;
              && r.core.pools == FrameRegistry.ReleaseFrames(s.core.pools, e.frame)
              && PageEntry(r.core.current.value, page) == Some(e.(present := false))
  {
    var t := s.core.current.value;
    var d := t.dir[DirIndex(page)];
    if !d.present then s
    else
      var ti := TableIndex(page);
      var e := t.tables[d.frame][ti];
      var pools := FrameRegistry.ReleaseFrames(s.core.pools, e.frame);
      var t' := t.(tables := t.tables[d.frame := t.tables[d.frame][ti := e.(present := false)]]);
      Load(s.(core := s.core.(pools := pools)), t')
  }

  /** free_page as written: `|= 2` sets the writable bit, so the entry
      stays present after its frame has been released. */
  function FreePageAsWritten(s: System, page: nat): (r: System)
    requires Valid(s)
    ensures Valid(r)
    ensures r.core.pools == FreePage(s, page).core.pools
    ensures PageEntry(s.core.current.value, page).Some? ==>
              var e := PageEntry(s.core.current.value, page).value;
              PageEntry(r.core.current.value, page) == Some(e.(writable := true))
  {
    var t := s.core.current.value;
    var d := t.dir[DirIndex(page)];
    if !d.present then s
    else
      var ti := TableIndex(page);
      var e := t.tables[d.frame][ti];
      var pools := FrameRegistry.ReleaseFrames(s.core.pools, e.frame);
      var t' := t.(tables := t.tables[d.frame := t.tables[d.frame][ti := e.(writable := true)]]);
      Load(s.(core := s.core.(pools := pools)), t')
  }

  /** A mapped page stays mapped, to the frame just released, after the
      as-written free_page. */
  lemma FreePageAsWrittenKeepsMapping(s: System, page: nat)
    requires Valid(s) && PT.Mapped(s.core.current.value, page)
    ensures PT.Lookup(FreePageAsWritten(s, page).core.current.value, page)
            == PT.Lookup(s.core.current.value, page)
  {
  }

  /** free_page unmaps only its own page, when directory entries refer to
      distinct tables. */
  lemma {:induction false} FreePageKeepsOtherPages(s: System, page: nat, b: nat)
    requires Valid(s) && PT.Separate(s.core.current.value)
    requires DirIndex(page) != DirIndex(b) || TableIndex(page) != TableIndex(b)
    ensures PT.Lookup(FreePage(s, page).core.current.value, b) == PT.Lookup(s.core.current.value, b)
  {
    var t := s.core.current.value;
    var dp, db := DirIndex(page), DirIndex(b);
    if t.dir[dp].present && t.dir[db].present && dp != db {
      if dp < db {
        assert t.dir[dp].frame != t.dir[db].frame;
      } else {
        assert t.dir[db].frame != t.dir[dp].frame;
      }
    }
  }

  /** A served fault on an unmapped page whose table exists, followed by
      free_page of that page, gives the process pool's frame back: the frame
      pools are as before the fault and the page is unmapped again. */
  lemma {:induction false} FaultThenFree(s: System, a: nat)
    requires Valid(s) && HandleFault(s, a).Ok?
    requires FrameRegistry.AllValid(s.core.pools) && FrameRegistry.Disjoint(s.core.pools)
    requires s.core.current.value.dir[DirIndex(a)].present
    requires !PT.Mapped(s.core.current.value, a)
    requires Frames.GetFrames(s.core.pools[s.core.process], 1).frame.Some?
    ensures FreePage(HandleFault(s, a).value, a).core.pools == s.core.pools
    ensures !PT.Mapped(FreePage(HandleFault(s, a).value, a).core.current.value, a)
  {
    var core := s.core;
    var g := Frames.GetFrames(core.pools[core.process], 1);
    var f := PT.HandleFault(core, a);
    assert PT.InstallTable(core, a) == core;
    var k := PT.TakeFrame(core.pools, core.process);
    assert f.pools == k.pools;
    assert k.pools == core.pools[core.process := g.pool];
    assert PageEntry(f.current.value, a) == Some(Install(g.frame.value));
    FrameRegistry.GetThenReleaseFrames(core.pools, core.process, 1);
  }
}
