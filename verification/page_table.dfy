/** The page table of mp3/page_table.C: two-level paging with the first
    4 MB identity-mapped and every other page installed on its first fault,
    with table frames drawn from the kernel pool and page frames from the
    process pool. The hardware registers are not modelled: the table that
    `load` installs is recorded as the current one, and the fault address is
    an argument. */
module PageTable {
  import opened Common
  import Frames = ContFramePool
  import opened Entries
  import FrameRegistry

  /** One address space: the frame holding the directory, the directory's
      entries, and the entries of every page-table frame it refers to. */
  datatype Table = Table(dirFrame: nat, dir: seq<Entry>, tables: map<nat, seq<Entry>>)

  /** Every structure has 1024 entries and every present directory entry
      refers to a page table that exists. */
  ghost predicate WF(t: Table) {
    && |t.dir| == EntriesPerTable
    && (forall f :: f in t.tables ==> |t.tables[f]| == EntriesPerTable)
    && (forall i :: 0 <= i < EntriesPerTable && t.dir[i].present ==> t.dir[i].frame in t.tables)
  }

  /** The static members shared by all page tables: the frame-pool registry
      and, as indices into it, the kernel and process pools; the shared size;
      and the current (loaded) table. */
  datatype System = System(pools: seq<Frames.Pool>, kernel: nat, process: nat,
                           sharedSize: nat, current: Option<Table>)

  ghost predicate Configured(s: System) {
    s.kernel < |s.pools| && s.process < |s.pools|
  }

  /** Paging is configured and a well-formed table is loaded. */
  ghost predicate Valid(s: System) {
    Configured(s) && s.current.Some? && WF(s.current.value)
  }

  /** The frame the address a maps to, walking the directory and the table. */
  function Lookup(t: Table, a: nat): Option<nat>
    requires WF(t)
  {
    var d := t.dir[DirIndex(a)];
    if !d.present then None
    else
      var e := t.tables[d.frame][TableIndex(a)];
      if e.present then Some(e.frame) else None
  }

  /** The address a is mapped: both its directory and table entries are present. */
  ghost predicate Mapped(t: Table, a: nat)
    requires WF(t)
  {
    Lookup(t, a).Some?
  }

  /** The result of `pool->get_frames(1)`, together with the registry after it. */
  datatype Taken = Taken(frame: nat, pools: seq<Frames.Pool>)

  /** One frame from the registered pool ix. The source uses the returned
      number as is, so an exhausted pool yields frame 0. */
  function TakeFrame(pools: seq<Frames.Pool>, ix: nat): (r: Taken)
    requires ix < |pools|
    ensures |r.pools| == |pools|
    ensures forall j :: 0 <= j < |pools| && j != ix ==> r.pools[j] == pools[j]
    ensures r.pools[ix] == Frames.GetFrames(pools[ix], 1).pool
    ensures Frames.GetFrames(pools[ix], 1).frame.None? ==> r == Taken(0, pools)
    ensures Frames.GetFrames(pools[ix], 1).frame.Some? ==>
              var p := pools[ix];
              && r.frame == Frames.GetFrames(pools[ix], 1).frame.value
              && p.base <= r.frame < p.base + |p.states|
              && p.states[r.frame - p.base] == Frames.Free
              && (forall k :: 0 <= k < r.frame - p.base ==> p.states[k] != Frames.Free)
              && r.pools[ix].states[r.frame - p.base] == Frames.Head
              && r.pools[ix].freeCount == p.freeCount - 1
  {
    var g := Frames.GetFrames(pools[ix], 1);
    var frame := if g.frame.Some? then g.frame.value else 0;
    if g.frame.Some? then
      var s := frame - pools[ix].base;
      assert forall k :: 0 <= k < s ==> pools[ix].states[k] != Frames.Free by {
        forall k | 0 <= k < s ensures pools[ix].states[k] != Frames.Free {
          assert !Frames.Fits(pools[ix].states, k, 1);
        }
      }
      Taken(frame, pools[ix := g.pool])
    else
      Taken(frame, pools[ix := g.pool])
  }

  /** Taking a frame keeps every pool's invariant and the pools' ranges apart. */
  lemma TakeFrameKeepsRegistry(pools: seq<Frames.Pool>, ix: nat)
    requires ix < |pools|
    requires FrameRegistry.AllValid(pools) && FrameRegistry.Disjoint(pools)
    ensures FrameRegistry.AllValid(TakeFrame(pools, ix).pools)
    ensures FrameRegistry.Disjoint(TakeFrame(pools, ix).pools)
  {
    Frames.GetFramesPreservesValid(pools[ix], 1);
  }

  /** A pool with a Free frame always yields one, so frame 0 is only ever
      installed when the pool is exhausted. */
  lemma TakeFrameSucceeds(pools: seq<Frames.Pool>, ix: nat, k: nat)
    requires ix < |pools| && Frames.Valid(pools[ix])
    requires k < |pools[ix].states| && pools[ix].states[k] == Frames.Free
    ensures Frames.GetFrames(pools[ix], 1).frame.Some?
  {
    var st := pools[ix].states;
    assert Frames.Fits(st, k, 1);
    Frames.FreeCounted(st, k);
  }

  /** init_paging with the shared size recorded. */
  function InitPaging(pools: seq<Frames.Pool>, kernel: nat, process: nat, sharedSize: nat): (s: System)
    requires kernel < |pools| && process < |pools|
    ensures Configured(s) && s.current.None?
    ensures s.pools == pools && s.kernel == kernel && s.process == process
    ensures s.sharedSize == sharedSize
  {
    System(pools, kernel, process, sharedSize, None)
  }

  /** init_paging as written: the size goes into a local constant and the
      static shared size keeps its initial value 0. */
  function InitPagingAsWritten(pools: seq<Frames.Pool>, kernel: nat, process: nat,
                               sharedSize: nat): (s: System)
    requires kernel < |pools| && process < |pools|
    ensures Configured(s) && s.sharedSize == 0
    ensures s == InitPaging(pools, kernel, process, sharedSize).(sharedSize := 0)
  {
    System(pools, kernel, process, 0, None)
  }

  /** Any nonzero shared size is lost by the as-written init_paging. */
  lemma InitPagingAsWrittenDropsSize(pools: seq<Frames.Pool>, kernel: nat, process: nat,
                                     sharedSize: nat)
    requires kernel < |pools| && process < |pools| && sharedSize > 0
    ensures InitPagingAsWritten(pools, kernel, process, sharedSize).sharedSize
            != InitPaging(pools, kernel, process, sharedSize).sharedSize
  {
  }

  /** The table that maps page i to frame i for the first 1024 pages. */
  function IdentityTable(): (es: seq<Entry>)
    ensures |es| == EntriesPerTable
    ensures forall i :: 0 <= i < EntriesPerTable ==> es[i] == Install(i)
  {
    seq(EntriesPerTable, i requires 0 <= i => Install(i))
  }

  /** A newly built page table, and the system after its frames were taken. */
  datatype Built = Built(table: Table, sys: System)

  /** The constructor: a directory frame and a table frame from the kernel
      pool; the table maps the first 4 MB onto itself, directory slot 0 holds
      it, and every other slot is marked not present. */
  function New(s: System): (b: Built)
    requires Configured(s)
    ensures WF(b.table)
    ensures var k1 := TakeFrame(s.pools, s.kernel);
            var k2 := TakeFrame(k1.pools, s.kernel);
            && b.table.dirFrame == k1.frame
            && b.sys == s.(pools := k2.pools)
            && b.table.dir[0] == Install(k2.frame)
    ensures forall i :: 1 <= i < EntriesPerTable ==> b.table.dir[i] == NotPresent
    ensures forall a :: 0 <= a < 0x40_0000 ==> Lookup(b.table, a) == Some(a / PageSize)
    ensures forall a :: 0x40_0000 <= a < 0x1_0000_0000 ==> Lookup(b.table, a).None?
  {
    var k1 := TakeFrame(s.pools, s.kernel);
    var k2 := TakeFrame(k1.pools, s.kernel);
    Built(Initial(k1.frame, k2.frame), s.(pools := k2.pools))
  }

  /** The table the constructor builds in the directory frame dirFrame and
      the table frame tableFrame. */
  function Initial(dirFrame: nat, tableFrame: nat): (t: Table)
    ensures WF(t) && t.dirFrame == dirFrame && t.dir[0] == Install(tableFrame)
    ensures forall i :: 1 <= i < EntriesPerTable ==> t.dir[i] == NotPresent
    ensures forall a :: 0 <= a < 0x1_0000_0000 ==> Lookup(t, a) == IdentityLookup(a)
  {
    var dir := [Install(tableFrame)] + Blank(EntriesPerTable - 1);
    var t := Table(dirFrame, dir, map[tableFrame := IdentityTable()]);
    forall a | 0 <= a < 0x1_0000_0000 ensures Lookup(t, a) == IdentityLookup(a) {
      LowSplit(a);
    }
    t
  }

  /** The translation the constructor's table gives: the identity on the
      first 4 MB, nothing above. */
  function IdentityLookup(a: nat): Option<nat> {
    if a < 0x40_0000 then Some(a / PageSize) else None
  }

  /** Below 4 MB the directory index is 0 and the table index is the page. */
  lemma LowSplit(a: nat)
    requires a < 0x1_0000_0000
    ensures a < 0x40_0000 ==> DirIndex(a) == 0 && TableIndex(a) == a / PageSize
    ensures 0x40_0000 <= a ==> DirIndex(a) >= 1
  {
  }

  /** load: this table becomes the current one. */
  function Load(s: System, t: Table): (r: System)
    ensures r.current == Some(t)
    ensures r.pools == s.pools && r.kernel == s.kernel && r.process == s.process
    ensures r.sharedSize == s.sharedSize
  {
    s.(current := Some(t))
  }

  /** A table whose every entry is marked not present. */
  function EmptyTable(): (es: seq<Entry>)
    ensures |es| == EntriesPerTable
    ensures forall i :: 0 <= i < EntriesPerTable ==> es[i] == NotPresent
  {
    Blank(EntriesPerTable)
  }

  /** The first half of handle_fault: when the directory entry of a is not
      present, take a frame from the kernel pool, fill it with not-present
      entries and install it present and writable. */
  function InstallTable(s: System, a: nat): (r: System)
    requires Valid(s)
    ensures Valid(r)
    ensures r.kernel == s.kernel && r.process == s.process && r.sharedSize == s.sharedSize
    ensures r.current.value.dirFrame == s.current.value.dirFrame
    ensures r.current.value.dir[DirIndex(a)].present
    ensures s.current.value.dir[DirIndex(a)].present ==> r == s
    ensures !s.current.value.dir[DirIndex(a)].present ==>
              var t, t' := s.current.value, r.current.value;
              var k := TakeFrame(s.pools, s.kernel);
              && r.pools == k.pools
              && t'.dir[DirIndex(a)] == Install(k.frame)
              && (forall i :: 0 <= i < EntriesPerTable && i != DirIndex(a) ==> t'.dir[i] == t.dir[i])
              && t'.tables.Keys == t.tables.Keys + {k.frame}
              && (forall f :: f in t.tables && f != k.frame ==> t'.tables[f] == t.tables[f])
              && (forall j :: 0 <= j < EntriesPerTable ==> t'.tables[k.frame][j] == NotPresent)
  {
    var t := s.current.value;
    var d := DirIndex(a);
    if t.dir[d].present then s
    else
      var k := TakeFrame(s.pools, s.kernel);
      var t' := t.(dir := t.dir[d := Install(k.frame)],
                   tables := t.tables[k.frame := EmptyTable()]);
      s.(pools := k.pools, current := Some(t'))
  }

  /** The second half of handle_fault: when the table entry of a is not
      present, take a frame from the process pool and install it present and
      writable. */
  function InstallPage(s: System, a: nat): (r: System)
    requires Valid(s) && s.current.value.dir[DirIndex(a)].present
    ensures Valid(r)
    ensures r.kernel == s.kernel && r.process == s.process && r.sharedSize == s.sharedSize
    ensures r.current.value.dirFrame == s.current.value.dirFrame
    ensures r.current.value.dir == s.current.value.dir
    ensures Mapped(r.current.value, a)
    ensures Mapped(s.current.value, a) ==> r == s
    ensures !Mapped(s.current.value, a) ==>
              var t, t' := s.current.value, r.current.value;
              var tf := t.dir[DirIndex(a)].frame;
              var p := TakeFrame(s.pools, s.process);
              && r.pools == p.pools
              && t'.tables.Keys == t.tables.Keys
              && (forall f :: f in t.tables && f != tf ==> t'.tables[f] == t.tables[f])
              && t'.tables[tf][TableIndex(a)] == Install(p.frame)
              && (forall j :: 0 <= j < EntriesPerTable && j != TableIndex(a) ==>
                    t'.tables[tf][j] == t.tables[tf][j])
  {
    var t := s.current.value;
    var tf := t.dir[DirIndex(a)].frame;
    var ti := TableIndex(a);
    if t.tables[tf][ti].present then s
    else
      var p := TakeFrame(s.pools, s.process);
      var t' := t.(tables := t.tables[tf := t.tables[tf][ti := Install(p.frame)]]);
      s.(pools := p.pools, current := Some(t'))
  }

  /** handle_fault: split the address, install a page table if the directory
      entry is absent, then a page frame if the table entry is absent. Every
      fault is served; there is no legitimacy check. */
  function HandleFault(s: System, a: nat): (r: System)
    requires Valid(s)
    ensures Valid(r)
    ensures r.kernel == s.kernel && r.process == s.process && r.sharedSize == s.sharedSize
    ensures Mapped(r.current.value, a)
    ensures Mapped(s.current.value, a) ==> r == s
    ensures forall i :: 0 <= i < EntriesPerTable && i != DirIndex(a) ==>
              r.current.value.dir[i] == s.current.value.dir[i]
  {
    InstallPage(InstallTable(s, a), a)
  }

  /** A second fault on the same address takes no frame and changes nothing. */
  lemma HandleFaultIdempotent(s: System, a: nat)
    requires Valid(s)
    ensures HandleFault(HandleFault(s, a), a) == HandleFault(s, a)
  {
  }

  /** The frames a fault takes: one from the kernel pool exactly when the
      directory entry was absent, then one from the process pool exactly
      when the page was not mapped. */
  lemma {:induction false} HandleFaultTakes(s: System, a: nat)
    requires Valid(s)
    ensures var t := s.current.value;
            var mid := if t.dir[DirIndex(a)].present then s.pools
                       else TakeFrame(s.pools, s.kernel).pools;
            HandleFault(s, a).pools == (if Mapped(t, a) then s.pools
                                        else TakeFrame(mid, s.process).pools)
  {
    var t := s.current.value;
    var s1 := InstallTable(s, a);
    if !t.dir[DirIndex(a)].present {
      assert !Mapped(t, a);
      assert !Mapped(s1.current.value, a) by {
        assert s1.current.value.tables[s1.current.value.dir[DirIndex(a)].frame][TableIndex(a)]
               == NotPresent;
      }
    }
  }

  /** The directory entries that are present refer to distinct table frames. */
  ghost predicate Separate(t: Table)
    requires WF(t)
  {
    forall i, j :: 0 <= i < j < EntriesPerTable && t.dir[i].present && t.dir[j].present ==>
      t.dir[i].frame != t.dir[j].frame
  }

  /** A fault changes the translation of its own page only, provided the
      directory entries refer to distinct tables and a table frame taken
      from the kernel pool is not one in use. */
  lemma HandleFaultKeepsOtherPages(s: System, a: nat, b: nat)
    requires Valid(s) && Separate(s.current.value)
    requires !s.current.value.dir[DirIndex(a)].present ==>
               TakeFrame(s.pools, s.kernel).frame !in s.current.value.tables
    requires DirIndex(a) != DirIndex(b) || TableIndex(a) != TableIndex(b)
    ensures Lookup(HandleFault(s, a).current.value, b) == Lookup(s.current.value, b)
    ensures Separate(HandleFault(s, a).current.value)
  {
    InstallTableKeepsPages(s, a, b);
    InstallPageKeepsOtherPages(InstallTable(s, a), a, b);
  }

  /** Installing a missing table changes no translation: the new table maps
      nothing. */
  lemma InstallTableKeepsPages(s: System, a: nat, b: nat)
    requires Valid(s) && Separate(s.current.value)
    requires !s.current.value.dir[DirIndex(a)].present ==>
               TakeFrame(s.pools, s.kernel).frame !in s.current.value.tables
    ensures Lookup(InstallTable(s, a).current.value, b) == Lookup(s.current.value, b)
    ensures Separate(InstallTable(s, a).current.value)
  {
    var t := s.current.value;
    var t1 := InstallTable(s, a).current.value;
    var da, db := DirIndex(a), DirIndex(b);
    if !t.dir[da].present {
      var k := TakeFrame(s.pools, s.kernel);
      forall i, j | 0 <= i < j < EntriesPerTable && t1.dir[i].present && t1.dir[j].present
        ensures t1.dir[i].frame != t1.dir[j].frame
      {
        if i == da {
          assert t1.dir[j] == t.dir[j];
        } else if j == da {
          assert t1.dir[i] == t.dir[i];
        }
      }
      if db != da {
        assert t1.dir[db] == t.dir[db];
        if t.dir[db].present {
          assert t.dir[db].frame != k.frame;
        }
      }
    }
  }

  /** Filling one table slot changes no other page's translation, provided
      the directory entries refer to distinct tables. */
  lemma InstallPageKeepsOtherPages(s: System, a: nat, b: nat)
    requires Valid(s) && Separate(s.current.value)
    requires s.current.value.dir[DirIndex(a)].present
    requires DirIndex(a) != DirIndex(b) || TableIndex(a) != TableIndex(b)
    ensures Lookup(InstallPage(s, a).current.value, b) == Lookup(s.current.value, b)
    ensures Separate(InstallPage(s, a).current.value)
  {
    var t := s.current.value;
    var da, db := DirIndex(a), DirIndex(b);
    if !Mapped(t, a) {
      var tf := t.dir[da].frame;
      if t.dir[db].present && t.dir[db].frame == tf {
        assert db == da;
      }
    }
  }
}
