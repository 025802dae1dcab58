/** page.c over physical memory and the page-frame database. */
module Paging {
  import opened Options
  import opened PageFrames
  import opened PageAllocs
  import opened PageRanges
  import T = PageTables

  /** The physical frames that hold tables. */
  class PhysMemory {
    var tables: T.Memory

    constructor (tables: T.Memory)
      ensures this.tables == tables
    {
      this.tables := tables;
    }
  }

  class PageTable {
    const memory: PhysMemory
    const pfdb: Database
    var root: T.Frame

    ghost predicate Valid()
      reads this, pfdb, pfdb.Repr()
    {
      pfdb.Valid()
    }

    /** The tables in memory and the free frames. */
    ghost function SpaceNow(): T.Space
      reads this, memory, pfdb
    {
      T.Space(memory.tables, pfdb.Value().free)
    }

    /** paging_init: clear the frames, fill the database and take the root from it. */
    constructor Init(memory: PhysMemory, pages: nat, count: nat)
      requires count > 0
      modifies memory
      ensures Valid() && this.memory == memory && fresh(pfdb) && fresh(pfdb.Repr())
      ensures memory.tables == old(memory.tables) + T.ZeroTables(Region(pages, count))
      ensures root == pages + (count - 1) * 4096 && Set(pfdb.Value().free) == Set(Region(pages, count)) - {root}
      ensures pfdb.Value().used == [root] && [root] + pfdb.Value().free == Downward(pages, count)
      ensures RegionOk(old(memory.tables), pages, count) ==>
                && Owned(State(SpaceNow(), map[root := []], {root}), root)
                && forall w: nat :: T.Translate(memory.tables, root, w) == None
    {
      hide Chain, Sound, Frames, Owned, T.ZeroTables, Region, RegionOk, Set, T.Translate;
      memory.tables := memory.tables + T.ZeroTables(Region(pages, count));
      this.memory := memory;
      pfdb := new Database(pages, count);
      new;
      ghost var all := pfdb.Value().free;
      RegionState(old(memory.tables), pages, count, all);
      assert all == Downward(pages, count);
      var ok;
      ok, root := pfdb.Alloc();
      assert all == [all[0]] + all[1..];
    }

    /** One level of page_alloc: a missing table is taken from the database. */
    method EnsureEntry(f: T.Frame, i: nat, flags: nat) returns (ok: bool)
      requires Valid()
      modifies memory, pfdb, pfdb.Repr()
      ensures Valid() && pfdb.Repr() == old(pfdb.Repr())
      ensures Frames(pfdb.Value()) == old(Frames(pfdb.Value()))
      ensures ok <==> T.EnsureTable(old(SpaceNow()), f, i, flags).Some?
      ensures ok ==> Some(SpaceNow()) == T.EnsureTable(old(SpaceNow()), f, i, flags)
    {
      if T.Get(memory.tables, f, i) == T.EMPTY {
        var addr;
        ok, addr := pfdb.Alloc();
        if ok {
          ServeConserves(old(pfdb.Value()), Take);
          memory.tables := T.Put(memory.tables, f, i, T.MakeEntry(addr, flags));
        }
      } else {
        ok := true;
      }
    }

    /** page_alloc; halts (not `ok`) when the database runs out of frames. */
    method PageAlloc(v: nat, p: nat, flags: nat) returns (ok: bool)
      requires Valid()
      modifies memory, pfdb, pfdb.Repr()
      ensures Valid() && pfdb.Repr() == old(pfdb.Repr())
      ensures Frames(pfdb.Value()) == old(Frames(pfdb.Value()))
      ensures ok <==> T.PageAlloc(old(SpaceNow()), root, v, p, flags).Some?
      ensures ok ==> Some(SpaceNow()) == T.PageAlloc(old(SpaceNow()), root, v, p, flags)
    {
      hide T.EnsureTable, T.Path, T.Next, T.MakeEntry, Frames, Chain, Sound;
      var path := T.Path(v);
      ok := EnsureEntry(root, path[0], flags);
      if !ok {
        return;
      }
      var pdp := T.Next(T.Get(memory.tables, root, path[0]));
      ok := EnsureEntry(pdp, path[1], flags);
      if !ok {
        return;
      }
      var pd := T.Next(T.Get(memory.tables, pdp, path[1]));
      ok := EnsureEntry(pd, path[2], flags);
      if !ok {
        return;
      }
      var pt := T.Next(T.Get(memory.tables, pd, path[2]));
      if T.Get(memory.tables, pt, path[3]) == T.EMPTY {
        memory.tables := T.Put(memory.tables, pt, path[3], T.MakeEntry(p, flags));
      }
    }

    /** paging_contiguous_map: every page of the inclusive physical range. */
    method ContiguousMap(pStart: nat, pEnd: nat, vStart: nat, flags: nat) returns (ok: bool)
      requires Valid()
      modifies memory, pfdb, pfdb.Repr()
      ensures Valid() && pfdb.Repr() == old(pfdb.Repr())
      ensures Frames(pfdb.Value()) == old(Frames(pfdb.Value()))
      ensures ok <==> MapRange(old(SpaceNow()), root, pStart, pEnd, vStart, flags).Some?
      ensures ok ==> Some(SpaceNow()) == MapRange(old(SpaceNow()), root, pStart, pEnd, vStart, flags)
    {
      hide T.PageAlloc, Chain, Sound, Frames, Addrs;
      var p, v := pStart, vStart;
      while p <= pEnd
        invariant Valid() && pfdb.Repr() == old(pfdb.Repr()) && Frames(pfdb.Value()) == old(Frames(pfdb.Value()))
        invariant MapRange(old(SpaceNow()), root, pStart, pEnd, vStart, flags)
               == MapRange(SpaceNow(), root, p, pEnd, v, flags)
        decreases pEnd + 4096 - p
      {
        ok := PageAlloc(v, p, flags);
        if !ok {
          return;
        }
        p, v := p + 4096, v + 4096;
      }
      ok := true;
    }
  }

  /** The frames of a region, lowest first. */
  function Region(pages: nat, count: nat): seq<T.Frame> { seq(count, i requires 0 <= i => pages + i * 4096) }

  lemma RootInRegion(phys: nat, count: nat)
    requires count > 0
    ensures phys + (count - 1) * 4096 in Set(Region(phys, count))
  {
    assert Region(phys, count)[count - 1] == phys + (count - 1) * 4096;
  }

  /** The frames of a region in the order of the free list, highest first. */
  function Downward(pages: nat, count: nat): (frames: seq<T.Frame>)
    ensures |frames| == count
  {
    seq(count, i requires 0 <= i < count => pages + (count - 1 - i) * 4096)
  }

  /** An aligned region below 2^36, beside tables of the right size. */
  ghost predicate RegionOk(mem: T.Memory, pages: nat, count: nat)
  {
    && pages % 4096 == 0 && pages + count * 4096 <= 0x10_0000_0000
    && forall f :: f in mem ==> |mem[f]| == T.ENTRIES
  }

  /** The state paging_init leaves: the last frame is the root and the others are the pool. */
  lemma RegionState(mem: T.Memory, pages: nat, count: nat, all: seq<nat>)
    requires |all| == count > 0 && forall i :: 0 <= i < count ==> all[i] == pages + (count - 1 - i) * 4096
    ensures Set(all[1..]) == Set(Region(pages, count)) - {all[0]}
    ensures var m := mem + T.ZeroTables(Region(pages, count));
            RegionOk(mem, pages, count) ==>
              && Owned(State(T.Space(m, all[1..]), map[all[0] := []], {all[0]}), all[0])
              && forall w: nat :: T.Translate(m, all[0], w) == None
  {
    RegionSet(pages, count, all);
    TailSet(all);
    if RegionOk(mem, pages, count) {
      RegionGood(mem, pages, count, all);
      InitialOwned(T.Space(mem + T.ZeroTables(Region(pages, count)), all[1..]), all[0]);
    }
  }

  lemma RegionSet(pages: nat, count: nat, all: seq<nat>)
    requires |all| == count && forall i :: 0 <= i < count ==> all[i] == pages + (count - 1 - i) * 4096
    ensures Set(all) == Set(Region(pages, count))
  {
    var r := Region(pages, count);
    forall f ensures f in r <==> f in all {
      if f in r {
        var i :| 0 <= i < count && r[i] == f;
        assert all[count - 1 - i] == f;
      }
      if f in all {
        var i :| 0 <= i < count && all[i] == f;
        assert r[count - 1 - i] == f;
      }
    }
  }

  lemma TailSet(all: seq<nat>)
    requires all != [] && forall i, j :: 0 <= i < j < |all| ==> all[i] != all[j]
    ensures Set(all[1..]) == Set(all) - {all[0]}
  {
    assert all == [all[0]] + all[1..];
  }

  lemma RegionGood(mem: T.Memory, pages: nat, count: nat, all: seq<nat>)
    requires |all| == count > 0 && forall i :: 0 <= i < count ==> all[i] == pages + (count - 1 - i) * 4096
    requires RegionOk(mem, pages, count) && Set(all) == Set(Region(pages, count))
    ensures var m := mem + T.ZeroTables(Region(pages, count));
            T.Good(T.Space(m, all[1..]), map[all[0] := []]) && T.ZeroTable(m, all[0])
  {
    hide Region;
    var m := mem + T.ZeroTables(Region(pages, count));
    forall k | 0 <= k < count ensures T.ZeroTable(m, all[k]) && T.FrameOk(all[k]) {
      assert all[k] in Set(all);
    }
  }

  // ---- the used list ----

  /**
   * Frames only move from the free to the used list, so when they move from the pool to the tables of a
   * root, the used list keeps holding exactly the frames of those tables.
   */
  lemma UsedFollows(p: Pool, p': Pool, used: set<nat>, used': set<nat>)
    requires Sound(p') && Frames(p) == Frames(p') && Set(p.used) == used
    requires used' + Set(p'.free) == used + Set(p.free) && used' !! Set(p'.free)
    ensures Set(p'.used) == used'
  {
    forall f ensures f in Set(p'.used) <==> f in used' {
      assert Frames(p)[f] == Frames(p')[f] <= 1;
      assert f in p.free || f in p.used <==> Frames(p)[f] >= 1;
      assert f in p'.free || f in p'.used <==> Frames(p')[f] >= 1;
    }
  }

  /** The tables that the database lists as used are exactly those that a walk from the root leads to. */
  ghost predicate Accounted(table: PageTable, at: T.Places)
    reads table, table.memory, table.pfdb
  {
    Owned(State(table.SpaceNow(), at, Set(table.pfdb.Value().used)), table.root)
  }

  /** Some walk of at most three steps from the root ends at the table `f`. */
  ghost predicate Reached(mem: T.Memory, root: T.Frame, f: T.Frame)
  {
    exists path :: |path| <= 3 && T.InRange(path) && T.Walk(mem, root, path) == Some(f)
  }

  /** A frame is in the used list if and only if it is the root or a table reached from it. */
  lemma UsedIsReached(table: PageTable, at: T.Places, f: T.Frame)
    requires Accounted(table, at)
    ensures f in table.pfdb.Value().used <==> Reached(table.memory.tables, table.root, f)
  {
    var mem, root, used := table.memory.tables, table.root, table.pfdb.Value().used;
    assert f in used <==> f in Set(used);
    if f in used {
      assert T.Walk(mem, root, at[f]) == Some(f);
    }
    if path :| |path| <= 3 && T.InRange(path) && T.Walk(mem, root, path) == Some(f) {
      WalkPlaces(mem, at, root, path);
      assert [] + path == path;
    }
  }

  lemma OwnedApart(t: State, root: T.Frame)
    requires Owned(t, root)
    ensures t.used !! Set(t.s.free)
  {
  }

  /** page_alloc keeps the account. */
  method MapPage(table: PageTable, r: PageAllocs.Request, ghost at: T.Places) returns (ok: bool, ghost at': T.Places)
    requires table.Valid() && Accounted(table, at) && r.flags % 2 == 1
    modifies table.memory, table.pfdb, table.pfdb.Repr()
    ensures table.Valid() && table.pfdb.Repr() == old(table.pfdb.Repr())
    ensures Frames(table.pfdb.Value()) == old(Frames(table.pfdb.Value()))
    ensures ok <==> T.PageAlloc(old(table.SpaceNow()), table.root, r.v, r.p, r.flags).Some?
    ensures ok ==> Some(table.SpaceNow()) == T.PageAlloc(old(table.SpaceNow()), table.root, r.v, r.p, r.flags)
    ensures ok ==> Accounted(table, at')
  {
    hide T.PageAlloc, Chain, Sound, Frames, Owned, Advances, Set;
    at' := at;
    ghost var t := State(table.SpaceNow(), at, Set(table.pfdb.Value().used));
    ok := table.PageAlloc(r.v, r.p, r.flags);
    if ok {
      ghost var t' := PageAllocMaps(t, table.root, r.v, r.p, r.flags);
      at' := t'.at;
      AdvancesFrames(t, t');
      OwnedApart(t', table.root);
      UsedFollows(old(table.pfdb.Value()), table.pfdb.Value(), t.used, t'.used);
    }
  }

  lemma AdvancesFrames(t: State, t': State)
    requires Advances(t, t')
    ensures t'.used + Set(t'.s.free) == t.used + Set(t.s.free) && t'.s.mem.Keys == t.s.mem.Keys
  {
  }

  /** Any run of page_alloc keeps the account; it fails exactly when the specified run does. */
  method MapPages(table: PageTable, rs: seq<PageAllocs.Request>, ghost at: T.Places)
    returns (ok: bool, ghost at': T.Places)
    requires table.Valid() && Accounted(table, at) && forall k :: 0 <= k < |rs| ==> rs[k].flags % 2 == 1
    modifies table.memory, table.pfdb, table.pfdb.Repr()
    ensures table.Valid() && table.pfdb.Repr() == old(table.pfdb.Repr())
    ensures Frames(table.pfdb.Value()) == old(Frames(table.pfdb.Value()))
    ensures ok <==> MapAll(old(table.SpaceNow()), table.root, rs).Some?
    ensures ok ==> Some(table.SpaceNow()) == MapAll(old(table.SpaceNow()), table.root, rs) && Accounted(table, at')
  {
    hide T.PageAlloc, Chain, Sound, Frames, Owned, Set;
    at' := at;
    for k := 0 to |rs|
      invariant table.Valid() && table.pfdb.Repr() == old(table.pfdb.Repr())
      invariant Frames(table.pfdb.Value()) == old(Frames(table.pfdb.Value())) && Accounted(table, at')
      invariant MapAll(old(table.SpaceNow()), table.root, rs) == MapAll(table.SpaceNow(), table.root, rs[k..])
    {
      assert rs[k..][0] == rs[k] && rs[k..][1..] == rs[k + 1..];
      ok, at' := MapPage(table, rs[k], at');
      if !ok {
        return;
      }
    }
    ok := true;
  }

  /**
   * After paging_init and any run of page_alloc, the two lists hold the frames of the region, and the used
   * list holds exactly the root and the tables that a walk from it leads to.
   */
  method InitThenMap(memory: PhysMemory, pages: nat, count: nat, rs: seq<PageAllocs.Request>)
    returns (ok: bool, table: PageTable)
    requires count > 0 && RegionOk(memory.tables, pages, count)
    requires forall k :: 0 <= k < |rs| ==> rs[k].flags % 2 == 1
    modifies memory
    ensures fresh(table) && table.memory == memory && table.Valid()
    ensures Set(table.pfdb.Value().free) + Set(table.pfdb.Value().used) == Set(Region(pages, count))
    ensures ok ==> forall f :: f in table.pfdb.Value().used <==> Reached(memory.tables, table.root, f)
  {
    hide T.PageAlloc, Chain, Sound, Owned, Region, RegionOk, Set, T.Translate, Reached, Frames;
    table := new PageTable.Init(memory, pages, count);
    RootInRegion(pages, count);
    OneUsed(table.root);
    PoolSet(table.pfdb.Value(), table.root, pages, count);
    ghost var at: T.Places := map[table.root := []];
    ok, at := MapPages(table, rs, at);
    FramesSet(table.pfdb.Value());
    if ok {
      forall f ensures f in table.pfdb.Value().used <==> Reached(memory.tables, table.root, f) {
        UsedIsReached(table, at, f);
      }
    }
  }

  lemma OneUsed(root: T.Frame)
    ensures Set([root]) == {root}
  {
  }

  ghost function Members(m: multiset<nat>): set<nat> { set f | f in m }

  lemma FramesSet(p: Pool)
    ensures Set(p.free) + Set(p.used) == Members(Frames(p))
  {
    forall f ensures f in Set(p.free) + Set(p.used) <==> f in Frames(p) {
      assert f in p.free <==> f in Set(p.free);
      assert f in p.used <==> f in Set(p.used);
    }
  }

  lemma PoolSet(p: Pool, root: T.Frame, pages: nat, count: nat)
    requires p.used == [root] && root in Set(Region(pages, count)) && Set(p.free) == Set(Region(pages, count)) - {root}
    ensures Members(Frames(p)) == Set(Region(pages, count))
  {
    FramesSet(p);
    OneUsed(root);
  }
}
