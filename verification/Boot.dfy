/** From the memory map to a running kernel, and what no run can do. */
module Boot {
  import opened Options
  import opened Powers
  import opened Bits
  import opened BuddyTree
  import opened BuddySlots
  import opened BuddyRange
  import opened BuddyFit
  import opened Buddy
  import opened AddressSpaces
  import opened Paging
  import opened Kmem
  import opened KmemBoot
  import opened MemMap
  import opened Machines
  import R = RegionMaps
  import T = PageTables

  /**
   * kmem_init and paging_setup: what is in use at first are the reserved regions that end inside the
   * content region.
   */
  method Start(m: MemoryMap, memory: PhysMemory, length: nat, count: nat, kernelEnd: nat)
    returns (ok: bool, machine: Machine?, ghost reserved: set<Block>, ghost phys: nat)
    requires m.Valid() && AllPaged(m.Map(), length) && memory.tables == map[] && count > 0
    requires length == Pow2(FloorLog(if length == 0 then 1 else length)) && Pow2(MIN_ORDER) <= length < 0x10_0000_0000
    requires kernelEnd + 4096 <= ENTRY_SPAN
    modifies memory
    ensures ok <==> machine != null
    ensures ok <==> RoomFor(reserved, FloorLog(length), count * 4096) && BootMaps(phys, count, kernelEnd)
    ensures forall x :: InSome(reserved, x) <==> Taken(m.Map(), m.numEntries, length, x)
    ensures ok ==> fresh(machine) && fresh(machine.kernel) && fresh(machine.kernel.buddy)
    ensures ok ==> fresh(machine.kernel.buddy.slots) && fresh(machine.kernel.table) && fresh(machine.kernel.table.pfdb)
    ensures ok ==> fresh(machine.kernel.table.pfdb.Repr()) && machine.kernel.table.memory == memory
    ensures ok ==> machine.Valid() && machine.kernel.live == map[] && machine.procs == []
    ensures ok ==> machine.kernel.buddy.base == 0 && Pow2(machine.kernel.buddy.max) == length
    ensures ok ==> machine.reserved == reserved && phys == machine.kernel.Start(machine.kernel.pool)
    ensures ok ==> machine.kernel.buddy.Blocks() == reserved + {machine.kernel.pool}
  {
    hide Kernel.Valid, Allocator.Formed, Allocator.Blocks, Canonical, Pow2, Taken, InSome, AllMapped, HighEmpty;
    hide T.Translate, RoomFor, BootMaps, OrderFor, FloorLog, AllChosen, R.Usable, Supervised, ReservedInUse, FreeUsable;
    var buddy := KmemInit(m, length);
    reserved := buddy.Blocks();
    FloorLogUnique(length, buddy.max);
    var start, k;
    ok, start, k := PagingSetup(buddy, memory, count, kernelEnd);
    phys := start;
    machine := null;
    if ok {
      machine := new Machine(k, reserved);
    }
  }

  /** What the kernel is asked to do; `Free(n)` frees the n-th allocation that is outstanding. */
  datatype Call = Malloc(bytes: nat, raw: bool) | Free(n: nat) | Create(count: nat, text: nat)

  /** What create_process demands of its caller. */
  predicate Legal(count: nat, text: nat) { count > 0 && text % 4096 == 0 && text + 0x9000 <= PHYS_LIMIT }

  /** The machine between two calls: blocks in use, allocations, those outstanding in order, tables and processes. */
  datatype Snapshot = Snapshot(used: set<Block>, live: map<Block, Allocation>, held: seq<Block>, sys: System)

  ghost function Snap(machine: Machine, held: seq<Block>): Snapshot
    requires machine.Valid()
    reads machine, machine.kernel, machine.kernel.buddy, machine.kernel.buddy.slots, machine.kernel.table
    reads machine.kernel.table.memory, machine.kernel.table.pfdb, machine.kernel.table.pfdb.Repr()
  {
    Snapshot(machine.kernel.buddy.Blocks(), machine.kernel.live, held, machine.Now())
  }

  /** What a call does: the blocks it takes or gives back, and the tables it leaves. */
  ghost predicate Did(call: Call, a: Snapshot, b: Snapshot, max: nat, base: nat)
  {
    match call
    case Malloc(bytes, raw) =>
      exists c :: Grantable(a.used, max, bytes, c) && GivenTo(a, b, base, bytes, raw, c)
    case Free(n) =>
      if n < |a.held| then
        var c := a.held[n];
        c in a.live && b == Snapshot(a.used - {c}, a.live - {c}, a.held[..n] + a.held[n + 1..], a.sys)
      else b == a
    case Create(count, text) =>
      if Legal(count, text) then
        exists c, d :: Grantable(a.used, max, count * 4096, c) && Grantable(a.used + {c}, max, 0x2000, d)
                       && CreatedIn(a, b, base, count, text, c, d)
      else b == a
  }

  /** One block more, which kmalloc's caller holds, mapped or raw. */
  ghost predicate GivenTo(a: Snapshot, b: Snapshot, base: nat, bytes: nat, raw: bool, c: Block)
  {
    && Given(a.sys, raw, base + Lo(c), bytes) == Some(b.sys)
    && b == Snapshot(a.used + {c}, a.live[c := Allocation(bytes, !raw)], a.held + [c], b.sys)
  }

  /** Two blocks more, for the tables and the stack of one process more. */
  ghost predicate CreatedIn(a: Snapshot, b: Snapshot, base: nat, count: nat, text: nat, c: Block, d: Block)
  {
    && Created(a.sys, count, text, base + Lo(c), base + Lo(d)) == Some(b.sys)
    && b == Snapshot(a.used + {c, d}, a.live[d := Allocation(0x2000, true)], a.held, b.sys)
    && |b.sys.procs| == |a.sys.procs| + 1 && b.sys.procs[..|a.sys.procs|] == a.sys.procs
    && var p := b.sys.procs[|a.sys.procs|]; p.text == text && p.stack == base + Lo(d)
  }

  /** Why a call halts. */
  ghost predicate Halts(call: Call, a: Snapshot, max: nat, base: nat)
  {
    match call
    case Malloc(bytes, raw) =>
      || !RoomFor(a.used, max, bytes)
      || exists c :: Grantable(a.used, max, bytes, c) && Given(a.sys, raw, base + Lo(c), bytes).None?
    case Free(n) => n < |a.held| && a.held[n] in a.live && base + Lo(a.held[n]) == 0
    case Create(count, text) =>
      && Legal(count, text)
      && (|| !RoomFor(a.used, max, count * 4096)
          || exists c, d :: Grantable(a.used, max, count * 4096, c)
                            && CreateHalts(a.sys, a.used, max, base, count, c, d))
  }

  /** Each call did its part, one after the other. */
  ghost predicate Traced(calls: seq<Call>, trace: seq<Snapshot>, max: nat, base: nat)
  {
    && |trace| == |calls| + 1
    && forall k :: 0 <= k < |calls| ==> Did(calls[k], trace[k], trace[k + 1], max, base)
  }

  lemma TraceMore(calls: seq<Call>, trace: seq<Snapshot>, call: Call, b: Snapshot, max: nat, base: nat)
    requires Traced(calls, trace, max, base) && Did(call, trace[|calls|], b, max, base)
    ensures Traced(calls + [call], trace + [b], max, base)
  {
    hide Did;
  }

  /** The pointers that are outstanding, each with its block; none is the stack of a process. */
  ghost predicate Outstanding(machine: Machine, ptrs: seq<nat>, blocks: seq<Block>)
    reads machine`stacks, machine.kernel`live
  {
    && |ptrs| == |blocks|
    && Holding(machine.kernel.live.Keys, machine.stacks, machine.kernel.buddy.base, ptrs, blocks)
  }

  ghost predicate Holding(live: set<Block>, stacks: map<nat, Block>, base: nat, ptrs: seq<nat>, blocks: seq<Block>)
  {
    && |ptrs| == |blocks|
    && (forall i :: 0 <= i < |ptrs| ==>
          blocks[i] in live && blocks[i] !in stacks.Values && ptrs[i] == Va(base + Lo(blocks[i])))
    && (forall i, j :: 0 <= i < j < |blocks| ==> blocks[i] != blocks[j])
  }

  lemma HeldMore(live: set<Block>, stacks: map<nat, Block>, base: nat, ptrs: seq<nat>, blocks: seq<Block>, c: Block)
    requires Holding(live, stacks, base, ptrs, blocks) && c !in live && c !in stacks.Values
    ensures Holding(live + {c}, stacks, base, ptrs + [Va(base + Lo(c))], blocks + [c])
  {
  }

  lemma HeldLess(live: set<Block>, stacks: map<nat, Block>, base: nat, ptrs: seq<nat>, blocks: seq<Block>, n: nat)
    requires Holding(live, stacks, base, ptrs, blocks) && n < |ptrs|
    ensures Holding(live - {blocks[n]}, stacks, base, ptrs[..n] + ptrs[n + 1..], blocks[..n] + blocks[n + 1..])
    ensures StacksLeft(stacks, blocks[n]) == stacks && blocks[n] in live && ptrs[n] == Va(base + Lo(blocks[n]))
  {
  }

  lemma HeldStays(live: set<Block>, stacks: map<nat, Block>, base: nat, ptrs: seq<nat>, blocks: seq<Block>, j: nat,
                  d: Block)
    requires Holding(live, stacks, base, ptrs, blocks) && d !in live
    ensures Holding(live + {d}, stacks[j := d], base, ptrs, blocks)
  {
  }

  /** Every process still has its stack. */
  ghost predicate AllStacked(machine: Machine)
    reads machine`procs, machine`stacks
  {
    forall j :: 0 <= j < |machine.procs| ==> j in machine.stacks
  }

  /** A call that leaves the machine in order even when it halts. */
  predicate Clean(call: Call) { call.Free? || (call.Malloc? && call.raw) }

  lemma MallocDid(a: Snapshot, b: Snapshot, max: nat, base: nat, bytes: nat, raw: bool, c: Block)
    requires Grantable(a.used, max, bytes, c) && GivenTo(a, b, base, bytes, raw, c)
    ensures Did(Malloc(bytes, raw), a, b, max, base)
  {
    hide Grantable, GivenTo;
  }

  lemma FreeDid(a: Snapshot, b: Snapshot, max: nat, base: nat, n: nat)
    requires n < |a.held| && a.held[n] in a.live
    requires b == Snapshot(a.used - {a.held[n]}, a.live - {a.held[n]}, a.held[..n] + a.held[n + 1..], a.sys)
    ensures Did(Call.Free(n), a, b, max, base)
  {
  }

  lemma CreateDid(a: Snapshot, b: Snapshot, max: nat, base: nat, count: nat, text: nat, c: Block, d: Block)
    requires Legal(count, text) && Grantable(a.used, max, count * 4096, c) && Grantable(a.used + {c}, max, 0x2000, d)
    requires CreatedIn(a, b, base, count, text, c, d)
    ensures Did(Create(count, text), a, b, max, base)
  {
    hide Grantable, CreatedIn;
  }

  /** A call that does not concern anything. */
  lemma SkipDid(call: Call, a: Snapshot, max: nat, base: nat)
    ensures call.Free? && call.n >= |a.held| ==> Did(call, a, a, max, base)
    ensures call.Create? && !Legal(call.count, call.text) ==> Did(call, a, a, max, base)
  {
  }

  /** A call for a process. */
  method ServeCreate(machine: Machine, count: nat, text: nat, ghost ptrs: seq<nat>, ghost held: seq<Block>)
    returns (ok: bool)
    requires machine.Valid() && Outstanding(machine, ptrs, held) && Legal(count, text)
    modifies machine`procs, machine`homes, machine`stacks, machine.kernel`at, machine.kernel`live
    modifies machine.kernel.buddy`tree, machine.kernel.buddy.slots
    modifies machine.kernel.table.memory, machine.kernel.table.pfdb, machine.kernel.table.pfdb.Repr()
    ensures ok ==> machine.Valid() && Outstanding(machine, ptrs, held)
    ensures ok ==> machine.kernel.table.pfdb.Repr() == old(machine.kernel.table.pfdb.Repr())
    ensures ok ==> Did(Create(count, text), old(Snap(machine, held)), Snap(machine, held), machine.kernel.buddy.max,
                       machine.kernel.buddy.base)
    ensures ok && old(AllStacked(machine)) ==> AllStacked(machine)
    ensures !ok ==> Halts(Create(count, text), old(Snap(machine, held)), machine.kernel.buddy.max,
                          machine.kernel.buddy.base)
  {
    hide Machine.Valid, Created, OrderFor, Pow2, RoomFor, Grantable, Holding, Given, Machine.StackIn;
    hide Allocator.Valid, Allocator.Formed, Allocator.Blocks, Did, Lo;
    ghost var a, max, base := Snap(machine, held), machine.kernel.buddy.max, machine.kernel.buddy.base;
    ghost var live, stacks := machine.kernel.live.Keys, machine.stacks;
    machine.LiveUsed();
    ghost var c, d;
    ok, c, d := machine.CreateProcess(count, text);
    if ok {
      HeldStays(live, stacks, base, ptrs, held, |a.sys.procs|, d);
      assert machine.kernel.live.Keys == live + {d};
      CreateDid(a, Snap(machine, held), max, base, count, text, c, d);
    }
  }

  /** One call. */
  method Serve(machine: Machine, call: Call, ptrs: seq<nat>, ghost held: seq<Block>)
    returns (ok: bool, ptrs': seq<nat>, ghost held': seq<Block>)
    requires machine.Valid() && Outstanding(machine, ptrs, held)
    modifies machine`procs, machine`homes, machine`stacks, machine.kernel`at, machine.kernel`live
    modifies machine.kernel.buddy`tree, machine.kernel.buddy.slots
    modifies machine.kernel.table.memory, machine.kernel.table.pfdb, machine.kernel.table.pfdb.Repr()
    ensures ok ==> machine.Valid() && Outstanding(machine, ptrs', held')
    ensures ok ==> machine.kernel.table.pfdb.Repr() == old(machine.kernel.table.pfdb.Repr())
    ensures ok ==> Did(call, old(Snap(machine, held)), Snap(machine, held'), machine.kernel.buddy.max,
                       machine.kernel.buddy.base)
    ensures ok && old(AllStacked(machine)) ==> AllStacked(machine)
    ensures !ok ==> Halts(call, old(Snap(machine, held)), machine.kernel.buddy.max, machine.kernel.buddy.base)
    ensures !ok && Clean(call) ==> machine.Valid() && Snap(machine, held) == old(Snap(machine, held))
    ensures !ok && machine.kernel.buddy.base == 0 && InSome(machine.reserved, 0) ==> !call.Free?
  {
    hide Machine.Valid, Mapping, Created, OrderFor, Pow2, RoomFor, Grantable, InSome, Holding, StacksLeft;
    hide Allocator.Valid, Allocator.Formed, Allocator.Blocks, Did, Lo, CreateHalts;
    ok, ptrs', held' := true, ptrs, held;
    ghost var a, max, base := Snap(machine, held), machine.kernel.buddy.max, machine.kernel.buddy.base;
    ghost var live, stacks := machine.kernel.live.Keys, machine.stacks;
    SkipDid(call, a, max, base);
    machine.LiveUsed();
    match call {
      case Malloc(bytes, raw) =>
        var ptr;
        ghost var c;
        ok, ptr, c := machine.Kmalloc(bytes, raw);
        if ok {
          ptrs', held' := ptrs + [ptr], held + [c];
          HeldMore(live, stacks, base, ptrs, held, c);
          assert machine.kernel.live.Keys == live + {c};
          MallocDid(a, Snap(machine, held'), max, base, bytes, raw, c);
        }
      case Free(n) =>
        if n < |ptrs| {
          HeldLess(live, stacks, base, ptrs, held, n);
          if machine.kernel.buddy.base == 0 && InSome(machine.reserved, 0) {
            machine.NoneAtZero(held[n]);
          }
          ok := machine.Kfree(ptrs[n], held[n]);
          if ok {
            ptrs', held' := ptrs[..n] + ptrs[n + 1..], held[..n] + held[n + 1..];
            FreeDid(a, Snap(machine, held'), max, base, n);
          }
        }
      case Create(count, text) =>
        if Legal(count, text) {
          ok := ServeCreate(machine, count, text, ptrs, held);
        }
    }
  }

  /**
   * Any run of calls, up to the first that halts: each call did its part and the machine stays in order.
   * Calls for raw memory and frees that halt leave it in order too, and with the first byte reserved no
   * free halts.
   */
  method Run(machine: Machine, calls: seq<Call>) returns (ok: bool, ghost stop: nat, ghost trace: seq<Snapshot>)
    requires machine.Valid()
    modifies machine`procs, machine`homes, machine`stacks, machine.kernel`at, machine.kernel`live
    modifies machine.kernel.buddy`tree, machine.kernel.buddy.slots
    modifies machine.kernel.table.memory, machine.kernel.table.pfdb, machine.kernel.table.pfdb.Repr()
    ensures stop <= |calls| && (ok <==> stop == |calls|)
    ensures Traced(calls[..stop], trace, machine.kernel.buddy.max, machine.kernel.buddy.base)
    ensures trace[0] == old(Snap(machine, []))
    ensures ok || Clean(calls[stop]) ==> machine.Valid() && trace[stop] == Snap(machine, trace[stop].held)
    ensures !ok ==> Halts(calls[stop], trace[stop], machine.kernel.buddy.max, machine.kernel.buddy.base)
    ensures !ok && machine.kernel.buddy.base == 0 && InSome(machine.reserved, 0) ==> !calls[stop].Free?
    ensures ok && old(AllStacked(machine)) ==> AllStacked(machine)
  {
    hide Machine.Valid, Did, Halts, Outstanding, InSome, AllStacked;
    hide Allocator.Valid, Allocator.Formed, Allocator.Blocks;
    var ptrs: seq<nat> := [];
    ghost var held: seq<Block> := [];
    stop, trace := 0, [Snap(machine, [])];
    NoneOutstanding(machine);
    for k := 0 to |calls|
      invariant machine.Valid() && Outstanding(machine, ptrs, held)
      invariant machine.kernel.table.pfdb.Repr() == old(machine.kernel.table.pfdb.Repr())
      invariant Traced(calls[..k], trace, machine.kernel.buddy.max, machine.kernel.buddy.base)
      invariant trace[0] == old(Snap(machine, [])) && trace[k] == Snap(machine, held)
      invariant old(AllStacked(machine)) ==> AllStacked(machine)
    {
      stop := k;
      ok, ptrs, held := Serve(machine, calls[k], ptrs, held);
      if !ok {
        return;
      }
      TraceMore(calls[..k], trace, calls[k], Snap(machine, held), machine.kernel.buddy.max, machine.kernel.buddy.base);
      trace := trace + [Snap(machine, held)];
      assert calls[..k] + [calls[k]] == calls[..k + 1];
    }
    ok, stop := true, |calls|;
    assert calls[..stop] == calls;
  }

  lemma NoneOutstanding(machine: Machine)
    ensures Outstanding(machine, [], [])
  {
  }

  // ---- conservation ----

  /**
   * Since blocks `used` and `n` processes: nothing of those is lost, what is outstanding came later, and
   * there are as many blocks more as are outstanding, and two for each new process.
   */
  ghost predicate Books(used: set<Block>, n: nat, s: Snapshot)
  {
    && used <= s.used && n <= |s.sys.procs|
    && (forall i :: 0 <= i < |s.held| ==> s.held[i] in s.used - used)
    && (forall i, j :: 0 <= i < j < |s.held| ==> s.held[i] != s.held[j])
    && |s.used| == |used| + |s.held| + 2 * (|s.sys.procs| - n)
  }

  lemma DidBooks(used: set<Block>, n: nat, call: Call, a: Snapshot, b: Snapshot, max: nat, base: nat)
    requires Books(used, n, a) && Did(call, a, b, max, base)
    ensures Books(used, n, b)
  {
    hide Mapping, Created, OrderFor, Inside, Clear, Books;
    match call {
      case Malloc(bytes, raw) =>
        var c :| Grantable(a.used, max, bytes, c) && GivenTo(a, b, base, bytes, raw, c);
        MoreBooks(used, n, a, b, c);
      case Free(k) =>
        if k < |a.held| {
          LessBooks(used, n, a, b, k);
        }
      case Create(count, text) =>
        if Legal(count, text) {
          var c, d :| Grantable(a.used, max, count * 4096, c) && Grantable(a.used + {c}, max, 0x2000, d)
            && CreatedIn(a, b, base, count, text, c, d);
          TwoBooks(used, n, a, b, c, d);
        }
    }
  }

  lemma MoreBooks(used: set<Block>, n: nat, a: Snapshot, b: Snapshot, c: Block)
    requires Books(used, n, a) && c !in a.used && b.used == a.used + {c} && b.held == a.held + [c]
    requires b.sys.procs == a.sys.procs
    ensures Books(used, n, b)
  {
  }

  lemma LessBooks(used: set<Block>, n: nat, a: Snapshot, b: Snapshot, k: nat)
    requires Books(used, n, a) && k < |a.held| && b.used == a.used - {a.held[k]} && b.sys.procs == a.sys.procs
    requires b.held == a.held[..k] + a.held[k + 1..]
    ensures Books(used, n, b)
  {
    forall i | 0 <= i < |b.held| ensures b.held[i] == a.held[if i < k then i else i + 1] != a.held[k] {
    }
  }

  lemma TwoBooks(used: set<Block>, n: nat, a: Snapshot, b: Snapshot, c: Block, d: Block)
    requires Books(used, n, a) && c !in a.used && d !in a.used + {c} && b.used == a.used + {c, d}
    requires b.held == a.held && |b.sys.procs| == |a.sys.procs| + 1
    ensures Books(used, n, b)
  {
    assert b.used == a.used + {c} + {d};
  }

  /** Over any run. */
  lemma {:induction false} Conserved(calls: seq<Call>, trace: seq<Snapshot>, max: nat, base: nat)
    requires Traced(calls, trace, max, base) && trace[0].held == []
    ensures Books(trace[0].used, |trace[0].sys.procs|, trace[|calls|])
    decreases |calls|
  {
    hide Did, Books;
    if calls == [] {
      NothingYet(trace[0]);
    } else {
      var k := |calls| - 1;
      Conserved(calls[..k], trace[..k + 1], max, base);
      DidBooks(trace[0].used, |trace[0].sys.procs|, calls[k], trace[k], trace[k + 1], max, base);
    }
  }

  lemma NothingYet(s: Snapshot)
    requires s.held == []
    ensures Books(s.used, |s.sys.procs|, s)
  {
  }

  /** Freeing the first of two allocations leaves the second, with its own bytes, and nothing of the first. */
  lemma FreeTheFirst(a: Snapshot, b: Snapshot, c: Snapshot, d: Snapshot, max: nat, base: nat, first: Call, second: Call)
    requires first.Malloc? && second.Malloc? && a.live.Keys <= a.used
    requires Did(first, a, b, max, base) && Did(second, b, c, max, base)
    requires Did(Call.Free(|a.held|), c, d, max, base)
    ensures exists e :: && e !in a.used && d.used == a.used + {e} && d.held == a.held + [e]
                        && d.live == a.live[e := Allocation(second.bytes, !second.raw)] && d.sys == c.sys
  {
    hide Given, OrderFor, Inside, Clear;
    var x :| Grantable(a.used, max, first.bytes, x) && GivenTo(a, b, base, first.bytes, first.raw, x);
    var y :| Grantable(b.used, max, second.bytes, y) && GivenTo(b, c, base, second.bytes, second.raw, y);
    assert c.held == a.held + [x, y];
    assert d.held == a.held + [y];
    assert d.used == a.used + {y};
  }

  lemma SameSize<X>(s: set<X>, t: set<X>)
    requires s <= t && |s| == |t|
    ensures s == t
  {
    assert t == s + (t - s);
    assert |t - s| == 0;
  }

  /** A run that creates no process and frees whatever it allocates leaves every slot of the allocator as it was. */
  method RunRestores(machine: Machine, calls: seq<Call>) returns (ok: bool, ghost trace: seq<Snapshot>)
    requires machine.Valid()
    modifies machine`procs, machine`homes, machine`stacks, machine.kernel`at, machine.kernel`live
    modifies machine.kernel.buddy`tree, machine.kernel.buddy.slots
    modifies machine.kernel.table.memory, machine.kernel.table.pfdb, machine.kernel.table.pfdb.Repr()
    ensures ok ==> machine.Valid() && Traced(calls, trace, machine.kernel.buddy.max, machine.kernel.buddy.base)
    ensures ok ==> trace[0] == old(Snap(machine, [])) && trace[|calls|] == Snap(machine, trace[|calls|].held)
    ensures ok && trace[|calls|].held == [] && |machine.procs| == |old(machine.procs)| ==>
              machine.kernel.buddy.slots[..] == old(machine.kernel.buddy.slots[..])
  {
    hide Did, Encodes, Leaves, Fits, Pow2, Pending, Canonical, Kernel.TablesOk, Kernel.PoolOk, Kernel.AllServed;
    hide Machine.ProcsOk, Machine.TablesHoused, Machine.HalfShared, Machine.StacksOk;
    ghost var slots, tree := machine.kernel.buddy.slots[..], machine.kernel.buddy.tree;
    ghost var stop;
    ok, stop, trace := Run(machine, calls);
    if ok {
      assert calls[..stop] == calls;
      Conserved(calls, trace, machine.kernel.buddy.max, machine.kernel.buddy.base);
      if trace[stop].held == [] && |machine.procs| == |old(machine.procs)| {
        SameSize(trace[0].used, trace[|calls|].used);
        SlotsDetermined(slots, machine.kernel.buddy.slots[..], machine.kernel.buddy.max, machine.kernel.buddy.base,
                        tree, machine.kernel.buddy.tree);
      }
    }
  }

  // ---- boot, then run ----

  /** Every byte of every live allocation is usable memory. */
  ghost predicate LiveUsable(machine: Machine, s: seq<R.Region>)
    reads machine.kernel`live
  {
    forall c, x: nat :: c in machine.kernel.live
                        && machine.kernel.Start(c) <= x < machine.kernel.Start(c) + machine.kernel.live[c].bytes ==>
      R.Usable(s, x)
  }

  /** At every canonical address ring 3 reaches a process's own text and stack, and nothing else. */
  ghost predicate Protected(machine: Machine)
    reads machine`procs, machine.kernel.table, machine.kernel.table.memory
  {
    forall j, v: nat :: 0 <= j < |machine.procs| && (v < 0x8000_0000_0000 || K_VIRT <= v < WORD) ==>
      (UserAccess(machine.kernel.table.memory.tables, machine.procs[j].root, v) <==> 0x3e000 <= v < 0x49000)
  }

  lemma AllProtected(machine: Machine)
    requires machine.Valid()
    ensures Protected(machine)
  {
    hide Machine.Valid, T.Path, UserAccess;
    forall j, v: nat | 0 <= j < |machine.procs| && (v < 0x8000_0000_0000 || K_VIRT <= v < WORD)
      ensures UserAccess(machine.kernel.table.memory.tables, machine.procs[j].root, v) <==> 0x3e000 <= v < 0x49000
    {
      if K_VIRT <= v {
        KernelPath(v);
      }
      machine.Reach(j, v);
    }
  }

  /** No live allocation holds an address of a reserved region that ends inside the content region. */
  ghost predicate ReservedSpared(machine: Machine, s: seq<R.Region>, length: nat)
    reads machine.kernel`live
  {
    forall c, k, x: nat :: c in machine.kernel.live && 0 <= k < |s| && s[k].kind == R.RESERVED && R.End(s[k]) <= length
                           && R.Within(s[k], x) ==>
      !(machine.kernel.Start(c) <= x < machine.kernel.Start(c) + machine.kernel.live[c].bytes)
  }

  lemma SparedReserved(machine: Machine, s: seq<R.Region>, length: nat)
    requires machine.Valid() && machine.kernel.buddy.base == 0
    requires forall x :: InSome(machine.reserved, x) <==> Taken(s, |s|, length, x)
    ensures ReservedSpared(machine, s, length)
  {
    hide Machine.Valid, InSome;
    forall c, k, x: nat | c in machine.kernel.live && 0 <= k < |s| && s[k].kind == R.RESERVED
                          && R.End(s[k]) <= length && R.Within(s[k], x)
      ensures !(machine.kernel.Start(c) <= x < machine.kernel.Start(c) + machine.kernel.live[c].bytes)
    {
      assert Chosen(s[k], length) && Taken(s, |s|, length, x);
      machine.ReservedSafe(c, x);
    }
  }

  /** Nothing live on what was taken, so everything live on what the map has to give. */
  lemma LiveIsUsable(machine: Machine, s: seq<R.Region>, lo: nat, hi: nat, length: nat)
    requires machine.Valid() && machine.kernel.buddy.base == 0 && Pow2(machine.kernel.buddy.max) == length
    requires forall x :: InSome(machine.reserved, x) <==> Taken(s, |s|, length, x)
    requires R.Tiling(s, lo, hi) && lo == 0 && length <= hi && AllChosen(s, length)
    ensures LiveUsable(machine, s)
  {
    hide Machine.Valid, Taken, InSome, Pow2, R.Tiling, R.Usable, AllChosen;
    forall c, x: nat | c in machine.kernel.live
                       && machine.kernel.Start(c) <= x < machine.kernel.Start(c) + machine.kernel.live[c].bytes
      ensures R.Usable(s, x)
    {
      machine.LiveRange(c);
      RestUsableExactly(s, lo, hi, length);
      if InSome(machine.reserved, x) {
        machine.ReservedSafe(c, x);
      }
      assert x < length && !Taken(s, |s|, length, x);
    }
  }

  /**
   * Boot, then any run of allocations, frees and process creations. No live allocation holds an address
   * of a reserved region that ends inside the content region; if no other region but the usable ones
   * begins there, every live byte is usable memory. With the first byte taken, kfree never halts. The
   * kernel half is the same through the root of every process, every process has its stack to itself, and
   * from ring 3 it reaches nothing but its text and that stack.
   * The trace says what the calls did.
   */
  method StartThenRun(m: MemoryMap, memory: PhysMemory, length: nat, count: nat, kernelEnd: nat, calls: seq<Call>)
    returns (ok: bool, machine: Machine?, ghost stop: nat, ghost trace: seq<Snapshot>, ghost reserved: set<Block>,
             ghost phys: nat)
    requires m.Valid() && AllPaged(m.Map(), length) && memory.tables == map[] && count > 0
    requires length == Pow2(FloorLog(if length == 0 then 1 else length)) && Pow2(MIN_ORDER) <= length < 0x10_0000_0000
    requires kernelEnd + 4096 <= ENTRY_SPAN
    modifies memory
    ensures machine != null <==> RoomFor(reserved, FloorLog(length), count * 4096) && BootMaps(phys, count, kernelEnd)
    ensures forall x :: InSome(reserved, x) <==> Taken(m.Map(), m.numEntries, length, x)
    ensures machine != null ==> stop <= |calls| && (ok <==> stop == |calls|)
    ensures machine != null ==> Traced(calls[..stop], trace, machine.kernel.buddy.max, 0)
    ensures machine != null ==> trace[0].used == reserved + {machine.kernel.pool} && trace[0].live == map[]
    ensures machine != null ==> trace[0].held == [] && trace[0].sys.procs == []
    ensures ok ==> machine != null && machine.Valid() && machine.kernel.table.memory == memory
    ensures ok ==> trace[stop] == Snap(machine, trace[stop].held) && AllStacked(machine)
    ensures ok ==> ReservedSpared(machine, m.Map(), length) && Protected(machine)
    ensures ok ==> forall c, x :: c in machine.kernel.live && Taken(m.Map(), m.numEntries, length, x) ==>
                     !(machine.kernel.Start(c) <= x < machine.kernel.Start(c) + machine.kernel.live[c].bytes)
    ensures ok && m.lo == 0 && length <= m.hi && AllChosen(m.Map(), length) ==> LiveUsable(machine, m.Map())
    ensures ok && Taken(m.Map(), m.numEntries, length, 0) ==>
              forall c :: c in machine.kernel.live ==> machine.kernel.Start(c) != 0
    ensures !ok && machine != null ==>
              && Halts(calls[stop], trace[stop], machine.kernel.buddy.max, 0)
              && (Taken(m.Map(), m.numEntries, length, 0) ==> !calls[stop].Free?)
    ensures ok ==> forall j, v: nat :: 0 <= j < |machine.procs| && K_VIRT <= v < WORD ==>
                     T.Translate(memory.tables, machine.procs[j].root, v)
                     == T.Translate(memory.tables, machine.kernel.table.root, v)
  {
    hide Machine.Valid, Taken, InSome, Pow2, AllChosen, LiveUsable, T.Translate, Traced, Halts, RoomFor, BootMaps;
    hide Allocator.Blocks, ReservedSpared, Protected, FloorLog;
    stop, trace := 0, [];
    ok, machine, reserved, phys := Start(m, memory, length, count, kernelEnd);
    if ok {
      ok, stop, trace := Run(machine, calls);
      if ok {
        SparedReserved(machine, m.Map(), length);
        AllProtected(machine);
        forall c, x | c in machine.kernel.live && Taken(m.Map(), m.numEntries, length, x)
          ensures !(machine.kernel.Start(c) <= x < machine.kernel.Start(c) + machine.kernel.live[c].bytes)
        {
          assert InSome(machine.reserved, x);
          machine.ReservedSafe(c, x);
        }
        if m.lo == 0 && length <= m.hi && AllChosen(m.Map(), length) {
          LiveIsUsable(machine, m.Map(), m.lo, m.hi, length);
        }
        if Taken(m.Map(), m.numEntries, length, 0) {
          forall c | c in machine.kernel.live ensures machine.kernel.Start(c) != 0 {
            machine.NoneAtZero(c);
          }
        }
        forall j, v: nat | 0 <= j < |machine.procs| && K_VIRT <= v < WORD
          ensures T.Translate(memory.tables, machine.procs[j].root, v)
               == T.Translate(memory.tables, machine.kernel.table.root, v)
        {
          machine.HalfSame(j, v);
        }
      }
    }
  }

  // ---- a content region of four pages, one of them reserved ----

  lemma SmallPowers()
    ensures Pow2(12) == 0x1000 && Pow2(13) == 0x2000 && Pow2(14) == 0x4000 && FloorLog(0x4000) == 14
    ensures OrderFor(0x1000) == 12 && OrderFor(0x2000) == 13
  {
    FloorLogUnique(0x4000, 14);
    WholeOrder(12);
    WholeOrder(13);
  }

  lemma SmallMax(max: nat)
    requires Pow2(max) == 0x4000
    ensures max == 14
  {
    SmallPowers();
    FloorLogUnique(0x4000, max);
  }

  /** A block without a used address is clear. */
  lemma ClearOf(live: set<Block>, d: Block)
    requires forall x :: Contains(d, x) ==> !InSome(live, x)
    ensures Clear(live, d)
  {
    forall c | c in live ensures Disjoint(c, d) {
      var x := if Lo(c) < Lo(d) then Lo(d) else Lo(c);
      if !Disjoint(c, d) {
        assert Contains(c, x) && Contains(d, x);
        assert false;
      }
    }
  }

  /** Only page `p` is used. */
  ghost predicate OnlyPage(live: set<Block>, p: nat)
  {
    forall x :: InSome(live, x) <==> p * 0x1000 <= x < p * 0x1000 + 0x1000
  }

  /** The half without page `p`, and the other page of the half with it. */
  function OtherHalf(p: nat): Block { Block(13, if p < 2 then 1 else 0) }

  function OtherPage(p: nat): Block { Block(12, if p % 2 == 0 then p + 1 else p - 1) }

  lemma SmallBlocks()
    ensures forall p: nat :: p <= 1 ==>
              && Inside(Block(13, p), Root(14))
              && Lo(Block(13, p)) == p * 0x2000 && Hi(Block(13, p)) == p * 0x2000 + 0x2000
    ensures forall p: nat :: p <= 3 ==>
              && Inside(Block(12, p), Root(14))
              && Lo(Block(12, p)) == p * 0x1000 && Hi(Block(12, p)) == p * 0x1000 + 0x1000
  {
    SmallPowers();
    forall p: nat | p <= 1 ensures Lo(Block(13, p)) == p * 0x2000 && Inside(Block(13, p), Root(14)) {
      ScaleIsProduct(p, 13);
      assert Anc(p, 1) == p / 2;
    }
    forall p: nat | p <= 3 ensures Lo(Block(12, p)) == p * 0x1000 && Inside(Block(12, p), Root(14)) {
      ScaleIsProduct(p, 12);
      assert Anc(p, 2) == Anc(p, 1) / 2 == p / 2 / 2;
    }
  }

  lemma RoomForPool(live: set<Block>, p: nat)
    requires OnlyPage(live, p) && p <= 3
    ensures Room(live, Root(14), 13)
  {
    SmallBlocks();
    ClearOf(live, OtherHalf(p));
  }

  lemma RoomForPage(live: set<Block>, p: nat)
    requires OnlyPage(live, p) && p <= 3
    ensures Room(live + {OtherHalf(p)}, Root(14), 12)
  {
    SmallBlocks();
    ClearOf(live, OtherPage(p));
    assert Clear(live + {OtherHalf(p)}, OtherPage(p));
  }

  /** A used block of two pages beside page `p` is the other half. */
  lemma PoolIsHalf(a: Allocator, live: set<Block>, p: nat, pool: Block)
    requires a.Formed() && a.max == 14 && live <= a.Blocks() && pool in a.Blocks() && pool !in live
    requires OnlyPage(live, p) && p <= 3 && pool.order == 13
    ensures pool == OtherHalf(p)
  {
    hide Encodes, Leaves, Fits, Pow2, Scale, Pending;
    SmallBlocks();
    LeavesInside(a.tree, Root(14), true);
    assert Anc(pool.pos, 1) == pool.pos / 2;
    assert InSome(live, p * 0x1000);
    var d :| d in live && Contains(d, p * 0x1000);
    LeavesDisjoint(a.tree, Root(14), pool, true, d, true);
  }

  /** And a used page beside both is the other page. */
  lemma PageIsTwin(a: Allocator, live: set<Block>, p: nat, c: Block)
    requires a.Formed() && a.max == 14 && live + {OtherHalf(p)} <= a.Blocks() && c in a.Blocks()
    requires c !in live && OnlyPage(live, p) && p <= 3 && c.order == 12
    ensures c == OtherPage(p)
  {
    hide Encodes, Leaves, Fits, Pow2, Scale, Pending;
    SmallBlocks();
    LeavesInside(a.tree, Root(14), true);
    assert Anc(c.pos, 2) == Anc(c.pos, 1) / 2 == c.pos / 2 / 2;
    assert InSome(live, p * 0x1000);
    var d :| d in live && Contains(d, p * 0x1000);
    LeavesDisjoint(a.tree, Root(14), c, true, d, true);
    LeavesDisjoint(a.tree, Root(14), c, true, OtherHalf(p), true);
  }

  /** Boot on such a map with two table frames, then take a raw page: it is the only one left. */
  method TakeLastPage(m: MemoryMap, ghost p: nat) returns (k: Kernel, ptr: nat, ghost c: Block)
    requires m.Valid() && AllPaged(m.Map(), 0x4000) && p <= 3
    requires forall x :: Taken(m.Map(), m.numEntries, 0x4000, x) <==> p * 0x1000 <= x < p * 0x1000 + 0x1000
    ensures fresh(k) && fresh(k.buddy) && fresh(k.buddy.slots) && k.Valid() && k.buddy.base == 0 && k.buddy.max == 14
    ensures c == OtherPage(p) && k.live == map[c := Allocation(0x1000, false)] && ptr == Va(k.Start(c))
  {
    hide Kernel.TablesOk, Kernel.PoolOk, Kernel.AllServed, Allocator.Formed, Allocator.Blocks, Canonical, Room;
    hide Taken, InSome, Pow2, OrderFor, FloorLog, AllPaged, Lo, Mapping, R.Usable, AllChosen, OtherHalf, OtherPage;
    hide T.Translate, Keeps, SameFrom, FirstSpace, MemoryMap.Valid;
    SmallPowers();
    var a := KmemInit(m, 0x4000);
    ghost var live := a.Blocks();
    SmallMax(a.max);
    RoomForPool(live, p);
    var memory := new PhysMemory(map[]);
    var done, phys, kernel := TablesSetup(a, memory, 2);
    k := kernel;
    PoolIsHalf(a, live, p, k.pool);
    RoomForPage(live, p);
    done, ptr, c := k.Kmalloc(0x1000, true);
    PageIsTwin(a, live, p, c);
  }

  // ---- kfree at address 0 ----

  /** One page usable, one reserved, two usable. */
  function SmallMap(): seq<R.Region>
  {
    [R.Region(0, 0x1000, R.USABLE), R.Region(0x1000, 0x1000, R.RESERVED), R.Region(0x2000, 0x2000, R.USABLE)]
  }

  lemma SmallTiling()
    ensures |SmallMap()| == 3 && R.Tiling(SmallMap(), 0, 0x4000) && R.Joined(SmallMap()) && AllPaged(SmallMap(), 0x4000)
    ensures forall x :: Taken(SmallMap(), 3, 0x4000, x) <==> 0x1000 <= x < 0x2000
  {
    var s := SmallMap();
    assert s[1..][1..][1..] == [];
    forall x ensures Taken(s, 3, 0x4000, x) <==> 0x1000 <= x < 0x2000 {
      assert Chosen(s[1], 0x4000);
    }
  }

  method Slots(s: seq<R.Region>) returns (slots: array<R.Region>)
    ensures fresh(slots) && slots.Length == |s| && slots[..|s|] == s && slots[|s|..] == []
  {
    slots := new R.Region[|s|](i requires 0 <= i < |s| => s[i]);
  }

  /** It does happen when page 0 is not reserved: an allocation at address 0 that kfree refuses. */
  method KfreeHalts() returns (k: Kernel, ptr: nat, ok: bool)
    ensures fresh(k) && k.Valid() && ptr == K_VIRT && !ok
    ensures exists c :: c in k.live && ptr == Va(k.Start(c))
  {
    hide Kernel.Valid, R.Tiling, R.Joined, AllPaged, Taken, SmallMap, Lo, Hi;
    SmallTiling();
    var slots := Slots(SmallMap());
    var m := new MemoryMap(slots, 3, 0, 0x4000);
    ghost var c;
    k, ptr, c := TakeLastPage(m, 1);
    SmallBlocks();
    ok := k.Kfree(ptr, c);
  }

  // ---- a reserved region across the end ----

  /** Its last region reaches beyond the largest power of two that the map holds. */
  function LongMap(): seq<R.Region>
  {
    [R.Region(0, 0x2000, R.USABLE), R.Region(0x2000, 0x1000, R.RESERVED),
     R.Region(0x3000, 0x800, R.USABLE), R.Region(0x3800, 0x1800, R.RESERVED)]
  }

  lemma LongTiling()
    ensures |LongMap()| == 4 && R.Tiling(LongMap(), 0, 0x5000) && R.Joined(LongMap()) && AllPaged(LongMap(), 0x4000)
    ensures forall x :: Taken(LongMap(), 4, 0x4000, x) <==> 0x2000 <= x < 0x3000
    ensures !R.Usable(LongMap(), 0x3800) && R.Alternates(LongMap()) && R.Normalised(LongMap())
  {
    var s := LongMap();
    assert s[1..][1..][1..][1..] == [];
    forall x ensures Taken(s, 4, 0x4000, x) <==> 0x2000 <= x < 0x3000 {
      assert Chosen(s[1], 0x4000);
    }
    NotChosen(s, 0, 0x5000, 0x4000, 3, 0x3800);
  }

  /** It does happen, on a merged map: kmalloc hands out bytes that the map reserves. */
  method ReservedHandedOut() returns (m: MemoryMap, k: Kernel, ptr: nat)
    ensures fresh(m) && m.Valid() && m.lo == 0 && m.hi == 0x5000 && R.Alternates(m.Map()) && R.Normalised(m.Map())
    ensures fresh(k) && k.Valid() && k.buddy.base == 0 && Pow2(k.buddy.max) == 0x4000
    ensures exists c :: c in k.live && k.Start(c) <= 0x3800 < k.Start(c) + k.live[c].bytes
    ensures !R.Usable(m.Map(), 0x3800)
  {
    hide Kernel.Valid, R.Tiling, R.Joined, R.Usable, R.Alternates, R.Normalised, AllPaged, Taken, LongMap, Lo, Hi;
    LongTiling();
    var slots := Slots(LongMap());
    m := new MemoryMap(slots, 4, 0, 0x5000);
    ghost var c;
    k, ptr, c := TakeLastPage(m, 2);
    SmallBlocks();
    SmallPowers();
  }

  // ---- a reserved region up to the end ----

  /** Three pages usable, the last one reserved. */
  function EvenMap(): seq<R.Region> { [R.Region(0, 0x3000, 1), R.Region(0x3000, 0x1000, 2)] }

  lemma EvenTiling()
    ensures |EvenMap()| == 2 && R.Tiling(EvenMap(), 0, 0x4000) && R.Joined(EvenMap()) && AllPaged(EvenMap(), 0x4000)
    ensures forall x :: Taken(EvenMap(), 2, 0x4000, x) <==> 0x3000 <= x < 0x4000
    ensures AllChosen(EvenMap(), 0x4000)
  {
    var s := EvenMap();
    assert s[1..][1..] == [];
    forall x ensures Taken(s, 2, 0x4000, x) <==> 0x3000 <= x < 0x4000 {
      assert Chosen(s[1], 0x4000);
    }
  }

  /** A region that ends with the content region is taken out: beside it and the pool, kmalloc gives the page below. */
  method EndReserved() returns (m: MemoryMap, a: Allocator, k: Kernel, ptr: nat)
    ensures fresh(m) && m.Valid() && m.Map() == [R.Region(0, 0x3000, 1), R.Region(0x3000, 0x1000, 2)]
    ensures fresh(a) && a.Valid() && Pow2(a.max) == 0x4000 && a.base == 0
    ensures forall x :: InSome(a.Blocks(), x) <==> 0x3000 <= x < 0x4000
    ensures fresh(k) && k.Valid() && ptr == Va(0x2000) && exists c :: k.live == map[c := Allocation(0x1000, false)]
  {
    hide Kernel.Valid, Allocator.Valid, Allocator.Blocks, R.Tiling, R.Joined, R.Usable, AllPaged, Taken, InSome, Lo, Hi;
    hide AllChosen, Pow2;
    EvenTiling();
    SmallPowers();
    var slots := Slots(EvenMap());
    m := new MemoryMap(slots, 2, 0, 0x4000);
    a := KmemInit(m, 0x4000);
    ghost var c;
    k, ptr, c := TakeLastPage(m, 3);
    SmallBlocks();
  }
}
