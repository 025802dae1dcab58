/** The booted kernel: its allocator, its page table and its processes together. */
module Machines {
  import opened Options
  import opened Powers
  import opened Layout
  import opened BuddyTree
  import opened BuddySlots
  import opened BuddyRange
  import opened BuddyFit
  import opened Buddy
  import opened PageFrames
  import opened PageAllocs
  import opened AddressSpaces
  import opened Paging
  import opened Processes
  import opened Kmem
  import S = Scheduling
  import T = PageTables

  class Machine {
    const kernel: Kernel
    /** The blocks that were taken out of the allocator at boot. */
    ghost const reserved: set<Block>
    ghost var procs: seq<Proc>
    /** The blocks that hold the tables of the processes. */
    ghost var homes: set<Block>
    /** The block behind the stack of each process, as long as nobody has freed it. */
    ghost var stacks: map<nat, Block>

    /** The tables in memory and who uses them. */
    ghost function Now(): System
      reads this`procs, kernel.table, kernel.table.memory, kernel.table.pfdb
    {
      Processes.Now(kernel.table, procs)
    }

    ghost predicate ProcsOk()
      reads this`procs, kernel`at, kernel.table, kernel.table.memory, kernel.table.pfdb
    {
      Inv(Now(), kernel.Tables())
    }

    /** The block that the frame is part of. */
    ghost predicate Housed(f: T.Frame)
      reads this`homes
    {
      exists h :: h in homes + {kernel.pool} && FrameIn(kernel.Start(h), h.order, f)
    }

    /** Reserved blocks and table blocks stay in use, and kmalloc's callers have no hold on them. */
    ghost predicate BlocksKept()
      requires kernel.BlocksOk()
      reads this`homes, kernel`live, kernel.buddy, kernel.buddy.slots
    {
      && reserved + homes <= kernel.buddy.Blocks() && reserved + homes !! kernel.live.Keys
      && kernel.pool !in reserved + homes
    }

    ghost predicate TablesHoused()
      reads this`homes, kernel.table.memory
    {
      forall f :: f in kernel.table.memory.tables ==> Housed(f)
    }

    /** Every process shares the root entry of the kernel's linear map, and the kernel half has no other. */
    ghost predicate HalfShared()
      reads this`procs, kernel.table, kernel.table.memory, kernel.table.pfdb
    {
      OneHalf(Now())
    }

    /** Each stack is a live allocation of its own. */
    ghost predicate StacksOk()
      reads this`stacks, this`procs, kernel`live
    {
      StacksFit(stacks, procs, kernel.live, kernel.buddy.base)
    }

    ghost predicate Valid()
      reads this, kernel, kernel.buddy, kernel.buddy.slots, kernel.table, kernel.table.memory, kernel.table.pfdb
      reads kernel.table.pfdb.Repr()
    {
      && kernel.Valid() && kernel.buddy.base + Pow2(kernel.buddy.max) < 0x10_0000_0000
      && ProcsOk() && BlocksKept() && TablesHoused() && HalfShared() && StacksOk()
    }

    constructor (kernel: Kernel, ghost reserved: set<Block>)
      requires kernel.Valid() && kernel.buddy.base + Pow2(kernel.buddy.max) < 0x10_0000_0000
      requires reserved <= kernel.buddy.Blocks() && kernel.pool !in reserved && kernel.live == map[]
      requires kernel.table.memory.tables.Keys == kernel.TableFrames()
      requires T.Translate(kernel.table.memory.tables, kernel.table.root, K_VIRT) != None
      requires HighEmpty(kernel.table.memory.tables, kernel.table.root)
      ensures Valid() && this.kernel == kernel && this.reserved == reserved
      ensures procs == [] && homes == {} && stacks == map[]
    {
      hide Encodes, Leaves, Fits, Pending, Scale, Pow2, Owned, Linear, AllMapped, Chain, Sound, Frames, Set, FrameIn;
      hide HighEmpty, T.Translate;
      this.kernel, this.reserved, procs, homes, stacks := kernel, reserved, [], {}, map[];
      new;
      RunStarts(kernel.Tables(), kernel.table.root);
      forall f | f in kernel.table.memory.tables ensures Housed(f) {
        assert kernel.pool in homes + {kernel.pool};
      }
    }

    /** kmalloc on the booted machine: nothing a process sees or owns is disturbed. */
    method Kmalloc(bytes: nat, raw: bool) returns (ok: bool, ptr: nat, ghost c: Block)
      requires Valid()
      modifies kernel`at, kernel`live, kernel.buddy`tree, kernel.buddy.slots
      modifies kernel.table.memory, kernel.table.pfdb, kernel.table.pfdb.Repr()
      ensures ok <==> old(kernel.HasRoom(bytes)) && Given(old(Now()), raw, kernel.Start(c), bytes).Some?
      ensures old(kernel.HasRoom(bytes)) ==> Grantable(old(kernel.buddy.Blocks()), kernel.buddy.max, bytes, c)
      ensures ok ==> Given(old(Now()), raw, kernel.Start(c), bytes) == Some(Now())
      ensures ok ==> Valid() && ptr == Va(kernel.Start(c))
      ensures ok ==> c !in old(kernel.live) && kernel.live == old(kernel.live)[c := Allocation(bytes, !raw)]
      ensures ok ==> c !in old(kernel.buddy.Blocks()) && kernel.buddy.Blocks() == old(kernel.buddy.Blocks()) + {c}
      ensures ok ==> kernel.table.pfdb.Repr() == old(kernel.table.pfdb.Repr())
      ensures ok ==> kernel.table.memory.tables.Keys == old(kernel.table.memory.tables.Keys) && c !in stacks.Values
      ensures !old(kernel.HasRoom(bytes)) ==> Valid() && kernel.live == old(kernel.live) && Now() == old(Now())
      ensures !old(kernel.HasRoom(bytes)) ==> kernel.buddy.Blocks() == old(kernel.buddy.Blocks())
    {
      hide Kernel.PoolOk, Kernel.AllServed, Inv, Owned, Linear, Advances, Mapping, Set, Pow2, OrderFor, FrameIn;
      hide Allocator.Valid, Allocator.Formed, Allocator.Blocks, Kernel.HasRoom, OneHalf, Keeps, SameFrom, T.Translate;
      hide Kernel.TablesOk, Grantable, StacksFit;
      ghost var s, t := Now(), kernel.Tables();
      ok, ptr, c := kernel.Kmalloc(bytes, raw);
      if ok {
        ProcsKept(s, t);
        StacksMore(stacks, procs, old(kernel.live), kernel.buddy.base, c, Allocation(bytes, !raw));
      }
    }

    /** The growth of the kernel's tables does not concern the processes. */
    lemma ProcsKept(s: System, t: State)
      requires kernel.Valid() && Inv(s, t) && Advances(t, kernel.Tables()) && OneHalf(s)
      requires s.kernel == kernel.table.root && s.procs == procs && kernel.Top() <= ENTRY_SPAN
      requires Keeps(s.mem, kernel.table.memory.tables, s.kernel)
      requires SameFrom(s.mem, kernel.table.memory.tables, s.kernel, kernel.Top())
      ensures ProcsOk() && HalfShared() && kernel.table.memory.tables.Keys == s.mem.Keys
    {
      hide Kernel.BlocksOk, Kernel.PoolOk, Kernel.AllServed, Owned, Linear, Advances, Set, OneHalf, Keeps, SameFrom;
      hide Kernel.Top;
      AdvancesFrames(t, kernel.Tables());
      InvAdvances(s, t, Now(), kernel.Tables());
      HalfAfterMapping(s, Now(), kernel.Top());
    }

    /** kfree on the booted machine. */
    method Kfree(ptr: nat, ghost c: Block) returns (ok: bool)
      requires Valid() && c in kernel.live && ptr == Va(kernel.Start(c))
      modifies this`stacks, kernel`live, kernel.buddy`tree, kernel.buddy.slots
      ensures Valid()
      ensures ok <==> ptr != K_VIRT
      ensures ok ==> kernel.live == old(kernel.live) - {c} && stacks == StacksLeft(old(stacks), c)
      ensures ok ==> kernel.buddy.Blocks() == old(kernel.buddy.Blocks()) - {c}
      ensures !ok ==> kernel.live == old(kernel.live) && stacks == old(stacks)
      ensures !ok ==> kernel.buddy.Blocks() == old(kernel.buddy.Blocks())
    {
      hide Kernel.TablesOk, Kernel.PoolOk, Kernel.AllServed, Inv, Set, Pow2, FrameIn, StacksFit, StacksLeft;
      hide Allocator.Valid, Allocator.Formed, Allocator.Blocks, OneHalf;
      ok := kernel.Kfree(ptr, c);
      if ok {
        assert forall o: object :: o in kernel.table.pfdb.Repr() ==> o is PageFrame;
        StacksAfter(stacks, procs, procs, old(kernel.live), kernel.buddy.base, c);
        stacks := StacksLeft(stacks, c);
      }
    }

    /** A frame of the block of a live allocation. */
    lemma LiveFrame(c: Block, count: nat, k: nat)
      requires kernel.BlocksOk() && c in kernel.live && count * 4096 <= Pow2(c.order) && k < count
      requires kernel.buddy.base + Pow2(kernel.buddy.max) < 0x10_0000_0000
      ensures var f := Downward(kernel.Start(c), count)[k]; T.FrameOk(f) && FrameIn(kernel.Start(c), c.order, f)
    {
      hide Encodes, Leaves, Fits, Pending, Scale, Pow2;
      BlockRange(kernel.buddy, c);
      assert count * 4096 == (count - 1 - k) * 4096 + 4096 + k * 4096;
    }

    /** The frames of a live allocation hold no table yet. */
    lemma LiveFrameFresh(c: Block, f: T.Frame)
      requires Valid() && c in kernel.live && FrameIn(kernel.Start(c), c.order, f)
      ensures f !in kernel.table.memory.tables
    {
      hide Kernel.TablesOk, Kernel.PoolOk, Kernel.AllServed, Encodes, Leaves, Fits, Pending, Inv, Scale, Pow2;
      if f in kernel.table.memory.tables {
        assert Housed(f);
        var h :| h in homes + {kernel.pool} && FrameIn(kernel.Start(h), h.order, f);
        LeavesDisjoint(kernel.buddy.tree, Root(kernel.buddy.max), c, true, h, true);
      }
    }

    /** So they can become the tables of a process. */
    lemma LiveSane(c: Block, count: nat, text: nat, stack: nat)
      requires Valid() && c in kernel.live && count * 4096 <= Pow2(c.order)
      requires text % 4096 == 0 && stack % 4096 == 0
      requires text + 0x9000 <= PHYS_LIMIT && stack + 0x3000 <= PHYS_LIMIT
      ensures Sane(Now(), Spawn(Downward(kernel.Start(c), count), text, stack))
    {
      hide Kernel.TablesOk, Kernel.PoolOk, Kernel.AllServed, FrameIn, T.FrameOk, Inv, Pow2;
      hide Allocator.Valid, Allocator.Formed, Allocator.Blocks;
      var frames := Downward(kernel.Start(c), count);
      forall k | 0 <= k < |frames| ensures T.FrameOk(frames[k]) && frames[k] !in Now().mem {
        LiveFrame(c, count, k);
        LiveFrameFresh(c, frames[k]);
      }
    }

    /**
     * The page-table part of create_process, in the block that kmalloc gave for it. It succeeds if and only
     * if the block has four frames, and the block then belongs to the process.
     */
    method BuildProcess(phys: nat, count: nat, text: nat, stack: nat, ghost c: Block)
      returns (ok: bool, table: PageTable)
      requires Valid() && c in kernel.live && phys == kernel.Start(c) && 0 < count && count * 4096 <= Pow2(c.order)
      requires text % 4096 == 0 && stack % 4096 == 0
      requires text + 0x9000 <= PHYS_LIMIT && stack + 0x3000 <= PHYS_LIMIT
      modifies this`procs, this`homes, this`stacks, kernel`at, kernel`live, kernel.table.memory
      ensures ok <==> count >= 4
      ensures ok ==> Happen(old(Now()), Spawn(Downward(phys, count), text, stack)) == Some(Now())
      ensures ok ==> stacks == StacksLeft(old(stacks), c)
      ensures ok ==> Valid() && kernel.live == old(kernel.live) - {c} && homes == old(homes) + {c}
      ensures ok ==> |procs| == |old(procs)| + 1 && procs[..|old(procs)|] == old(procs)
      ensures ok ==> var p := procs[|old(procs)|]; p.root == table.root && p.text == text && p.stack == stack
    {
      hide Kernel.PoolOk, Linear, Accounted, AllMapped, FrameIn, Inv, Pow2, Happen, Sane, Downward, Untouched, Set;
      hide OneHalf, PresentUpper, StacksFit, StacksLeft;
      hide Allocator.Valid, Allocator.Formed, Allocator.Blocks, Chain, Sound, Frames;
      DropStack(c);
      ghost var s, t, frames := Now(), kernel.Tables(), Downward(phys, count);
      LiveSane(c, count, text, stack);
      forall k | 0 <= k < |frames| ensures FrameIn(kernel.Start(c), c.order, frames[k]) {
        LiveFrame(c, count, k);
      }
      SpawnHappens(s, t, frames, text, stack);
      ServedNow();
      ok, table := Processes.CreateProcess(kernel.table, phys, count, text, stack, procs);
      if ok {
        ghost var t' := SpawnKeeps(s, t, frames, text, stack);
        ghost var s' := Happen(s, Spawn(frames, text, stack)).value;
        SpawnAdds(s, frames, text, stack);
        HalfAfterSpawn(s, t, s', Set(frames));
        StacksAfter(old(stacks), s.procs, s'.procs, kernel.live, kernel.buddy.base, c);
        Adopt(s, t, s', t', frames, c);
      }
    }

    /** The live allocations fit their blocks and are mapped, in the tables of `s`. */
    ghost predicate ServedIn(s: System)
      reads kernel`live
    {
      forall c :: c in kernel.live ==> 1 <= kernel.live[c].bytes <= Pow2(c.order) && (kernel.live[c].mapped ==>
        AllMapped(s.mem, s.kernel, kernel.Start(c), kernel.Start(c) + kernel.live[c].bytes))
    }

    lemma ServedNow()
      requires kernel.AllServed()
      ensures ServedIn(Now())
    {
      hide Pow2, AllMapped;
      assert forall c :: c in kernel.live ==> kernel.Served(c);
    }

    /** A block that is about to be used otherwise is nobody's stack any more. */
    ghost method DropStack(c: Block)
      requires Valid()
      modifies this`stacks
      ensures Valid() && stacks == StacksLeft(old(stacks), c)
    {
      hide Kernel.BlocksOk, Kernel.TablesOk, Kernel.PoolOk, Kernel.AllServed, ProcsOk, BlocksKept, TablesHoused;
      hide HalfShared, Pow2;
      assert forall o: object :: o in kernel.table.pfdb.Repr() ==> o is PageFrame;
      stacks := StacksLeft(stacks, c);
    }

    /** The new process and its block enter the books. */
    ghost method Adopt(s: System, t: State, s': System, t': State, frames: seq<T.Frame>, c: Block)
      requires kernel.BlocksOk() && kernel.table.Valid() && kernel.PoolOk() && BlocksKept() && c in kernel.live
      requires Supervised(s.mem, kernel.TableFrames())
      requires kernel.buddy.base + Pow2(kernel.buddy.max) < 0x10_0000_0000
      requires s' == Processes.Now(kernel.table, s'.procs)
      requires Inv(s, t) && Inv(s', t') && t'.used == t.used && Untouched(s, s', Set(frames)) && OneHalf(s')
      requires t.used == Set(kernel.table.pfdb.Value().used) && Linear(s.mem, s.kernel)
      requires ServedIn(s)
      requires forall g :: g in s.mem ==> Housed(g)
      requires forall k :: 0 <= k < |frames| ==> FrameIn(kernel.Start(c), c.order, frames[k])
      requires StacksFit(stacks, s'.procs, kernel.live - {c}, kernel.buddy.base)
      modifies this`procs, this`homes, kernel`at, kernel`live
      ensures Valid() && kernel.live == old(kernel.live) - {c} && homes == old(homes) + {c} && procs == s'.procs
    {
      hide Linear, Accounted, AllMapped, FrameIn, Inv, Pow2, Untouched, Set, OneHalf, StacksFit, Supervised;
      hide ServedIn;
      hide Allocator.Valid, Allocator.Formed, Allocator.Blocks, Chain, Sound, Frames;
      KernelRebuilt(s, t, s', t', Set(frames));
      kernel.at := t'.at;
      kernel.live := kernel.live - {c};
      homes := homes + {c};
      procs := s'.procs;
      forall f | f in kernel.table.memory.tables ensures Housed(f) {
        StillHoused(old(homes), s, s', frames, c, f);
      }
    }

    lemma StillHoused(before: set<Block>, s: System, s': System, frames: seq<T.Frame>, c: Block, f: T.Frame)
      requires before <= homes && c in homes && Untouched(s, s', Set(frames)) && f in s'.mem
      requires forall g :: g in s.mem ==>
                 exists h :: h in before + {kernel.pool} && FrameIn(kernel.Start(h), h.order, g)
      requires forall k :: 0 <= k < |frames| ==> FrameIn(kernel.Start(c), c.order, frames[k])
      ensures Housed(f)
    {
      hide FrameIn;
      if f in s.mem {
        var h :| h in before + {kernel.pool} && FrameIn(kernel.Start(h), h.order, f);
        assert h in homes + {kernel.pool};
      } else {
        var k :| 0 <= k < |frames| && frames[k] == f;
        assert c in homes + {kernel.pool};
      }
    }

    /** The kernel's own tables after a process has been added beside them. */
    lemma KernelRebuilt(s: System, t: State, s': System, t': State, frames: set<T.Frame>)
      requires s' == Processes.Now(kernel.table, s'.procs) && kernel.table.Valid()
      requires Inv(s, t) && Inv(s', t') && t'.used == t.used && Untouched(s, s', frames)
      requires t.used == Set(kernel.table.pfdb.Value().used) && Linear(s.mem, s.kernel)
      requires Supervised(s.mem, kernel.TableFrames())
      requires ServedIn(s)
      ensures Accounted(kernel.table, t'.at) && Linear(s'.mem, s'.kernel) && kernel.AllServed() && kernel.Guarded()
      ensures t' == State(kernel.table.SpaceNow(), t'.at, Set(kernel.table.pfdb.Value().used))
    {
      hide Owned, AllMapped, T.Translate, T.Get, Pow2;
      forall w: nat ensures T.Translate(s'.mem, s'.kernel, w) == T.Translate(s.mem, s.kernel, w) {
        KernelViewSame(s, t, s', frames, w);
      }
      assert Keeps(s.mem, s'.mem, s.kernel);
      PoolInMemory(s, t);
      assert kernel.TableFrames() <= s.mem.Keys;
      hide Inv;
      forall c | c in kernel.live ensures kernel.Served(c) {
        kernel.StillServed(c, s.mem);
      }
    }

    lemma LiveUsed()
      requires Valid()
      ensures kernel.live.Keys <= kernel.buddy.Blocks()
    {
      hide Kernel.TablesOk, Kernel.PoolOk, Kernel.AllServed, Allocator.Valid, Allocator.Blocks;
    }

    lemma LiveRange(c: Block)
      requires Valid() && c in kernel.live
      ensures kernel.Start(c) % 4096 == 0 && kernel.Start(c) + 0x3000 <= PHYS_LIMIT
      ensures 1 <= kernel.live[c].bytes <= Pow2(c.order)
      ensures kernel.Start(c) + Pow2(c.order) <= kernel.buddy.base + Pow2(kernel.buddy.max)
    {
      hide Encodes, Leaves, Fits, Pending, Scale, Pow2, Inv, Kernel.TablesOk, Kernel.PoolOk;
      BlockRange(kernel.buddy, c);
      assert kernel.Served(c);
    }

    /** create_process: blocks for the tables and for the stack, then the tables. */
    method CreateProcess(count: nat, text: nat) returns (ok: bool, ghost c: Block, ghost stack: Block)
      requires Valid() && 0 < count && text % 4096 == 0 && text + 0x9000 <= PHYS_LIMIT
      modifies this`procs, this`homes, this`stacks, kernel`at, kernel`live, kernel.buddy`tree, kernel.buddy.slots
      modifies kernel.table.memory, kernel.table.pfdb, kernel.table.pfdb.Repr()
      ensures var used, max := old(kernel.buddy.Blocks()), kernel.buddy.max;
              && (ok <==> !CreateHalts(old(Now()), used, max, kernel.buddy.base, count, c, stack))
              && (RoomFor(used, max, count * 4096) ==> Grantable(used, max, count * 4096, c))
              && (ok ==> Grantable(used + {c}, max, STACK_SIZE, stack))
      ensures ok ==> Created(old(Now()), count, text, kernel.Start(c), kernel.Start(stack)) == Some(Now())
      ensures ok ==> Valid() && kernel.table.pfdb.Repr() == old(kernel.table.pfdb.Repr())
      ensures ok ==> c !in old(kernel.buddy.Blocks()) && stack !in old(kernel.buddy.Blocks()) && c != stack
      ensures ok ==> kernel.buddy.Blocks() == old(kernel.buddy.Blocks()) + {c, stack}
      ensures ok ==> stacks == old(stacks)[|old(procs)| := stack]
      ensures ok ==> kernel.live == old(kernel.live)[stack := Allocation(STACK_SIZE, true)]
      ensures ok ==> homes == old(homes) + {c} && |procs| == |old(procs)| + 1 && procs[..|old(procs)|] == old(procs)
      ensures ok ==> procs[|old(procs)|].text == text && procs[|old(procs)|].stack == kernel.Start(stack)
      ensures ok ==> StackIn(|old(procs)|, stack)
    {
      hide Valid, Given, OrderFor, Pow2, RoomFor, Grantable, Happen, Downward, StackIn, Lo;
      hide Allocator.Valid, Allocator.Formed, Allocator.Blocks;
      var tables, stackPtr;
      ok, tables, c := Kmalloc(count * 4096, false);
      stack := c;
      if !ok {
        return;
      }
      ok, stackPtr, stack := Kmalloc(STACK_SIZE, false);
      if !ok {
        return;
      }
      LiveRange(c);
      ok := FillBlocks(tables - K_VIRT, count, text, stackPtr - K_VIRT, c, stack);
    }

    /** The rest of create_process, with the tables in block `c` and the stack in block `d`. */
    method FillBlocks(tables: nat, count: nat, text: nat, stack: nat, ghost c: Block, ghost d: Block)
      returns (ok: bool)
      requires Valid() && c in kernel.live && tables == kernel.Start(c) && 0 < count && count * 4096 <= Pow2(c.order)
      requires c != d && d in kernel.live && stack == kernel.Start(d) && kernel.live[d] == Allocation(STACK_SIZE, true)
      requires c !in stacks.Values && d !in stacks.Values
      requires text % 4096 == 0 && text + 0x9000 <= PHYS_LIMIT
      modifies this`procs, this`homes, this`stacks, kernel`at, kernel`live, kernel.table.memory
      ensures ok <==> count >= 4
      ensures ok ==> Happen(old(Now()), Spawn(Downward(tables, count), text, stack)) == Some(Now())
      ensures ok ==> Valid() && kernel.live == old(kernel.live) - {c} && homes == old(homes) + {c}
      ensures ok ==> |procs| == |old(procs)| + 1 && procs[..|old(procs)|] == old(procs)
      ensures ok ==> procs[|old(procs)|].text == text && procs[|old(procs)|].stack == stack
      ensures ok ==> stacks == old(stacks)[|old(procs)| := d] && StackIn(|old(procs)|, d)
    {
      hide Valid, Happen, Downward, StackIn, Pow2, Allocator.Valid, Allocator.Formed, Allocator.Blocks;
      LiveRange(d);
      StackCount();
      var table;
      ok, table := BuildProcess(tables, count, text, stack, c);
      if ok {
        assert stacks == old(stacks);
        AddStack(d);
        StackOwned(|procs| - 1);
      }
    }

    lemma StackCount()
      requires Valid()
      ensures |procs| !in stacks
    {
      hide Kernel.Valid, ProcsOk, BlocksKept, TablesHoused, HalfShared, Pow2;
    }

    /** The newest process gets its stack. */
    ghost method AddStack(c: Block)
      requires Valid() && procs != [] && |procs| - 1 !in stacks && c in kernel.live && c !in stacks.Values
      requires kernel.live[c] == Allocation(STACK_SIZE, true) && procs[|procs| - 1].stack == kernel.Start(c)
      modifies this`stacks
      ensures Valid() && stacks == old(stacks)[|procs| - 1 := c]
    {
      hide Kernel.BlocksOk, Kernel.TablesOk, Kernel.PoolOk, Kernel.AllServed, ProcsOk, BlocksKept, TablesHoused;
      hide HalfShared, Pow2;
      assert forall o: object :: o in kernel.table.pfdb.Repr() ==> o is PageFrame;
      stacks := stacks[|procs| - 1 := c];
    }

    /** What the process sees as its stack lies in the allocation. */
    ghost predicate StackIn(j: nat, c: Block)
      requires j < |procs| && c in kernel.live
      reads this`procs, kernel`live, kernel.table, kernel.table.memory
    {
      forall w: nat :: STACK_ADDR <= w < TEXT_ADDR ==>
        var x := T.Translate(kernel.table.memory.tables, procs[j].root, w);
        x.Some? && kernel.Start(c) <= x.value < kernel.Start(c) + kernel.live[c].bytes
    }

    /** Every process has the whole of its stack to itself: first, it lies in one live allocation. */
    lemma StackOwned(j: nat)
      requires Valid() && j in stacks
      ensures j < |procs| && stacks[j] in kernel.live && StackIn(j, stacks[j])
    {
      hide Kernel.Valid, ProcsOk, BlocksKept, TablesHoused, HalfShared, T.Translate, T.Path, Pow2;
      forall w: nat | STACK_ADDR <= w < TEXT_ADDR
        ensures T.Translate(kernel.table.memory.tables, procs[j].root, w) == Some(procs[j].stack + (w - STACK_ADDR))
      {
        Views(j, w);
      }
    }

    /** Then no other allocation, no reserved block, no page table and no other process's stack overlaps it. */
    lemma StackSafe(j: nat, w: nat)
      requires Valid() && j in stacks && STACK_ADDR <= w < TEXT_ADDR
      ensures j < |procs| && T.Translate(kernel.table.memory.tables, procs[j].root, w).Some?
      ensures var x := T.Translate(kernel.table.memory.tables, procs[j].root, w).value;
              && (forall d :: d in kernel.live && d != stacks[j] ==>
                    !(kernel.Start(d) <= x < kernel.Start(d) + kernel.live[d].bytes))
              && !InSome(reserved, x - kernel.buddy.base)
              && (forall f :: f in kernel.table.memory.tables ==> !(f <= x < f + 4096))
              && (forall i, v: nat :: i in stacks && i != j && STACK_ADDR <= v < TEXT_ADDR && i < |procs| ==>
                    T.Translate(kernel.table.memory.tables, procs[i].root, v) != Some(x))
    {
      hide Kernel.Valid, ProcsOk, BlocksKept, TablesHoused, HalfShared, T.Translate, T.Path, Pow2, InSome;
      StackOwned(j);
      var c := stacks[j];
      var x := T.Translate(kernel.table.memory.tables, procs[j].root, w).value;
      forall d | d in kernel.live && d != c ensures !(kernel.Start(d) <= x < kernel.Start(d) + kernel.live[d].bytes) {
        kernel.LiveDisjoint(c, d);
      }
      if InSome(reserved, x - kernel.buddy.base) {
        ReservedSafe(c, x - kernel.buddy.base);
      }
      forall f | f in kernel.table.memory.tables ensures !(f <= x < f + 4096) {
        TablesSafe(c, f);
      }
      forall i, v: nat | i in stacks && i != j && STACK_ADDR <= v < TEXT_ADDR
        ensures T.Translate(kernel.table.memory.tables, procs[i].root, v) != Some(x)
      {
        StackOwned(i);
        kernel.LiveDisjoint(c, stacks[i]);
      }
    }

    /**
     * The first instruction of a process: when the timer first dispatches it, in ring 3 with interrupts on and
     * cleared registers, the instruction pointer leads to the second page of its text and the bytes below the
     * stack pointer to its stack, from the top down.
     */
    lemma FirstInstruction<K>(j: nat, s: S.State<K>, t: K, es: seq<S.Step<K>>)
      requires Valid() && j < |procs|
      requires S.Closed(s) && s.queue == [] && s.curr.None? && t !in s.saved && S.Ticks(es) == 0
      ensures var s' := S.Run(s, [S.Init(t, FIRST_CONTEXT)] + es + [S.Timer]);
              && s'.loaded == Some(t) && s'.frame.regs == S.Registers(0, 0, 0, 0, 0, 0, 0, 0, 0, 0, 0, 0, 0, 0, 0)
              && s'.frame.cs == 0x20 + 3 && s'.frame.ss == 0x18 + 3 && s'.frame.rflags == 0x200 + 2
              && T.Translate(kernel.table.memory.tables, procs[j].root, s'.frame.rip) == Some(procs[j].text + 0x1000)
              && forall w: nat :: s'.frame.rsp - 0x2000 <= w < s'.frame.rsp ==>
                   T.Translate(kernel.table.memory.tables, procs[j].root, w)
                   == Some(procs[j].stack + 0x2000 - (s'.frame.rsp - w))
    {
      hide Valid, T.Translate, T.Path, S.Run;
      S.FirstDispatch(s, t, FIRST_CONTEXT, es);
      Views(j, FIRST_CONTEXT.rip);
      forall w: nat | FIRST_CONTEXT.rsp - 0x2000 <= w < FIRST_CONTEXT.rsp
        ensures T.Translate(kernel.table.memory.tables, procs[j].root, w)
             == Some(procs[j].stack + 0x2000 - (FIRST_CONTEXT.rsp - w))
      {
        Views(j, w);
      }
    }

    /** What a process sees, in every state that the machine reaches. */
    lemma Views(j: nat, v: nat)
      requires Valid() && j < |procs| && (v < 0x8000_0000_0000 || T.Path(v)[0] >= HALF)
      ensures T.Translate(kernel.table.memory.tables, procs[j].root, v) == Seen(Now(), procs[j], v)
    {
      hide Kernel.Valid, BlocksKept, TablesHoused, HalfShared, Inv, T.Translate, T.Path, Seen;
      InvViews(Now(), kernel.Tables(), j, v);
    }

    /** The whole kernel half is the same through every root. */
    lemma HalfSame(j: nat, v: nat)
      requires Valid() && j < |procs| && K_VIRT <= v < WORD
      ensures T.Translate(kernel.table.memory.tables, procs[j].root, v)
           == T.Translate(kernel.table.memory.tables, kernel.table.root, v)
    {
      hide Kernel.Valid, BlocksKept, TablesHoused, Inv, T.Translate, OneHalf;
      OneHalfSame(Now(), kernel.Tables(), j, v);
    }

    /** From ring 3 a process reaches its text and its stack, for writing too, and nothing else. */
    lemma Reach(j: nat, v: nat)
      requires Valid() && j < |procs| && (v < 0x8000_0000_0000 || T.Path(v)[0] >= HALF)
      ensures var mem, root := kernel.table.memory.tables, procs[j].root;
              && (UserAccess(mem, root, v) <==> STACK_ADDR <= v < TEXT_ADDR + 0x9000)
              && (STACK_ADDR <= v < TEXT_ADDR + 0x9000 ==> T.Allows(mem, root, T.Path(v), T.WRITE_BIT))
    {
      hide Kernel.BlocksOk, Kernel.PoolOk, Kernel.AllServed, BlocksKept, TablesHoused, HalfShared, StacksOk;
      hide Inv, T.Translate, T.Path, T.Allows, T.Get, Accounted, Linear, UserAccess;
      RootGuarded();
      UserReach(Now(), kernel.Tables(), j, v);
    }

    lemma RootGuarded()
      requires Valid()
      ensures RootClosed(kernel.table.memory.tables, kernel.table.root)
    {
      hide Kernel.BlocksOk, Kernel.PoolOk, Kernel.AllServed, BlocksKept, TablesHoused, HalfShared, StacksOk, T.Get;
      hide Inv, Accounted, Linear, Supervised, RootClosed;
      RootUsed(Now(), kernel.Tables());
      SupervisedRoot(kernel.table.memory.tables, kernel.TableFrames(), kernel.table.root);
    }

    /** What the kernel has mapped it can write, and its own root is closed to ring 3. */
    lemma KernelReach(v: nat)
      requires Valid() && T.Translate(kernel.table.memory.tables, kernel.table.root, v).Some?
      ensures var mem, root := kernel.table.memory.tables, kernel.table.root;
              T.Allows(mem, root, T.Path(v), T.WRITE_BIT) && !T.Allows(mem, root, T.Path(v), T.USER_BIT)
    {
      hide Kernel.BlocksOk, Kernel.PoolOk, Kernel.AllServed, BlocksKept, TablesHoused, HalfShared, StacksOk;
      hide Inv, Accounted, Linear;
      RootGuarded();
      TablesWritable(Now(), kernel.Tables(), v);
      ClosedAtRoot(kernel.table.memory.tables, kernel.table.root, v);
    }

    /** With the first byte reserved, nothing is allocated at address 0. */
    lemma NoneAtZero(c: Block)
      requires Valid() && c in kernel.live && kernel.buddy.base == 0 && InSome(reserved, 0)
      ensures kernel.Start(c) != 0
    {
      hide Valid, InSome;
      LiveRange(c);
      ReservedSafe(c, 0);
    }

    /** No live allocation holds an address of a block that was reserved at boot. */
    lemma ReservedSafe(c: Block, x: int)
      requires Valid() && c in kernel.live && InSome(reserved, x)
      ensures !(Lo(c) <= x < Lo(c) + kernel.live[c].bytes)
    {
      hide Encodes, Pending, Scale, Pow2, Inv, Kernel.TablesOk, Kernel.PoolOk, TablesHoused;
      LiveRange(c);
      var d :| d in reserved && Contains(d, x);
      LeavesDisjoint(kernel.buddy.tree, Root(kernel.buddy.max), c, true, d, true);
    }

    /** No live allocation overlaps a page table, of the kernel or of a process. */
    lemma TablesSafe(c: Block, f: T.Frame)
      requires Valid() && c in kernel.live && f in kernel.table.memory.tables
      ensures kernel.Start(c) + kernel.live[c].bytes <= f || f + 4096 <= kernel.Start(c)
    {
      hide Encodes, Pending, Scale, Pow2, Inv, Kernel.TablesOk, Kernel.PoolOk;
      LiveRange(c);
      assert Housed(f);
      var h :| h in homes + {kernel.pool} && FrameIn(kernel.Start(h), h.order, f);
      LeavesDisjoint(kernel.buddy.tree, Root(kernel.buddy.max), c, true, h, true);
    }
  }

  /** The kernel half is the linear map under one root entry, and every process shares that entry. */
  ghost predicate OneHalf(s: System)
  {
    && T.Translate(s.mem, s.kernel, K_VIRT) != None && HighEmpty(s.mem, s.kernel)
    && forall j :: 0 <= j < |s.procs| ==> HALF in s.procs[j].shared
  }

  lemma SupervisedRoot(mem: T.Memory, frames: set<T.Frame>, root: T.Frame)
    requires Supervised(mem, frames) && root in frames
    ensures RootClosed(mem, root)
  {
    hide T.Get;
  }

  lemma ClosedAtRoot(mem: T.Memory, root: T.Frame, v: nat)
    requires RootClosed(mem, root)
    ensures !T.Allows(mem, root, T.Path(v), T.USER_BIT)
  {
    assert T.Path(v)[..0] == [] && T.Walk(mem, root, []) == Some(root);
  }

  lemma TablesWritable(s: System, t: State, v: nat)
    requires Inv(s, t) && Supervised(s.mem, t.used) && T.Translate(s.mem, s.kernel, v).Some?
    ensures T.Allows(s.mem, s.kernel, T.Path(v), T.WRITE_BIT)
  {
    hide Owned, T.Walk, T.Path, T.Get, ProcOk;
    LowPath(v);
    var path := T.Path(v);
    forall k | 0 <= k < |path|
      ensures && T.Walk(s.mem, s.kernel, path[..k]).Some?
              && T.Has(T.Get(s.mem, T.Walk(s.mem, s.kernel, path[..k]).value, path[k]), T.WRITE_BIT)
    {
      WalkPrefix(s.mem, s.kernel, path, k);
      assert T.InRange(path[..k]);
      KernelTables(t, s.kernel, path[..k]);
    }
  }

  lemma RootUsed(s: System, t: State)
    requires Inv(s, t)
    ensures s.kernel in t.used
  {
    hide T.Get;
  }

  lemma PoolInMemory(s: System, t: State)
    requires Inv(s, t)
    ensures t.used + Set(s.free) <= s.mem.Keys
  {
    forall f | f in Set(s.free) ensures f in s.mem {
      var k :| 0 <= k < |s.free| && s.free[k] == f;
      assert T.ZeroTable(s.mem, s.free[k]);
    }
  }

  /** Mapping below the span of that entry keeps it so. */
  lemma HalfAfterMapping(s: System, s': System, p: nat)
    requires OneHalf(s) && s'.kernel == s.kernel && s'.procs == s.procs
    requires Keeps(s.mem, s'.mem, s.kernel) && SameFrom(s.mem, s'.mem, s.kernel, p) && p <= ENTRY_SPAN
    ensures OneHalf(s')
  {
    hide T.Translate;
    HighStays(s.mem, s'.mem, s.kernel, p);
  }

  /** A new process copies the entry. */
  lemma HalfAfterSpawn(s: System, t: State, s': System, frames: set<T.Frame>)
    requires OneHalf(s) && Inv(s, t) && Untouched(s, s', frames)
    requires |s'.procs| == |s.procs| + 1 && s'.procs[..|s.procs|] == s.procs
    requires s'.procs[|s.procs|].shared == PresentUpper(s.mem, s.kernel)
    ensures OneHalf(s')
  {
    hide T.Translate, Inv;
    forall w: nat ensures T.Translate(s'.mem, s'.kernel, w) == T.Translate(s.mem, s.kernel, w) {
      KernelViewSame(s, t, s', frames, w);
    }
    FirstEntry(s.mem, s.kernel);
    forall j | 0 <= j < |s'.procs| ensures HALF in s'.procs[j].shared {
      assert j < |s.procs| ==> s'.procs[j] == s'.procs[..|s.procs|][j];
    }
  }

  lemma FirstEntry(mem: T.Memory, root: T.Frame)
    requires T.Translate(mem, root, K_VIRT) != None
    ensures T.Get(mem, root, HALF) != T.EMPTY
  {
    assert T.Path(K_VIRT)[0] == HALF;
  }

  lemma OneHalfSame(s: System, t: State, j: nat, v: nat)
    requires OneHalf(s) && Inv(s, t) && j < |s.procs| && K_VIRT <= v < WORD
    ensures T.Translate(s.mem, s.procs[j].root, v) == T.Translate(s.mem, s.kernel, v)
  {
    hide T.Translate, T.Path, Inv;
    InvShared(s, t, j);
    KernelPath(v);
    UpperTranslation(s.mem, s.kernel, s.procs[j], v);
  }

  lemma KernelPath(v: nat)
    requires K_VIRT <= v < WORD
    ensures T.Path(v)[0] >= HALF && (v < Va(ENTRY_SPAN) ==> T.Path(v)[0] == HALF)
  {
  }

  /** The system once the bytes of a new block are mapped, unless they are raw memory. */
  ghost function Given(s: System, raw: bool, phys: nat, bytes: nat): Option<System>
  {
    if raw then Some(s)
    else
      var space :- Mapping(T.Space(s.mem, s.free), s.kernel, phys, bytes);
      Some(s.(mem := space.mem, free := space.free))
  }

  /** The system with a new process, its tables in the block at `tables` and its stack in the one at `stack`. */
  ghost function Created(s: System, count: nat, text: nat, tables: nat, stack: nat): Option<System>
  {
    var s1 :- Given(s, false, tables, count * 4096);
    var s2 :- Given(s1, false, stack, STACK_SIZE);
    Happen(s2, Spawn(Downward(tables, count), text, stack))
  }

  /** What stops create_process: too few frames, or one of the two allocations in blocks `c` and `d`. */
  ghost predicate CreateHalts(s: System, used: set<Block>, max: nat, base: nat, count: nat, c: Block, d: Block)
  {
    || count < 4 || !RoomFor(used, max, count * 4096)
    || Given(s, false, base + Lo(c), count * 4096).None?
    || !RoomFor(used + {c}, max, STACK_SIZE)
    || Given(Given(s, false, base + Lo(c), count * 4096).value, false, base + Lo(d), STACK_SIZE).None?
  }

  /** Each stack is a live allocation of its own, where its process has it mapped. */
  ghost predicate StacksFit(stacks: map<nat, Block>, procs: seq<Proc>, live: map<Block, Allocation>, base: nat)
  {
    && (forall j :: j in stacks ==>
          && j < |procs| && stacks[j] in live && live[stacks[j]] == Allocation(STACK_SIZE, true)
          && procs[j].stack == base + Lo(stacks[j]))
    && forall i, j :: i in stacks && j in stacks && i != j ==> stacks[i] != stacks[j]
  }

  lemma StacksMore(stacks: map<nat, Block>, procs: seq<Proc>, live: map<Block, Allocation>, base: nat, c: Block,
                   a: Allocation)
    requires StacksFit(stacks, procs, live, base) && c !in live
    ensures StacksFit(stacks, procs, live[c := a], base) && c !in stacks.Values
  {
  }

  /** It stays so when a block goes and processes are added. */
  lemma StacksAfter(stacks: map<nat, Block>, procs: seq<Proc>, procs': seq<Proc>, live: map<Block, Allocation>,
                    base: nat, c: Block)
    requires StacksFit(stacks, procs, live, base) && procs <= procs'
    ensures StacksFit(StacksLeft(stacks, c), procs', live - {c}, base)
  {
  }

  /** The stacks that are left once block `c` is gone. */
  ghost function StacksLeft(stacks: map<nat, Block>, c: Block): map<nat, Block>
  {
    map j | j in stacks && stacks[j] != c :: stacks[j]
  }

  lemma SpawnAdds(s: System, frames: seq<T.Frame>, text: nat, stack: nat)
    requires Happen(s, Spawn(frames, text, stack)).Some?
    ensures frames != []
    ensures var procs := Happen(s, Spawn(frames, text, stack)).value.procs;
            && |procs| == |s.procs| + 1 && procs[..|s.procs|] == s.procs
            && procs[|s.procs|].text == text && procs[|s.procs|].stack == stack
  {
  }

  /** Processes are not affected by the growth of the kernel's tables. */
  lemma InvAdvances(s: System, t: State, s': System, t': State)
    requires Inv(s, t) && Advances(t, t') && Owned(t', s'.kernel) && t'.s == T.Space(s'.mem, s'.free)
    requires s'.kernel == s.kernel && s'.procs == s.procs
    ensures Inv(s', t')
  {
    hide Owned, Advances, ProcOk;
    forall j | 0 <= j < |s.procs| ensures ProcOk(s', t', s'.procs[j]) {
      ProcKept(s, t, s', t', s.procs[j]);
    }
  }
}
