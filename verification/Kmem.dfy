/** kmalloc and kfree: the buddy allocator joined to the kernel's page table. */
module Kmem {
  import opened Options
  import opened Powers
  import opened BuddyTree
  import opened BuddySlots
  import opened BuddyRange
  import opened BuddyFit
  import opened Buddy
  import opened PageAllocs
  import opened PageRanges
  import opened Paging
  import opened PageFrames
  import T = PageTables

  /** VIRT_ADDR_KERNEL_START: physical address 0 in the kernel half. */
  const K_VIRT: nat := 0xffff_8000_0000_0000

  /** PAGE_PRESENT_BIT | PAGE_READ_WRITE_BIT */
  const KERNEL_FLAGS: nat := 3

  /** What one root entry spans. */
  const ENTRY_SPAN: nat := 0x80_0000_0000

  /** Physical addresses that a table entry can hold. */
  const PHYS_LIMIT: nat := 0x100_0000_0000

  function Va(p: nat): nat { K_VIRT + p }

  /** Every mapped kernel-half address translates to itself minus the kernel base. */
  ghost predicate Linear(mem: T.Memory, root: T.Frame)
  {
    forall w: nat :: K_VIRT <= w < WORD ==> T.Translate(mem, root, w) in {None, Some(w - K_VIRT)}
  }

  /** Every byte of the physical range is mapped at its kernel address. */
  ghost predicate AllMapped(mem: T.Memory, root: T.Frame, lo: nat, hi: nat)
  {
    forall w: nat :: Va(lo) <= w < Va(hi) ==> T.Translate(mem, root, w) == Some(w - K_VIRT)
  }

  /** The run of pages that kmalloc maps, inside the kernel half. */
  lemma KernelRun(p: nat, pEnd: nat, w: nat)
    requires p % 4096 == 0 && p <= pEnd < PHYS_LIMIT && K_VIRT <= w < WORD
    ensures RunFits(p, pEnd, Va(p))
    ensures InRun(p, pEnd, Va(p), w) <==> p <= w - K_VIRT && (w - K_VIRT) / 4096 * 4096 <= pEnd
    ensures InRun(p, pEnd, Va(p), w) ==>
              T.Prep(p + (T.PageOf(w) - T.PageOf(Va(p))) * 4096) * 4096 + w % 4096 == w - K_VIRT
  {
    KernelPage(p);
    KernelPage(w - K_VIRT);
    var x := w - K_VIRT;
    assert w % 4096 == x % 4096;
    if InRun(p, pEnd, Va(p), w) {
      PrepExact(x / 4096 * 4096);
    }
  }

  lemma KernelPage(x: nat)
    requires x < 0x8000_0000_0000
    ensures T.PageOf(Va(x)) == 0x8_0000_0000 + x / 4096
  {
    assert Va(x) / 4096 == 0xf_fff8_0000_0000 + x / 4096;
  }

  /** Whatever was mapped stays mapped where it was. */
  ghost predicate Keeps(mem: T.Memory, mem': T.Memory, root: T.Frame)
  {
    forall w: nat :: T.Translate(mem, root, w) != None ==> T.Translate(mem', root, w) == T.Translate(mem, root, w)
  }

  /** From physical address `p` on, the kernel half is as it was. */
  ghost predicate SameFrom(mem: T.Memory, mem': T.Memory, root: T.Frame, p: nat)
  {
    forall w: nat :: Va(p) <= w < WORD ==> T.Translate(mem', root, w) == T.Translate(mem, root, w)
  }

  lemma KeepsMapped(mem: T.Memory, mem': T.Memory, root: T.Frame, lo: nat, hi: nat)
    requires Keeps(mem, mem', root) && AllMapped(mem, root, lo, hi)
    ensures AllMapped(mem', root, lo, hi)
  {
  }

  lemma MappedWithin(mem: T.Memory, root: T.Frame, lo: nat, hi: nat, lo': nat, hi': nat)
    requires AllMapped(mem, root, lo, hi) && lo <= lo' && hi' <= hi
    ensures AllMapped(mem, root, lo', hi')
  {
  }

  /** Mapping a run linearly keeps the kernel half linear, maps the whole run and unmaps nothing. */
  lemma LinearKept(mem: T.Memory, mem': T.Memory, root: T.Frame, p: nat, pEnd: nat)
    requires Linear(mem, root) && p % 4096 == 0 && p <= pEnd < PHYS_LIMIT
    requires forall w: nat :: T.Translate(mem', root, w) == RangeMapped(mem, root, p, pEnd, Va(p), w)
    ensures Linear(mem', root) && AllMapped(mem', root, p, pEnd) && Keeps(mem, mem', root)
    ensures SameFrom(mem, mem', root, pEnd + 4096) && T.Translate(mem', root, Va(p)) != None
  {
    hide T.Translate, T.PageOf, T.Prep;
    forall w: nat | K_VIRT <= w < WORD
      ensures T.Translate(mem', root, w)
           == if InRun(p, pEnd, Va(p), w) then Some(w - K_VIRT) else T.Translate(mem, root, w)
    {
      KernelRun(p, pEnd, w);
    }
    forall w: nat | Va(p) <= w < Va(pEnd) ensures InRun(p, pEnd, Va(p), w) {
      KernelRun(p, pEnd, w);
    }
    forall w: nat | Va(pEnd + 4096) <= w < WORD ensures !InRun(p, pEnd, Va(p), w) {
      KernelRun(p, pEnd, w);
    }
    KernelRun(p, pEnd, Va(p));
  }

  /** Some block can be given for the request. */
  ghost predicate RoomFor(used: set<Block>, max: nat, bytes: nat)
  {
    1 <= bytes <= Pow2(max) && Room(used, Root(max), OrderFor(bytes))
  }

  /** A block that the allocator can give for the request: of the least sufficient order, and clear of all others. */
  ghost predicate Grantable(used: set<Block>, max: nat, bytes: nat, c: Block)
  {
    bytes >= 1 && c.order == OrderFor(bytes) && c !in used && Inside(c, Root(max)) && Clear(used, c)
  }

  /** A leaf that has become used is such a block. */
  lemma NewBlock(t: Tree, max: nat, used: set<Block>, bytes: nat, c: Block)
    requires Fits(t, max) && Live(t, Root(max)) == used + {c} && c !in used && bytes >= 1 && c.order == OrderFor(bytes)
    ensures Grantable(used, max, bytes, c)
  {
    hide Leaves, Fits, OrderFor;
    LeavesInside(t, Root(max), true);
    forall d | d in used ensures Disjoint(d, c) {
      LeavesDisjoint(t, Root(max), c, true, d, true);
    }
  }

  /** Every entry in these tables is writable for the kernel and closed to ring 3. */
  ghost predicate Supervised(mem: T.Memory, frames: set<T.Frame>)
  {
    forall f, i: nat :: f in frames ==>
      var e := T.Get(mem, f, i); e == T.EMPTY || (T.Has(e, T.WRITE_BIT) && !T.Has(e, T.USER_BIT))
  }

  /** Mapping with kernel flags keeps it so. */
  lemma SupervisedKept(mem: T.Memory, mem': T.Memory, frames: set<T.Frame>, flags: nat)
    requires Supervised(mem, frames) && Marked(mem, mem', flags) && flags % 8 == 3
    ensures Supervised(mem', frames)
  {
    hide T.Get;
    assert flags % 4096 / 2 % 2 == 1 && flags % 4096 / 4 % 2 == 0;
  }

  lemma ZeroSupervised(regions: seq<T.Frame>, frames: set<T.Frame>)
    ensures Supervised(T.ZeroTables(regions), frames)
  {
  }

  datatype Allocation = Allocation(bytes: nat, mapped: bool)

  /** The frame lies in the block, which starts at `start`. */
  predicate FrameIn(start: nat, order: nat, f: T.Frame) { start <= f && f + 4096 <= start + Pow2(order) }

  class Kernel {
    const buddy: Allocator
    const table: PageTable
    /** Where the live tables sit. */
    ghost var at: T.Places
    /** The block that holds the frames of the page tables. */
    ghost const pool: Block
    /** The blocks that kmalloc has handed out. */
    ghost var live: map<Block, Allocation>

    /** The tables of the kernel's root; the frames they use are those in the database's used list. */
    ghost function Tables(): State
      reads this`at, table, table.memory, table.pfdb
    {
      State(table.SpaceNow(), at, Set(table.pfdb.Value().used))
    }

    ghost function TableFrames(): set<T.Frame>
      reads table.pfdb
    {
      Set(table.pfdb.Value().used) + Set(table.pfdb.Value().free)
    }

    ghost function Start(c: Block): nat
    {
      buddy.base + Lo(c)
    }

    /** One page above the content region. */
    ghost function Top(): nat
    {
      buddy.base + Pow2(buddy.max) + 4096
    }

    /** A live allocation fits its block, and if it is mapped, all its bytes are. */
    ghost predicate Served(c: Block)
      requires c in live
      reads this`live, table, table.memory
    {
      && 1 <= live[c].bytes <= Pow2(c.order)
      && (live[c].mapped ==> AllMapped(table.memory.tables, table.root, Start(c), Start(c) + live[c].bytes))
    }

    ghost predicate AllServed()
      reads this`live, table, table.memory
    {
      forall c :: c in live ==> Served(c)
    }

    /** The buddy allocator's side. */
    ghost predicate BlocksOk()
      reads this`live, buddy, buddy.slots
    {
      && buddy.Valid() && buddy.base % 4096 == 0 && buddy.base + Pow2(buddy.max) < PHYS_LIMIT
      && live.Keys <= buddy.Blocks() && pool in buddy.Blocks() && pool !in live
    }

    /** The page tables' side: the used list is what the root leads to, and the kernel half is linear. */
    ghost predicate TablesOk()
      reads this`at, table, table.memory, table.pfdb, table.pfdb.Repr()
    {
      table.Valid() && Accounted(table, at) && Linear(table.memory.tables, table.root)
    }

    ghost predicate PoolOk()
      reads table.pfdb
    {
      forall f :: f in TableFrames() ==> FrameIn(Start(pool), pool.order, f)
    }

    ghost predicate Guarded()
      reads table, table.memory, table.pfdb
    {
      Supervised(table.memory.tables, TableFrames())
    }

    ghost predicate Valid()
      reads this, buddy, buddy.slots, table, table.memory, table.pfdb, table.pfdb.Repr()
    {
      BlocksOk() && TablesOk() && PoolOk() && AllServed() && Guarded()
    }

    constructor Join(buddy: Allocator, table: PageTable, ghost at: T.Places, ghost pool: Block)
      requires buddy.Valid() && table.Valid()
      requires buddy.base % 4096 == 0 && buddy.base + Pow2(buddy.max) < PHYS_LIMIT
      requires Accounted(table, at) && Linear(table.memory.tables, table.root)
      requires pool in buddy.Blocks()
      requires forall f :: f in Set(table.pfdb.Value().used) + Set(table.pfdb.Value().free) ==>
                 FrameIn(buddy.base + Lo(pool), pool.order, f)
      requires Supervised(table.memory.tables, Set(table.pfdb.Value().used) + Set(table.pfdb.Value().free))
      ensures Valid() && live == map[] && this.buddy == buddy && this.table == table && this.pool == pool
      ensures this.at == at
    {
      hide Encodes, Leaves, Fits, Pending, Scale, Pow2, Owned, Linear, AllMapped, Chain, Sound, Frames, Set, FrameIn;
      hide Supervised;
      this.buddy, this.table, this.at, this.pool, this.live := buddy, table, at, pool, map[];
    }

    /** Whether the buddy allocator has a block for the request. */
    ghost predicate HasRoom(bytes: nat)
      requires buddy.Formed()
      reads buddy, buddy.slots
    {
      RoomFor(buddy.Blocks(), buddy.max, bytes)
    }

    /** The allocating half of kmalloc: a new block, of the order that the request needs. */
    method Grant(bytes: nat) returns (ok: bool, phys: nat, ghost c: Block)
      requires BlocksOk()
      modifies buddy`tree, buddy.slots
      ensures BlocksOk()
      ensures ok <==> old(HasRoom(bytes))
      ensures !ok ==> buddy.Blocks() == old(buddy.Blocks()) && buddy.tree == old(buddy.tree)
      ensures ok ==> c !in old(buddy.Blocks()) && buddy.Blocks() == old(buddy.Blocks()) + {c}
      ensures ok ==> phys == Start(c) && phys % 4096 == 0 && phys + Pow2(c.order) <= buddy.base + Pow2(buddy.max)
      ensures ok ==> 1 <= bytes <= Pow2(c.order) && c.order == OrderFor(bytes)
      ensures ok ==> c != pool && phys + bytes < PHYS_LIMIT
      ensures ok ==> Grantable(old(buddy.Blocks()), buddy.max, bytes, c)
    {
      hide Encodes, Leaves, Fits, Pending, Scale, Pow2, Room, BestFit, FirstIn, OrderFor, Grantable;
      ok, phys := buddy.Alloc(bytes);
      if !ok {
        return false, 0, pool;
      }
      c := GrantedBlock(old(buddy.tree), buddy.max, OrderFor(bytes), phys - buddy.base, buddy.Blocks());
      BlockSize(bytes);
      BlockRange(buddy, c);
      NewBlock(buddy.tree, buddy.max, old(buddy.Blocks()), bytes, c);
    }

    /**
     * kmalloc: take a block and, unless the caller wants raw memory, map its bytes in the kernel
     * half. It halts (not `ok`) exactly when there is no block, or no frame for a missing table.
     */
    method Kmalloc(bytes: nat, raw: bool) returns (ok: bool, ptr: nat, ghost c: Block)
      requires Valid()
      modifies this`at, this`live, buddy`tree, buddy.slots, table.memory, table.pfdb, table.pfdb.Repr()
      ensures ok <==> old(HasRoom(bytes)) && (raw || Mapping(old(table.SpaceNow()), table.root, Start(c), bytes).Some?)
      ensures old(HasRoom(bytes)) ==> Grantable(old(buddy.Blocks()), buddy.max, bytes, c)
      ensures ok ==> c !in old(buddy.Blocks())
      ensures ok ==> Valid() && ptr == Va(Start(c)) && table.pfdb.Repr() == old(table.pfdb.Repr())
      ensures ok ==> buddy.Blocks() == old(buddy.Blocks()) + {c} && live == old(live)[c := Allocation(bytes, !raw)]
      ensures ok ==> TableFrames() == old(TableFrames()) && Advances(old(Tables()), Tables())
      ensures ok && raw ==> table.SpaceNow() == old(table.SpaceNow())
      ensures ok && !raw ==> Some(table.SpaceNow()) == Mapping(old(table.SpaceNow()), table.root, Start(c), bytes)
      ensures ok ==> Keeps(old(table.memory.tables), table.memory.tables, table.root)
      ensures ok ==> SameFrom(old(table.memory.tables), table.memory.tables, table.root, Top())
      ensures !old(HasRoom(bytes)) ==> Valid() && Tables() == old(Tables()) && live == old(live)
      ensures !old(HasRoom(bytes)) ==> buddy.Blocks() == old(buddy.Blocks())
    {
      hide BlocksOk, TablesOk, PoolOk, AllServed, HasRoom, Owned, AllMapped, Chain, Sound, Frames, Set;
      hide Advances, MapRange, OrderFor, Allocator.Valid, Allocator.Formed, Allocator.Blocks, T.Translate, Pow2;
      hide Grantable, Guarded;
      var phys;
      ok, phys, c := Grant(bytes);
      if !ok {
        return false, 0, c;
      }
      if raw {
        AdvancesSelf(Tables());
      } else {
        ok := MapBytes(phys, bytes, KERNEL_FLAGS);
        if !ok {
          return false, 0, c;
        }
      }
      Record(c, Allocation(bytes, !raw));
      ptr := Va(phys);
    }

    /** A new block joins the live allocations. */
    ghost method Record(c: Block, a: Allocation)
      requires BlocksOk() && TablesOk() && PoolOk() && AllServed() && Guarded()
      requires c in buddy.Blocks() && c != pool && 1 <= a.bytes <= Pow2(c.order)
      requires a.mapped ==> AllMapped(table.memory.tables, table.root, Start(c), Start(c) + a.bytes)
      modifies this`live
      ensures Valid() && live == old(live)[c := a]
    {
      hide Encodes, Leaves, Fits, Pending, Scale, Pow2, Owned, Linear, AllMapped, Chain, Sound, Frames, Set, FrameIn;
      hide Supervised;
      live := live[c := a];
    }

    /** The mapping half of kmalloc. */
    method MapBytes(phys: nat, bytes: nat, flags: nat) returns (ok: bool)
      requires TablesOk() && AllServed() && PoolOk() && flags % 2 == 1
      requires phys % 4096 == 0 && phys + bytes < PHYS_LIMIT
      modifies this`at, table.memory, table.pfdb, table.pfdb.Repr()
      ensures ok <==> MapRange(old(table.SpaceNow()), table.root, phys, phys + bytes, Va(phys), flags).Some?
      ensures ok ==> TablesOk() && AllServed() && PoolOk() && table.pfdb.Repr() == old(table.pfdb.Repr())
      ensures ok ==> TableFrames() == old(TableFrames()) && Advances(old(Tables()), Tables())
      ensures ok ==> table.memory.tables.Keys == old(table.memory.tables.Keys)
      ensures ok ==> AllMapped(table.memory.tables, table.root, phys, phys + bytes)
      ensures ok ==> var s := MapRange(old(table.SpaceNow()), table.root, phys, phys + bytes, Va(phys), flags);
                     s == Some(table.SpaceNow())
      ensures ok ==> T.Translate(table.memory.tables, table.root, Va(phys)) != None
      ensures ok ==> SameFrom(old(table.memory.tables), table.memory.tables, table.root, phys + bytes + 4096)
      ensures ok ==> Keeps(old(table.memory.tables), table.memory.tables, table.root)
      ensures ok && flags % 8 == 3 && old(Guarded()) ==> Guarded()
    {
      hide Supervised, Marked;
      hide Owned, Linear, AllMapped, Keeps, SameFrom, Chain, Sound, Frames, MapRange, Set, Advances, FrameIn;
      hide T.Translate;
      ghost var t := Tables();
      ok := table.ContiguousMap(phys, phys + bytes, Va(phys), flags);
      if ok {
        KernelRun(phys, phys + bytes, Va(phys));
        ghost var t' := MapRangeMaps(t, table.root, phys, phys + bytes, Va(phys), flags);
        at := t'.at;
        LinearKept(t.s.mem, t'.s.mem, table.root, phys, phys + bytes);
        AdvancesFrames(t, t');
        OwnedApart(t', table.root);
        UsedFollows(old(table.pfdb.Value()), table.pfdb.Value(), t.used, t'.used);
        assert Tables() == t';
        forall c | c in live ensures Served(c) {
          StillServed(c, t.s.mem);
        }
        MapRangeMarks(t.s, table.root, phys, phys + bytes, Va(phys), flags);
        if flags % 8 == 3 && Supervised(t.s.mem, TableFrames()) {
          SupervisedKept(t.s.mem, t'.s.mem, TableFrames(), flags);
        }
      }
    }

    lemma StillServed(c: Block, mem: T.Memory)
      requires c in live && Keeps(mem, table.memory.tables, table.root) && 1 <= live[c].bytes <= Pow2(c.order)
      requires live[c].mapped ==> AllMapped(mem, table.root, Start(c), Start(c) + live[c].bytes)
      ensures Served(c)
    {
      if live[c].mapped {
        KeepsMapped(mem, table.memory.tables, table.root, Start(c), Start(c) + live[c].bytes);
      }
    }

    /** kfree: give the block back; the mappings stay. It halts for physical address 0. */
    method Kfree(ptr: nat, ghost c: Block) returns (ok: bool)
      requires Valid() && c in live && ptr == Va(Start(c))
      modifies this`live, buddy`tree, buddy.slots
      ensures Valid()
      ensures ok <==> ptr != K_VIRT
      ensures ok ==> live == old(live) - {c} && buddy.Blocks() == old(buddy.Blocks()) - {c}
      ensures !ok ==> live == old(live) && buddy.Blocks() == old(buddy.Blocks())
    {
      hide Encodes, Leaves, Fits, Pending, Scale, Pow2, Owned, Linear, AllMapped, Chain, Sound, Frames, Set, LeafAt;
      hide Accounted, FrameIn, Supervised;
      LeafOfLive(buddy.tree, Root(buddy.max), c);
      ok := buddy.Release(ptr - K_VIRT);
      if ok {
        live := live - {c};
      }
    }

    /** Two live allocations share no physical address. */
    lemma LiveDisjoint(c: Block, d: Block)
      requires Valid() && c in live && d in live && c != d
      ensures Start(c) + live[c].bytes <= Start(d) || Start(d) + live[d].bytes <= Start(c)
    {
      LeavesDisjoint(buddy.tree, Root(buddy.max), c, true, d, true);
    }

    /** No live allocation overlaps a frame of the kernel's page tables. */
    lemma TablesSafe(c: Block, f: T.Frame)
      requires Valid() && c in live && f in TableFrames()
      ensures Start(c) + live[c].bytes <= f || f + 4096 <= Start(c)
    {
      LeavesDisjoint(buddy.tree, Root(buddy.max), c, true, pool, true);
    }

    /** A frame is in the used list if and only if the kernel's root leads to it. */
    lemma UsedFrames(f: T.Frame)
      requires Valid()
      ensures f in table.pfdb.Value().used <==> Reached(table.memory.tables, table.root, f)
    {
      UsedIsReached(table, at, f);
    }
  }

  /** Map the bytes at their kernel addresses, if the pool has a frame for every missing table. */
  ghost function Mapping(s: T.Space, root: T.Frame, phys: nat, bytes: nat): Option<T.Space>
  {
    MapRange(s, root, phys, phys + bytes, Va(phys), KERNEL_FLAGS)
  }

  /** The block behind the address that buddy_alloc returns. */
  lemma GrantedBlock(t: Tree, max: nat, k: nat, off: int, blocks: set<Block>) returns (c: Block)
    requires Fits(t, max)
    requires exists f :: BestFit(t, Root(max), k, f) && f.order >= k
               && var c := FirstIn(f, k); off == Lo(c) && c !in Live(t, Root(max)) && blocks == Live(t, Root(max)) + {c}
    ensures c.order == k && off == Lo(c) && c !in Live(t, Root(max)) && blocks == Live(t, Root(max)) + {c}
  {
    var f :| BestFit(t, Root(max), k, f) && f.order >= k
               && var c := FirstIn(f, k);
                  off == Lo(c) && c !in Live(t, Root(max)) && blocks == Live(t, Root(max)) + {c};
    c := FirstIn(f, k);
  }

  /** PAGE_PRESENT_BIT | PAGE_READ_WRITE_BIT | PAGE_GLOBAL_BIT */
  const BOOT_FLAGS: nat := 0x103

  lemma NothingMapped(mem: T.Memory, root: T.Frame)
    requires forall w: nat :: T.Translate(mem, root, w) == None
    ensures Linear(mem, root)
  {
  }

  /** The frames of a region lie in the block that was allocated for it. */
  lemma RegionInBlock(phys: nat, count: nat, size: nat, f: nat)
    requires count * 4096 <= size && f in Set(Region(phys, count))
    ensures phys <= f && f + 4096 <= phys + size
  {
    var i :| 0 <= i < count && Region(phys, count)[i] == f;
  }

  lemma ZeroKeys(frames: seq<T.Frame>)
    ensures T.ZeroTables(frames).Keys == Set(frames)
  {
  }

  /** The tables and the free list that paging_init leaves in memory that held no table. */
  ghost function FirstSpace(phys: nat, count: nat): T.Space
    requires count > 0
  {
    T.Space(T.ZeroTables(Region(phys, count)), Downward(phys, count)[1..])
  }

  /** The two mappings of paging_setup find the frames they need. */
  ghost predicate BootMaps(phys: nat, count: nat, kernelEnd: nat)
    requires count > 0
  {
    var root := Downward(phys, count)[0];
    var first := MapRange(FirstSpace(phys, count), root, 0, kernelEnd, Va(0), BOOT_FLAGS);
    && first.Some?
    && MapRange(first.value, root, phys, phys + count * 4096, Va(phys), BOOT_FLAGS).Some?
  }

  /** Nothing is mapped in the kernel half beyond the first root entry. */
  ghost predicate HighEmpty(mem: T.Memory, root: T.Frame)
  {
    forall w: nat :: Va(ENTRY_SPAN) <= w < WORD ==> T.Translate(mem, root, w) == None
  }

  lemma HighStays(mem: T.Memory, mem': T.Memory, root: T.Frame, p: nat)
    requires HighEmpty(mem, root) && SameFrom(mem, mem', root, p) && p <= ENTRY_SPAN
    ensures HighEmpty(mem', root)
  {
  }

  /** The first half of paging_setup: a raw block becomes the pool of table frames. */
  method TablesSetup(buddy: Allocator, memory: PhysMemory, count: nat) returns (ok: bool, phys: nat, k: Kernel?)
    requires buddy.Valid() && buddy.base % 4096 == 0 && buddy.base + Pow2(buddy.max) < 0x10_0000_0000
    requires memory.tables == map[] && count > 0
    modifies buddy`tree, buddy.slots, memory
    ensures ok <==> old(RoomFor(buddy.Blocks(), buddy.max, count * 4096))
    ensures ok ==> k != null && fresh(k) && fresh(k.table) && fresh(k.table.pfdb) && fresh(k.table.pfdb.Repr())
    ensures ok ==> k.Valid() && k.buddy == buddy && k.table.memory == memory && k.live == map[]
    ensures ok ==> k.pool !in old(buddy.Blocks()) && buddy.Blocks() == old(buddy.Blocks()) + {k.pool}
    ensures ok ==> k.pool.order == OrderFor(count * 4096) && phys == k.Start(k.pool)
    ensures ok ==> phys % 4096 == 0 && phys + count * 4096 < 0x10_0000_0000
    ensures ok ==> k.TableFrames() == memory.tables.Keys == Set(Region(phys, count))
    ensures ok ==> k.table.SpaceNow() == FirstSpace(phys, count) && k.table.root == Downward(phys, count)[0]
    ensures ok ==> forall w: nat :: T.Translate(memory.tables, k.table.root, w) == None
  {
    hide Encodes, Leaves, Fits, Pending, Scale, Pow2, Room, BestFit, FirstIn, Owned, Linear, Chain, Sound, Frames;
    hide Set, Region, OrderFor, FrameIn, Supervised;
    ok, phys := buddy.Alloc(count * 4096);
    if !ok {
      return false, 0, null;
    }
    ghost var c := GrantedBlock(old(buddy.tree), buddy.max, OrderFor(count * 4096), phys - buddy.base, buddy.Blocks());
    BlockSize(count * 4096);
    BlockRange(buddy, c);
    var table := new PageTable.Init(memory, phys, count);
    NothingMapped(memory.tables, table.root);
    PoolInBlock(phys, count, c.order, table.root, table.SpaceNow().free);
    OneUsed(table.root);
    ZeroKeys(Region(phys, count));
    assert memory.tables == T.ZeroTables(Region(phys, count));
    ZeroSupervised(Region(phys, count), Set(table.pfdb.Value().used) + Set(table.pfdb.Value().free));
    k := new Kernel.Join(buddy, table, map[table.root := []], c);
  }

  /** Every frame of the page tables is mapped at its kernel address. */
  ghost predicate FramesMapped(k: Kernel)
    reads k, k.table, k.table.memory, k.table.pfdb
  {
    forall f :: f in k.TableFrames() ==> AllMapped(k.table.memory.tables, k.table.root, f, f + 4096)
  }

  lemma RegionMapped(mem: T.Memory, root: T.Frame, phys: nat, count: nat, f: T.Frame)
    requires AllMapped(mem, root, phys, phys + count * 4096) && f in Set(Region(phys, count))
    ensures AllMapped(mem, root, f, f + 4096)
  {
    RegionInBlock(phys, count, count * 4096, f);
    MappedWithin(mem, root, phys, phys + count * 4096, f, f + 4096);
  }

  /**
   * paging_setup: take the pool, then map the kernel image and the pool. Every later kmalloc
   * and kfree starts from the state this leaves.
   */
  method PagingSetup(buddy: Allocator, memory: PhysMemory, count: nat, kernelEnd: nat)
    returns (ok: bool, phys: nat, k: Kernel?)
    requires buddy.Valid() && buddy.base % 4096 == 0 && buddy.base + Pow2(buddy.max) < 0x10_0000_0000
    requires memory.tables == map[] && count > 0 && kernelEnd < PHYS_LIMIT
    modifies buddy`tree, buddy.slots, memory
    ensures ok <==> old(RoomFor(buddy.Blocks(), buddy.max, count * 4096)) && BootMaps(phys, count, kernelEnd)
    ensures ok ==> k != null && fresh(k) && fresh(k.table) && fresh(k.table.pfdb) && fresh(k.table.pfdb.Repr())
    ensures ok ==> k.Valid() && k.buddy == buddy && k.table.memory == memory && k.live == map[]
    ensures ok ==> k.pool !in old(buddy.Blocks()) && buddy.Blocks() == old(buddy.Blocks()) + {k.pool}
    ensures ok ==> phys == k.Start(k.pool) && k.pool.order == OrderFor(count * 4096)
    ensures ok ==> AllMapped(memory.tables, k.table.root, 0, kernelEnd) && FramesMapped(k)
    ensures ok ==> memory.tables.Keys == k.TableFrames()
    ensures ok ==> T.Translate(memory.tables, k.table.root, K_VIRT) != None
    ensures ok && kernelEnd + 4096 <= ENTRY_SPAN ==> HighEmpty(memory.tables, k.table.root)
  {
    hide Kernel.BlocksOk, Kernel.TablesOk, Kernel.PoolOk, Kernel.AllServed, Allocator.Valid, Allocator.Formed;
    hide Allocator.Blocks, Owned, AllMapped, Chain, Sound, Frames, Set, Room, Keeps, Advances, OrderFor, Region;
    hide MapRange, Pow2, T.Translate, FirstSpace, Downward, Supervised;
    ok, phys, k := TablesSetup(buddy, memory, count);
    if ok {
      ghost var mem0 := memory.tables;
      assert HighEmpty(mem0, k.table.root);
      hide HighEmpty, SameFrom;
      ok := k.MapBytes(0, kernelEnd, BOOT_FLAGS);
      if ok {
        ghost var mem := memory.tables;
        ok := k.MapBytes(phys, count * 4096, BOOT_FLAGS);
        if ok {
          BootMapped(mem0, mem, memory.tables, k.table.root, phys, count, kernelEnd);
          forall f | f in k.TableFrames() ensures AllMapped(memory.tables, k.table.root, f, f + 4096) {
            RegionMapped(memory.tables, k.table.root, phys, count, f);
          }
        }
      }
    }
  }

  /** What the two mappings of paging_setup leave, one after the other. */
  lemma BootMapped(mem0: T.Memory, mem: T.Memory, mem': T.Memory, root: T.Frame, phys: nat, count: nat, kernelEnd: nat)
    requires HighEmpty(mem0, root) && SameFrom(mem0, mem, root, kernelEnd + 4096)
    requires SameFrom(mem, mem', root, phys + count * 4096 + 4096) && Keeps(mem, mem', root)
    requires AllMapped(mem, root, 0, kernelEnd) && T.Translate(mem, root, K_VIRT) != None
    requires phys + count * 4096 + 4096 <= ENTRY_SPAN
    ensures AllMapped(mem', root, 0, kernelEnd) && T.Translate(mem', root, K_VIRT) != None
    ensures kernelEnd + 4096 <= ENTRY_SPAN ==> HighEmpty(mem', root)
  {
    hide T.Translate;
    KeepsMapped(mem, mem', root, 0, kernelEnd);
    if kernelEnd + 4096 <= ENTRY_SPAN {
      HighStays(mem0, mem, root, kernelEnd + 4096);
      HighStays(mem, mem', root, phys + count * 4096 + 4096);
    }
  }

  lemma PoolInBlock(phys: nat, count: nat, order: nat, root: nat, free: seq<nat>)
    requires count > 0 && count * 4096 <= Pow2(order) && root == phys + (count - 1) * 4096
    requires Set(free) == Set(Region(phys, count)) - {root}
    ensures {root} + Set(free) == Set(Region(phys, count))
    ensures forall f :: f in {root} + Set(free) ==> FrameIn(phys, order, f)
  {
    RootInRegion(phys, count);
    forall f | f in {root} + Set(free) ensures FrameIn(phys, order, f) {
      RegionInBlock(phys, count, Pow2(order), f);
    }
  }

  lemma BlockRange(buddy: Allocator, c: Block)
    requires buddy.Formed() && c in buddy.Blocks() && buddy.base % 4096 == 0
    ensures (buddy.base + Lo(c)) % 4096 == 0 && buddy.base + Lo(c) + Pow2(c.order) <= buddy.base + Pow2(buddy.max)
  {
    hide Encodes, Leaves, Pow2, Scale, Fits;
    LeavesInside(buddy.tree, Root(buddy.max), true);
    InsideInterval(c, Root(buddy.max));
    LoPaged(c);
    buddy.RootSlot();
  }
}
