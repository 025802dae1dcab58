/** The page-table part of create_process, beside the kernel's table in the same physical memory. */
module Processes {
  import opened Options
  import opened Layout
  import opened PageFrames
  import opened PageAllocs
  import opened PageRanges
  import opened AddressSpaces
  import opened Paging
  import T = PageTables

  /** The system that a kernel table and the processes so far make up. */
  ghost function Now(kernel: PageTable, procs: seq<Proc>): System
    reads kernel, kernel.memory, kernel.pfdb
  {
    System(kernel.memory.tables, kernel.root, kernel.SpaceNow().free, procs)
  }

  /** Which frames are cleared does not depend on their order. */
  lemma SameZeroTables(pages: nat, count: nat)
    ensures T.ZeroTables(Region(pages, count)) == T.ZeroTables(Downward(pages, count))
    ensures Set(Downward(pages, count)) == Set(Region(pages, count))
  {
    var a, b := Region(pages, count), Downward(pages, count);
    forall f ensures f in a <==> f in b {
      if f in a {
        var i :| 0 <= i < count && a[i] == f;
        assert b[count - 1 - i] == f;
      }
      if f in b {
        var i :| 0 <= i < count && b[i] == f;
        assert a[count - 1 - i] == f;
      }
    }
  }

  /** The Spawn event, step by step. */
  lemma SpawnSteps(s: System, frames: seq<T.Frame>, text: nat, stack: nat)
    requires frames != []
    ensures var first := MapRange(T.Space(s.mem + T.ZeroTables(frames), frames[1..]), frames[0], text, text + TEXT_SIZE,
                                  TEXT_ADDR, USER_FLAGS);
            var e := Spawn(frames, text, stack);
            if first.None? then Happen(s, e) == None
            else
              var second := MapRange(first.value, frames[0], stack, stack + STACK_SIZE, STACK_ADDR, USER_FLAGS);
              if second.None? then Happen(s, e) == None
              else
                && Happen(s, e).Some? && |Happen(s, e).value.procs| == |s.procs| + 1
                && var s' := Happen(s, e).value;
                   && s' == System(CopyUpper(second.value.mem, s.kernel, frames[0]), s.kernel, s.free, s'.procs)
                   && s'.procs[|s.procs|].root == frames[0]
  {
    hide MapRange, CopyUpper, T.ZeroTables, PresentUpper;
  }

  /**
   * create_process: clear a region of frames, map text and stack through its last frame, and copy the
   * upper 256 entries of the kernel's root. In place it is exactly the Spawn event of a run.
   */
  method CreateProcess(kernel: PageTable, pages: nat, count: nat, text: nat, stack: nat, ghost procs: seq<Proc>)
    returns (ok: bool, table: PageTable)
    requires kernel.Valid() && count > 0
    modifies kernel.memory
    ensures fresh(table) && table.Valid() && table.memory == kernel.memory
    ensures fresh(table.pfdb) && fresh(table.pfdb.Repr())
    ensures ok <==> Happen(old(Now(kernel, procs)), Spawn(Downward(pages, count), text, stack)).Some?
    ensures ok ==> var s := Happen(old(Now(kernel, procs)), Spawn(Downward(pages, count), text, stack)).value;
                   s == Now(kernel, s.procs) && s.procs[|procs|].root == table.root
  {
    hide Chain, Sound, Frames, Owned, T.ZeroTables, Region, RegionOk, Set, T.Translate, MapRange, CopyUpper;
    hide PresentUpper, Downward, Happen;
    SameZeroTables(pages, count);
    SpawnSteps(Now(kernel, procs), Downward(pages, count), text, stack);
    table := new PageTable.Init(kernel.memory, pages, count);
    ghost var frames := Downward(pages, count);
    assert frames[0] == table.root && frames[1..] == table.pfdb.Value().free;
    ok := table.ContiguousMap(text, text + TEXT_SIZE, TEXT_ADDR, USER_FLAGS);
    if ok {
      ok := table.ContiguousMap(stack, stack + STACK_SIZE, STACK_ADDR, USER_FLAGS);
      if ok {
        kernel.memory.tables := CopyUpper(kernel.memory.tables, kernel.root, table.root);
      }
    }
  }
}
