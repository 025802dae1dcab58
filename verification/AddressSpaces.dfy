/** The kernel's page table and the processes that share its upper half, over whole runs. */
module AddressSpaces {
  import opened Layout
  import opened Options
  import opened PageTables
  import opened PageAllocs
  import opened PageRanges

  /** First root index of the kernel half. */
  const HALF: nat := 256

  /**
   * A process: its root, the frames of its own pool, and which kernel root entries existed when
   * create_process copied them.
   */
  datatype Proc = Proc(root: Frame, frames: set<Frame>, shared: set<nat>, text: nat, stack: nat)

  datatype System = System(mem: Memory, kernel: Frame, free: seq<Frame>, procs: seq<Proc>)

  datatype Event =
    | KernelMap(v: nat, p: nat, flags: nat)
    | Spawn(frames: seq<Frame>, text: nat, stack: nat)

  /** The memcpy of the 256 upper root entries. */
  function CopyUpper(mem: Memory, from: Frame, to: Frame): Memory
  {
    if from in mem && to in mem && |mem[from]| == |mem[to]| == ENTRIES
    then mem[to := mem[to][..HALF] + mem[from][HALF..]]
    else mem
  }

  function PresentUpper(mem: Memory, root: Frame): set<nat>
  {
    set i: nat | HALF <= i < ENTRIES && Get(mem, root, i) != EMPTY
  }

  /** One event; None when the kernel halts for want of a frame. */
  function Happen(s: System, e: Event): Option<System>
  {
    match e
    case KernelMap(v, p, flags) =>
      var sp :- PageAlloc(Space(s.mem, s.free), s.kernel, v, p, flags);
      Some(s.(mem := sp.mem, free := sp.free))
    case Spawn(frames, text, stack) =>
      if frames == [] then None
      else
        var sp :- MapProcess(Space(s.mem + ZeroTables(frames), frames[1..]), frames[0], text, stack);
        var p := Proc(frames[0], Set(frames), PresentUpper(sp.mem, s.kernel), text, stack);
        Some(s.(mem := CopyUpper(sp.mem, s.kernel, frames[0]), procs := s.procs + [p]))
  }

  /** What the kernel hands to its own routines: present mappings, and frames that nobody uses. */
  ghost predicate Sane(s: System, e: Event)
  {
    match e
    case KernelMap(v, p, flags) => flags % 2 == 1
    case Spawn(frames, text, stack) =>
      && text % 4096 == 0 && stack % 4096 == 0
      && text + 0x9000 <= 0x100_0000_0000 && stack + 0x3000 <= 0x100_0000_0000
      && (forall k :: 0 <= k < |frames| ==> FrameOk(frames[k]) && frames[k] !in s.mem)
      && (forall j, k :: 0 <= j < k < |frames| ==> frames[j] != frames[k])
  }

  predicate Low(path: seq<nat>) { path == [] || path[0] < HALF }

  /** Walks through the user half stay in the process's own frames and never come back to the root. */
  ghost predicate LowTables(mem: Memory, p: Proc)
  {
    forall path :: |path| <= 3 && InRange(path) && Low(path) && Walk(mem, p.root, path).Some? ==>
      Walk(mem, p.root, path).value in p.frames && (path == [] || Walk(mem, p.root, path).value != p.root)
  }

  /** The user half is what create_process mapped. */
  ghost predicate UserView(mem: Memory, p: Proc)
  {
    forall w: nat :: w < 0x8000_0000_0000 ==> Translate(mem, p.root, w) == ProcessView(p.text, p.stack, w)
  }

  /** The upper root entries are the kernel's where they were copied, and empty elsewhere. */
  ghost predicate UpperShared(mem: Memory, kernel: Frame, p: Proc)
  {
    && (forall i :: HALF <= i < ENTRIES && i in p.shared ==> Get(mem, p.root, i) == Get(mem, kernel, i) != EMPTY)
    && (forall i :: HALF <= i < ENTRIES && i !in p.shared ==> Get(mem, p.root, i) == EMPTY)
  }

  /** What create_process wrote in the process's own tables is open to ring 3. */
  ghost predicate UserMarked(mem: Memory, p: Proc)
  {
    forall f, i: nat :: f in p.frames && (f != p.root || i < HALF) ==>
      Get(mem, f, i) == EMPTY || Get(mem, f, i).flags == USER_FLAGS
  }

  ghost predicate ProcOk(s: System, t: State, p: Proc)
  {
    && p.root in p.frames && p.frames <= s.mem.Keys && p.frames !! t.used + Set(s.free)
    && LowTables(s.mem, p) && UserView(s.mem, p) && UpperShared(s.mem, s.kernel, p) && UserMarked(s.mem, p)
  }

  /** What every event keeps. */
  ghost predicate Inv(s: System, t: State)
  {
    && t.s == Space(s.mem, s.free) && Owned(t, s.kernel)
    && forall j :: 0 <= j < |s.procs| ==> ProcOk(s, t, s.procs[j])
  }

  /** Any kernel table that owns its frames starts a run, before the first process. */
  lemma RunStarts(t: State, kernel: Frame)
    requires Owned(t, kernel)
    ensures Inv(System(t.s.mem, kernel, t.s.free, []), t)
  {
  }

  // ---- walks that stay in unchanged tables ----

  ghost predicate Agree(mem: Memory, mem': Memory, frames: set<Frame>)
  {
    forall f, i :: f in frames ==> Get(mem', f, i) == Get(mem, f, i)
  }

  lemma {:induction false} LowWalkSame(mem: Memory, mem': Memory, p: Proc, path: seq<nat>)
    requires LowTables(mem, p) && Agree(mem, mem', p.frames) && |path| <= 4 && InRange(path) && Low(path)
    ensures Walk(mem', p.root, path) == Walk(mem, p.root, path)
    decreases |path|
  {
    if path != [] {
      var init := path[..|path| - 1];
      assert InRange(init) && Low(init);
      LowWalkSame(mem, mem', p, init);
      WalkLast(mem, p.root, path);
      WalkLast(mem', p.root, path);
    }
  }

  lemma MarksKept(mem: Memory, mem': Memory, p: Proc)
    requires UserMarked(mem, p) && Agree(mem, mem', p.frames)
    ensures UserMarked(mem', p)
  {
    hide Get;
  }

  /** A process whose frames are untouched keeps its user half. */
  lemma UserHalfKept(mem: Memory, mem': Memory, p: Proc)
    requires LowTables(mem, p) && UserView(mem, p) && UserMarked(mem, p) && Agree(mem, mem', p.frames)
    ensures LowTables(mem', p) && UserView(mem', p) && UserMarked(mem', p)
  {
    hide Walk, Path, ProcessView, Agree, UserMarked;
    MarksKept(mem, mem', p);
    forall path | |path| <= 3 && InRange(path) && Low(path)
      ensures Walk(mem', p.root, path) == Walk(mem, p.root, path)
    {
      LowWalkSame(mem, mem', p, path);
    }
    forall w: nat | w < 0x8000_0000_0000 ensures Translate(mem', p.root, w) == Translate(mem, p.root, w) {
      LowPath(w);
      LowWalkSame(mem, mem', p, Path(w));
    }
  }

  // ---- kernel mappings ----

  lemma KernelMapKeeps(s: System, t: State, v: nat, p: nat, flags: nat) returns (t': State)
    requires Inv(s, t) && flags % 2 == 1 && Happen(s, KernelMap(v, p, flags)).Some?
    ensures Inv(Happen(s, KernelMap(v, p, flags)).value, t')
  {
    t' := PageAllocMaps(t, s.kernel, v, p, flags);
    var s' := Happen(s, KernelMap(v, p, flags)).value;
    forall j | 0 <= j < |s'.procs| ensures ProcOk(s', t', s'.procs[j]) {
      assert ProcOk(s, t, s.procs[j]);
      ProcKept(s, t, s', t', s.procs[j]);
    }
  }

  lemma ProcKept(s: System, t: State, s': System, t': State, p: Proc)
    requires t.s == Space(s.mem, s.free) && t'.s == Space(s'.mem, s'.free) && s'.kernel == s.kernel
    requires Advances(t, t') && ProcOk(s, t, p)
    ensures ProcOk(s', t', p)
  {
    assert Agree(s.mem, s'.mem, p.frames) by {
      forall f, i | f in p.frames ensures Get(s'.mem, f, i) == Get(s.mem, f, i) {
        assert f !in t.used + Set(t.s.free);
      }
    }
    UserHalfKept(s.mem, s'.mem, p);
  }

  // ---- process creation ----

  /** The state in which create_process starts to map: zeroed frames of its own, the first one its root. */
  ghost function SpawnState(s: System, t: State, frames: seq<Frame>): State
    requires frames != []
  {
    State(Space(s.mem + ZeroTables(frames), frames[1..]), t.at[frames[0] := []], {frames[0]})
  }

  lemma SpawnOwned(s: System, t: State, frames: seq<Frame>)
    requires Inv(s, t) && frames != []
    requires forall k :: 0 <= k < |frames| ==> FrameOk(frames[k]) && frames[k] !in s.mem
    requires forall j, k :: 0 <= j < k < |frames| ==> frames[j] != frames[k]
    ensures Owned(SpawnState(s, t, frames), frames[0])
    ensures forall w: nat :: Translate(s.mem + ZeroTables(frames), frames[0], w) == None
  {
    var q, root := SpawnState(s, t, frames), frames[0];
    SpawnGood(s, t, frames);
    assert ZeroTable(q.s.mem, root);
    forall f | f in q.at ensures f in q.used <==> Walk(q.s.mem, root, q.at[f]) == Some(f) {
      if q.at[f] != [] {
        assert Get(q.s.mem, root, q.at[f][0]) == EMPTY;
      }
    }
    forall w: nat ensures Translate(q.s.mem, root, w) == None {
      assert Get(q.s.mem, root, Path(w)[0]) == EMPTY;
    }
  }

  lemma SpawnGood(s: System, t: State, frames: seq<Frame>)
    requires Inv(s, t) && frames != []
    requires forall k :: 0 <= k < |frames| ==> FrameOk(frames[k]) && frames[k] !in s.mem
    requires forall j, k :: 0 <= j < k < |frames| ==> frames[j] != frames[k]
    ensures Good(SpawnState(s, t, frames).s, SpawnState(s, t, frames).at)
  {
    var q := SpawnState(s, t, frames);
    forall f, i | f in q.at && 0 <= i < ENTRIES ensures EntryOk(q.s.mem, q.at, f, i) {
      if f != frames[0] {
        assert EntryOk(t.s.mem, t.at, f, i);
      }
    }
    forall k | 0 <= k < |frames[1..]|
      ensures frames[1..][k] !in q.at && FrameOk(frames[1..][k]) && ZeroTable(q.s.mem, frames[1..][k])
    {
      assert frames[1..][k] == frames[k + 1];
    }
  }

  /** Tables reached from the kernel's root are owned by it. */
  lemma KernelTables(t: State, kernel: Frame, path: seq<nat>)
    requires Owned(t, kernel) && |path| <= 3 && InRange(path) && Walk(t.s.mem, kernel, path).Some?
    ensures Walk(t.s.mem, kernel, path).value in t.used
    ensures Walk(t.s.mem, kernel, path).value in t.at && t.at[Walk(t.s.mem, kernel, path).value] == path
  {
    WalkPlaces(t.s.mem, t.at, kernel, path);
    assert [] + path == path;
  }

  lemma {:induction false} KernelWalkSame(t: State, mem': Memory, kernel: Frame, path: seq<nat>)
    requires Owned(t, kernel) && Agree(t.s.mem, mem', t.used) && |path| <= 4 && InRange(path)
    ensures Walk(mem', kernel, path) == Walk(t.s.mem, kernel, path)
    decreases |path|
  {
    if path != [] {
      var init := path[..|path| - 1];
      assert InRange(init);
      KernelWalkSame(t, mem', kernel, init);
      WalkLast(t.s.mem, kernel, path);
      WalkLast(mem', kernel, path);
      if Walk(t.s.mem, kernel, init).Some? {
        KernelTables(t, kernel, init);
      }
    }
  }

  /** Copying the upper half keeps the tables well formed. */
  lemma CopyGood(mem: Memory, at: Places, kernel: Frame, root: Frame)
    requires WellFormed(mem, at) && kernel in at && at[kernel] == [] && root in at && at[root] == []
    ensures WellFormed(CopyUpper(mem, kernel, root), at)
    ensures forall i: nat :: Get(CopyUpper(mem, kernel, root), root, i)
                          == if HALF <= i then Get(mem, kernel, i) else Get(mem, root, i)
    ensures forall f, i :: f != root ==> Get(CopyUpper(mem, kernel, root), f, i) == Get(mem, f, i)
  {
    var mem' := CopyUpper(mem, kernel, root);
    forall f, i | f in at && 0 <= i < ENTRIES ensures EntryOk(mem', at, f, i) {
      assert EntryOk(mem, at, f, i);
      assert EntryOk(mem, at, kernel, i);
    }
  }

  /** A spawned process: its user half is the image, its upper half the kernel's. */
  lemma SpawnedOk(q: State, kernel: Frame, p: Proc)
    requires Owned(q, p.root) && kernel in q.at && q.at[kernel] == [] && p.root != kernel
    requires q.used <= p.frames && p.shared == PresentUpper(q.s.mem, kernel)
    requires forall w: nat :: w < 0x1_0000_0000_0000 ==>
               Translate(q.s.mem, p.root, w) == ProcessView(p.text, p.stack, w)
    requires UserMarked(q.s.mem, p)
    ensures var mem' := CopyUpper(q.s.mem, kernel, p.root);
            LowTables(mem', p) && UserView(mem', p) && UpperShared(mem', kernel, p) && UserMarked(mem', p)
  {
    hide Owned, Walk, CopyUpper, ProcessView, UserMarked, Path, LowTables;
    var mem' := CopyUpper(q.s.mem, kernel, p.root);
    CopiedMarks(q, kernel, p);
    CopiedTables(q, kernel, p);
    forall w: nat | w < 0x8000_0000_0000 ensures Translate(mem', p.root, w) == Translate(q.s.mem, p.root, w) {
      LowPath(w);
      CopiedWalk(q, kernel, p.root, Path(w));
    }
    CopiedUpper(q, kernel, p);
  }

  lemma LowPath(w: nat)
    ensures w < 0x8000_0000_0000 ==> Low(Path(w))
    ensures InRange(Path(w))
  {
  }

  lemma CopiedUpper(q: State, kernel: Frame, p: Proc)
    requires Owned(q, p.root) && kernel in q.at && q.at[kernel] == [] && p.root != kernel
    requires p.shared == PresentUpper(q.s.mem, kernel)
    ensures UpperShared(CopyUpper(q.s.mem, kernel, p.root), kernel, p)
  {
    CopyGood(q.s.mem, q.at, kernel, p.root);
  }

  lemma CopiedTables(q: State, kernel: Frame, p: Proc)
    requires Owned(q, p.root) && kernel in q.at && q.at[kernel] == [] && q.used <= p.frames
    ensures LowTables(CopyUpper(q.s.mem, kernel, p.root), p)
  {
    hide Owned, Walk, CopyUpper;
    WalkNowhere(q.s.mem, p.root);
    var mem' := CopyUpper(q.s.mem, kernel, p.root);
    forall path | |path| <= 3 && InRange(path) && Low(path) && Walk(mem', p.root, path).Some?
      ensures Walk(mem', p.root, path).value in p.frames && (path == [] || Walk(mem', p.root, path).value != p.root)
    {
      CopiedWalk(q, kernel, p.root, path);
      KernelTables(q, p.root, path);
      KernelTables(q, p.root, []);
    }
  }

  lemma CopiedMarks(q: State, kernel: Frame, p: Proc)
    requires Owned(q, p.root) && kernel in q.at && q.at[kernel] == [] && UserMarked(q.s.mem, p)
    ensures UserMarked(CopyUpper(q.s.mem, kernel, p.root), p)
  {
    CopyGood(q.s.mem, q.at, kernel, p.root);
    hide CopyUpper, Get;
  }

  lemma CopiedWalk(q: State, kernel: Frame, root: Frame, path: seq<nat>)
    requires Owned(q, root) && kernel in q.at && q.at[kernel] == [] && |path| <= 4 && InRange(path) && Low(path)
    ensures Walk(CopyUpper(q.s.mem, kernel, root), root, path) == Walk(q.s.mem, root, path)
    decreases |path|
  {
    if path != [] {
      var mem', init := CopyUpper(q.s.mem, kernel, root), path[..|path| - 1];
      assert InRange(init) && Low(init);
      CopyGood(q.s.mem, q.at, kernel, root);
      CopiedWalk(q, kernel, root, init);
      WalkLast(q.s.mem, root, path);
      WalkLast(mem', root, path);
      if Walk(q.s.mem, root, init).Some? {
        KernelTables(q, root, init);
      }
    }
  }

  /** The tables that were there are as they were, and only the given frames are new. */
  ghost predicate Untouched(s: System, s': System, frames: set<Frame>)
  {
    && s'.kernel == s.kernel && s'.free == s.free && s'.mem.Keys == s.mem.Keys + frames
    && forall f, i :: f in s.mem ==> Get(s'.mem, f, i) == Get(s.mem, f, i)
  }

  lemma SpawnKeeps(s: System, t: State, frames: seq<Frame>, text: nat, stack: nat) returns (t': State)
    requires Inv(s, t) && Sane(s, Spawn(frames, text, stack)) && Happen(s, Spawn(frames, text, stack)).Some?
    ensures Inv(Happen(s, Spawn(frames, text, stack)).value, t')
    ensures t'.used == t.used && Untouched(s, Happen(s, Spawn(frames, text, stack)).value, Set(frames))
    ensures var procs := Happen(s, Spawn(frames, text, stack)).value.procs;
            |procs| == |s.procs| + 1 && procs[|s.procs|].shared == PresentUpper(s.mem, s.kernel)
  {
    hide Inv, Owned, ProcOk, CopyUpper, PresentUpper, Advances, Happen, Sane, Extends, Set;
    InvKernel(s, t);
    SaneFrames(s, frames, text, stack);
    var s' := Happen(s, Spawn(frames, text, stack)).value;
    var q, p := Spawned(s, t, frames, text, stack);
    t' := State(Space(s'.mem, s.free), q.at, t.used);
    SpawnFrames(s, t, q, frames);
    PresentSame(s.mem, q.s.mem, s.kernel);
    SpawnAgrees(s, t, q, frames);
    SpawnedKernel(s, t, q, frames);
    SpawnProcs(s, t, s', t', q, frames, p);
  }

  lemma PresentSame(mem: Memory, mem': Memory, root: Frame)
    requires root in mem && root in mem' && mem'[root] == mem[root]
    ensures PresentUpper(mem', root) == PresentUpper(mem, root)
  {
    assert forall i :: Get(mem', root, i) == Get(mem, root, i);
  }

  lemma SpawnProcs(s: System, t: State, s': System, t': State, q: State, frames: seq<Frame>, p: Proc)
    requires Inv(s, t) && frames != [] && (forall k :: 0 <= k < |frames| ==> frames[k] !in s.mem)
    requires s' == System(CopyUpper(q.s.mem, s.kernel, frames[0]), s.kernel, s.free, s.procs + [p])
    requires t' == State(Space(s'.mem, s.free), q.at, t.used) && Owned(t', s.kernel)
    requires p.root == frames[0] && p.frames == Set(frames) && p.shared == PresentUpper(q.s.mem, s.kernel)
    requires Owned(q, p.root) && s.kernel in q.at && q.at[s.kernel] == [] && p.root != s.kernel && q.used <= p.frames
    requires forall w: nat :: w < 0x1_0000_0000_0000 ==>
               Translate(q.s.mem, p.root, w) == ProcessView(p.text, p.stack, w)
    requires UserMarked(q.s.mem, p)
    requires s.kernel in s.mem && s'.mem.Keys == s.mem.Keys + Set(frames)
    requires forall f, i :: f in s.mem ==> Get(s'.mem, f, i) == Get(s.mem, f, i)
    ensures Inv(s', t')
  {
    hide Owned, CopyUpper, PresentUpper, Set, LowTables, UserView, UpperShared, UserMarked;
    FreshFrames(s, t, frames);
    HeadIn(frames);
    SpawnedOk(q, s.kernel, p);
    assert ProcOk(s', t', p);
    forall j | 0 <= j < |s.procs| ensures ProcOk(s', t', s.procs[j]) {
      assert ProcOk(s, t, s.procs[j]);
      SpawnSpares(s, t, s', t', s.procs[j]);
    }
  }

  lemma HeadIn(frames: seq<Frame>)
    requires frames != []
    ensures frames[0] in Set(frames)
  {
  }

  lemma SaneFrames(s: System, frames: seq<Frame>, text: nat, stack: nat)
    requires Sane(s, Spawn(frames, text, stack)) && Happen(s, Spawn(frames, text, stack)).Some?
    ensures frames != [] && forall k :: 0 <= k < |frames| ==> frames[k] !in s.mem
  {
  }

  /** The tables of a new process, before the upper half is copied. */
  lemma Spawned(s: System, t: State, frames: seq<Frame>, text: nat, stack: nat) returns (q: State, p: Proc)
    requires Inv(s, t) && Sane(s, Spawn(frames, text, stack)) && Happen(s, Spawn(frames, text, stack)).Some?
    ensures frames != [] && Owned(q, frames[0]) && Advances(SpawnState(s, t, frames), q)
    ensures p == Proc(frames[0], Set(frames), PresentUpper(q.s.mem, s.kernel), text, stack)
    ensures Happen(s, Spawn(frames, text, stack)).value
         == System(CopyUpper(q.s.mem, s.kernel, frames[0]), s.kernel, s.free, s.procs + [p])
    ensures forall w: nat :: w < 0x1_0000_0000_0000 ==> Translate(q.s.mem, p.root, w) == ProcessView(p.text, p.stack, w)
    ensures UserMarked(q.s.mem, p)
  {
    SpawnOwned(s, t, frames);
    SpawnMarks(s, frames, text, stack);
    hide Inv, Owned, Translate, Advances, CopyUpper, PresentUpper, MapProcess, ZeroTables, ProcessView;
    q := ProcessImage(SpawnState(s, t, frames), frames[0], text, stack);
    p := Proc(frames[0], Set(frames), PresentUpper(q.s.mem, s.kernel), text, stack);
  }

  lemma SpawnMarks(s: System, frames: seq<Frame>, text: nat, stack: nat)
    requires frames != []
    requires MapProcess(Space(s.mem + ZeroTables(frames), frames[1..]), frames[0], text, stack).Some?
    ensures var mem' := MapProcess(Space(s.mem + ZeroTables(frames), frames[1..]), frames[0], text, stack).value.mem;
            forall f, i: nat :: f in Set(frames) ==>
              Get(mem', f, i) == EMPTY || Get(mem', f, i).flags == USER_FLAGS
  {
    hide MapProcess;
    ProcessMarks(Space(s.mem + ZeroTables(frames), frames[1..]), frames[0], text, stack);
  }

  lemma InvKernel(s: System, t: State)
    requires Inv(s, t)
    ensures s.kernel in t.at && t.at[s.kernel] == [] && t.at.Keys <= s.mem.Keys
  {
  }

  /** Frames that nobody uses are neither the kernel's nor in its pool. */
  lemma FreshFrames(s: System, t: State, frames: seq<Frame>)
    requires Inv(s, t) && (forall k :: 0 <= k < |frames| ==> frames[k] !in s.mem)
    ensures Set(frames) !! t.used + Set(s.free)
  {
    forall f | f in t.used + Set(s.free) ensures f in s.mem {
      if f in Set(s.free) {
        var k :| 0 <= k < |s.free| && s.free[k] == f;
        assert ZeroTable(s.mem, s.free[k]);
      }
    }
  }

  lemma SpawnSpares(s: System, t: State, s': System, t': State, p: Proc)
    requires ProcOk(s, t, p) && s'.kernel == s.kernel && s'.free == s.free && t'.used == t.used
    requires s.kernel in s.mem && s.mem.Keys <= s'.mem.Keys
    requires forall f, i :: f in s.mem ==> Get(s'.mem, f, i) == Get(s.mem, f, i)
    ensures ProcOk(s', t', p)
  {
    UserHalfKept(s.mem, s'.mem, p);
  }

  /** Which frames a new process has touched. */
  lemma SpawnFrames(s: System, t: State, q: State, frames: seq<Frame>)
    requires frames != [] && Advances(SpawnState(s, t, frames), q) && t.at.Keys <= s.mem.Keys
    requires s.kernel in t.at && t.at[s.kernel] == [] && (forall k :: 0 <= k < |frames| ==> frames[k] !in s.mem)
    ensures q.used <= Set(frames) && q.s.mem.Keys == s.mem.Keys + Set(frames) && s.kernel in s.mem
    ensures s.kernel in q.at && q.at[s.kernel] == [] && frames[0] in q.at && q.at[frames[0]] == []
    ensures frames[0] != s.kernel && Extends(t.at, q.at) && q.at.Keys <= t.at.Keys + Set(frames)
    ensures forall f :: f in s.mem ==> q.s.mem[f] == s.mem[f]
  {
    var q0 := SpawnState(s, t, frames);
    assert q0.used + Set(q0.s.free) == Set(frames) by {
      assert frames == [frames[0]] + frames[1..];
    }
    forall f | f in s.mem ensures q.s.mem[f] == s.mem[f] {
      assert f !in Set(frames);
      assert q0.s.mem[f] == s.mem[f];
    }
  }

  /** Outside its own frames, creating a process changes nothing. */
  lemma SpawnAgrees(s: System, t: State, q: State, frames: seq<Frame>)
    requires frames != [] && Owned(q, frames[0]) && frames[0] !in s.mem && s.kernel in s.mem
    requires s.kernel in q.at && q.at[s.kernel] == [] && s.mem.Keys <= q.s.mem.Keys
    requires forall f :: f in s.mem ==> q.s.mem[f] == s.mem[f]
    ensures forall f, i :: f in s.mem ==> Get(CopyUpper(q.s.mem, s.kernel, frames[0]), f, i) == Get(s.mem, f, i)
    ensures CopyUpper(q.s.mem, s.kernel, frames[0]).Keys == q.s.mem.Keys
  {
    CopyGood(q.s.mem, q.at, s.kernel, frames[0]);
  }

  /** The kernel's own tables are untouched. */
  lemma SpawnedKernel(s: System, t: State, q: State, frames: seq<Frame>)
    requires Inv(s, t) && frames != [] && (forall k :: 0 <= k < |frames| ==> frames[k] !in s.mem)
    requires Owned(q, frames[0]) && s.kernel in q.at && q.at[s.kernel] == [] && q.at[frames[0]] == []
    requires Extends(t.at, q.at) && q.at.Keys <= t.at.Keys + Set(frames) && s.mem.Keys <= q.s.mem.Keys
    requires var mem' := CopyUpper(q.s.mem, s.kernel, frames[0]);
             forall f, i :: f in s.mem ==> Get(mem', f, i) == Get(s.mem, f, i)
    ensures Owned(State(Space(CopyUpper(q.s.mem, s.kernel, frames[0]), s.free), q.at, t.used), s.kernel)
  {
    var mem' := CopyUpper(q.s.mem, s.kernel, frames[0]);
    CopyGood(q.s.mem, q.at, s.kernel, frames[0]);
    assert Agree(t.s.mem, mem', t.used);
    forall f | f in q.at ensures f in t.used <==> Walk(mem', s.kernel, q.at[f]) == Some(f) {
      KernelWalkSame(t, mem', s.kernel, q.at[f]);
      if Walk(t.s.mem, s.kernel, q.at[f]) == Some(f) {
        KernelTables(t, s.kernel, q.at[f]);
      }
    }
    forall k | 0 <= k < |s.free| ensures s.free[k] !in q.at && ZeroTable(mem', s.free[k]) {
      assert ZeroTable(s.mem, s.free[k]) && s.free[k] in s.mem;
      forall i | 0 <= i < ENTRIES ensures Get(mem', s.free[k], i) == EMPTY {
        assert Get(s.mem, s.free[k], i) == EMPTY;
      }
    }
  }

  /** A process can be created from fresh frames if and only if there are four of them. */
  lemma SpawnHappens(s: System, t: State, frames: seq<Frame>, text: nat, stack: nat)
    requires Inv(s, t) && Sane(s, Spawn(frames, text, stack))
    ensures Happen(s, Spawn(frames, text, stack)).Some? <==> |frames| >= 4
  {
    if frames != [] {
      SpawnOwned(s, t, frames);
      SpawnZero(s, frames);
      hide Inv, Owned, MapProcess;
      ProcessFrames(SpawnState(s, t, frames), frames[0], text, stack);
    }
  }

  lemma SpawnZero(s: System, frames: seq<Frame>)
    requires frames != []
    ensures ZeroTable(s.mem + ZeroTables(frames), frames[0])
  {
    assert frames[0] in ZeroTables(frames);
  }

  /** What was translated through the kernel's root still is, and nothing more. */
  lemma KernelViewSame(s: System, t: State, s': System, frames: set<Frame>, w: nat)
    requires Inv(s, t) && Untouched(s, s', frames)
    ensures Translate(s'.mem, s'.kernel, w) == Translate(s.mem, s.kernel, w)
  {
    hide Path;
    UsedInMemory(s, t);
    KernelWalkSame(t, s'.mem, s.kernel, Path(w));
  }

  lemma UsedInMemory(s: System, t: State)
    requires Inv(s, t)
    ensures t.used <= s.mem.Keys
  {
  }

  // ---- runs ----

  function Run(s: System, es: seq<Event>): Option<System>
    decreases |es|
  {
    if es == [] then Some(s)
    else
      var s1 :- Happen(s, es[0]);
      Run(s1, es[1..])
  }

  ghost predicate SaneRun(s: System, es: seq<Event>)
    decreases |es|
  {
    es == [] || (Sane(s, es[0]) && (Happen(s, es[0]).Some? ==> SaneRun(Happen(s, es[0]).value, es[1..])))
  }

  lemma {:induction false} RunKeeps(s: System, t: State, es: seq<Event>) returns (t': State)
    requires Inv(s, t) && SaneRun(s, es) && Run(s, es).Some?
    ensures Inv(Run(s, es).value, t')
    decreases |es|
  {
    t' := t;
    if es != [] {
      hide Inv, Sane, Happen;
      var s1, t1 := Happen(s, es[0]).value, t;
      match es[0] {
        case KernelMap(v, p, flags) => SaneFlags(s, v, p, flags); t1 := KernelMapKeeps(s, t, v, p, flags);
        case Spawn(frames, text, stack) => t1 := SpawnKeeps(s, t, frames, text, stack);
      }
      t' := RunKeeps(s1, t1, es[1..]);
    }
  }

  lemma SaneFlags(s: System, v: nat, p: nat, flags: nat)
    requires Sane(s, KernelMap(v, p, flags))
    ensures flags % 2 == 1
  {
  }

  /** What a process sees at an address. */
  ghost function Seen(s: System, p: Proc, v: nat): Option<nat>
  {
    if v < 0x8000_0000_0000 then ProcessView(p.text, p.stack, v)
    else if Path(v)[0] in p.shared then Translate(s.mem, s.kernel, v)
    else None
  }

  /**
   * After any run of kernel mappings and process creations, through every process root the user
   * half is exactly what create_process mapped, and a kernel-half address translates as through
   * the kernel's root if its root entry existed at creation, and not at all otherwise.
   */
  lemma RunViews(s: System, t: State, es: seq<Event>, j: nat, v: nat)
    requires Inv(s, t) && SaneRun(s, es) && Run(s, es).Some?
    requires j < |Run(s, es).value.procs|
    requires v < 0x8000_0000_0000 || Path(v)[0] >= HALF
    ensures var s' := Run(s, es).value; Translate(s'.mem, s'.procs[j].root, v) == Seen(s', s'.procs[j], v)
  {
    var t' := RunKeeps(s, t, es);
    InvViews(Run(s, es).value, t', j, v);
  }

  /** The invariant fixes what every process sees. */
  lemma InvViews(s: System, t: State, j: nat, v: nat)
    requires Inv(s, t) && j < |s.procs| && (v < 0x8000_0000_0000 || Path(v)[0] >= HALF)
    ensures Translate(s.mem, s.procs[j].root, v) == Seen(s, s.procs[j], v)
  {
    hide Owned, Translate, Path;
    var p := s.procs[j];
    assert ProcOk(s, t, p);
    if v >= 0x8000_0000_0000 {
      UpperTranslation(s.mem, s.kernel, p, v);
    }
  }

  lemma UpperTranslation(mem: Memory, kernel: Frame, p: Proc, v: nat)
    requires UpperShared(mem, kernel, p) && Path(v)[0] >= HALF
    ensures Translate(mem, p.root, v) == if Path(v)[0] in p.shared then Translate(mem, kernel, v) else None
  {
    var i := Path(v)[0];
    assert i in p.shared ==> Get(mem, p.root, i) == Get(mem, kernel, i);
  }

  // ---- what a process may touch ----

  /** Every table on the way to a mapped page is there. */
  lemma {:induction false} WalkPrefix(mem: Memory, root: Frame, path: seq<nat>, k: nat)
    requires Walk(mem, root, path).Some? && k <= |path|
    ensures Walk(mem, root, path[..k]).Some?
    ensures k < |path| ==> Present(Get(mem, Walk(mem, root, path[..k]).value, path[k]))
    decreases |path|
  {
    if k < |path| {
      var init := path[..|path| - 1];
      WalkLast(mem, root, path);
      if k < |path| - 1 {
        WalkPrefix(mem, root, init, k);
        assert init[..k] == path[..k];
      }
    } else {
      assert path[..k] == path;
    }
  }

  /** The process's own mappings can be read, written and executed from ring 3. */
  lemma OwnPagesOpen(mem: Memory, p: Proc, v: nat, bit: nat)
    requires LowTables(mem, p) && UserMarked(mem, p) && v < 0x8000_0000_0000 && Translate(mem, p.root, v).Some?
    requires bit == WRITE_BIT || bit == USER_BIT
    ensures Allows(mem, p.root, Path(v), bit)
  {
    hide Walk, Path, Get;
    LowPath(v);
    var path := Path(v);
    forall k | 0 <= k < |path|
      ensures Walk(mem, p.root, path[..k]).Some? && Has(Get(mem, Walk(mem, p.root, path[..k]).value, path[k]), bit)
    {
      WalkPrefix(mem, p.root, path, k);
      assert InRange(path[..k]) && Low(path[..k]);
      RootAtStart(mem, p, path, k);
    }
  }

  /** Below the root the entries of a user path are in the lower half of the root or in other tables. */
  lemma RootAtStart(mem: Memory, p: Proc, path: seq<nat>, k: nat)
    requires k < |path| && Low(path) && Walk(mem, p.root, path[..k]).Some?
    ensures k == 0 ==> Walk(mem, p.root, path[..k]).value == p.root && path[k] < HALF
  {
  }

  /** Ring 3 has access: the page is mapped and every entry on the way has the user bit. */
  ghost predicate UserAccess(mem: Memory, root: Frame, v: nat)
  {
    Translate(mem, root, v).Some? && Allows(mem, root, Path(v), USER_BIT)
  }

  /** The kernel's root lets nobody in from ring 3. */
  ghost predicate RootClosed(mem: Memory, kernel: Frame)
  {
    forall i: nat :: !Has(Get(mem, kernel, i), USER_BIT)
  }

  /**
   * Protection: from ring 3 a process reaches its text and its stack, both for writing too, and nothing else,
   * whatever the kernel has mapped.
   */
  lemma UserReach(s: System, t: State, j: nat, v: nat)
    requires Inv(s, t) && RootClosed(s.mem, s.kernel) && j < |s.procs|
    requires v < 0x8000_0000_0000 || Path(v)[0] >= HALF
    ensures var root := s.procs[j].root;
            && (UserAccess(s.mem, root, v) <==> STACK_ADDR <= v < TEXT_ADDR + 0x9000)
            && (STACK_ADDR <= v < TEXT_ADDR + 0x9000 ==> Allows(s.mem, root, Path(v), WRITE_BIT))
  {
    hide Owned, Translate, Path, Has, Allows;
    var p := s.procs[j];
    assert ProcOk(s, t, p);
    if v < 0x8000_0000_0000 {
      if Translate(s.mem, p.root, v).Some? {
        OwnPagesOpen(s.mem, p, v, USER_BIT);
        OwnPagesOpen(s.mem, p, v, WRITE_BIT);
      }
    } else {
      UpperClosed(s.mem, s.kernel, p, v);
    }
  }

  lemma UpperClosed(mem: Memory, kernel: Frame, p: Proc, v: nat)
    requires UpperShared(mem, kernel, p) && RootClosed(mem, kernel) && Path(v)[0] >= HALF
    ensures !Allows(mem, p.root, Path(v), USER_BIT)
  {
    var i := Path(v)[0];
    assert Path(v)[..0] == [] && Walk(mem, p.root, []) == Some(p.root);
    assert !Has(Get(mem, p.root, i), USER_BIT) by {
      assert i in p.shared ==> Get(mem, p.root, i) == Get(mem, kernel, i);
    }
  }

  // ---- what a process does not see ----

  /** A kernel mapping under a root entry that was empty at creation is seen by the kernel only. */
  lemma LaterMapping(s: System, t: State, j: nat, v: nat, p: nat, flags: nat)
    requires Inv(s, t) && flags % 2 == 1 && Happen(s, KernelMap(v, p, flags)).Some? && j < |s.procs|
    requires Path(v)[0] >= HALF && Path(v)[0] !in s.procs[j].shared && v >= 0x8000_0000_0000
    ensures var s' := Happen(s, KernelMap(v, p, flags)).value;
            Translate(s'.mem, s'.kernel, v).Some? && Translate(s'.mem, s'.procs[j].root, v) == None
  {
    hide Inv, Happen, Translate, PageAlloc, Path;
    var s' := Happen(s, KernelMap(v, p, flags)).value;
    var t' := KernelMapKeeps(s, t, v, p, flags);
    KernelMapped(s, t, v, p, flags);
    HappenProcs(s, v, p, flags);
    InvShared(s', t', j);
    UpperTranslation(s'.mem, s'.kernel, s'.procs[j], v);
  }

  lemma KernelMapped(s: System, t: State, v: nat, p: nat, flags: nat)
    requires Inv(s, t) && flags % 2 == 1 && Happen(s, KernelMap(v, p, flags)).Some?
    ensures var s' := Happen(s, KernelMap(v, p, flags)).value; Translate(s'.mem, s'.kernel, v).Some?
  {
    hide Translate, PageAlloc, Owned, ProcOk;
    var t' := PageAllocMaps(t, s.kernel, v, p, flags);
  }

  lemma InvShared(s: System, t: State, j: nat)
    requires Inv(s, t) && j < |s.procs|
    ensures UpperShared(s.mem, s.kernel, s.procs[j])
  {
    assert ProcOk(s, t, s.procs[j]);
  }

  lemma HappenProcs(s: System, v: nat, p: nat, flags: nat)
    requires Happen(s, KernelMap(v, p, flags)).Some?
    ensures Happen(s, KernelMap(v, p, flags)).value.procs == s.procs
  {
  }

  /** A kernel with an empty table, four frames in all, and four more for a process. */
  const FOUR: seq<Frame> := [0x1000, 0x2000, 0x3000, 0x4000]
  const MORE: seq<Frame> := [0x5000, 0x6000, 0x7000, 0x8000]

  function FirstSystem(): System { System(ZeroTables(FOUR), 0x1000, FOUR[1..], []) }

  ghost function FirstState(): State { State(Space(ZeroTables(FOUR), FOUR[1..]), map[0x1000 := []], {0x1000}) }

  lemma FirstZero()
    ensures forall k :: 0 <= k < |FOUR| ==> ZeroTable(ZeroTables(FOUR), FOUR[k])
    ensures forall f :: f in ZeroTables(FOUR) ==> |ZeroTables(FOUR)[f]| == ENTRIES
  {
    forall k | 0 <= k < |FOUR| ensures ZeroTable(ZeroTables(FOUR), FOUR[k]) {
      assert FOUR[k] in ZeroTables(FOUR);
    }
  }

  lemma FirstGood()
    ensures Good(FirstState().s, FirstState().at) && ZeroTable(FirstSystem().mem, 0x1000)
  {
    hide ZeroTables;
    var t := FirstState();
    FirstZero();
    assert ZeroTable(t.s.mem, FOUR[0]);
    assert forall k :: 0 <= k < 3 ==> t.s.free[k] == FOUR[k + 1];
  }

  lemma FirstInv()
    ensures Inv(FirstSystem(), FirstState()) && ZeroTable(FirstSystem().mem, 0x1000)
  {
    hide Good, ZeroTable, ZeroTables, Owned, Translate;
    FirstGood();
    InitialOwned(FirstState().s, 0x1000);
    RunStarts(FirstState(), 0x1000);
  }

  lemma MoreFresh()
    ensures forall k :: 0 <= k < |MORE| ==> FrameOk(MORE[k]) && MORE[k] !in FirstSystem().mem
    ensures forall j, k :: 0 <= j < k < |MORE| ==> MORE[j] != MORE[k]
    ensures |MORE| == 4
  {
  }

  lemma FirstSane()
    ensures Sane(FirstSystem(), Spawn(MORE, 0x10000, 0x20000))
  {
    hide FirstSystem;
    MoreFresh();
  }

  /** The first process can be created. */
  lemma FirstSpawn()
    ensures Happen(FirstSystem(), Spawn(MORE, 0x10000, 0x20000)).Some?
  {
    hide Inv, Owned, MapProcess, ZeroTables, FirstSystem, FirstState;
    var s, t := FirstSystem(), FirstState();
    FirstInv();
    MoreFresh();
    FirstSane();
    SpawnHappens(s, t, MORE, 0x10000, 0x20000);
  }

  /** The first page of the kernel half. */
  const FIRST_PAGE: nat := 0xffff_8000_0000_0000

  /**
   * Beside a kernel root that is still empty it does happen: create a process, then map the first page
   * of the kernel half. The kernel's root translates the page, the process's root does not.
   */
  lemma LaterMappingHappens()
    ensures var es := [Spawn(MORE, 0x10000, 0x20000), KernelMap(FIRST_PAGE, 0, 3)];
            && SaneRun(FirstSystem(), es) && Run(FirstSystem(), es).Some?
            && var s := Run(FirstSystem(), es).value;
               && |s.procs| == 1 && Translate(s.mem, s.kernel, FIRST_PAGE).Some?
               && Translate(s.mem, s.procs[0].root, FIRST_PAGE) == None
  {
    hide Inv, Happen, Sane, Translate, Path;
    var spawn, later := Spawn(MORE, 0x10000, 0x20000), KernelMap(FIRST_PAGE, 0, 3);
    FirstInv();
    FirstSane();
    FirstSpawn();
    var s1 := Happen(FirstSystem(), spawn).value;
    var t1 := SpawnKeeps(FirstSystem(), FirstState(), MORE, 0x10000, 0x20000);
    FirstShared(s1, t1);
    SecondHappens(s1, t1);
    FirstPage();
    LaterMapping(s1, t1, 0, FIRST_PAGE, 0, 3);
    HappenProcs(s1, FIRST_PAGE, 0, 3);
    RunTwo(FirstSystem(), spawn, s1, later, Happen(s1, later).value);
  }

  lemma RunTwo(s: System, e: Event, s1: System, e1: Event, s2: System)
    requires Sane(s, e) && Happen(s, e) == Some(s1) && Sane(s1, e1) && Happen(s1, e1) == Some(s2)
    ensures SaneRun(s, [e, e1]) && Run(s, [e, e1]) == Some(s2)
  {
    hide Sane, Happen;
    assert [e, e1][1..] == [e1] && [e1][1..] == [];
    assert Run(s1, [e1]) == Some(s2) && SaneRun(s1, [e1]);
  }

  lemma FirstPage()
    ensures Path(FIRST_PAGE)[0] == HALF
  {
  }

  lemma FirstShared(s: System, t: State)
    requires Inv(s, t) && Happen(FirstSystem(), Spawn(MORE, 0x10000, 0x20000)) == Some(s)
    requires Untouched(FirstSystem(), s, Set(MORE))
    ensures |s.procs| == 1 && HALF !in s.procs[0].shared
  {
    hide MapProcess, CopyUpper, ZeroTables, Owned;
    FirstInv();
    InvShared(s, t, 0);
    assert Get(FirstSystem().mem, 0x1000, HALF) == EMPTY;
  }

  lemma SecondHappens(s: System, t: State)
    requires Inv(s, t) && s.free == FirstSystem().free
    ensures Happen(s, KernelMap(FIRST_PAGE, 0, 3)).Some? && Sane(s, KernelMap(FIRST_PAGE, 0, 3))
  {
    hide Owned, PageAlloc;
    EnoughFrames(t, s.kernel, FIRST_PAGE, 0, 3);
  }
}
