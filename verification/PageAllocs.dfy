/** page_alloc: which tables it owns and touches, and what it does to translations. */
module PageAllocs {
  import opened Options
  import opened PageTables

  /** The tables of one root: memory and pool, where each live table sits, and the frames this root owns. */
  datatype State = State(s: Space, at: Places, used: set<Frame>)

  function Set(s: seq<Frame>): set<Frame> { set f | f in s }

  /** Every path that names a table is made of table indices. */
  ghost predicate PlacesInRange(at: Places) { forall f :: f in at ==> InRange(at[f]) }

  /** The owned frames are exactly the tables that a walk from the root leads to. */
  ghost predicate Owns(mem: Memory, at: Places, root: Frame, used: set<Frame>)
  {
    && root in used
    && forall f :: f in used <==> f in at && Walk(mem, root, at[f]) == Some(f)
  }

  ghost predicate Owned(t: State, root: Frame)
  {
    && Good(t.s, t.at) && PlacesInRange(t.at) && root in t.at && t.at[root] == []
    && Owns(t.s.mem, t.at, root, t.used)
  }

  ghost predicate Extends(at: Places, at': Places) { forall f :: f in at ==> f in at' && at'[f] == at[f] }

  /** Entries are only ever filled in, and frames that are neither owned nor in the pool are not touched. */
  ghost predicate Grows(t: State, mem': Memory)
  {
    && mem'.Keys == t.s.mem.Keys
    && (forall f, i :: Get(t.s.mem, f, i) != EMPTY ==> Get(mem', f, i) == Get(t.s.mem, f, i))
    && (forall f :: f in t.s.mem && f !in t.used + Set(t.s.free) ==> mem'[f] == t.s.mem[f])
  }

  /** From one state to a later one: frames only move from the pool to the owned tables. */
  ghost predicate Advances(t: State, t': State)
  {
    && Extends(t.at, t'.at) && t'.at.Keys <= t.at.Keys + (t.used + Set(t.s.free))
    && t.used <= t'.used && t'.used + Set(t'.s.free) == t.used + Set(t.s.free)
    && Grows(t, t'.s.mem)
  }

  lemma AdvancesTrans(t: State, t1: State, t2: State)
    requires Advances(t, t1) && Advances(t1, t2)
    ensures Advances(t, t2)
  {
  }

  lemma AdvancesSelf(t: State)
    ensures Advances(t, t)
  {
  }

  /** No complete walk from the root changes. */
  ghost predicate SameWalks(mem: Memory, mem': Memory, root: Frame)
  {
    forall path :: |path| == 4 && InRange(path) ==> Walk(mem', root, path) == Walk(mem, root, path)
  }

  lemma {:induction false} WalkPlaces(mem: Memory, at: Places, g: Frame, path: seq<nat>)
    requires WellFormed(mem, at) && g in at && |at[g]| + |path| <= 3 && InRange(path) && Walk(mem, g, path).Some?
    ensures Walk(mem, g, path).value in at && at[Walk(mem, g, path).value] == at[g] + path
    decreases |path|
  {
    if path != [] {
      assert EntryOk(mem, at, g, path[0]);
      WalkPlaces(mem, at, Step(mem, g, path[0]).value, path[1..]);
      assert at[g] + path == at[g] + [path[0]] + path[1..];
    } else {
      assert at[g] + path == at[g];
    }
  }

  lemma SameWalksTrans(mem: Memory, mem1: Memory, mem2: Memory, root: Frame)
    ensures SameWalks(mem, mem, root)
    ensures SameWalks(mem, mem1, root) && SameWalks(mem1, mem2, root) ==> SameWalks(mem, mem2, root)
  {
  }

  // ---- one level ----

  /** The entry leads to the table `c`, one level below `f`. */
  ghost predicate Child(t: State, f: Frame, i: nat, c: Frame)
    requires f in t.at
  {
    && c == Next(Get(t.s.mem, f, i)) && Step(t.s.mem, f, i) == Some(c)
    && c in t.used && c in t.at && t.at[c] == t.at[f] + [i]
  }

  lemma EnsureStep(t: State, root: Frame, f: Frame, i: nat, flags: nat) returns (t': State, c: Frame)
    requires Owned(t, root) && f in t.used && f in t.at && |t.at[f]| < 3 && i < ENTRIES && flags % 2 == 1
    requires EnsureTable(t.s, f, i, flags).Some?
    ensures EnsureTable(t.s, f, i, flags) == Some(t'.s)
    ensures Owned(t', root) && Advances(t, t') && SameWalks(t.s.mem, t'.s.mem, root)
    ensures f in t'.at && Child(t', f, i, c)
  {
    hide Walk, Good, Owns, SameWalks, Advances, PlacesInRange;
    if Get(t.s.mem, f, i) != EMPTY {
      t', c := t, Next(Get(t.s.mem, f, i));
      ChildPresent(t, root, f, i);
      AdvancesSelf(t);
      SameWalksTrans(t.s.mem, t.s.mem, t.s.mem, root);
    } else {
      c := t.s.free[0];
      t' := State(EnsureTable(t.s, f, i, flags).value, t.at[c := t.at[f] + [i]], t.used + {c});
      PoolHead(t, root);
      FrameRoundTrip(c, flags);
      InstallGood(t.s, t.at, f, i, flags);
      InstallOwns(t, root, f, i, flags);
      InstallAdvances(t, f, i, flags);
      InstallPlaces(t, f, i);
    }
  }

  lemma PoolHead(t: State, root: Frame)
    requires Owned(t, root) && t.s.free != []
    ensures FrameOk(t.s.free[0]) && t.s.free[0] !in t.at
    ensures forall f :: f in t.at ==> f in t.s.mem && |t.s.mem[f]| == ENTRIES
  {
  }

  lemma InstallPlaces(t: State, f: Frame, i: nat)
    requires PlacesInRange(t.at) && f in t.at && i < ENTRIES && t.s.free != []
    ensures PlacesInRange(t.at[t.s.free[0] := t.at[f] + [i]])
  {
  }

  lemma ChildPresent(t: State, root: Frame, f: Frame, i: nat)
    requires Owned(t, root) && f in t.used && f in t.at && |t.at[f]| < 3 && i < ENTRIES && Get(t.s.mem, f, i) != EMPTY
    ensures Child(t, f, i, Next(Get(t.s.mem, f, i)))
  {
    assert (t.at[f] + [i])[..|t.at[f]|] == t.at[f];
    NextIsStep(t.s.mem, t.at, f, i);
    WalkLast(t.s.mem, root, t.at[f] + [i]);
  }

  lemma InstallOwns(t: State, root: Frame, f: Frame, i: nat, flags: nat)
    requires Owned(t, root) && f in t.used && f in t.at && |t.at[f]| < 3 && i < ENTRIES && flags % 2 == 1
    requires Get(t.s.mem, f, i) == EMPTY && t.s.free != []
    ensures var n, mem' := t.s.free[0], Put(t.s.mem, f, i, MakeEntry(t.s.free[0], flags));
            && Owns(mem', t.at[n := t.at[f] + [i]], root, t.used + {n})
            && SameWalks(t.s.mem, mem', root)
  {
    var n := t.s.free[0];
    var mem' := Put(t.s.mem, f, i, MakeEntry(n, flags));
    hide MakeEntry, Put, Walk, WellFormed, SameWalks;
    forall g | g in t.at ensures g in t.used <==> Walk(mem', root, t.at[g]) == Some(g) {
      InstallWalk(t.s.mem, t.at, f, i, n, flags, root, t.at[g]);
      assert n !in t.at;
    }
    InstallReaches(t, root, f, i, flags);
    InstallSame(t, root, f, i, flags);
  }

  /** The new table is reached through the new entry. */
  lemma InstallReaches(t: State, root: Frame, f: Frame, i: nat, flags: nat)
    requires Owned(t, root) && f in t.used && f in t.at && |t.at[f]| < 3 && i < ENTRIES && flags % 2 == 1
    requires Get(t.s.mem, f, i) == EMPTY && t.s.free != []
    ensures var n, mem' := t.s.free[0], Put(t.s.mem, f, i, MakeEntry(t.s.free[0], flags));
            Walk(mem', root, t.at[f] + [i]) == Some(n)
  {
    hide Walk, Put, MakeEntry, Step, Spare;
    var n, path := t.s.free[0], t.at[f] + [i];
    var mem' := Put(t.s.mem, f, i, MakeEntry(n, flags));
    PoolHead(t, root);
    HeadZero(t);
    OwnedWalk(t, root, f);
    InstallWalk(t.s.mem, t.at, f, i, n, flags, root, t.at[f]);
    WalkLast(mem', root, path);
    assert path[..|t.at[f]|] == t.at[f];
    StepPut(t.s.mem, f, i, n, flags);
  }

  lemma HeadZero(t: State)
    requires Good(t.s, t.at) && t.s.free != []
    ensures ZeroTable(t.s.mem, t.s.free[0])
  {
  }

  lemma StepPut(mem: Memory, f: Frame, i: nat, n: Frame, flags: nat)
    requires f in mem && i < |mem[f]| && FrameOk(n) && flags % 2 == 1
    ensures Step(Put(mem, f, i, MakeEntry(n, flags)), f, i) == Some(n)
  {
    FrameRoundTrip(n, flags);
  }

  /** No translation changes. */
  lemma InstallSame(t: State, root: Frame, f: Frame, i: nat, flags: nat)
    requires Owned(t, root) && f in t.used && f in t.at && |t.at[f]| < 3 && i < ENTRIES && flags % 2 == 1
    requires Get(t.s.mem, f, i) == EMPTY && t.s.free != []
    ensures SameWalks(t.s.mem, Put(t.s.mem, f, i, MakeEntry(t.s.free[0], flags)), root)
  {
    var n := t.s.free[0];
    var mem' := Put(t.s.mem, f, i, MakeEntry(n, flags));
    hide MakeEntry, Put, Walk, WellFormed;
    forall path | |path| == 4 && InRange(path) ensures Walk(mem', root, path) == Walk(t.s.mem, root, path) {
      InstallWalk(t.s.mem, t.at, f, i, n, flags, root, path);
      assert |t.at[root] + path| == 4;
    }
  }

  lemma InstallAdvances(t: State, f: Frame, i: nat, flags: nat)
    requires f in t.used && f in t.at && Get(t.s.mem, f, i) == EMPTY && t.s.free != [] && t.s.free[0] !in t.at
    ensures var n := t.s.free[0];
            Advances(t, State(Space(Put(t.s.mem, f, i, MakeEntry(n, flags)), t.s.free[1..]),
                              t.at[n := t.at[f] + [i]], t.used + {n}))
  {
    assert t.s.free == [t.s.free[0]] + t.s.free[1..];
  }

  lemma WriteStep(t: State, root: Frame, f: Frame, i: nat, e: Entry)
    requires Owned(t, root) && f in t.used && f in t.at && |t.at[f]| == 3 && i < ENTRIES
    requires Get(t.s.mem, f, i) == EMPTY && Present(e)
    ensures var t' := State(Space(Put(t.s.mem, f, i, e), t.s.free), t.at, t.used);
            Owned(t', root) && Advances(t, t')
  {
    WriteGood(t.s, t.at, f, i, e);
    forall g | g in t.at ensures Walk(Put(t.s.mem, f, i, e), root, t.at[g]) == Walk(t.s.mem, root, t.at[g]) {
      WriteWalk(t.s.mem, t.at, f, i, e, root, t.at[g]);
      assert |t.at[root] + t.at[g]| <= 3 && |t.at[f] + [i]| == 4;
    }
  }

  // ---- all four levels ----

  /** page_alloc, from the root to the last-level table of the address. */
  lemma Descended(t: State, root: Frame, v: nat, p: nat, flags: nat) returns (t': State, pt: Frame)
    requires Owned(t, root) && flags % 2 == 1 && PageAlloc(t.s, root, v, p, flags).Some?
    ensures PageAlloc(t.s, root, v, p, flags) == Some(Space(WritePage(t'.s.mem, pt, Path(v)[3], p, flags), t'.s.free))
    ensures Owned(t', root) && Advances(t, t') && SameWalks(t.s.mem, t'.s.mem, root)
    ensures pt in t'.used && pt in t'.at && t'.at[pt] == Path(v)[..3] && Walk(t'.s.mem, root, Path(v)[..3]) == Some(pt)
  {
    hide Walk, Path, EnsureTable, Owned, Advances, SameWalks, Next, Get, Step, WritePage, PageAlloc;
    var s1, s2, s3 := Levels(t.s, root, v, p, flags);
    var t1, pdp := FirstLevel(t, root, Path(v)[0], flags);
    var t2, pd := NextLevel(t, t1, root, pdp, [Path(v)[0]], Path(v)[1], flags);
    t', pt := NextLevel(t, t2, root, pd, [Path(v)[0], Path(v)[1]], Path(v)[2], flags);
    assert Path(v)[..3] == [Path(v)[0], Path(v)[1], Path(v)[2]];
    OwnedWalk(t', root, pt);
  }

  lemma FirstLevel(t: State, root: Frame, i: nat, flags: nat) returns (t': State, c: Frame)
    requires Owned(t, root) && i < ENTRIES && flags % 2 == 1 && EnsureTable(t.s, root, i, flags).Some?
    ensures EnsureTable(t.s, root, i, flags) == Some(t'.s)
    ensures Owned(t', root) && Advances(t, t') && SameWalks(t.s.mem, t'.s.mem, root)
    ensures c == Next(Get(t'.s.mem, root, i)) && c in t'.used && c in t'.at && t'.at[c] == [i]
  {
    OwnsRoot(t, root);
    hide Walk, EnsureTable, Owned, Advances, SameWalks, Next, Get, Step;
    t', c := EnsureStep(t, root, root, i, flags);
    Deeper(t, t', root, [], i);
  }

  lemma NextLevel(t: State, t1: State, root: Frame, f: Frame, path: seq<nat>, i: nat, flags: nat)
    returns (t': State, c: Frame)
    requires Advances(t, t1) && SameWalks(t.s.mem, t1.s.mem, root) && Owned(t1, root)
    requires f in t1.used && f in t1.at && t1.at[f] == path && |path| < 3
    requires i < ENTRIES && flags % 2 == 1 && EnsureTable(t1.s, f, i, flags).Some?
    ensures EnsureTable(t1.s, f, i, flags) == Some(t'.s)
    ensures Owned(t', root) && Advances(t, t') && SameWalks(t.s.mem, t'.s.mem, root)
    ensures c == Next(Get(t'.s.mem, f, i)) && c in t'.used && c in t'.at && t'.at[c] == path + [i]
  {
    hide Walk, EnsureTable, Owned, Advances, SameWalks, Next, Get, Step;
    t', c := EnsureStep(t1, root, f, i, flags);
    Deeper(t1, t', f, path, i);
    AdvancesTrans(t, t1, t');
    SameWalksTrans(t.s.mem, t1.s.mem, t'.s.mem, root);
  }

  lemma Deeper(t: State, t': State, f: Frame, path: seq<nat>, i: nat)
    requires Advances(t, t') && f in t.at && t.at[f] == path
    ensures f in t'.at && t'.at[f] + [i] == path + [i]
  {
  }

  lemma OwnedWalk(t: State, root: Frame, f: Frame)
    requires Owned(t, root) && f in t.used
    ensures f in t.at && Walk(t.s.mem, root, t.at[f]) == Some(f)
  {
  }

  /** The three table levels of page_alloc. */
  lemma Levels(s: Space, root: Frame, v: nat, p: nat, flags: nat) returns (s1: Space, s2: Space, s3: Space)
    requires PageAlloc(s, root, v, p, flags).Some?
    ensures EnsureTable(s, root, Path(v)[0], flags) == Some(s1)
    ensures var pdp := Next(Get(s1.mem, root, Path(v)[0]));
            && EnsureTable(s1, pdp, Path(v)[1], flags) == Some(s2)
            && var pd := Next(Get(s2.mem, pdp, Path(v)[1]));
               && EnsureTable(s2, pd, Path(v)[2], flags) == Some(s3)
               && PageAlloc(s, root, v, p, flags)
                  == Some(Space(WritePage(s3.mem, Next(Get(s3.mem, pd, Path(v)[2])), Path(v)[3], p, flags), s3.free))
  {
    hide EnsureTable, Path, Next, Get, WritePage;
    s1 := EnsureTable(s, root, Path(v)[0], flags).value;
    var pdp := Next(Get(s1.mem, root, Path(v)[0]));
    s2 := EnsureTable(s1, pdp, Path(v)[1], flags).value;
    s3 := EnsureTable(s2, Next(Get(s2.mem, pdp, Path(v)[1])), Path(v)[2], flags).value;
  }

  lemma OwnsRoot(t: State, root: Frame)
    requires Owned(t, root)
    ensures root in t.used && root in t.at && t.at[root] == []
  {
  }

  /**
   * page_alloc refines a map from pages to frames where the first mapping wins: an unmapped page
   * gets the frame, a mapped page keeps its own, and no other page changes. The frames it takes
   * from the pool become exactly the tables of the root, and nothing else is touched.
   */
  lemma PageAllocMaps(t: State, root: Frame, v: nat, p: nat, flags: nat) returns (t': State)
    requires Owned(t, root) && flags % 2 == 1 && PageAlloc(t.s, root, v, p, flags).Some?
    ensures PageAlloc(t.s, root, v, p, flags) == Some(t'.s)
    ensures Owned(t', root) && Advances(t, t')
    ensures forall w: nat :: Translate(t'.s.mem, root, w) == Mapped(t.s.mem, root, v, p, w)
  {
    hide Walk, Path, PageOf, Prep, PageAlloc, Put, Owned, Advances;
    var t3, pt := Descended(t, root, v, p, flags);
    var d, e := Path(v)[3], MakeEntry(p, flags);
    t' := t3;
    LastEntry(t3, root, v, pt);
    if Get(t3.s.mem, pt, d) == EMPTY {
      t' := State(Space(Put(t3.s.mem, pt, d, e), t3.s.free), t3.at, t3.used);
      WriteStep(t3, root, pt, d, e);
      AdvancesTrans(t, t3, t');
      forall w: nat ensures Translate(t'.s.mem, root, w) == Mapped(t.s.mem, root, v, p, w) {
        WrittenTranslation(t3, root, v, pt, e, w);
      }
    }
  }

  /** The last-level entry decides whether the page is mapped. */
  lemma LastEntry(t: State, root: Frame, v: nat, pt: Frame)
    requires Owned(t, root) && pt in t.at && t.at[pt] == Path(v)[..3] && Walk(t.s.mem, root, Path(v)[..3]) == Some(pt)
    ensures Get(t.s.mem, pt, Path(v)[3]) == EMPTY <==> Walk(t.s.mem, root, Path(v)) == None
  {
    assert EntryOk(t.s.mem, t.at, pt, Path(v)[3]);
    WalkLast(t.s.mem, root, Path(v));
  }

  lemma WrittenTranslation(t: State, root: Frame, v: nat, pt: Frame, e: Entry, w: nat)
    requires Owned(t, root) && Present(e)
    requires pt in t.at && t.at[pt] == Path(v)[..3] && Walk(t.s.mem, root, Path(v)[..3]) == Some(pt)
    requires Get(t.s.mem, pt, Path(v)[3]) == EMPTY
    ensures PageOf(w) != PageOf(v) ==>
              Walk(Put(t.s.mem, pt, Path(v)[3], e), root, Path(w)) == Walk(t.s.mem, root, Path(w))
    ensures PageOf(w) == PageOf(v) ==> Walk(Put(t.s.mem, pt, Path(v)[3], e), root, Path(w)) == Some(e.base * 4096)
  {
    hide WellFormed, Spare;
    PathIsPage(v, w);
    var d := Path(v)[3];
    assert Path(v) == t.at[pt] + [d];
    WriteWalk(t.s.mem, t.at, pt, d, e, root, Path(w));
    assert [] + Path(w) == Path(w);
  }

  // ---- references ----

  /** An entry of a table of the root that refers to the table `g`. */
  ghost predicate Refers(t: State, f: Frame, i: nat, g: Frame)
    requires f in t.at
  {
    |t.at[f]| < 3 && i < ENTRIES && Get(t.s.mem, f, i) != EMPTY && Next(Get(t.s.mem, f, i)) == g
  }

  /** Each owned frame but the root is referred to by exactly one entry of the owned tables. */
  lemma OneReference(t: State, root: Frame, g: Frame) returns (f: Frame, i: nat)
    requires Owned(t, root) && g in t.used && g != root
    ensures f in t.used && f in t.at && Refers(t, f, i, g)
    ensures forall f', i' :: f' in t.used && f' in t.at && Refers(t, f', i', g) ==> f' == f && i' == i
  {
    var path := t.at[g];
    assert path != [];
    var n := |path| - 1;
    WalkLast(t.s.mem, root, path);
    f, i := Walk(t.s.mem, root, path[..n]).value, path[n];
    WalkPlaces(t.s.mem, t.at, root, path[..n]);
    assert t.at[f] == path[..n] && [] + path[..n] == path[..n];
    assert EntryOk(t.s.mem, t.at, f, i);
    NextIsStep(t.s.mem, t.at, f, i);
    forall f', i' | f' in t.used && f' in t.at && Refers(t, f', i', g) ensures f' == f && i' == i {
      NextIsStep(t.s.mem, t.at, f', i');
      assert path == t.at[f'] + [i'];
      assert t.at[f'] == path[..n];
    }
  }

  // ---- how many frames page_alloc takes ----

  /** The tables that are missing on the way to the page. */
  function Missing(mem: Memory, root: Frame, v: nat): nat
  {
    var a, b, c := Path(v)[0], Path(v)[1], Path(v)[2];
    if Get(mem, root, a) == EMPTY then 3
    else
      var pdp := Next(Get(mem, root, a));
      if Get(mem, pdp, b) == EMPTY then 2
      else if Get(mem, Next(Get(mem, pdp, b)), c) == EMPTY then 1 else 0
  }

  /** page_alloc halts exactly when the pool holds fewer frames than are missing. */
  lemma EnoughFrames(t: State, root: Frame, v: nat, p: nat, flags: nat)
    requires Owned(t, root) && flags % 2 == 1
    ensures PageAlloc(t.s, root, v, p, flags).Some? <==> |t.s.free| >= Missing(t.s.mem, root, v)
    ensures PageAlloc(t.s, root, v, p, flags).Some? ==>
              PageAlloc(t.s, root, v, p, flags).value.free == t.s.free[Missing(t.s.mem, root, v)..]
  {
    hide Path, Owned, PageAlloc, Missing, Walk, Good, Advances, SameWalks;
    var a, b := Path(v)[0], Path(v)[1];
    if Get(t.s.mem, root, a) != EMPTY {
      FromPdp(t, root, v, p, flags);
    } else if t.s.free == [] {
      NoFrame(t, root, v, p, flags);
    } else {
      OwnsRoot(t, root);
      var t1, pdp := EnsureStep(t, root, root, a, flags);
      RootFilled(t, t1, root, v, p, flags);
      FromPdp(t1, root, v, p, flags);
    }
  }

  lemma NoFrame(t: State, root: Frame, v: nat, p: nat, flags: nat)
    requires Get(t.s.mem, root, Path(v)[0]) == EMPTY && t.s.free == []
    ensures PageAlloc(t.s, root, v, p, flags) == None && Missing(t.s.mem, root, v) == 3
  {
  }

  /** Once the root entry is filled, page_alloc goes on as from the new state, with two tables to go. */
  lemma RootFilled(t: State, t1: State, root: Frame, v: nat, p: nat, flags: nat)
    requires Owned(t, root) && Get(t.s.mem, root, Path(v)[0]) == EMPTY && t.s.free != [] && flags % 2 == 1
    requires EnsureTable(t.s, root, Path(v)[0], flags) == Some(t1.s)
    ensures PageAlloc(t.s, root, v, p, flags) == PageAlloc(t1.s, root, v, p, flags)
    ensures Get(t1.s.mem, root, Path(v)[0]) != EMPTY && t1.s.free == t.s.free[1..]
    ensures Missing(t.s.mem, root, v) == 3 && Missing(t1.s.mem, root, v) == 2
  {
    hide Path, Walk, WritePage, Good, Owns, PlacesInRange, Put, MakeEntry;
    PoolHead(t, root);
    FrameRoundTrip(t.s.free[0], flags);
    FilledEntry(t.s.mem, root, Path(v)[0], t.s.free[0], flags);
    NewTable(t, root, Path(v)[0], Path(v)[1], flags);
  }

  lemma FilledEntry(mem: Memory, f: Frame, i: nat, n: Frame, flags: nat)
    requires f in mem && i < |mem[f]| && flags % 2 == 1
    ensures Get(Put(mem, f, i, MakeEntry(n, flags)), f, i) == MakeEntry(n, flags) != EMPTY
  {
  }

  /** A table fresh from the pool has no entries. */
  lemma NewTable(t: State, f: Frame, i: nat, j: nat, flags: nat)
    requires Good(t.s, t.at) && f in t.at && i < ENTRIES && j < ENTRIES && Get(t.s.mem, f, i) == EMPTY && t.s.free != []
    ensures Get(Put(t.s.mem, f, i, MakeEntry(t.s.free[0], flags)), t.s.free[0], j) == EMPTY
  {
    ZeroKept(t.s.mem, f, i, MakeEntry(t.s.free[0], flags), t.s.free[0]);
  }

  lemma FromPdp(t: State, root: Frame, v: nat, p: nat, flags: nat)
    requires Owned(t, root) && flags % 2 == 1 && Get(t.s.mem, root, Path(v)[0]) != EMPTY
    ensures PageAlloc(t.s, root, v, p, flags).Some? <==> |t.s.free| >= Missing(t.s.mem, root, v)
    ensures PageAlloc(t.s, root, v, p, flags).Some? ==>
              PageAlloc(t.s, root, v, p, flags).value.free == t.s.free[Missing(t.s.mem, root, v)..]
  {
    var a, b, c := Path(v)[0], Path(v)[1], Path(v)[2];
    NextIsStep(t.s.mem, t.at, root, a);
    var pdp := Next(Get(t.s.mem, root, a));
    if Get(t.s.mem, pdp, b) == EMPTY && t.s.free != [] {
      FrameRoundTrip(t.s.free[0], flags);
      NewTable(t, pdp, b, c, flags);
    }
  }

  // ---- runs ----

  datatype Request = Map(v: nat, p: nat, flags: nat)

  function MapAll(s: Space, root: Frame, rs: seq<Request>): Option<Space>
    decreases |rs|
  {
    if rs == [] then Some(s)
    else
      var s1 :- PageAlloc(s, root, rs[0].v, rs[0].p, rs[0].flags);
      MapAll(s1, root, rs[1..])
  }

  /**
   * From the state that paging_init leaves (a zeroed root and a pool of zeroed frames), any run
   * of page_alloc calls keeps the frames: those that are not free are exactly the root and the
   * tables reached from it, and none is both.
   */
  lemma {:induction false} RunOwns(t: State, root: Frame, rs: seq<Request>) returns (t': State)
    requires Owned(t, root) && (forall k :: 0 <= k < |rs| ==> rs[k].flags % 2 == 1) && MapAll(t.s, root, rs).Some?
    ensures MapAll(t.s, root, rs) == Some(t'.s) && Owned(t', root)
    ensures t'.used + Set(t'.s.free) == t.used + Set(t.s.free) && t'.used !! Set(t'.s.free)
    decreases |rs|
  {
    if rs == [] {
      t' := t;
    } else {
      var t1 := PageAllocMaps(t, root, rs[0].v, rs[0].p, rs[0].flags);
      t' := RunOwns(t1, root, rs[1..]);
    }
  }

  lemma InitialOwned(s: Space, root: Frame)
    requires Good(s, map[root := []]) && ZeroTable(s.mem, root)
    ensures Owned(State(s, map[root := []], {root}), root)
    ensures forall w: nat :: Translate(s.mem, root, w) == None
  {
    forall w: nat ensures Translate(s.mem, root, w) == None {
      assert Get(s.mem, root, Path(w)[0]) == EMPTY;
    }
  }
}
