/** Mapping ranges, the frames it takes, and the tables those frames become. */
module PageRanges {
  import opened Layout
  import opened Options
  import opened PageTables
  import opened PageAllocs

  // ---- paging_contiguous_map ----

  /** Map the pages of the inclusive physical range one after the other. */
  function MapRange(s: Space, root: Frame, p: nat, pEnd: nat, v: nat, flags: nat): Option<Space>
    decreases pEnd + 4096 - p
  {
    if p > pEnd then Some(s)
    else
      var s1 :- PageAlloc(s, root, v, p, flags);
      MapRange(s1, root, p + 4096, pEnd, v + 4096, flags)
  }

  /** The page of `w` is one of those that the range maps. */
  predicate InRun(p: nat, pEnd: nat, v: nat, w: nat)
  {
    PageOf(v) <= PageOf(w) && p + (PageOf(w) - PageOf(v)) * 4096 <= pEnd
  }

  /** Where the range leaves `w`: pages that were mapped before keep their frame. */
  ghost function RangeMapped(mem: Memory, root: Frame, p: nat, pEnd: nat, v: nat, w: nat): Option<nat>
  {
    if InRun(p, pEnd, v, w) && Translate(mem, root, w) == None
    then Some(Prep(p + (PageOf(w) - PageOf(v)) * 4096) * 4096 + w % 4096)
    else Translate(mem, root, w)
  }

  /** The range does not run past the end of the 48-bit space. */
  predicate RunFits(p: nat, pEnd: nat, v: nat) { p <= pEnd ==> PageOf(v) + (pEnd - p) / 4096 < 0x10_0000_0000 }

  lemma NextPage(v: nat)
    requires PageOf(v) + 1 < 0x10_0000_0000
    ensures PageOf(v + 4096) == PageOf(v) + 1
  {
    assert (v + 4096) / 4096 == v / 4096 + 1;
  }

  lemma SamePageMapped(mem: Memory, root: Frame, v: nat, w: nat)
    requires PageOf(v) == PageOf(w)
    ensures Translate(mem, root, v) == None <==> Translate(mem, root, w) == None
  {
    PathIsPage(v, w);
  }

  /** One page, then the rest of the run. */
  lemma RunStep(p: nat, pEnd: nat, v: nat, w: nat)
    requires p <= pEnd && RunFits(p, pEnd, v)
    ensures RunFits(p + 4096, pEnd, v + 4096)
    ensures PageOf(w) == PageOf(v) ==>
              InRun(p, pEnd, v, w) && (p + 4096 <= pEnd ==> !InRun(p + 4096, pEnd, v + 4096, w))
    ensures PageOf(w) != PageOf(v) && p + 4096 <= pEnd ==>
              (InRun(p, pEnd, v, w) <==> InRun(p + 4096, pEnd, v + 4096, w))
    ensures PageOf(w) != PageOf(v) && p + 4096 > pEnd ==> !InRun(p, pEnd, v, w)
    ensures p + 4096 <= pEnd ==> PageOf(v + 4096) == PageOf(v) + 1
  {
    if p + 4096 <= pEnd {
      assert (pEnd - p) / 4096 == (pEnd - (p + 4096)) / 4096 + 1;
      NextPage(v);
    }
  }

  /** paging_contiguous_map maps exactly the pages of its run that were unmapped, and changes nothing else. */
  lemma {:induction false} MapRangeMaps(t: State, root: Frame, p: nat, pEnd: nat, v: nat, flags: nat)
    returns (t': State)
    requires Owned(t, root) && flags % 2 == 1 && RunFits(p, pEnd, v) && MapRange(t.s, root, p, pEnd, v, flags).Some?
    ensures MapRange(t.s, root, p, pEnd, v, flags) == Some(t'.s)
    ensures Owned(t', root) && Advances(t, t')
    ensures forall w: nat :: Translate(t'.s.mem, root, w) == RangeMapped(t.s.mem, root, p, pEnd, v, w)
    decreases pEnd + 4096 - p
  {
    if p > pEnd {
      t' := t;
      AdvancesSelf(t);
    } else {
      hide PageAlloc, Translate, PageOf, Prep, Owned, Advances, InRun, RunFits, RangeMapped, Mapped;
      var t1 := PageAllocMaps(t, root, v, p, flags);
      RunStep(p, pEnd, v, v);
      t' := MapRangeMaps(t1, root, p + 4096, pEnd, v + 4096, flags);
      AdvancesTrans(t, t1, t');
      RunComposed(t.s.mem, t1.s.mem, t'.s.mem, root, p, pEnd, v);
    }
  }

  lemma RunComposed(mem: Memory, mem1: Memory, mem2: Memory, root: Frame, p: nat, pEnd: nat, v: nat)
    requires p <= pEnd && RunFits(p, pEnd, v)
    requires forall w: nat :: Translate(mem1, root, w) == Mapped(mem, root, v, p, w)
    requires forall w: nat :: Translate(mem2, root, w) == RangeMapped(mem1, root, p + 4096, pEnd, v + 4096, w)
    ensures forall w: nat :: Translate(mem2, root, w) == RangeMapped(mem, root, p, pEnd, v, w)
  {
    hide Translate, PageOf, Prep, InRun, RunFits, RangeMapped, Mapped;
    forall w: nat ensures Translate(mem2, root, w) == RangeMapped(mem, root, p, pEnd, v, w) {
      PageThenRun(mem, mem1, root, p, pEnd, v, w);
    }
  }

  lemma PageThenRun(mem: Memory, mem1: Memory, root: Frame, p: nat, pEnd: nat, v: nat, w: nat)
    requires p <= pEnd && RunFits(p, pEnd, v)
    requires forall x: nat :: Translate(mem1, root, x) == Mapped(mem, root, v, p, x)
    ensures RangeMapped(mem1, root, p + 4096, pEnd, v + 4096, w) == RangeMapped(mem, root, p, pEnd, v, w)
  {
    RunStep(p, pEnd, v, w);
    if PageOf(w) == PageOf(v) {
      SamePageMapped(mem, root, v, w);
    }
    hide Translate, PageOf, Prep;
  }

  lemma PrepExact(p: nat)
    requires p % 4096 == 0 && p < 0x100_0000_0000
    ensures Prep(p) * 4096 == p
  {
  }

  /** PAGE_STD_BITS | PAGE_USER_SUPERVISOR_BIT */
  const USER_FLAGS: nat := 7

  /** What create_process maps: first the program text, then the stack. */
  function MapProcess(s: Space, root: Frame, text: nat, stack: nat): Option<Space>
  {
    var s1 :- MapRange(s, root, text, text + TEXT_SIZE, TEXT_ADDR, USER_FLAGS);
    MapRange(s1, root, stack, stack + STACK_SIZE, STACK_ADDR, USER_FLAGS)
  }

  /** A new process sees nine pages of text and two of stack, and nothing else. */
  function ProcessView(text: nat, stack: nat, w: nat): Option<nat>
  {
    if TEXT_ADDR <= w < TEXT_ADDR + 0x9000 then Some(text + (w - TEXT_ADDR))
    else if STACK_ADDR <= w < TEXT_ADDR then Some(stack + (w - STACK_ADDR))
    else None
  }

  /**
   * The inclusive stack range names the first text page once more, as its third page, and the
   * first mapping wins: the text page is not replaced.
   */
  lemma ProcessImage(t: State, root: Frame, text: nat, stack: nat) returns (t': State)
    requires Owned(t, root) && MapProcess(t.s, root, text, stack).Some?
    requires text % 4096 == 0 && stack % 4096 == 0
    requires text + 0x9000 <= 0x100_0000_0000 && stack + 0x3000 <= 0x100_0000_0000
    requires forall w: nat :: Translate(t.s.mem, root, w) == None
    ensures MapProcess(t.s, root, text, stack) == Some(t'.s)
    ensures Owned(t', root) && Advances(t, t')
    ensures forall w: nat :: w < 0x1_0000_0000_0000 ==> Translate(t'.s.mem, root, w) == ProcessView(text, stack, w)
  {
    hide Translate, Owned, Advances, MapRange, PageAlloc;
    var t1 := MapRangeMaps(t, root, text, text + TEXT_SIZE, TEXT_ADDR, USER_FLAGS);
    t' := MapRangeMaps(t1, root, stack, stack + STACK_SIZE, STACK_ADDR, USER_FLAGS);
    AdvancesTrans(t, t1, t');
    forall w: nat | w < 0x1_0000_0000_0000 ensures Translate(t'.s.mem, root, w) == ProcessView(text, stack, w) {
      assert Translate(t1.s.mem, root, w) == RangeMapped(t.s.mem, root, text, text + TEXT_SIZE, TEXT_ADDR, w);
      ImageAt(text, stack, w);
    }
  }

  /** The arithmetic of the two runs. */
  lemma ImageAt(text: nat, stack: nat, w: nat)
    requires text % 4096 == 0 && stack % 4096 == 0
    requires text + 0x9000 <= 0x100_0000_0000 && stack + 0x3000 <= 0x100_0000_0000
    requires w < 0x1_0000_0000_0000
    ensures InRun(text, text + TEXT_SIZE, TEXT_ADDR, w) <==> TEXT_ADDR <= w < TEXT_ADDR + 0x9000
    ensures InRun(stack, stack + STACK_SIZE, STACK_ADDR, w) <==> STACK_ADDR <= w < TEXT_ADDR + 0x1000
    ensures TEXT_ADDR <= w < TEXT_ADDR + 0x9000 ==>
              Prep(text + (PageOf(w) - PageOf(TEXT_ADDR)) * 4096) * 4096 + w % 4096 == text + (w - TEXT_ADDR)
    ensures STACK_ADDR <= w < TEXT_ADDR ==>
              Prep(stack + (PageOf(w) - PageOf(STACK_ADDR)) * 4096) * 4096 + w % 4096 == stack + (w - STACK_ADDR)
  {
    assert PageOf(w) == w / 4096;
    if TEXT_ADDR <= w < TEXT_ADDR + 0x9000 {
      PrepExact(text + (w / 4096 - 0x40) * 4096);
    }
    if STACK_ADDR <= w < TEXT_ADDR {
      PrepExact(stack + (w / 4096 - 0x3e) * 4096);
    }
  }

  // ---- the flags it writes ----

  /** Entries that were written all have the given flags. */
  ghost predicate Marked(mem: Memory, mem': Memory, flags: nat)
  {
    forall f, i: nat :: Get(mem', f, i) == Get(mem, f, i) || Get(mem', f, i).flags == flags % 4096
  }

  lemma MarkedTrans(mem: Memory, mem1: Memory, mem2: Memory, flags: nat)
    requires Marked(mem, mem1, flags) && Marked(mem1, mem2, flags)
    ensures Marked(mem, mem2, flags)
  {
    hide Get;
  }

  lemma PutMarks(mem: Memory, f: Frame, i: nat, p: nat, flags: nat)
    ensures Marked(mem, Put(mem, f, i, MakeEntry(p, flags)), flags)
  {
  }

  lemma EnsureMarks(s: Space, f: Frame, i: nat, flags: nat)
    requires EnsureTable(s, f, i, flags).Some?
    ensures Marked(s.mem, EnsureTable(s, f, i, flags).value.mem, flags)
  {
    if Get(s.mem, f, i) == EMPTY {
      PutMarks(s.mem, f, i, s.free[0], flags);
    }
  }

  lemma PageAllocMarks(s: Space, root: Frame, v: nat, p: nat, flags: nat)
    requires PageAlloc(s, root, v, p, flags).Some?
    ensures Marked(s.mem, PageAlloc(s, root, v, p, flags).value.mem, flags)
  {
    hide EnsureTable, Marked, Path, MakeEntry, Put, Get;
    var s1 := EnsureTable(s, root, Path(v)[0], flags).value;
    var pdp := Next(Get(s1.mem, root, Path(v)[0]));
    var s2 := EnsureTable(s1, pdp, Path(v)[1], flags).value;
    var pd := Next(Get(s2.mem, pdp, Path(v)[1]));
    var s3 := EnsureTable(s2, pd, Path(v)[2], flags).value;
    var pt := Next(Get(s3.mem, pd, Path(v)[2]));
    EnsureMarks(s, root, Path(v)[0], flags);
    EnsureMarks(s1, pdp, Path(v)[1], flags);
    EnsureMarks(s2, pd, Path(v)[2], flags);
    MarkedTrans(s.mem, s1.mem, s2.mem, flags);
    MarkedTrans(s.mem, s2.mem, s3.mem, flags);
    if Get(s3.mem, pt, Path(v)[3]) == EMPTY {
      PutMarks(s3.mem, pt, Path(v)[3], p, flags);
      MarkedTrans(s.mem, s3.mem, Put(s3.mem, pt, Path(v)[3], MakeEntry(p, flags)), flags);
    }
  }

  /** A run of mappings writes no entry, in tables or for pages, with other flags than its own. */
  lemma {:induction false} MapRangeMarks(s: Space, root: Frame, p: nat, pEnd: nat, v: nat, flags: nat)
    requires MapRange(s, root, p, pEnd, v, flags).Some?
    ensures Marked(s.mem, MapRange(s, root, p, pEnd, v, flags).value.mem, flags)
    decreases pEnd + 4096 - p
  {
    hide PageAlloc, Get;
    if p <= pEnd {
      var s1 := PageAlloc(s, root, v, p, flags).value;
      PageAllocMarks(s, root, v, p, flags);
      MapRangeMarks(s1, root, p + 4096, pEnd, v + 4096, flags);
      MarkedTrans(s.mem, s1.mem, MapRange(s1, root, p + 4096, pEnd, v + 4096, flags).value.mem, flags);
    }
  }

  lemma ProcessMarks(s: Space, root: Frame, text: nat, stack: nat)
    requires MapProcess(s, root, text, stack).Some?
    ensures Marked(s.mem, MapProcess(s, root, text, stack).value.mem, USER_FLAGS)
  {
    hide MapRange, Marked;
    var s1 := MapRange(s, root, text, text + TEXT_SIZE, TEXT_ADDR, USER_FLAGS).value;
    MapRangeMarks(s, root, text, text + TEXT_SIZE, TEXT_ADDR, USER_FLAGS);
    MapRangeMarks(s1, root, stack, stack + STACK_SIZE, STACK_ADDR, USER_FLAGS);
    MarkedTrans(s.mem, s1.mem, MapProcess(s, root, text, stack).value.mem, USER_FLAGS);
  }

  // ---- how many frames a range takes ----

  /** The addresses share their last-level table. */
  predicate SameTable(v: nat, w: nat) { Path(v)[..3] == Path(w)[..3] }

  lemma MissingSame(mem: Memory, root: Frame, v: nat, w: nat)
    requires SameTable(v, w)
    ensures Missing(mem, root, v) == Missing(mem, root, w)
  {
    hide Path, Get, Next;
    assert Path(v)[0] == Path(v)[..3][0] && Path(v)[1] == Path(v)[..3][1] && Path(v)[2] == Path(v)[..3][2];
    assert Path(w)[0] == Path(w)[..3][0] && Path(w)[1] == Path(w)[..3][1] && Path(w)[2] == Path(w)[..3][2];
  }

  lemma NearAddresses(v: nat, w: nat)
    requires v / 0x20_0000 == w / 0x20_0000
    ensures SameTable(v, w)
  {
    PathDigits(v);
    PathDigits(w);
    assert v / 0x4000_0000 == v / 0x20_0000 / 512 && w / 0x4000_0000 == w / 0x20_0000 / 512;
    assert v / 0x80_0000_0000 == v / 0x20_0000 / 512 / 512 && w / 0x80_0000_0000 == w / 0x20_0000 / 512 / 512;
  }

  /** Where the last-level table is in place, none is missing. */
  lemma NoneMissing(t: State, root: Frame, v: nat, pt: Frame)
    requires Owned(t, root) && pt in t.used && pt in t.at && t.at[pt] == Path(v)[..3]
    ensures Missing(t.s.mem, root, v) == 0
  {
    hide Path, Walk, Good, Owns;
    OwnedWalk(t, root, pt);
    var path := Path(v)[..3];
    var one, two := [path[0]], [path[0], path[1]];
    assert path[..2] == two && two[..1] == one && one[..0] == [];
    WalkLast(t.s.mem, root, path);
    WalkLast(t.s.mem, root, two);
    WalkLast(t.s.mem, root, one);
    WalkNowhere(t.s.mem, root);
    var f := Walk(t.s.mem, root, one).value;
    var g := Walk(t.s.mem, root, two).value;
    OwnedStep(t, root, [], root, path[0]);
    WalkOwned(t, root, one);
    OwnedStep(t, root, one, f, path[1]);
    WalkOwned(t, root, two);
    OwnedStep(t, root, two, g, path[2]);
  }

  lemma WalkNowhere(mem: Memory, root: Frame)
    ensures Walk(mem, root, []) == Some(root)
  {
  }

  lemma WalkOwned(t: State, root: Frame, path: seq<nat>)
    requires Owned(t, root) && |path| <= 3 && InRange(path) && Walk(t.s.mem, root, path).Some?
    ensures var f := Walk(t.s.mem, root, path).value; f in t.at && t.at[f] == path
  {
    WalkPlaces(t.s.mem, t.at, root, path);
    assert [] + path == path;
  }

  /** A present entry is not empty, and the kernel follows it to the table the processor finds. */
  lemma OwnedStep(t: State, root: Frame, path: seq<nat>, f: Frame, i: nat)
    requires Owned(t, root) && |path| < 3 && f in t.at && t.at[f] == path && i < ENTRIES && Step(t.s.mem, f, i).Some?
    ensures Get(t.s.mem, f, i) != EMPTY && Next(Get(t.s.mem, f, i)) == Step(t.s.mem, f, i).value
  {
    NextIsStep(t.s.mem, t.at, f, i);
  }

  /** After page_alloc the tables of the address are in place. */
  lemma AllocFills(t: State, root: Frame, v: nat, p: nat, flags: nat)
    requires Owned(t, root) && flags % 2 == 1 && PageAlloc(t.s, root, v, p, flags).Some?
    ensures Missing(PageAlloc(t.s, root, v, p, flags).value.mem, root, v) == 0
  {
    hide Walk, Path, PageOf, Prep, PageAlloc, Put, Owned, Advances, Missing;
    var t3, pt := Descended(t, root, v, p, flags);
    var d, e := Path(v)[3], MakeEntry(p, flags);
    if Get(t3.s.mem, pt, d) == EMPTY {
      WriteStep(t3, root, pt, d, e);
      NoneMissing(State(Space(Put(t3.s.mem, pt, d, e), t3.s.free), t3.at, t3.used), root, v, pt);
    } else {
      NoneMissing(t3, root, v, pt);
    }
  }

  /** A run below one last-level table succeeds exactly when the tables for its first page can be had. */
  lemma {:induction false} RunFrames(t: State, root: Frame, p: nat, pEnd: nat, v: nat, flags: nat)
    requires Owned(t, root) && flags % 2 == 1 && p <= pEnd && v / 0x20_0000 == (v + (pEnd - p)) / 0x20_0000
    ensures var n, r := Missing(t.s.mem, root, v), MapRange(t.s, root, p, pEnd, v, flags);
            && (r.Some? <==> |t.s.free| >= n)
            && (r.Some? ==> r.value.free == t.s.free[n..] && Missing(r.value.mem, root, v) == 0)
    decreases pEnd + 4096 - p
  {
    hide Path, PageAlloc, Owned, Advances, Missing, Translate, Mapped, PageOf;
    EnoughFrames(t, root, v, p, flags);
    if PageAlloc(t.s, root, v, p, flags).Some? {
      var t1 := PageAllocMaps(t, root, v, p, flags);
      AllocFills(t, root, v, p, flags);
      if p + 4096 <= pEnd {
        NextNear(p, pEnd, v);
        NearAddresses(v, v + 4096);
        MissingSame(t1.s.mem, root, v, v + 4096);
        RunFrames(t1, root, p + 4096, pEnd, v + 4096, flags);
        MissingSame(MapRange(t1.s, root, p + 4096, pEnd, v + 4096, flags).value.mem, root, v, v + 4096);
      }
    }
  }

  lemma NextNear(p: nat, pEnd: nat, v: nat)
    requires p + 4096 <= pEnd && v / 0x20_0000 == (v + (pEnd - p)) / 0x20_0000
    ensures v / 0x20_0000 == (v + 4096) / 0x20_0000 == (v + 4096 + (pEnd - (p + 4096))) / 0x20_0000
  {
  }

  /** create_process finds enough frames exactly when it has three besides the root. */
  lemma ProcessFrames(t: State, root: Frame, text: nat, stack: nat)
    requires Owned(t, root) && ZeroTable(t.s.mem, root)
    ensures MapProcess(t.s, root, text, stack).Some? <==> |t.s.free| >= 3
  {
    hide Owned, MapRange, Missing, Advances, Translate;
    RunFrames(t, root, text, text + TEXT_SIZE, TEXT_ADDR, USER_FLAGS);
    AllMissing(t.s.mem, root, TEXT_ADDR);
    if |t.s.free| >= 3 {
      var t1 := MapRangeMaps(t, root, text, text + TEXT_SIZE, TEXT_ADDR, USER_FLAGS);
      NearAddresses(TEXT_ADDR, STACK_ADDR);
      MissingSame(t1.s.mem, root, TEXT_ADDR, STACK_ADDR);
      RunFrames(t1, root, stack, stack + STACK_SIZE, STACK_ADDR, USER_FLAGS);
    }
  }

  lemma AllMissing(mem: Memory, root: Frame, v: nat)
    requires ZeroTable(mem, root)
    ensures Missing(mem, root, v) == 3
  {
    assert Get(mem, root, Path(v)[0]) == EMPTY;
  }
}
