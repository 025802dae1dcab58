/** kmem_init: the reserved regions of the memory map are taken out of the buddy allocator. */
module KmemBoot {
  import opened Powers
  import opened Bits
  import opened BuddyTree
  import opened BuddySlots
  import opened BuddyRange
  import opened Buddy
  import opened MemMap
  import R = RegionMaps

  /** mem_proc_handler's choice: reserved regions that end inside the content region. */
  predicate Chosen(r: R.Region, length: nat)
  {
    r.kind == R.RESERVED && R.End(r) <= length
  }

  /** These are the reserved regions of which no address lies outside the content region. */
  lemma ChosenExactly(r: R.Region, length: nat)
    requires r.length > 0
    ensures Chosen(r, length) <==> r.kind == R.RESERVED && forall x: nat :: R.Within(r, x) ==> x < length
  {
    assert R.Within(r, R.End(r) - 1);
  }

  /** Address `x` lies in one of the first `n` regions that are chosen. */
  ghost predicate Taken(s: seq<R.Region>, n: nat, length: nat, x: int)
    requires n <= |s|
  {
    exists k :: 0 <= k < n && Chosen(s[k], length) && s[k].base <= x < R.End(s[k])
  }

  /** No region that is not usable begins below `length` and is left out. */
  ghost predicate AllChosen(s: seq<R.Region>, length: nat)
  {
    forall k :: 0 <= k < |s| && s[k].kind != R.USABLE && s[k].base < length ==> Chosen(s[k], length)
  }

  /** Whatever is not taken is usable memory. */
  ghost predicate RestUsable(s: seq<R.Region>, length: nat)
  {
    forall x: nat :: x < length && !Taken(s, |s|, length, x) ==> R.Usable(s, x)
  }

  /**
   * The choice protects every address of the content region that is not usable if and only if the map
   * covers the content region and no reserved region reaches over its end.
   */
  lemma RestUsableExactly(s: seq<R.Region>, lo: nat, hi: nat, length: nat)
    requires R.Tiling(s, lo, hi) && length > 0
    ensures RestUsable(s, length) <==> lo == 0 && length <= hi && AllChosen(s, length)
  {
    if lo == 0 && length <= hi && AllChosen(s, length) {
      forall x: nat | x < length && !Taken(s, |s|, length, x) ensures R.Usable(s, x) {
        var k := R.Holder(s, lo, hi, x);
        R.FitIsUsable(s, k, x);
      }
    }
    if RestUsable(s, length) {
      R.UsableInside(s, lo, hi, 0);
      R.UsableInside(s, lo, hi, hi);
      OutsideNotTaken(s, lo, hi, length);
      forall k | 0 <= k < |s| && s[k].kind != R.USABLE && s[k].base < length ensures Chosen(s[k], length) {
        if !Chosen(s[k], length) {
          R.TilingPositive(s, lo, hi, k);
          NotChosen(s, lo, hi, length, k, s[k].base);
        }
      }
    }
  }

  lemma OutsideNotTaken(s: seq<R.Region>, lo: nat, hi: nat, length: nat)
    requires R.Tiling(s, lo, hi)
    ensures (lo > 0 ==> !Taken(s, |s|, length, 0)) && !Taken(s, |s|, length, hi)
  {
    forall k | 0 <= k < |s| ensures lo <= s[k].base && R.End(s[k]) <= hi {
      R.TilingPositive(s, lo, hi, k);
    }
  }

  /** The addresses of a region that is neither usable nor chosen are left free. */
  lemma NotChosen(s: seq<R.Region>, lo: nat, hi: nat, length: nat, k: nat, x: nat)
    requires R.Tiling(s, lo, hi) && k < |s| && s[k].kind != R.USABLE && !Chosen(s[k], length) && R.Within(s[k], x)
    ensures !Taken(s, |s|, length, x) && !R.Usable(s, x)
  {
    forall j | 0 <= j < |s| && R.Within(s[j], x) ensures j == k {
      R.Apart(s, lo, hi, j, k);
    }
    if R.Usable(s, x) {
      var j := R.UsableHolder(s, x);
    }
  }

  /** Whatever is not in use is usable memory. */
  ghost predicate FreeUsable(live: set<Block>, s: seq<R.Region>, length: nat)
  {
    forall x: nat :: x < length && !InSome(live, x) ==> R.Usable(s, x)
  }

  /** In use are the addresses of each region that is reserved and ends by `length`, and no others. */
  ghost predicate ReservedInUse(live: set<Block>, s: seq<R.Region>, length: nat)
  {
    && (forall k, x: nat :: 0 <= k < |s| && R.Within(s[k], x) ==>
          s[k].kind == R.RESERVED && R.End(s[k]) <= length ==> InSome(live, x))
    && (forall x :: InSome(live, x) ==>
          0 <= x && exists k :: 0 <= k < |s| && s[k].kind == R.RESERVED && R.End(s[k]) <= length && R.Within(s[k], x))
  }

  /** The used addresses are those of the chosen regions among the first `n`. */
  ghost predicate Reflects(live: set<Block>, s: seq<R.Region>, n: nat, length: nat)
    requires n <= |s|
  {
    forall x :: InSome(live, x) <==> Taken(s, n, length, x)
  }

  /** The regions do not overlap, so the next one is still free. */
  lemma NextIsFree(live: set<Block>, s: seq<R.Region>, n: nat, length: nat, lo: nat, hi: nat)
    requires n < |s| && Reflects(live, s, n, length) && R.Tiling(s, lo, hi)
    ensures RangeFree(live, s[n].base, R.End(s[n]))
  {
    R.TilingPositive(s, lo, hi, n);
    forall c | c in live ensures Hi(c) <= s[n].base || R.End(s[n]) <= Lo(c) {
      if !(Hi(c) <= s[n].base || R.End(s[n]) <= Lo(c)) {
        var x := if Lo(c) < s[n].base then s[n].base else Lo(c);
        assert Contains(c, x) && InSome(live, x);
        var k :| 0 <= k < n && Chosen(s[k], length) && s[k].base <= x < R.End(s[k]);
        R.Apart(s, lo, hi, k, n);
        assert false;
      }
    }
  }

  /** Reserving a free range adds exactly its addresses. */
  lemma NextReflects(live: set<Block>, b: Block, s: seq<R.Region>, n: nat, length: nat)
    requires n < |s| && Reflects(live, s, n, length) && Chosen(s[n], length)
    requires RangeIn(b, s[n].base, s[n].length) && RangeFree(live, s[n].base, R.End(s[n]))
    ensures Reservable(live, Pieces(b, s[n].base, s[n].length))
    ensures Reflects(Reserved(live, Pieces(b, s[n].base, s[n].length)), s, n + 1, length)
  {
    hide Pieces, Reservable, Reserved, RangeFree, RangeIn;
    FreeRangeReserves(live, b, s[n].base, s[n].length);
    var live' := Reserved(live, Pieces(b, s[n].base, s[n].length));
    forall x ensures InSome(live', x) <==> Taken(s, n + 1, length, x) {
      ReservedAddresses(live, b, s[n].base, s[n].length, x);
      TakenMore(s, n, length, x);
    }
  }

  lemma TakenMore(s: seq<R.Region>, n: nat, length: nat, x: int)
    requires n < |s|
    ensures Taken(s, n + 1, length, x)
            <==> Taken(s, n, length, x) || (Chosen(s[n], length) && s[n].base <= x < R.End(s[n]))
  {
  }

  lemma SkipReflects(live: set<Block>, s: seq<R.Region>, n: nat, length: nat)
    requires n < |s| && Reflects(live, s, n, length) && !Chosen(s[n], length)
    ensures Reflects(live, s, n + 1, length)
  {
    forall x ensures Taken(s, n + 1, length, x) <==> Taken(s, n, length, x) {
      TakenMore(s, n, length, x);
    }
  }

  /** Whole pages. */
  ghost predicate AllPaged(s: seq<R.Region>, length: nat)
  {
    forall k :: 0 <= k < |s| && Chosen(s[k], length) ==> Paged(s[k].base) && Paged(s[k].length)
  }

  /**
   * kmem_init over a content region that starts at address 0. No reservation halts, and afterwards
   * the addresses in use are exactly those of the reserved regions that end inside the content region.
   */
  method KmemInit(m: MemoryMap, length: nat) returns (a: Allocator)
    requires m.Valid() && AllPaged(m.Map(), length)
    requires length == Pow2(FloorLog(if length == 0 then 1 else length)) && Pow2(MIN_ORDER) <= length < WORD
    ensures fresh(a) && fresh(a.slots) && a.Valid() && a.base == 0 && Pow2(a.max) == length
    ensures forall x :: InSome(a.Blocks(), x) <==> Taken(m.Map(), m.numEntries, length, x)
    ensures ReservedInUse(a.Blocks(), m.Map(), length)
    ensures FreeUsable(a.Blocks(), m.Map(), length) <==> m.lo == 0 && length <= m.hi && AllChosen(m.Map(), length)
  {
    hide Encodes, Leaves, Fits, Pending, Scale, Pow2, Pieces, Reservable, Reserved, RangeFree, R.Tiling;
    a := new Allocator(0, length);
    ghost var s := m.Map();
    assert Reflects(a.Blocks(), s, 0, length);
    for i := 0 to m.numEntries
      invariant a.Valid() && a.base == 0 && Pow2(a.max) == length && fresh(a) && fresh(a.slots)
      invariant m.Valid() && s == m.Map() && Reflects(a.Blocks(), s, i, length)
    {
      var r := m.regions[i];
      if r.kind == R.RESERVED && R.End(r) <= length {
        InRoot(a, s, i, m.lo, m.hi, length);
        NextIsFree(a.Blocks(), s, i, length, m.lo, m.hi);
        NextReflects(a.Blocks(), Root(a.max), s, i, length);
        PendingNarrows(a.tree, Root(a.max), 0, 0, r.base, R.End(r));
        var ok := a.PreAlloc(r.base, r.length);
        assert ok;
      } else {
        SkipReflects(a.Blocks(), s, i, length);
      }
    }
    RestUsableExactly(s, m.lo, m.hi, length);
  }

  lemma InRoot(a: Allocator, s: seq<R.Region>, i: nat, lo: nat, hi: nat, length: nat)
    requires a.Formed() && Pow2(a.max) == length && i < |s| && R.Tiling(s, lo, hi)
    requires AllPaged(s, length) && Chosen(s[i], length)
    ensures RangeIn(Root(a.max), s[i].base, s[i].length)
  {
    hide Encodes, Leaves, Fits;
    a.RootSlot();
    R.TilingPositive(s, lo, hi, i);
  }
}
