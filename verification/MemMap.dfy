/** mem.c: the E820 map held in an array, cut, sorted, merged and squashed in place. */
module MemMap {
  import opened Options
  import opened Powers
  import B = Bits
  import opened Sorting
  import opened RegionMaps

  // ---- merging, step by step ----

  ghost predicate AllZero(s: seq<Region>)
  {
    forall i :: 0 <= i < |s| ==> s[i] == ZEROED
  }

  /** Empty slots are zero throughout. */
  ghost predicate Clean(s: seq<Region>)
  {
    forall i :: 0 <= i < |s| ==> IsEmpty(s[i]) ==> s[i] == ZEROED
  }

  /** `s` is `t` with everything before entry p2 merged into `front` and entry p1. */
  ghost predicate Merging(s: seq<Region>, t: seq<Region>, front: seq<Region>, p1: nat, p2: nat, lo: nat, hi: nat)
  {
    && p1 < p2 <= |t| == |s|
    && front == Compact(s[..p1]) && AllZero(s[p1 + 1..p2]) && s[p2..] == t[p2..] && Clean(s)
    && Same(t, front + [s[p1]] + t[p2..], lo, hi)
    && Alternates(front + [s[p1]]) && Normalised(front)
  }

  lemma MergingStart(t: seq<Region>, lo: nat, hi: nat)
    requires Tiling(t, lo, hi) && t != []
    ensures Merging(t, t, [], 0, 1, lo, hi)
  {
    TilingFull(t, lo, hi);
    assert [] + [t[0]] + t[1..] == t;
  }

  lemma MergingNormal(s: seq<Region>, t: seq<Region>, front: seq<Region>, p1: nat, p2: nat, lo: nat, hi: nat)
    requires Merging(s, t, front, p1, p2, lo, hi)
    ensures Merging(s[p1 := Normal(s[p1])], t, front, p1, p2, lo, hi)
  {
    var s1 := s[p1 := Normal(s[p1])];
    NormalSame(front, s[p1], t[p2..], lo, hi);
    assert s1[..p1] == s[..p1] && s1[p1 + 1..p2] == s[p1 + 1..p2] && s1[p2..] == s[p2..];
    AlternatesLike(front, s[p1], s1[p1]);
  }

  lemma AlternatesLike(p: seq<Region>, x: Region, y: Region)
    requires Alternates(p + [x]) && Alike(x, y)
    ensures Alternates(p + [y])
  {
    var a, b := p + [x], p + [y];
    forall i | 0 <= i < |b| - 1 ensures !Alike(b[i], b[i + 1]) {
      assert !Alike(a[i], a[i + 1]);
    }
  }

  lemma AlternatesMore(p: seq<Region>, x: Region, y: Region)
    requires Alternates(p + [x]) && !Alike(x, y)
    ensures Alternates(p + [x] + [y])
  {
    var a, b := p + [x], p + [x] + [y];
    forall i | 0 <= i < |b| - 1 ensures !Alike(b[i], b[i + 1]) {
      if i < |a| - 1 {
        assert !Alike(a[i], a[i + 1]);
      }
    }
  }

  lemma Uncons<T>(t: seq<T>, k: nat)
    requires k < |t|
    ensures t[k..] == [t[k]] + t[k + 1..]
  {
  }

  lemma MergingMerge(s: seq<Region>, t: seq<Region>, front: seq<Region>, p1: nat, p2: nat, lo: nat, hi: nat)
    requires Merging(s, t, front, p1, p2, lo, hi) && p2 < |t| && Alike(s[p1], s[p2])
    ensures Merging(s[p1 := s[p1].(length := s[p1].length + s[p2].length)][p2 := ZEROED], t, front, p1, p2 + 1, lo, hi)
  {
    var x, y, q := s[p1], s[p2], t[p2 + 1..];
    var m := x.(length := x.length + y.length);
    var s1 := s[p1 := m][p2 := ZEROED];
    Uncons(t, p2);
    Uncons(s, p2);
    assert front + [x] + t[p2..] == front + [x, y] + q;
    MergeSame(front, x, y, q, lo, hi);
    AlternatesLike(front, x, m);
    assert s1[..p1] == s[..p1] && s1[p2 + 1..] == q;
    assert s1[p1 + 1..p2 + 1] == s[p1 + 1..p2] + [ZEROED];
  }

  /** Entry p1 and the empty slots behind it join the front. */
  lemma FrontGrows(s: seq<Region>, p1: nat, p2: nat)
    requires p1 < p2 <= |s| && AllZero(s[p1 + 1..p2]) && !IsEmpty(s[p1])
    ensures Compact(s[..p2]) == Compact(s[..p1]) + [s[p1]]
  {
    var e := s[p1 + 1..p2];
    assert s[..p2] == s[..p1] + [s[p1]] + e;
    CompactJoin(s[..p1] + [s[p1]], e);
    CompactJoin(s[..p1], [s[p1]]);
    CompactEmpty(e);
    assert [s[p1]][1..] == [];
  }

  /** The current entry is a region of the merged map. */
  lemma MergingEntry(s: seq<Region>, t: seq<Region>, front: seq<Region>, p1: nat, p2: nat, lo: nat, hi: nat)
    requires Merging(s, t, front, p1, p2, lo, hi)
    ensures s[p1].kind > 0 && s[p1].length > 0
    ensures p2 < |t| ==> s[p2] == t[p2] && s[p2].kind > 0 && End(s[p1]) == s[p2].base
  {
    var w := front + [s[p1]] + t[p2..];
    assert w == front + ([s[p1]] + t[p2..]);
    var a := TilingSplit(front, [s[p1]] + t[p2..], lo, hi);
    assert ([s[p1]] + t[p2..])[1..] == t[p2..];
    if p2 < |t| {
      Uncons(t, p2);
      Uncons(s, p2);
    }
  }

  lemma MergingAdvance(s: seq<Region>, t: seq<Region>, front: seq<Region>, p1: nat, p2: nat, lo: nat, hi: nat)
    requires Merging(s, t, front, p1, p2, lo, hi) && p2 < |t| && !Alike(s[p1], s[p2]) && s[p1] == Normal(s[p1])
    ensures Merging(s, t, front + [s[p1]], p2, p2 + 1, lo, hi)
  {
    MergingEntry(s, t, front, p1, p2, lo, hi);
    FrontGrows(s, p1, p2);
    Uncons(t, p2);
    assert front + [s[p1]] + t[p2..] == front + [s[p1]] + [s[p2]] + t[p2 + 1..];
    AlternatesMore(front, s[p1], s[p2]);
    assert s[p2 + 1..] == s[p2..][1..];
  }

  lemma MergingDone(s: seq<Region>, t: seq<Region>, front: seq<Region>, p1: nat, lo: nat, hi: nat)
    requires Merging(s, t, front, p1, |t|, lo, hi) && s[p1] == Normal(s[p1])
    ensures Clean(s) && Same(t, Compact(s), lo, hi) && Alternates(Compact(s)) && Normalised(Compact(s))
  {
    MergingEntry(s, t, front, p1, |t|, lo, hi);
    FrontGrows(s, p1, |s|);
    assert s[..|s|] == s;
    assert front + [s[p1]] + t[|t|..] == front + [s[p1]];
  }

  lemma ShortMap(t: seq<Region>, lo: nat, hi: nat)
    requires Tiling(t, lo, hi) && |t| < 2
    ensures Clean(t) && Same(t, Compact(t), lo, hi) && Alternates(Compact(t))
  {
    TilingFull(t, lo, hi);
    CompactFull(t);
  }

  // ---- squashing ----

  ghost predicate EmptyBetween(s: seq<Region>, i: nat, k: nat)
  {
    k <= |s| && forall j :: i <= j < k ==> IsEmpty(s[j])
  }

  /** A full slot moves forward into an empty one over empty slots only. */
  lemma MoveCompacts(s: seq<Region>, i: nat, k: nat)
    requires i < k < |s| && EmptyBetween(s, i, k) && !IsEmpty(s[k])
    ensures Compact(s[i := s[k]][k := ZEROED]) == Compact(s)
  {
    var p, e, q := s[..i], s[i..k], s[k + 1..];
    var e1 := s[i + 1..k] + [ZEROED];
    var s1 := s[i := s[k]][k := ZEROED];
    assert s == p + e + [s[k]] + q && s1 == p + [s[k]] + e1 + q;
    forall j | 0 <= j < |e1| ensures IsEmpty(e1[j]) {
      assert j < |e1| - 1 ==> e1[j] == e[j + 1];
    }
    CompactEmpty(e);
    CompactEmpty(e1);
    CompactFull([s[k]]);
    CompactJoin(p + e + [s[k]], q);
    CompactJoin(p + e, [s[k]]);
    CompactJoin(p, e);
    CompactJoin(p + [s[k]] + e1, q);
    CompactJoin(p + [s[k]], e1);
    CompactJoin(p, [s[k]]);
  }

  ghost predicate FullBefore(s: seq<Region>, k: nat)
  {
    k <= |s| && forall i :: 0 <= i < k ==> !IsEmpty(s[i])
  }

  lemma CompactPrefix(s: seq<Region>, k: nat)
    requires FullBefore(s, k) && EmptyBetween(s, k, |s|)
    ensures Compact(s) == s[..k]
  {
    assert s == s[..k] + s[k..];
    CompactJoin(s[..k], s[k..]);
    CompactFull(s[..k]);
    CompactEmpty(s[k..]);
  }

  lemma AllZeroTail(s: seq<Region>, n: nat, k: nat)
    requires k <= n <= |s| && Clean(s[..n]) && EmptyBetween(s[..n], k, n) && AllZero(s[n..])
    ensures AllZero(s[k..])
  {
    forall i | 0 <= i < |s[k..]| ensures s[k..][i] == ZEROED {
      if k + i < n {
        assert s[k..][i] == s[..n][k + i];
      } else {
        assert s[n..][k + i - n] == s[k..][i];
      }
    }
  }

  // ---- cutting ----

  ghost predicate Permutes<T>(s: seq<T>, t: seq<T>) { multiset(s) == multiset(t) }

  lemma AppendPermutes<T>(s: seq<T>, c: nat, x: T, y: T)
    requires c < |s|
    ensures Permutes(s[c := x] + [y], s[..c] + [x, y] + s[c + 1..])
    ensures Permutes(s[c := x] + [y], s[..c] + [y, x] + s[c + 1..])
  {
    assert s[c := x] + [y] == s[..c] + [x] + s[c + 1..] + [y];
  }

  lemma AppendTwoPermutes<T>(s: seq<T>, c: nat, x: T, y: T, z: T)
    requires c < |s|
    ensures Permutes(s[c := x] + [z] + [y], s[..c] + [x, y, z] + s[c + 1..])
  {
    assert s[c := x] + [z] + [y] == s[..c] + [x] + s[c + 1..] + [z] + [y];
  }

  /** The entry that stays in place, and the entries that are appended. */
  ghost function Carved(s: seq<Region>, c: nat, start: nat, end: nat): seq<Region>
    requires c < |s| && Fits(s[c], start, end) && start < end
  {
    var r, ret := s[c], Region(start, end - start, RESERVED);
    if start == r.base then s[c := Region(end, r.length - (end - start), r.kind)] + [ret]
    else if end == End(r) then s[c := r.(length := r.length - (end - start))] + [ret]
    else s[c := r.(length := start - r.base)] + [Region(end, End(r) - end, USABLE)] + [ret]
  }

  lemma PieceList(r: Region, start: nat, end: nat)
    requires start < end && Fits(r, start, end)
    ensures var ret, right := Region(start, end - start, RESERVED), Region(end, End(r) - end, USABLE);
            var left := r.(length := start - r.base);
            && (start == r.base && end < End(r) ==> Pieces(r, start, end) == [ret, right])
            && (start > r.base && end == End(r) ==> Pieces(r, start, end) == [left, ret])
            && (start > r.base && end < End(r) ==> Pieces(r, start, end) == [left, ret, right])
  {
  }

  lemma CarvedBegin(s: seq<Region>, c: nat, start: nat, end: nat)
    requires c < |s| && start < end && Fits(s[c], start, end) && start == s[c].base && end < End(s[c])
    ensures Permutes(Carved(s, c, start, end), Cut(s, c, start, end))
  {
    hide Permutes, Pieces;
    PieceList(s[c], start, end);
    var r := s[c];
    var right := Region(end, End(r) - end, USABLE);
    assert Region(end, r.length - (end - start), r.kind) == right;
    AppendPermutes(s, c, right, Region(start, end - start, RESERVED));
  }

  lemma CarvedEnd(s: seq<Region>, c: nat, start: nat, end: nat)
    requires c < |s| && start < end && Fits(s[c], start, end) && start > s[c].base && end == End(s[c])
    ensures Permutes(Carved(s, c, start, end), Cut(s, c, start, end))
  {
    hide Permutes, Pieces;
    PieceList(s[c], start, end);
    var r := s[c];
    var left := r.(length := start - r.base);
    assert r.(length := r.length - (end - start)) == left;
    AppendPermutes(s, c, left, Region(start, end - start, RESERVED));
  }

  lemma CarvedMiddle(s: seq<Region>, c: nat, start: nat, end: nat)
    requires c < |s| && start < end && Fits(s[c], start, end) && start > s[c].base && end < End(s[c])
    ensures Permutes(Carved(s, c, start, end), Cut(s, c, start, end))
  {
    hide Permutes, Pieces;
    PieceList(s[c], start, end);
    var r := s[c];
    var left, right := r.(length := start - r.base), Region(end, End(r) - end, USABLE);
    AppendTwoPermutes(s, c, left, Region(start, end - start, RESERVED), right);
  }

  lemma CarvedIsCut(s: seq<Region>, c: nat, start: nat, end: nat)
    requires c < |s| && start < end && Fits(s[c], start, end) && !(start == s[c].base && end == End(s[c]))
    ensures Permutes(Carved(s, c, start, end), Cut(s, c, start, end))
  {
    hide Permutes, Cut, Carved;
    if start == s[c].base {
      CarvedBegin(s, c, start, end);
    } else if end == End(s[c]) {
      CarvedEnd(s, c, start, end);
    } else {
      CarvedMiddle(s, c, start, end);
    }
  }

  /** Relabelling a whole region in place is a cut without remainders. */
  lemma WholeCut(s: seq<Region>, c: nat)
    requires c < |s| && s[c].length > 0
    ensures Cut(s, c, s[c].base, End(s[c])) == s[c := s[c].(kind := RESERVED)]
  {
  }

  lemma AlternatesJoined(s: seq<Region>)
    requires Alternates(s)
    ensures Joined(s)
  {
  }

  /** A reserved region in place of a usable one cuts no usable memory. */
  lemma JoinedKept(s: seq<Region>, c: nat)
    requires Joined(s) && c < |s|
    ensures Joined(s[c := s[c].(kind := RESERVED)])
  {
    var t := s[c := s[c].(kind := RESERVED)];
    forall i | 0 <= i < |t| - 1 ensures !(IsUsable(t[i]) && IsUsable(t[i + 1])) {
      assert !(IsUsable(s[i]) && IsUsable(s[i + 1]));
    }
  }

  lemma SortedBack(before: seq<Region>, after: seq<Region>, n: nat, t: seq<Region>, lo: nat, hi: nat)
    requires n <= |before| && Rearranged(before, after, 0, n) && Sorted(after[..n], ByBase)
    requires Permutes(before[..n], t) && Tiling(t, lo, hi)
    ensures after[..n] == t && after[n..] == before[n..]
  {
    RangeKept(before, after, 0, n);
    assert before[0..n] == before[..n] && after[0..n] == after[..n];
    SortedTiling(after[..n], t, lo, hi);
  }

  lemma NotUsable(s: seq<Region>, lo: nat, hi: nat, start: nat, end: nat)
    requires Tiling(s, lo, hi) && Joined(s) && start < end
    requires forall k :: 0 <= k < |s| ==> !Fits(s[k], start, end)
    ensures !AllUsable(s, start, end)
  {
    if AllUsable(s, start, end) {
      var k := UsableFits(s, lo, hi, start, end);
    }
  }

  /** Where a range fits, it is usable, and it is a whole region only there. */
  lemma FitUsable(s: seq<Region>, lo: nat, hi: nat, c: nat, start: nat, end: nat)
    requires Tiling(s, lo, hi) && c < |s| && start < end && Fits(s[c], start, end)
    ensures AllUsable(s, start, end)
    ensures forall k :: 0 <= k < |s| && s[k].base == start && End(s[k]) == end ==> k == c
  {
    forall x: nat | start <= x < end ensures Usable(s, x) {
      FitIsUsable(s, c, x);
    }
    forall k | 0 <= k < |s| && s[k].base == start && End(s[k]) == end ensures k == c {
      Apart(s, lo, hi, k, c);
    }
  }

  // ---- allocating an amount ----

  /** The alignments that mem_alloc_amount lets through: powers of two, and zero. */
  ghost predicate Alignment(align: nat) { align == 0 || align == Pow2(B.FloorLog(align)) }

  /** The rounded start that mem_alloc_amount computes for a region. */
  ghost function AlignUp(base: nat, align: nat): nat
    requires base < WORD && align < WORD
  {
    WordIsPow2();
    if align == 0 then 0
    else
      B.FloorLogBelow(align, 64);
      B.RoundUpPo2(base, B.FloorLog(align))
  }

  /** The two tests of mem_alloc_amount, the second in 64-bit arithmetic. */
  ghost predicate Eligible(r: Region, length: nat, align: nat)
    requires r.base < WORD && align < WORD
  {
    && r.length >= length && IsUsable(r)
    && r.base <= AlignUp(r.base, align) && (AlignUp(r.base, align) + length) % WORD <= End(r)
  }

  ghost predicate NoneEligible(s: seq<Region>, n: nat, length: nat, align: nat)
    requires n <= |s| && align < WORD
  {
    forall k :: 0 <= k < n ==> s[k].base < WORD && !Eligible(s[k], length, align)
  }

  lemma {:induction false} InsideSpace(s: seq<Region>, lo: nat, hi: nat, k: nat)
    requires Tiling(s, lo, hi) && k < |s|
    ensures lo <= s[k].base && End(s[k]) <= hi && s[k].length > 0
  {
    TilingTotal(s[1..], End(s[0]), hi);
    if k > 0 {
      InsideSpace(s[1..], End(s[0]), hi, k - 1);
    }
  }

  class MemoryMap {
    const regions: array<Region>
    var numEntries: nat
    var physAvail: nat
    var physFree: nat
    ghost var lo: nat
    ghost var hi: nat

    constructor (regions: array<Region>, numEntries: nat, ghost lo: nat, ghost hi: nat)
      requires numEntries <= regions.Length && AllZero(regions[numEntries..]) && hi < WORD
      requires Tiling(regions[..numEntries], lo, hi) && Joined(regions[..numEntries])
      ensures Valid() && this.regions == regions && this.numEntries == numEntries && this.lo == lo && this.hi == hi
    {
      this.regions, this.numEntries, this.lo, this.hi := regions, numEntries, lo, hi;
      physAvail, physFree := 0, 0;
    }

    ghost function Map(): seq<Region>
      requires numEntries <= regions.Length
      reads this, regions
    {
      regions[..numEntries]
    }

    /** A sorted map without gaps, zeroed slots behind it, and no usable memory cut in two. */
    ghost predicate Valid()
      reads this, regions
    {
      && numEntries <= regions.Length && AllZero(regions[numEntries..]) && hi < WORD
      && Tiling(Map(), lo, hi) && Joined(Map())
    }

    method CombineMergeableRegions()
      requires numEntries < regions.Length && regions[numEntries] == ZEROED && Tiling(Map(), lo, hi)
      modifies regions
      ensures regions[numEntries..] == old(regions[numEntries..]) && Clean(Map())
      ensures Same(old(Map()), Compact(Map()), lo, hi)
      ensures Alternates(Compact(Map())) && (numEntries >= 2 ==> Normalised(Compact(Map())))
    {
      hide Merging, Tiling, Same, Compact, Alternates, Normalised;
      ghost var t := Map();
      if numEntries < 2 {
        ShortMap(t, lo, hi);
        return;
      }
      var ptr1, ptr2 := 0, 1;
      ghost var front: seq<Region> := [];
      MergingStart(t, lo, hi);
      var more := true;
      while more
        invariant ptr1 < ptr2 <= numEntries + 1 && more == (ptr2 <= numEntries)
        invariant regions[numEntries..] == old(regions[numEntries..])
        invariant more ==> Merging(regions[..numEntries], t, front, ptr1, ptr2, lo, hi)
        invariant !more ==> Clean(regions[..numEntries]) && Same(t, Compact(regions[..numEntries]), lo, hi)
        invariant !more ==> Alternates(Compact(regions[..numEntries])) && Normalised(Compact(regions[..numEntries]))
        decreases numEntries + 1 - ptr2
      {
        ghost var s := regions[..numEntries];
        MergingEntry(s, t, front, ptr1, ptr2, lo, hi);
        MergingNormal(s, t, front, ptr1, ptr2, lo, hi);
        if regions[ptr1].kind > USABLE {
          regions[ptr1] := regions[ptr1].(kind := RESERVED);
        }
        ghost var s1 := regions[..numEntries];
        assert s1 == s[ptr1 := Normal(s[ptr1])];
        var merge := false;
        if End(regions[ptr1]) >= regions[ptr2].base {
          if regions[ptr1].kind == regions[ptr2].kind {
            merge := true;
          } else if regions[ptr1].kind > USABLE && regions[ptr2].kind > USABLE {
            merge := true;
          }
        } else if regions[ptr1].kind > USABLE && regions[ptr2].kind > USABLE {
          merge := true;
        }
        if merge {
          MergingMerge(s1, t, front, ptr1, ptr2, lo, hi);
          regions[ptr1] := regions[ptr1].(length := regions[ptr1].length + regions[ptr2].length);
          regions[ptr2] := ZEROED;
          assert regions[..numEntries]
              == s1[ptr1 := s1[ptr1].(length := s1[ptr1].length + s1[ptr2].length)][ptr2 := ZEROED];
        } else {
          if ptr2 < numEntries {
            MergingAdvance(s1, t, front, ptr1, ptr2, lo, hi);
            front := front + [s1[ptr1]];
          } else {
            MergingDone(s1, t, front, ptr1, lo, hi);
          }
          ptr1 := ptr2;
        }
        ptr2 := ptr2 + 1;
        more := ptr2 <= numEntries;
      }
    }

    /** The first loop of squash_mem_regions: close the gaps, keeping the order. */
    method CloseGaps() returns (ghost full: nat)
      requires 2 <= numEntries <= regions.Length && Clean(Map()) && AllZero(regions[numEntries..])
      modifies regions
      ensures full <= numEntries && FullBefore(Map(), full) && EmptyBetween(Map(), full, numEntries) && Clean(Map())
      ensures Compact(Map()) == Compact(old(Map())) && regions[numEntries..] == old(regions[numEntries..])
    {
      hide Compact;
      ghost var n, t := numEntries, Map();
      var ptr1 := 0;
      while ptr1 < numEntries - 1
        invariant 0 <= ptr1 <= n - 1
        invariant FullBefore(regions[..n], ptr1) && Clean(regions[..n]) && regions[n..] == old(regions[n..])
        invariant Compact(regions[..n]) == Compact(t)
        modifies regions
      {
        if IsEmpty(regions[ptr1]) {
          var foundNextEntry := false;
          ghost var s := regions[..n];
          var nextPtr := ptr1 + 1;
          while nextPtr < numEntries
            invariant ptr1 < nextPtr <= n && !foundNextEntry && EmptyBetween(s, ptr1, nextPtr)
            modifies {}
          {
            if !IsEmpty(regions[nextPtr]) {
              foundNextEntry := true;
              break;
            }
            nextPtr := nextPtr + 1;
          }
          if !foundNextEntry {
            return ptr1;
          }
          MoveCompacts(s, ptr1, nextPtr);
          regions[ptr1] := regions[nextPtr];
          regions[nextPtr] := ZEROED;
          assert regions[..n] == s[ptr1 := s[nextPtr]][nextPtr := ZEROED];
        }
        ptr1 := ptr1 + 1;
      }
      full := if IsEmpty(regions[ptr1]) then ptr1 else n;
    }

    method SquashMemRegions()
      requires numEntries <= regions.Length && Clean(Map()) && AllZero(regions[numEntries..])
      requires numEntries < 2 ==> Compact(Map()) == Map()
      modifies regions, this`numEntries
      ensures numEntries <= old(numEntries) && AllZero(regions[numEntries..])
      ensures Map() == Compact(old(Map()))
    {
      hide Compact;
      if numEntries < 2 {
        return;
      }
      ghost var full := CloseGaps();
      ghost var s := Map();
      CompactPrefix(s, full);
      var ptr1 := 0;
      while ptr1 < numEntries
        invariant 0 <= ptr1 <= full && s == Map() && numEntries == old(numEntries)
        decreases |s| - ptr1
        modifies {}
      {
        if IsEmpty(regions[ptr1]) {
          break;
        }
        assert !IsEmpty(s[ptr1]);
        ptr1 := ptr1 + 1;
      }
      assert ptr1 == full;
      if ptr1 < numEntries {
        AllZeroTail(regions[..], numEntries, ptr1);
        numEntries := ptr1;
      }
      assert regions[..full] == s[..full];
    }

    /** The three cases of mem_alloc_region that leave a remainder, and the new entry. */
    method Carve(c: nat, start: nat, end: nat)
      requires numEntries + 2 <= regions.Length && c < numEntries
      requires start < end && Fits(regions[c], start, end) && !(start == regions[c].base && end == End(regions[c]))
      modifies regions, this`numEntries
      ensures old(numEntries) < numEntries <= old(numEntries) + 2
      ensures Permutes(Map(), Cut(old(Map()), c, start, end))
      ensures regions[numEntries..] == old(regions[..])[numEntries..]
    {
      hide Cut, Permutes;
      ghost var s, all := Map(), regions[..];
      CarvedIsCut(s, c, start, end);
      var r := regions[c];
      var reqLength := end - start;
      if start == r.base {
        regions[c] := Region(end, r.length - reqLength, r.kind);
      } else if end == End(r) {
        regions[c] := r.(length := r.length - reqLength);
      } else {
        regions[c] := r.(length := start - r.base);
        regions[numEntries] := Region(end, End(r) - end, USABLE);
        numEntries := numEntries + 1;
      }
      regions[numEntries] := Region(start, reqLength, RESERVED);
      numEntries := numEntries + 1;
      assert Map() == Carved(s, c, start, end);
    }

    /** Sort, combine and squash entries that rearrange the tiling `t`. */
    method Tidy(rand: nat -> nat, ghost t: seq<Region>)
      requires 2 <= numEntries < regions.Length && AllZero(regions[numEntries..])
      requires Permutes(Map(), t) && Tiling(t, lo, hi)
      modifies regions, this`numEntries
      ensures numEntries <= old(numEntries) && AllZero(regions[numEntries..])
      ensures Same(t, Map(), lo, hi) && Alternates(Map()) && Normalised(Map())
    {
      hide Tiling, Same, Compact, Alternates, Normalised, Sorted;
      ByBasePreorder();
      ghost var before := regions[..];
      Qsort(regions, numEntries, ByBase, rand);
      SortedBack(before, regions[..], numEntries, t, lo, hi);
      assert Map() == t;
      CombineMergeableRegions();
      SquashMemRegions();
    }

    /**
     * mem_alloc_region: the two BUG_ON failures return nothing. A range is granted exactly when all of it is
     * usable, and then exactly that range becomes reserved. The free counter misses the allocations that
     * take a whole region.
     */
    method MemAllocRegion(start: nat, end: nat, rand: nat -> nat) returns (r: Option<Region>, ghost whole: bool)
      requires Valid() && numEntries + 3 <= regions.Length && UsableBytes(Map()) <= physFree
      modifies this, regions
      ensures Valid() && lo == old(lo) && hi == old(hi) && numEntries <= old(numEntries) + 2
      ensures r.Some? <==> start < end && old(AllUsable(Map(), start, end))
      ensures r.None? ==> Map() == old(Map()) && physFree == old(physFree)
      ensures r.Some? ==> r.value == Region(start, end - start, RESERVED)
      ensures r.Some? ==> Reserves(old(Map()), Map(), lo, hi, start, end)
      ensures UsableBytes(Map()) <= physFree
      ensures r.Some? ==> physFree == old(physFree) - if whole then 0 else end - start
      ensures r.Some? ==> (whole <==> exists c :: 0 <= c < old(numEntries) && IsUsable(old(Map())[c])
                                                  && old(Map())[c].base == start && End(old(Map())[c]) == end)
    {
      hide Tiling, UsableBytes, Usable, Joined, Alternates, Normalised, Cut, Permutes;
      ghost var s := Map();
      whole := false;
      if end <= start {
        return None, false;
      }
      var c := 0;
      while c < numEntries
        invariant 0 <= c <= numEntries && forall k :: 0 <= k < c ==> !Fits(s[k], start, end)
        modifies {}
      {
        var rg := regions[c];
        if start >= rg.base && end <= End(rg) && end - start <= rg.length && rg.kind == USABLE {
          break;
        }
        c := c + 1;
      }
      if c == numEntries {
        NotUsable(s, lo, hi, start, end);
        return None, false;
      }
      FitUsable(s, lo, hi, c, start, end);
      CutReserves(s, lo, hi, c, start, end);
      if start == regions[c].base && end == End(regions[c]) {
        WholeCut(s, c);
        JoinedKept(s, c);
        regions[c] := regions[c].(kind := RESERVED);
        assert Map() == s[c := s[c].(kind := RESERVED)];
        return Some(regions[c]), true;
      }
      Carve(c, start, end);
      Tidy(rand, Cut(s, c, start, end));
      AlternatesJoined(Map());
      physFree := physFree - (end - start);
      r := Some(Region(start, end - start, RESERVED));
    }

    /** calc_phys_memory_stats: the counters are right when they are computed. */
    method CalcPhysMemoryStats()
      requires Valid()
      modifies this`physAvail, this`physFree
      ensures physAvail == hi - lo && physFree == UsableBytes(Map())
    {
      var totalMem, totalFreeMem := 0, 0;
      ghost var s := Map();
      for i := 0 to numEntries
        invariant totalMem + TotalBytes(s[i..]) == TotalBytes(s)
        invariant totalFreeMem + UsableBytes(s[i..]) == UsableBytes(s)
      {
        assert s[i..][1..] == s[i + 1..];
        totalMem := totalMem + regions[i].length;
        if regions[i].kind == USABLE {
          totalFreeMem := totalFreeMem + regions[i].length;
        }
      }
      TilingTotal(s, lo, hi);
      physAvail, physFree := totalMem, totalFreeMem;
    }

    /** The rounding of mem_alloc_amount. */
    method Rounded(base: nat, align: nat) returns (r: nat)
      requires base < WORD && align < WORD
      ensures r == AlignUp(base, align)
    {
      WordIsPow2();
      if align == 0 {
        return 0;
      }
      B.FloorLogBelow(align, 64);
      var e := B.Ilog2(align);
      r := B.RoundUpPo2(base, e);
    }

    /** The search loop of mem_alloc_amount. */
    method FirstEligible(length: nat, align: nat) returns (i: nat)
      requires Valid() && length < WORD && align < WORD
      ensures i <= numEntries && NoneEligible(Map(), i, length, align)
      ensures i < numEntries ==> Map()[i].base < WORD && Eligible(Map()[i], length, align)
    {
      hide Tiling, Joined, AlignUp;
      i := 0;
      while i < numEntries
        invariant 0 <= i <= numEntries && NoneEligible(Map(), i, length, align)
      {
        var rg := regions[i];
        InsideSpace(Map(), lo, hi, i);
        if rg.length >= length && rg.kind == USABLE {
          var base := Rounded(rg.base, align);
          if base >= rg.base && (base + length) % WORD <= End(rg) {
            return;
          }
        }
        i := i + 1;
      }
    }

    /**
     * mem_alloc_amount: its BUG_ON failures return nothing. It takes the first eligible region, but from
     * the region's own start, not from the rounded one.
     */
    method MemAllocAmount(length: nat, align: nat, rand: nat -> nat) returns (r: Option<Region>, ghost c: nat)
      requires Valid() && numEntries + 3 <= regions.Length && UsableBytes(Map()) <= physFree
      requires length < WORD && align < WORD
      modifies this, regions
      ensures Valid() && lo == old(lo) && hi == old(hi)
      ensures r.None? ==> Map() == old(Map())
      ensures r.None? ==> length == 0 || !Alignment(align) || old(NoneEligible(Map(), numEntries, length, align))
      ensures r.Some? ==> length > 0 && Alignment(align)
      ensures r.Some? ==> c < old(numEntries) && old(NoneEligible(Map(), c, length, align))
      ensures r.Some? ==> var rg := old(Map())[c];
                          && rg.base < WORD && Eligible(rg, length, align)
                          && r.value == Region(rg.base, length, RESERVED)
                          && Reserves(old(Map()), Map(), lo, hi, rg.base, rg.base + length)
    {
      hide Tiling, UsableBytes, Usable, Joined, AlignUp, Reserves, Alignment;
      ghost var s := Map();
      r, c := None, 0;
      var valid := IsAlignment(align);
      if length == 0 || !valid {
        return;
      }
      var i := FirstEligible(length, align);
      if i < numEntries {
        c := i;
        var rg := regions[i];
        InsideSpace(s, lo, hi, i);
        FitUsable(s, lo, hi, i, rg.base, rg.base + length);
        ghost var whole;
        r, whole := MemAllocRegion(rg.base, rg.base + length, rand);
      }
    }

    /** The alignment check of mem_alloc_amount. */
    method IsAlignment(align: nat) returns (b: bool)
      requires align < WORD
      ensures b <==> Alignment(align)
    {
      WordIsPow2();
      var up := B.Clp2(align);
      b := align == up;
      if align > 0 {
        B.PowerTest(align);
        BeyondTop(align);
      }
    }
  }

  lemma BeyondTop(align: nat)
    requires 0 < align < WORD
    ensures align > Pow2(63) ==> align != Pow2(B.FloorLog(align))
  {
    WordIsPow2();
    B.FloorLogBelow(align, 64);
    Pow2Monotone(B.FloorLog(align), 63);
  }

  /** The free counter does drift: one page of usable memory, allocated whole, is still counted as free. */
  method FreeCounterDrifts(rand: nat -> nat) returns (m: MemoryMap)
    ensures fresh(m) && m.Valid() && UsableBytes(m.Map()) == 0 && m.physFree == 0x1000
  {
    var page := Region(0x100000, 0x1000, USABLE);
    var slots := new Region[4](i => if i == 0 then page else ZEROED);
    assert slots[..1] == [page] && [page][1..] == [];
    m := new MemoryMap(slots, 1, 0x100000, 0x101000);
    m.CalcPhysMemoryStats();
    FitUsable(m.Map(), m.lo, m.hi, 0, 0x100000, 0x101000);
    ghost var s := m.Map();
    assert s[0].base == 0x100000 && End(s[0]) == 0x101000 && IsUsable(s[0]);
    var r, whole := m.MemAllocRegion(0x100000, 0x101000, rand);
  }

  /** Hence the result of mem_alloc_amount need not be aligned: here it starts in the middle of a page. */
  method AmountNotAligned(rand: nat -> nat) returns (r: Region)
    ensures r == Region(0x100800, 0x1000, RESERVED)
  {
    var rg := Region(0x100800, 0x10000, USABLE);
    var slots := new Region[4](i => if i == 0 then rg else ZEROED);
    assert slots[..1] == [rg] && [rg][1..] == [];
    var m := new MemoryMap(slots, 1, 0x100800, 0x110800);
    m.CalcPhysMemoryStats();
    PageAlignment(rg);
    var got, c := m.MemAllocAmount(0x1000, 0x1000, rand);
    r := got.value;
  }

  // ---- which regions mem_alloc_amount takes ----

  lemma {:induction false} NextMultiple(p: nat, q: nat, n: nat)
    ensures p < q ==> p * n + n <= q * n
  {
    if p < q {
      NextMultiple(p, q - 1, n);
      assert q * n == (q - 1) * n + n;
    }
  }

  /** Two multiples of `n` closer than `n` are one. */
  lemma SameMultiple(p: nat, q: nat, n: nat, b: nat)
    requires b <= p * n < b + n && b <= q * n < b + n
    ensures p == q
  {
    NextMultiple(p, q, n);
    NextMultiple(q, p, n);
  }

  /** The rounded start is the least multiple of the alignment, or 0 where that is not a 64-bit number. */
  lemma AlignUpIsLeast(base: nat, align: nat, q: nat)
    requires base < WORD && 0 < align < WORD && Alignment(align) && base <= q * align < base + align
    ensures AlignUp(base, align) == if q * align < WORD then q * align else 0
    ensures q * align < WORD || base > 0
  {
    hide Pow2, B.FloorLog, B.RoundUpIn;
    WordIsPow2();
    B.FloorLogBelow(align, 64);
    var e := B.FloorLog(align);
    B.RoundUpIsLeastMultiple(base, e, 64);
    Pow2Add(64 - e, e);
    if base + align - 1 < WORD {
      var r := AlignUp(base, align);
      B.LowZero(r, e);
      ScaleIsProduct(B.Shr(r, e), e);
      SameMultiple(B.Shr(r, e), q, align, base);
    } else {
      LastMultiple(q, Pow2(64 - e), align, base);
    }
  }

  lemma LastMultiple(q: nat, m: nat, n: nat, b: nat)
    requires n > 0 && b + n - 1 >= m * n && b <= q * n
    ensures q * n >= m * n
  {
    NextMultiple(q, m, n);
    NextMultiple(m, q, n);
  }

  /**
   * Which regions are taken, in terms of the least multiple of the alignment in or behind the region: it must
   * leave room for the request, or be so far up that the sum passes 2^64.
   */
  lemma EligibleExactly(r: Region, length: nat, align: nat, q: nat)
    requires End(r) < WORD && length < WORD && 0 < align < WORD && Alignment(align)
    requires r.base <= q * align < r.base + align
    ensures Eligible(r, length, align) <==>
              && IsUsable(r) && length <= r.length
              && (q * align + length <= End(r) || q * align < WORD <= q * align + length)
  {
    hide Alignment, AlignUp;
    AlignUpIsLeast(r.base, align, q);
    var a := AlignUp(r.base, align);
    assert a + length < 2 * WORD && (a + length) % WORD == if a + length < WORD then a + length else a + length - WORD;
  }

  /** The alignment 0 passes the check for a power of two, and then only a region at address 0 will do. */
  lemma EligibleUnaligned(r: Region, length: nat)
    requires End(r) < WORD && length < WORD
    ensures Eligible(r, length, 0) <==> IsUsable(r) && length <= r.length && r.base == 0
  {
    assert length % WORD == length;
  }

  /** The second case does occur: the aligned request would pass the end of the region, and of the address space. */
  lemma AlignedPastEnd()
    ensures var r, half := Region(0x4000_0000_0000_0000, 0x8000_0000_0000_0000, USABLE), 0x8000_0000_0000_0000;
            End(r) < half + half && Alignment(half) && Eligible(r, half, half)
  {
    var half := 0x8000_0000_0000_0000;
    WordIsPow2();
    assert Pow2(64) == 2 * Pow2(63);
    B.FloorLogUnique(half, 63);
    assert 1 * half == half;
    EligibleExactly(Region(0x4000_0000_0000_0000, half, USABLE), half, half, 1);
  }

  lemma PageOrder()
    ensures Pow2(12) == 0x1000 && B.FloorLog(0x1000) == 12
  {
    assert Pow2(12) == 0x1000;
    B.FloorLogUnique(0x1000, 12);
  }

  lemma PageAlignment(r: Region)
    requires r.base + 0x10000 < WORD && r.length >= 0x10000 && IsUsable(r)
    ensures Alignment(0x1000) && Eligible(r, 0x1000, 0x1000)
  {
    PageOrder();
    hide Pow2, B.FloorLog, B.RoundUpIn;
    WordIsPow2();
    B.RoundUpIsLeastMultiple(r.base, 12, 64);
  }
}
