/** Maps of the physical address space as sequences of E820 regions. */
module RegionMaps {
  import opened Sorting

  const USABLE: nat := 1
  const RESERVED: nat := 2

  datatype Region = Region(base: nat, length: nat, kind: nat)

  const ZEROED := Region(0, 0, 0)

  function End(r: Region): nat { r.base + r.length }

  predicate IsEmpty(r: Region) { r.length == 0 && r.kind == 0 }

  predicate IsUsable(r: Region) { r.kind == USABLE }

  predicate Within(r: Region, x: nat) { r.base <= x < End(r) }

  /** The order qsort_cmp_mem_region gives. */
  function ByBase(a: Region, b: Region): int
  {
    if a.base > b.base then 1 else if a.base < b.base then -1 else 0
  }

  /** Non-empty regions that follow each other without gap or overlap from `lo` to `hi`. */
  ghost predicate Tiling(rs: seq<Region>, lo: nat, hi: nat)
  {
    if rs == [] then lo == hi
    else rs[0].base == lo && rs[0].length > 0 && rs[0].kind > 0 && Tiling(rs[1..], End(rs[0]), hi)
  }

  /** Address `x` is usable memory. */
  ghost predicate Usable(rs: seq<Region>, x: nat)
  {
    rs != [] && ((IsUsable(rs[0]) && Within(rs[0], x)) || Usable(rs[1..], x))
  }

  ghost function UsableBytes(rs: seq<Region>): nat
  {
    if rs == [] then 0 else (if IsUsable(rs[0]) then rs[0].length else 0) + UsableBytes(rs[1..])
  }

  ghost function TotalBytes(rs: seq<Region>): nat
  {
    if rs == [] then 0 else rs[0].length + TotalBytes(rs[1..])
  }

  lemma {:induction false} TilingTotal(rs: seq<Region>, lo: nat, hi: nat)
    requires Tiling(rs, lo, hi)
    ensures lo + TotalBytes(rs) == hi
  {
    if rs != [] {
      TilingTotal(rs[1..], End(rs[0]), hi);
    }
  }

  // ---- concatenation ----

  lemma {:induction false} TilingSplit(a: seq<Region>, b: seq<Region>, lo: nat, hi: nat) returns (mid: nat)
    requires Tiling(a + b, lo, hi)
    ensures lo <= mid <= hi && Tiling(a, lo, mid) && Tiling(b, mid, hi)
  {
    if a == [] {
      assert a + b == b;
      mid := lo;
      TilingTotal(b, lo, hi);
    } else {
      assert (a + b)[1..] == a[1..] + b;
      mid := TilingSplit(a[1..], b, End(a[0]), hi);
    }
  }

  lemma {:induction false} TilingJoin(a: seq<Region>, b: seq<Region>, lo: nat, mid: nat, hi: nat)
    requires Tiling(a, lo, mid) && Tiling(b, mid, hi)
    ensures Tiling(a + b, lo, hi)
  {
    if a == [] {
      assert a + b == b;
    } else {
      TilingJoin(a[1..], b, End(a[0]), mid, hi);
      assert (a + b)[1..] == a[1..] + b;
    }
  }

  lemma {:induction false} UsableJoin(a: seq<Region>, b: seq<Region>, x: nat)
    ensures Usable(a + b, x) <==> Usable(a, x) || Usable(b, x)
  {
    if a == [] {
      assert a + b == b;
    } else {
      UsableJoin(a[1..], b, x);
      assert (a + b)[1..] == a[1..] + b;
    }
  }

  lemma {:induction false} BytesJoin(a: seq<Region>, b: seq<Region>)
    ensures UsableBytes(a + b) == UsableBytes(a) + UsableBytes(b)
  {
    if a == [] {
      assert a + b == b;
    } else {
      BytesJoin(a[1..], b);
      assert (a + b)[1..] == a[1..] + b;
    }
  }

  lemma {:induction false} UsableInside(rs: seq<Region>, lo: nat, hi: nat, x: nat)
    requires Tiling(rs, lo, hi)
    ensures lo <= hi && (Usable(rs, x) ==> lo <= x < hi)
  {
    TilingTotal(rs, lo, hi);
    if rs != [] {
      UsableInside(rs[1..], End(rs[0]), hi, x);
    }
  }

  // ---- one map stands for another ----

  /** The same addresses, the same bytes usable. */
  ghost predicate Same(rs: seq<Region>, ts: seq<Region>, lo: nat, hi: nat)
  {
    && Tiling(rs, lo, hi) && Tiling(ts, lo, hi)
    && UsableBytes(rs) == UsableBytes(ts)
    && forall x: nat :: Usable(rs, x) == Usable(ts, x)
  }

  /** Exchange the middle of a map for an equivalent middle. */
  lemma SameMiddle(p: seq<Region>, m: seq<Region>, w: seq<Region>, q: seq<Region>, lo: nat, hi: nat)
    requires Tiling(p + m + q, lo, hi)
    requires forall a: nat, b: nat :: Tiling(m, a, b) ==> Same(m, w, a, b)
    ensures Same(p + m + q, p + w + q, lo, hi)
  {
    var b := TilingSplit(p + m, q, lo, hi);
    var a := TilingSplit(p, m, lo, b);
    assert Same(m, w, a, b);
    TilingJoin(p, w, lo, a, b);
    TilingJoin(p + w, q, lo, b, hi);
    BytesJoin(p, m);
    BytesJoin(p, w);
    BytesJoin(p + m, q);
    BytesJoin(p + w, q);
    forall x: nat ensures Usable(p + m + q, x) == Usable(p + w + q, x) {
      UsableJoin(p, m, x);
      UsableJoin(p, w, x);
      UsableJoin(p + m, q, x);
      UsableJoin(p + w, q, x);
    }
  }

  /** Two neighbours of one class. */
  predicate Alike(x: Region, y: Region) { IsUsable(x) == IsUsable(y) }

  function Normal(r: Region): Region { if r.kind > USABLE then r.(kind := RESERVED) else r }

  lemma NormalSame(p: seq<Region>, x: Region, q: seq<Region>, lo: nat, hi: nat)
    requires Tiling(p + [x] + q, lo, hi)
    ensures Same(p + [x] + q, p + [Normal(x)] + q, lo, hi)
  {
    forall a: nat, b: nat | Tiling([x], a, b) ensures Same([x], [Normal(x)], a, b) {
      assert [x][1..] == [] && [Normal(x)][1..] == [];
    }
    SameMiddle(p, [x], [Normal(x)], q, lo, hi);
  }

  lemma MergeSame(p: seq<Region>, x: Region, y: Region, q: seq<Region>, lo: nat, hi: nat)
    requires Tiling(p + [x, y] + q, lo, hi) && Alike(x, y)
    ensures Same(p + [x, y] + q, p + [x.(length := x.length + y.length)] + q, lo, hi)
  {
    var m := x.(length := x.length + y.length);
    forall a: nat, b: nat | Tiling([x, y], a, b) ensures Same([x, y], [m], a, b) {
      assert [x, y] == [x] + [y];
      var c := TilingSplit([x], [y], a, b);
      BytesJoin([x], [y]);
      forall z: nat ensures Usable([x, y], z) == Usable([m], z) {
        UsableJoin([x], [y], z);
      }
    }
    SameMiddle(p, [x, y], [m], q, lo, hi);
  }

  // ---- canonical maps ----

  /** Neighbours are of different classes. */
  ghost predicate Alternates(rs: seq<Region>)
  {
    forall i :: 0 <= i < |rs| - 1 ==> !Alike(rs[i], rs[i + 1])
  }

  /** No usable region is followed by another. */
  ghost predicate Joined(rs: seq<Region>)
  {
    forall i :: 0 <= i < |rs| - 1 ==> !(IsUsable(rs[i]) && IsUsable(rs[i + 1]))
  }

  ghost predicate Normalised(rs: seq<Region>)
  {
    forall i :: 0 <= i < |rs| ==> rs[i].kind == USABLE || rs[i].kind == RESERVED
  }

  lemma FirstAddress(rs: seq<Region>, lo: nat, hi: nat, x: nat)
    requires Tiling(rs, lo, hi) && rs != [] && Within(rs[0], x)
    ensures Usable(rs, x) == IsUsable(rs[0])
  {
    UsableInside(rs[1..], End(rs[0]), hi, x);
  }

  /** An alternating map is determined by which of its addresses are usable. */
  lemma {:induction false} MapDetermined(a: seq<Region>, b: seq<Region>, lo: nat, hi: nat)
    requires Same(a, b, lo, hi) && Alternates(a) && Alternates(b) && Normalised(a) && Normalised(b)
    ensures a == b
  {
    TilingTotal(a, lo, hi);
    TilingTotal(b, lo, hi);
    if a != [] && b != [] {
      HeadsAgree(a, b, lo, hi);
      HeadsAgree(b, a, lo, hi);
      forall x: nat ensures Usable(a[1..], x) == Usable(b[1..], x) {
        UsableInside(a[1..], End(a[0]), hi, x);
        UsableInside(b[1..], End(b[0]), hi, x);
        assert Usable(a, x) == Usable(b, x);
      }
      MapDetermined(a[1..], b[1..], End(a[0]), hi);
    }
  }

  lemma HeadsAgree(a: seq<Region>, b: seq<Region>, lo: nat, hi: nat)
    requires Same(a, b, lo, hi) && Alternates(a) && a != [] && b != [] && Normalised(a) && Normalised(b)
    ensures a[0].kind == b[0].kind && a[0].length >= b[0].length
  {
    FirstAddress(a, lo, hi, lo);
    FirstAddress(b, lo, hi, lo);
    var x := End(a[0]);
    if a[0].length < b[0].length {
      FirstAddress(b, lo, hi, x);
      TilingTotal(b[1..], End(b[0]), hi);
      TilingTotal(a[1..], x, hi);
      assert a[1..] != [];
      FirstAddress(a[1..], x, hi, x);
    }
  }

  // ---- where a range is usable ----

  ghost predicate Fits(r: Region, start: nat, end: nat)
  {
    IsUsable(r) && r.base <= start && end <= End(r)
  }

  ghost predicate AllUsable(rs: seq<Region>, start: nat, end: nat)
  {
    forall x: nat :: start <= x < end ==> Usable(rs, x)
  }

  lemma JoinedTail(rs: seq<Region>)
    requires Joined(rs) && rs != []
    ensures Joined(rs[1..])
  {
    forall i | 0 <= i < |rs[1..]| - 1 ensures !(IsUsable(rs[1..][i]) && IsUsable(rs[1..][i + 1])) {
      assert rs[1..][i] == rs[i + 1] && rs[1..][i + 1] == rs[i + 2];
      assert !(IsUsable(rs[i + 1]) && IsUsable(rs[i + 1 + 1]));
    }
  }

  lemma {:induction false} FitIsUsable(rs: seq<Region>, k: nat, x: nat)
    requires k < |rs| && IsUsable(rs[k]) && Within(rs[k], x)
    ensures Usable(rs, x)
  {
    if k > 0 {
      FitIsUsable(rs[1..], k - 1, x);
    }
  }

  /** A joined region is not continued by the next one. */
  lemma JoinedFirst(rs: seq<Region>, lo: nat, hi: nat)
    requires Tiling(rs, lo, hi) && Joined(rs) && rs != [] && IsUsable(rs[0])
    ensures !Usable(rs, End(rs[0]))
  {
    var x := End(rs[0]);
    if rs[1..] != [] {
      assert !(IsUsable(rs[0]) && IsUsable(rs[0 + 1]));
      FirstAddress(rs[1..], x, hi, x);
    }
  }

  /** Usable memory is never cut in two: a range that is usable throughout lies in one region. */
  lemma {:induction false} UsableFits(rs: seq<Region>, lo: nat, hi: nat, start: nat, end: nat) returns (k: nat)
    requires Tiling(rs, lo, hi) && Joined(rs) && start < end && AllUsable(rs, start, end)
    ensures k < |rs| && Fits(rs[k], start, end)
  {
    hide Joined;
    assert Usable(rs, start);
    UsableInside(rs, lo, hi, start);
    if start < End(rs[0]) {
      FirstAddress(rs, lo, hi, start);
      JoinedFirst(rs, lo, hi);
      k := 0;
    } else {
      JoinedTail(rs);
      forall x: nat | start <= x < end ensures Usable(rs[1..], x) {
        assert Usable(rs, x);
      }
      k := UsableFits(rs[1..], End(rs[0]), hi, start, end);
      k := k + 1;
    }
  }

  /** Regions of a tiling do not overlap. */
  lemma {:induction false} Apart(rs: seq<Region>, lo: nat, hi: nat, i: nat, j: nat)
    requires Tiling(rs, lo, hi) && i < |rs| && j < |rs|
    ensures i != j ==> End(rs[i]) <= rs[j].base || End(rs[j]) <= rs[i].base
  {
    if i == 0 && j > 0 {
      TilingBases(rs[1..], End(rs[0]), hi, rs[j]);
    } else if i > 0 && j == 0 {
      TilingBases(rs[1..], End(rs[0]), hi, rs[i]);
    } else if i > 0 && j > 0 {
      Apart(rs[1..], End(rs[0]), hi, i - 1, j - 1);
    }
  }

  /** Every address of a tiled range lies in a region. */
  lemma {:induction false} Holder(rs: seq<Region>, lo: nat, hi: nat, x: nat) returns (k: nat)
    requires Tiling(rs, lo, hi) && lo <= x < hi
    ensures k < |rs| && Within(rs[k], x)
  {
    if x < End(rs[0]) {
      k := 0;
    } else {
      k := Holder(rs[1..], End(rs[0]), hi, x);
      k := k + 1;
    }
  }

  lemma {:induction false} UsableHolder(rs: seq<Region>, x: nat) returns (k: nat)
    requires Usable(rs, x)
    ensures k < |rs| && IsUsable(rs[k]) && Within(rs[k], x)
  {
    if IsUsable(rs[0]) && Within(rs[0], x) {
      k := 0;
    } else {
      k := UsableHolder(rs[1..], x);
      k := k + 1;
    }
  }

  // ---- sorting ----

  lemma ByBasePreorder()
    ensures TotalPreorder(ByBase)
  {
  }

  lemma {:induction false} TilingBases(t: seq<Region>, lo: nat, hi: nat, r: Region)
    requires Tiling(t, lo, hi) && r in t
    ensures r.base >= lo && (r.base == lo ==> r == t[0])
  {
    if r != t[0] {
      TilingBases(t[1..], End(t[0]), hi, r);
    }
  }

  lemma SortedLeast(s: seq<Region>, k: nat)
    requires Sorted(s, ByBase) && k < |s|
    ensures s[0].base <= s[k].base
  {
    if k > 0 {
      assert ByBase(s[0], s[k]) <= 0;
    }
  }

  lemma DropHeads<T>(s: seq<T>, t: seq<T>)
    requires s != [] && t != [] && s[0] == t[0] && multiset(s) == multiset(t)
    ensures multiset(s[1..]) == multiset(t[1..])
  {
    assert s == [s[0]] + s[1..] && t == [t[0]] + t[1..];
    assert multiset(s[1..]) == multiset(s) - multiset{s[0]};
    assert multiset(t[1..]) == multiset(t) - multiset{t[0]};
  }

  lemma SortedHead(s: seq<Region>, t: seq<Region>, lo: nat, hi: nat)
    requires Tiling(t, lo, hi) && t != [] && multiset(s) == multiset(t) && Sorted(s, ByBase)
    ensures s != [] && s[0] == t[0] && multiset(s[1..]) == multiset(t[1..])
  {
    hide Sorted, TotalPreorder;
    assert t[0] in multiset(t);
    assert t[0] in s;
    var k :| 0 <= k < |s| && s[k] == t[0];
    SortedLeast(s, k);
    assert s[0] in multiset(s);
    assert s[0] in t;
    TilingBases(t, lo, hi, s[0]);
    DropHeads(s, t);
  }

  lemma SortedTail(s: seq<Region>)
    requires Sorted(s, ByBase) && s != []
    ensures Sorted(s[1..], ByBase)
  {
  }

  /** Sorting by base address puts any rearrangement of a tiling back in order. */
  lemma {:induction false} SortedTiling(s: seq<Region>, t: seq<Region>, lo: nat, hi: nat)
    requires Tiling(t, lo, hi) && multiset(s) == multiset(t) && Sorted(s, ByBase)
    ensures s == t
    decreases |t|
  {
    hide Sorted;
    if t == [] {
      assert |s| == |multiset(s)|;
    } else {
      SortedHead(s, t, lo, hi);
      SortedTail(s);
      SortedTiling(s[1..], t[1..], End(t[0]), hi);
      assert s == [s[0]] + s[1..] && t == [t[0]] + t[1..];
    }
  }

  // ---- cutting a range out of a usable region ----

  /** What is left of `r` around the range, and the range itself, in order. */
  function Pieces(r: Region, start: nat, end: nat): seq<Region>
    requires r.base <= start < end <= End(r)
  {
    (if r.base < start then [Region(r.base, start - r.base, USABLE)] else [])
    + [Region(start, end - start, RESERVED)]
    + (if end < End(r) then [Region(end, End(r) - end, USABLE)] else [])
  }

  function Cut(rs: seq<Region>, c: nat, start: nat, end: nat): seq<Region>
    requires c < |rs| && rs[c].base <= start < end <= End(rs[c])
  {
    rs[..c] + Pieces(rs[c], start, end) + rs[c + 1..]
  }

  /** Exactly the range changes from usable to reserved. */
  ghost predicate Reserves(rs: seq<Region>, ts: seq<Region>, lo: nat, hi: nat, start: nat, end: nat)
    requires start < end
  {
    && Tiling(rs, lo, hi) && Tiling(ts, lo, hi)
    && UsableBytes(rs) == UsableBytes(ts) + (end - start)
    && forall x: nat :: Usable(ts, x) <==> Usable(rs, x) && !(start <= x < end)
  }

  lemma PiecesReserve(r: Region, lo: nat, hi: nat, start: nat, end: nat)
    requires Tiling([r], lo, hi) && start < end && Fits(r, start, end)
    ensures Reserves([r], Pieces(r, start, end), lo, hi, start, end)
  {
    var a := if r.base < start then [Region(r.base, start - r.base, USABLE)] else [];
    var b := [Region(start, end - start, RESERVED)];
    var c := if end < End(r) then [Region(end, End(r) - end, USABLE)] else [];
    TilingJoin(a, b, lo, start, end);
    TilingJoin(a + b, c, lo, end, hi);
    BytesJoin(a, b);
    BytesJoin(a + b, c);
    forall x: nat ensures Usable(a + b + c, x) <==> Usable([r], x) && !(start <= x < end) {
      UsableJoin(a, b, x);
      UsableJoin(a + b, c, x);
    }
  }

  lemma CutReserves(rs: seq<Region>, lo: nat, hi: nat, c: nat, start: nat, end: nat)
    requires Tiling(rs, lo, hi) && c < |rs| && start < end && Fits(rs[c], start, end)
    ensures Reserves(rs, Cut(rs, c, start, end), lo, hi, start, end)
  {
    var p, m, q := rs[..c], [rs[c]], rs[c + 1..];
    var w := Pieces(rs[c], start, end);
    assert rs == p + m + q;
    var b := TilingSplit(p + m, q, lo, hi);
    var a := TilingSplit(p, m, lo, b);
    PiecesReserve(rs[c], a, b, start, end);
    TilingJoin(p, w, lo, a, b);
    TilingJoin(p + w, q, lo, b, hi);
    BytesJoin(p, m);
    BytesJoin(p, w);
    BytesJoin(p + m, q);
    BytesJoin(p + w, q);
    forall x: nat ensures Usable(p + w + q, x) <==> Usable(rs, x) && !(start <= x < end) {
      UsableJoin(p, m, x);
      UsableJoin(p, w, x);
      UsableJoin(p + m, q, x);
      UsableJoin(p + w, q, x);
      UsableInside(p, lo, a, x);
      UsableInside(q, b, hi, x);
    }
  }

  // ---- empty slots ----

  /** The entries that are not empty, in order. */
  ghost function Compact(s: seq<Region>): seq<Region>
  {
    if s == [] then [] else (if IsEmpty(s[0]) then [] else [s[0]]) + Compact(s[1..])
  }

  lemma {:induction false} CompactJoin(a: seq<Region>, b: seq<Region>)
    ensures Compact(a + b) == Compact(a) + Compact(b)
  {
    hide IsEmpty;
    if a == [] {
      assert a + b == b;
    } else {
      CompactJoin(a[1..], b);
      assert (a + b)[1..] == a[1..] + b && (a + b)[0] == a[0];
      Regroup(if IsEmpty(a[0]) then [] else [a[0]], Compact(a[1..]), Compact(b));
    }
  }

  lemma Regroup<T>(a: seq<T>, b: seq<T>, c: seq<T>)
    ensures a + (b + c) == a + b + c
  {
  }

  ghost predicate AllEmpty(s: seq<Region>)
  {
    forall i :: 0 <= i < |s| ==> IsEmpty(s[i])
  }

  lemma {:induction false} CompactEmpty(s: seq<Region>)
    requires AllEmpty(s)
    ensures Compact(s) == []
  {
    if s != [] {
      CompactEmpty(s[1..]);
    }
  }

  lemma {:induction false} CompactFull(s: seq<Region>)
    requires forall i :: 0 <= i < |s| ==> !IsEmpty(s[i])
    ensures Compact(s) == s
  {
    if s != [] {
      CompactFull(s[1..]);
    }
  }

  lemma {:induction false} TilingPositive(s: seq<Region>, lo: nat, hi: nat, k: nat)
    requires Tiling(s, lo, hi) && k < |s|
    ensures s[k].length > 0 && s[k].kind > 0 && lo <= s[k].base && End(s[k]) <= hi
  {
    TilingTotal(s[1..], End(s[0]), hi);
    if k > 0 {
      TilingPositive(s[1..], End(s[0]), hi, k - 1);
    }
  }

  lemma {:induction false} TilingFull(s: seq<Region>, lo: nat, hi: nat)
    requires Tiling(s, lo, hi)
    ensures forall i :: 0 <= i < |s| ==> !IsEmpty(s[i])
  {
    if s != [] {
      TilingFull(s[1..], End(s[0]), hi);
    }
  }
}
