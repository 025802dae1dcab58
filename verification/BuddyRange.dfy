/** The blocks that reserving an arbitrary page range takes, and what reserving does to the live set. */
module BuddyRange {
  import opened Powers
  import opened Bits
  import opened BuddyTree

  const PAGE: nat := 4096

  predicate Paged(x: int) { x % PAGE == 0 }

  lemma {:induction false} Pow2Paged(e: nat)
    requires e >= MIN_ORDER
    ensures Paged(Pow2(e)) && Pow2(e) >= PAGE
  {
    if e == MIN_ORDER {
      assert Pow2(12) == 4096;
    } else {
      Pow2Paged(e - 1);
    }
  }

  lemma {:induction false} LoPaged(c: Block)
    requires c.order >= MIN_ORDER
    ensures Paged(Lo(c))
    decreases c.order
  {
    if c.order == MIN_ORDER {
      ScaleIsProduct(c.pos, MIN_ORDER);
      assert Pow2(12) == 4096;
    } else {
      LoPaged(Block(c.order - 1, c.pos));
    }
  }

  lemma FloorPaged(len: nat)
    requires len >= PAGE
    ensures FloorLog(len) >= MIN_ORDER && Paged(Pow2(FloorLog(len)))
  {
    assert Pow2(12) == 4096;
    if FloorLog(len) < MIN_ORDER {
      Pow2Monotone(FloorLog(len) + 1, MIN_ORDER);
    }
    Pow2Paged(FloorLog(len));
  }

  /** round_up_po2 does not change a whole number of pages. */
  lemma RoundUpPaged(length: nat)
    requires Paged(length) && length + PAGE <= WORD
    ensures RoundUpPo2(length, MIN_ORDER) == length
  {
    WordIsPow2();
    assert Pow2(12) == 4096;
    RoundUpIsLeastMultiple(length, MIN_ORDER, 64);
    var r := RoundUpPo2(length, MIN_ORDER);
    LowZero(r, MIN_ORDER);
    ScaleIsProduct(Shr(r, MIN_ORDER), MIN_ORDER);
    SamePage(length, r, Shr(r, MIN_ORDER));
  }

  lemma SamePage(x: nat, y: nat, q: nat)
    requires Paged(x) && y == q * 4096 && x <= y < x + PAGE
    ensures x == y
  {
  }

  lemma PagedSum(x: int, y: int)
    requires Paged(x) && Paged(y)
    ensures Paged(x + y)
  {
  }

  /** A range that a reservation may name: whole pages inside the block. */
  predicate RangeIn(b: Block, lo: int, len: int)
  {
    MIN_ORDER <= b.order && Lo(b) <= lo && len > 0 && lo + len <= Hi(b) && Paged(lo) && Paged(len)
  }

  lemma SubRange(b: Block, lo: int, len: int, mid: int)
    requires RangeIn(b, lo, len) && lo < mid < lo + len && Paged(mid)
    ensures RangeIn(b, lo, mid - lo) && RangeIn(b, mid, lo + len - mid)
  {
  }

  /** The smallest block below `b` that holds the whole range. */
  function Enclosing(b: Block, lo: int, hi: int): Block
    decreases b.order
  {
    if b.order <= MIN_ORDER then b
    else if hi <= Lo(Right(b)) then Enclosing(Left(b), lo, hi)
    else if Lo(Right(b)) <= lo then Enclosing(Right(b), lo, hi)
    else b
  }

  lemma {:induction false} EnclosingHolds(b: Block, lo: int, hi: int)
    requires MIN_ORDER <= b.order && Lo(b) <= lo < hi <= Hi(b)
    ensures var e := Enclosing(b, lo, hi);
            && MIN_ORDER <= e.order && Inside(e, b) && Lo(e) <= lo && hi <= Hi(e)
            && (e.order > MIN_ORDER ==> lo < Lo(Right(e)) < hi)
    decreases b.order
  {
    if b.order > MIN_ORDER {
      Halves(b);
      HalfInside(Left(b), b);
      HalfInside(Right(b), b);
      var e := Enclosing(b, lo, hi);
      if hi <= Lo(Right(b)) {
        EnclosingHolds(Left(b), lo, hi);
        InsideTrans(e, Left(b), b);
      } else if Lo(Right(b)) <= lo {
        EnclosingHolds(Right(b), lo, hi);
        InsideTrans(e, Right(b), b);
      }
    }
  }

  /** What a reservation does with a range: it is one whole block, or it is cut in two. */
  datatype Cut = Whole(block: Block) | At(mid: int)

  /**
   * The largest power of two comes first, and a straddling power of two is cut where it
   * crosses the middle of its smallest enclosing block.
   */
  ghost function CutOf(b: Block, lo: int, len: nat): Cut
    requires len > 0
  {
    if Pow2(FloorLog(len)) != len then At(lo + Pow2(FloorLog(len)))
    else
      var e := Enclosing(b, lo, lo + len);
      if Pow2(e.order) == len || e.order == 0 then Whole(e) else At(Lo(Right(e)))
  }

  lemma FirstCut(lo: int, len: nat)
    requires len >= PAGE && Paged(lo) && Pow2(FloorLog(len)) != len
    ensures 0 < Pow2(FloorLog(len)) < len && Paged(lo + Pow2(FloorLog(len)))
  {
    FloorPaged(len);
    PagedSum(lo, Pow2(FloorLog(len)));
  }

  lemma CutHolds(b: Block, lo: int, len: nat)
    requires RangeIn(b, lo, len)
    ensures var c := CutOf(b, lo, len);
            && (c.At? ==> lo < c.mid < lo + len && Paged(c.mid))
            && (c.Whole? ==> Inside(c.block, b) && MIN_ORDER <= c.block.order)
            && (c.Whole? ==> Lo(c.block) == lo && Hi(c.block) == lo + len)
  {
    if Pow2(FloorLog(len)) != len {
      FirstCut(lo, len);
    } else {
      EnclosingHolds(b, lo, lo + len);
      WholeOrCut(Enclosing(b, lo, lo + len), lo, len);
    }
  }

  lemma WholeOrCut(e: Block, lo: int, len: nat)
    requires MIN_ORDER <= e.order && Lo(e) <= lo && lo + len <= Hi(e) && len >= PAGE && Pow2(FloorLog(len)) == len
    ensures Pow2(e.order) == len ==> Lo(e) == lo && Hi(e) == lo + len
    ensures Pow2(e.order) != len ==> e.order > MIN_ORDER && Paged(Lo(Right(e)))
  {
    FloorPaged(len);
    if Pow2(e.order) != len {
      if e.order <= FloorLog(len) {
        Pow2Monotone(e.order, FloorLog(len));
      }
      LoPaged(Right(e));
    }
  }

  /** The blocks that buddy_pre_alloc marks for a range. */
  ghost function Pieces(b: Block, lo: int, len: int): set<Block>
    requires RangeIn(b, lo, len)
    decreases len
  {
    CutHolds(b, lo, len);
    match CutOf(b, lo, len)
    case Whole(c) => {c}
    case At(mid) => SubRange(b, lo, len, mid); Pieces(b, lo, mid - lo) + Pieces(b, mid, lo + len - mid)
  }

  predicate InSome(s: set<Block>, x: int) { exists c :: c in s && Contains(c, x) }

  /** How Pieces unfolds at a cut. */
  lemma PiecesCut(b: Block, lo: int, len: int) returns (mid: int)
    requires RangeIn(b, lo, len) && CutOf(b, lo, len).At?
    ensures mid == CutOf(b, lo, len).mid && lo < mid < lo + len && Paged(mid)
    ensures RangeIn(b, lo, mid - lo) && RangeIn(b, mid, lo + len - mid)
    ensures Pieces(b, lo, len) == Pieces(b, lo, mid - lo) + Pieces(b, mid, lo + len - mid)
  {
    CutHolds(b, lo, len);
    mid := CutOf(b, lo, len).mid;
    SubRange(b, lo, len, mid);
  }

  predicate Within(s: set<Block>, b: Block, lo: int, hi: int)
  {
    forall c :: c in s ==> MIN_ORDER <= c.order && Inside(c, b) && lo <= Lo(c) && Hi(c) <= hi
  }

  predicate Scattered(s: set<Block>) { forall c, d :: c in s && d in s && c != d ==> Disjoint(c, d) }

  predicate Apart(p: set<Block>, q: set<Block>) { forall c, d :: c in p && d in q ==> Disjoint(c, d) }

  lemma WithinApart(p: set<Block>, q: set<Block>, b: Block, lo: int, mid: int, hi: int)
    requires lo <= mid <= hi && Within(p, b, lo, mid) && Within(q, b, mid, hi)
    ensures Within(p + q, b, lo, hi) && Apart(p, q)
    ensures Scattered(p) && Scattered(q) ==> Scattered(p + q)
  {
  }

  lemma {:induction false} PiecesScattered(b: Block, lo: int, len: int)
    requires RangeIn(b, lo, len)
    ensures Within(Pieces(b, lo, len), b, lo, lo + len) && Scattered(Pieces(b, lo, len))
    decreases len
  {
    CutHolds(b, lo, len);
    if CutOf(b, lo, len).At? {
      var mid := PiecesCut(b, lo, len);
      PiecesScattered(b, lo, mid - lo);
      PiecesScattered(b, mid, lo + len - mid);
      WithinApart(Pieces(b, lo, mid - lo), Pieces(b, mid, lo + len - mid), b, lo, mid, lo + len);
    }
  }

  lemma {:induction false} PiecesCover(b: Block, lo: int, len: int, x: int)
    requires RangeIn(b, lo, len) && lo <= x < lo + len
    ensures InSome(Pieces(b, lo, len), x)
    decreases len
  {
    CutHolds(b, lo, len);
    match CutOf(b, lo, len)
    case Whole(c) =>
      assert Contains(c, x);
    case At(_) =>
      var mid := PiecesCut(b, lo, len);
      if x < mid {
        PiecesCover(b, lo, mid - lo, x);
      } else {
        PiecesCover(b, mid, lo + len - mid, x);
      }
  }

  /** The pieces of a range tile it: they are disjoint and cover the range and nothing else. */
  lemma PiecesTile(b: Block, lo: int, len: int)
    requires RangeIn(b, lo, len)
    ensures Scattered(Pieces(b, lo, len))
    ensures forall x :: InSome(Pieces(b, lo, len), x) <==> lo <= x < lo + len
  {
    PiecesScattered(b, lo, len);
    forall x | lo <= x < lo + len ensures InSome(Pieces(b, lo, len), x) {
      PiecesCover(b, lo, len, x);
    }
  }

  // ---- reserving, on live sets ----

  predicate Clear(live: set<Block>, d: Block) { forall c :: c in live ==> Disjoint(c, d) }

  /** `d` lies inside a strictly larger live block. */
  predicate Covered(live: set<Block>, d: Block) { exists c :: c in live && c != d && Inside(d, c) }

  /** buddy_pre_alloc gets through: each piece is free, or was already part of a larger used block. */
  predicate Reservable(live: set<Block>, pieces: set<Block>)
  {
    forall d :: d in pieces ==> Clear(live, d) || Covered(live, d)
  }

  function Reserved(live: set<Block>, pieces: set<Block>): set<Block>
  {
    live + set d | d in pieces && Clear(live, d)
  }

  lemma StillClear(live: set<Block>, p: set<Block>, q: set<Block>, d: Block)
    requires Apart(p, q) && d in q
    ensures Clear(Reserved(live, p), d) <==> Clear(live, d)
    ensures Covered(Reserved(live, p), d) <==> Covered(live, d)
  {
    forall c | c in p ensures Disjoint(c, d) && !Inside(d, c) {
      if Inside(d, c) {
        InsideInterval(d, c);
      }
    }
  }

  /** Reserving in two steps is reserving at once. */
  lemma ReserveInSteps(live: set<Block>, p: set<Block>, q: set<Block>)
    requires Apart(p, q)
    ensures Reservable(live, p + q) <==> Reservable(live, p) && Reservable(Reserved(live, p), q)
    ensures Reserved(live, p + q) == Reserved(Reserved(live, p), q)
  {
    forall d | d in q
      ensures Clear(Reserved(live, p), d) <==> Clear(live, d)
      ensures Covered(Reserved(live, p), d) <==> Covered(live, d)
    {
      StillClear(live, p, q, d);
    }
  }

  /** After a successful reservation every address of the range is used. */
  lemma ReservedCovers(live: set<Block>, b: Block, lo: int, len: int, x: int)
    requires RangeIn(b, lo, len) && Reservable(live, Pieces(b, lo, len)) && lo <= x < lo + len
    ensures InSome(Reserved(live, Pieces(b, lo, len)), x)
  {
    PiecesCover(b, lo, len, x);
    var d :| d in Pieces(b, lo, len) && Contains(d, x);
    if !Clear(live, d) {
      var c :| c in live && c != d && Inside(d, c);
      InsideInterval(d, c);
      assert Contains(c, x);
    }
  }

  /** At a cut, reserving the range is reserving its two parts in turn. */
  lemma ReserveCut(live: set<Block>, b: Block, lo: int, len: int, mid: int)
    requires RangeIn(b, lo, len) && CutOf(b, lo, len) == At(mid)
    ensures lo < mid < lo + len && RangeIn(b, lo, mid - lo) && RangeIn(b, mid, lo + len - mid)
    ensures var p, q := Pieces(b, lo, mid - lo), Pieces(b, mid, lo + len - mid);
            && (Reservable(live, Pieces(b, lo, len)) <==> Reservable(live, p) && Reservable(Reserved(live, p), q))
            && Reserved(live, Pieces(b, lo, len)) == Reserved(Reserved(live, p), q)
  {
    var m := PiecesCut(b, lo, len);
    var p, q := Pieces(b, lo, mid - lo), Pieces(b, mid, lo + len - mid);
    PiecesScattered(b, lo, mid - lo);
    PiecesScattered(b, mid, lo + len - mid);
    WithinApart(p, q, b, lo, mid, lo + len);
    ReserveInSteps(live, p, q);
  }

  /** A range inside a larger live block is reserved already. */
  lemma ReserveCovered(live: set<Block>, b: Block, lo: int, len: int, c: Block)
    requires RangeIn(b, lo, len) && c in live && Around(c, lo, lo + len)
    ensures Reservable(live, Pieces(b, lo, len)) && Reserved(live, Pieces(b, lo, len)) == live
  {
    PiecesScattered(b, lo, len);
    forall d | d in Pieces(b, lo, len) ensures Covered(live, d) && !Clear(live, d) {
      PieceInside(d, c, lo, lo + len);
    }
  }

  lemma PieceInside(d: Block, c: Block, lo: int, hi: int)
    requires Around(c, lo, hi) && lo <= Lo(d) && Hi(d) <= hi
    ensures Inside(d, c) && d != c && !Disjoint(c, d)
  {
    NestedOrDisjoint(d, c);
    if Inside(c, d) {
      InsideInterval(c, d);
    }
  }

  /** The range touches no live block. */
  predicate RangeFree(live: set<Block>, lo: int, hi: int) { forall c :: c in live ==> Hi(c) <= lo || hi <= Lo(c) }

  /** A free range can always be reserved, and every one of its pieces becomes live. */
  lemma FreeRangeReserves(live: set<Block>, b: Block, lo: int, len: int)
    requires RangeIn(b, lo, len) && RangeFree(live, lo, lo + len)
    ensures Reservable(live, Pieces(b, lo, len)) && Reserved(live, Pieces(b, lo, len)) == live + Pieces(b, lo, len)
  {
    PiecesScattered(b, lo, len);
  }

  /** Exactly the addresses of the range become used. */
  lemma ReservedAddresses(live: set<Block>, b: Block, lo: int, len: int, x: int)
    requires RangeIn(b, lo, len) && Reservable(live, Pieces(b, lo, len))
    ensures InSome(Reserved(live, Pieces(b, lo, len)), x) <==> InSome(live, x) || lo <= x < lo + len
  {
    PiecesTile(b, lo, len);
    if lo <= x < lo + len {
      ReservedCovers(live, b, lo, len, x);
    }
    if c :| c in Reserved(live, Pieces(b, lo, len)) && Contains(c, x) {
      assert c in live ==> InSome(live, x);
      assert c in Pieces(b, lo, len) ==> InSome(Pieces(b, lo, len), x);
    }
  }

  // ---- where the descent of a reservation stops ----

  /** A length that is not a power of two is cut after its largest power of two. */
  lemma CutAtPower(b: Block, lo: int, len: int)
    requires RangeIn(b, lo, len) && Pow2(FloorLog(len)) != len
    ensures CutOf(b, lo, len) == At(lo + Pow2(FloorLog(len)))
  {
  }

  lemma EnclosingStep(c: Block, lo: int, hi: int)
    requires c.order > MIN_ORDER
    ensures hi <= Lo(Right(c)) ==> Enclosing(c, lo, hi) == Enclosing(Left(c), lo, hi)
    ensures Lo(Right(c)) <= lo < hi ==> Enclosing(c, lo, hi) == Enclosing(Right(c), lo, hi)
  {
  }

  /** The descent reached block `c` for the range, whose length is a power of two. */
  predicate Reaches(b: Block, lo: int, len: int, c: Block)
    requires len > 0
  {
    && RangeIn(b, lo, len) && MIN_ORDER <= c.order && Inside(c, b)
    && Lo(c) <= lo && lo + len <= Hi(c) && Enclosing(b, lo, lo + len) == Enclosing(c, lo, lo + len)
  }

  lemma ReachesRoot(b: Block, lo: int, len: int)
    requires RangeIn(b, lo, len)
    ensures Reaches(b, lo, len, b)
  {
  }

  /** What the size of the reached block says about the range. */
  lemma ReachedSize(b: Block, lo: int, len: int, c: Block)
    requires RangeIn(b, lo, len) && Pow2(FloorLog(len)) == len && Reaches(b, lo, len, c)
    ensures MIN_ORDER <= FloorLog(len) <= c.order
    ensures c.order == FloorLog(len) ==> Lo(c) == lo && Hi(c) == lo + len
    ensures c.order > FloorLog(len) ==> Around(c, lo, lo + len)
  {
    FloorPaged(len);
    if c.order < FloorLog(len) {
      Pow2Monotone(c.order, FloorLog(len));
    } else if c.order > FloorLog(len) {
      Pow2Monotone(FloorLog(len), c.order);
    }
  }

  lemma ReachesHalves(b: Block, lo: int, len: int, c: Block)
    requires RangeIn(b, lo, len) && Reaches(b, lo, len, c) && c.order > MIN_ORDER
    ensures lo + len <= Lo(Right(c)) ==> Reaches(b, lo, len, Left(c))
    ensures Lo(Right(c)) <= lo ==> Reaches(b, lo, len, Right(c))
  {
    Halves(c);
    HalfInside(Left(c), c);
    HalfInside(Right(c), c);
    InsideTrans(Left(c), c, b);
    InsideTrans(Right(c), c, b);
    EnclosingStep(c, lo, lo + len);
  }

  lemma PiecesWhole(b: Block, lo: int, len: int, c: Block)
    requires RangeIn(b, lo, len) && Pow2(FloorLog(len)) == len && Reaches(b, lo, len, c) && c.order == FloorLog(len)
    ensures Pieces(b, lo, len) == {c}
  {
    ReachedSize(b, lo, len, c);
    if c.order > MIN_ORDER {
      Halves(c);
    }
    assert Enclosing(c, lo, lo + len) == c;
  }

  lemma CutInMiddle(b: Block, lo: int, len: int, c: Block)
    requires RangeIn(b, lo, len) && Pow2(FloorLog(len)) == len && Reaches(b, lo, len, c)
    requires c.order > FloorLog(len) && c.order > MIN_ORDER && lo < Lo(Right(c)) < lo + len
    ensures CutOf(b, lo, len) == At(Lo(Right(c)))
  {
    Pow2Monotone(FloorLog(len), c.order);
    assert Enclosing(c, lo, lo + len) == c;
  }
}
