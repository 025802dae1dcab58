/** Which free leaf an allocation takes, and when there is one. */
module BuddyFit {
  import opened Powers
  import opened Bits
  import opened BuddyTree
  import opened BuddyRange

  /** Order of the block that serves a request: the least power of two, but at least a page. */
  ghost function OrderFor(bytes: nat): nat
    requires bytes >= 1
  {
    if CeilLog(bytes) < MIN_ORDER then MIN_ORDER else CeilLog(bytes)
  }

  /** A block is less than twice the request, or it is the smallest block. */
  lemma BlockSize(bytes: nat)
    requires bytes >= 1
    ensures bytes <= Pow2(OrderFor(bytes))
    ensures Pow2(OrderFor(bytes)) < 2 * bytes || OrderFor(bytes) == MIN_ORDER
  {
    if CeilLog(bytes) < MIN_ORDER {
      Pow2Monotone(CeilLog(bytes), MIN_ORDER);
    }
  }

  /** Some block of order `k` below `b` touches no live block. */
  ghost predicate Room(live: set<Block>, b: Block, k: nat)
  {
    exists d: Block :: d.order == k && Inside(d, b) && Clear(live, d)
  }

  /** `f` is the lowest free leaf of the smallest order that is at least `k`. */
  ghost predicate BestFit(t: Tree, b: Block, k: nat, f: Block)
    requires Fits(t, b.order)
  {
    && f in Leaves(t, b, false) && f.order >= k
    && forall g :: g in Leaves(t, b, false) && g.order >= k ==>
         f.order < g.order || (f.order == g.order && f.pos <= g.pos)
  }

  /** Two different leaves share no address. */
  lemma LeavesDisjoint(t: Tree, b: Block, c: Block, cu: bool, d: Block, du: bool)
    requires Fits(t, b.order) && c in Leaves(t, b, cu) && d in Leaves(t, b, du) && (c, cu) != (d, du)
    ensures Disjoint(c, d)
  {
    NestedOrDisjoint(c, d);
    LeavesInside(t, b, cu);
    LeavesInside(t, b, du);
    var s, l := if c.order <= d.order then c else d, if c.order <= d.order then d else c;
    if Inside(s, l) {
      InsideInterval(s, l);
      InsideInterval(l, b);
      LeavesTile(t, b, Lo(s));
    } else if Inside(l, s) {
      InsideInterval(l, s);
      InsideInterval(s, b);
      LeavesTile(t, b, Lo(l));
    }
  }

  lemma {:induction false} AncOfScale(p: nat, e: nat)
    ensures Anc(Scale(p, e), e) == p
  {
    if e > 0 {
      var q := Scale(p, e);
      assert Anc(q, 1) == Anc(q, 0) / 2 == Scale(p, e - 1);
      AncAdd(q, 1, e - 1);
      AncOfScale(p, e - 1);
    }
  }

  lemma {:induction false} ScaleScale(p: nat, e: nat, k: nat)
    ensures Scale(Scale(p, e), k) == Scale(p, e + k)
  {
    if k > 0 {
      ScaleScale(p, e, k - 1);
    }
  }

  /** The block of order `k` at the start of `f`. */
  function FirstIn(f: Block, k: nat): (d: Block)
    requires k <= f.order
    ensures d.order == k && Inside(d, f) && Lo(d) == Lo(f)
  {
    AncOfScale(f.pos, f.order - k);
    ScaleScale(f.pos, f.order - k, k);
    Block(k, Scale(f.pos, f.order - k))
  }

  /** In a canonical tree a block that touches no live block lies in one free leaf. */
  lemma {:induction false} ClearInLeaf(t: Tree, b: Block, d: Block) returns (f: Block)
    requires Fits(t, b.order) && Canonical(t, b) && Inside(d, b) && Clear(Live(t, b), d)
    ensures f in Leaves(t, b, false) && Inside(d, f)
  {
    InsideInterval(d, b);
    if t.Split? {
      if d == b {
        f := b;
        HasUsedIffLive(t, b);
        LeavesInside(t, b, true);
        var c :| c in Live(t, b);
        InsideInterval(c, b);
        assert false;
      } else {
        InsideHalf(d, b);
        if GoesLeft(d, b) {
          f := ClearInLeaf(t.left, Left(b), d);
        } else {
          f := ClearInLeaf(t.right, Right(b), d);
        }
      }
    } else {
      assert t.Used? ==> Disjoint(b, d);
      f := b;
    }
  }

  /** Maximal coalescing makes allocation complete: some free leaf is large enough iff there is room. */
  lemma FitIffRoom(t: Tree, b: Block, k: nat)
    requires Fits(t, b.order) && Canonical(t, b)
    ensures (exists f :: f in Leaves(t, b, false) && f.order >= k) <==> Room(Live(t, b), b, k)
  {
    if f :| f in Leaves(t, b, false) && f.order >= k {
      var d := FirstIn(f, k);
      LeafRoom(t, b, f, d);
    }
    if Room(Live(t, b), b, k) {
      var d: Block :| d.order == k && Inside(d, b) && Clear(Live(t, b), d);
      var f := ClearInLeaf(t, b, d);
    }
  }

  /** Every block inside a free leaf is clear of the live blocks. */
  lemma LeafRoom(t: Tree, b: Block, f: Block, d: Block)
    requires Fits(t, b.order) && f in Leaves(t, b, false) && Inside(d, f)
    ensures Inside(d, b) && Clear(Live(t, b), d) && d !in Live(t, b)
  {
    LeavesInside(t, b, false);
    InsideTrans(d, f, b);
    InsideInterval(d, f);
    forall c | c in Live(t, b) ensures Disjoint(c, d) {
      LeavesDisjoint(t, b, c, true, f, false);
    }
    assert !Disjoint(d, d);
  }

  /** A clear block that is not part of a larger clear block. */
  ghost predicate Whole(live: set<Block>, b: Block, d: Block)
  {
    Inside(d, b) && Clear(live, d) && (d == b || !Clear(live, Parent(d)))
  }

  lemma InsideParent(d: Block, g: Block)
    requires Inside(d, g) && d != g
    ensures d.order < g.order && Inside(Parent(d), g)
    ensures Inside(d, Parent(d))
  {
    AncAdd(d.pos, 1, g.order - d.order - 1);
    assert Anc(d.pos, 1) == Anc(d.pos, 0) / 2 == d.pos / 2;
  }

  /** In a canonical tree those are the free leaves. */
  lemma WholeIsLeaf(t: Tree, b: Block, d: Block)
    requires Fits(t, b.order) && Canonical(t, b)
    ensures Whole(Live(t, b), b, d) <==> d in Leaves(t, b, false)
  {
    hide Leaves, Canonical;
    if Whole(Live(t, b), b, d) {
      var g := ClearInLeaf(t, b, d);
      if d != g {
        InsideParent(d, g);
        LeafRoom(t, b, g, Parent(d));
        BlockAbove(t, b, g);
      }
    }
    if d in Leaves(t, b, false) {
      InsideSelf(d);
      LeafRoom(t, b, d, d);
      if d != b && Clear(Live(t, b), Parent(d)) {
        InsideParent(d, b);
        var g := ClearInLeaf(t, b, Parent(d));
        InsideTrans(d, Parent(d), g);
        InsideInterval(d, g);
        LeavesDisjoint(t, b, d, false, g, false);
      }
    }
  }

  lemma BlockAbove(t: Tree, b: Block, g: Block)
    requires Fits(t, b.order) && g in Leaves(t, b, false)
    ensures g.order <= b.order && (g.order == b.order ==> g == b)
  {
    LeavesInside(t, b, false);
  }

  lemma InsideSelf(d: Block)
    ensures Inside(d, d)
  {
  }

  /** The choice without the tree: of the whole clear blocks large enough the smallest, and of those the lowest. */
  lemma BestByLive(t: Tree, b: Block, k: nat, f: Block)
    requires Fits(t, b.order) && Canonical(t, b) && BestFit(t, b, k, f)
    ensures f.order >= k && Whole(Live(t, b), b, f)
    ensures forall d :: Whole(Live(t, b), b, d) && d.order >= k ==>
              f.order < d.order || (f.order == d.order && Lo(f) <= Lo(d))
  {
    hide Leaves, Canonical, Whole, Scale;
    WholeIsLeaf(t, b, f);
    forall d | Whole(Live(t, b), b, d) && d.order >= k
      ensures f.order < d.order || (f.order == d.order && Lo(f) <= Lo(d))
    {
      WholeIsLeaf(t, b, d);
      ScaleOrder(f.pos, d.pos, d.order);
    }
  }

  lemma {:induction false} ScaleOrder(p: nat, q: nat, k: nat)
    ensures p <= q ==> Scale(p, k) <= Scale(q, k)
  {
    if k > 0 {
      ScaleOrder(p, q, k - 1);
    }
  }

  /** Splitting the best fit moves the aim to its left half. */
  lemma AimLeft(t: Tree, b: Block, c: Block, k: nat)
    requires Fits(t, b.order) && BestFit(t, b, k, c) && MIN_ORDER <= k < c.order
    requires Inside(c, b) && HasNode(t, b, c) && NodeAt(t, b, c).Free?
    requires Pending(t, b, Lo(c), Lo(c) + Pow2(k))
    ensures var t' := ReplaceAt(t, b, c, Split(Free, Free));
            && Live(t', b) == Live(t, b) && BestFit(t', b, k, Left(c))
            && Lo(Left(c)) == Lo(c) && Pending(t', b, Lo(c), Lo(c) + Pow2(k))
  {
    hide Leaves, ReplaceAt, Pending, Pow2, Scale, NodeAt, HasNode, Fits, Inside;
    StartInside(c, k);
    SplitFree(t, b, c, Lo(c), Lo(c) + Pow2(k));
  }

  lemma StartInside(c: Block, k: nat)
    requires k < c.order
    ensures Around(c, Lo(c), Lo(c) + Pow2(k)) && Lo(Left(c)) == Lo(c)
  {
    Pow2Monotone(k, c.order);
    Halves(c);
  }

  lemma FirstInSelf(f: Block)
    ensures FirstIn(f, f.order) == f
  {
  }

  lemma FirstInHalf(f: Block, k: nat)
    requires k < f.order
    ensures FirstIn(f, k) == Left(FirstIn(f, k + 1))
  {
  }

  /** The search has seen no leaf below order `tmp`, and `c` is the lowest one of that order. */
  lemma FoundBest(t: Tree, b: Block, k: nat, c: Block)
    requires Fits(t, b.order) && k <= c.order && c in Leaves(t, b, false)
    requires forall g :: g in Leaves(t, b, false) && k <= g.order ==> c.order <= g.order
    requires forall g :: g in Leaves(t, b, false) && g.order == c.order ==> c.pos <= g.pos
    ensures BestFit(t, b, k, c)
  {
  }

  lemma NoFit(t: Tree, b: Block, k: nat)
    requires Fits(t, b.order) && Canonical(t, b)
    requires forall g :: g in Leaves(t, b, false) && k <= g.order ==> b.order <= g.order
    requires forall g :: g in Leaves(t, b, false) ==> g.order != b.order
    ensures !Room(Live(t, b), b, k)
  {
    FitIffRoom(t, b, k);
    LeavesInside(t, b, false);
  }

  /** The start of the best fit is a fresh block, and its presence means there was room. */
  lemma Served(t: Tree, b: Block, k: nat, f: Block)
    requires Fits(t, b.order) && Canonical(t, b) && BestFit(t, b, k, f)
    ensures Room(Live(t, b), b, k) && FirstIn(f, k) !in Live(t, b)
  {
    FitIffRoom(t, b, k);
    LeafRoom(t, b, f, FirstIn(f, k));
  }

  // ---- outcomes of a reservation's descent ----

  /** At a block that the range fills, the reservation succeeds exactly when the block is free. */
  lemma ReserveAt(t: Tree, b: Block, lo: int, len: int, c: Block)
    requires Fits(t, b.order) && RangeIn(b, lo, len) && Pow2(FloorLog(len)) == len && Reaches(b, lo, len, c)
    requires c.order == FloorLog(len) && HasNode(t, b, c) && Pending(t, b, lo, lo + len)
    ensures Lo(c) == lo && Hi(c) == lo + len
    ensures Reservable(Live(t, b), Pieces(b, lo, len)) <==> NodeAt(t, b, c).Free?
    ensures NodeAt(t, b, c).Free? ==> Reserved(Live(t, b), Pieces(b, lo, len)) == Live(t, b) + {c}
  {
    ReachedSize(b, lo, len, c);
    PiecesWhole(b, lo, len, c);
    if NodeAt(t, b, c).Free? {
      NodeLeaves(t, b, c, false);
      LeafRoom(t, b, c, c);
    } else {
      NodeUsed(t, b, c, lo, lo + len);
      Occupied(t, b, c);
    }
  }

  /** A node with a used leaf is not clear, and it is not part of a larger live block. */
  lemma Occupied(t: Tree, b: Block, c: Block)
    requires Fits(t, b.order) && Inside(c, b) && HasNode(t, b, c) && HasUsed(NodeAt(t, b, c))
    ensures !Clear(Live(t, b), c) && !Covered(Live(t, b), c)
  {
    NodeLeaves(t, b, c, true);
    HasUsedIffLive(NodeAt(t, b, c), c);
    LeavesInside(NodeAt(t, b, c), c, true);
    var d :| d in Live(NodeAt(t, b, c), c);
    InsideInterval(d, c);
    assert d in Live(t, b) && !Disjoint(d, c);
  }

  /** Inside a larger used block there is nothing to do. */
  lemma ReserveInUsed(t: Tree, b: Block, lo: int, len: int, c: Block)
    requires Fits(t, b.order) && RangeIn(b, lo, len) && Around(c, lo, lo + len) && Inside(c, b)
    requires HasNode(t, b, c) && NodeAt(t, b, c).Used? && Pending(t, b, lo, lo + len)
    ensures Canonical(t, b)
    ensures Reservable(Live(t, b), Pieces(b, lo, len)) && Reserved(Live(t, b), Pieces(b, lo, len)) == Live(t, b)
  {
    NodeLeaves(t, b, c, true);
    assert c in Live(t, b) && Contains(c, lo);
    ReserveCovered(Live(t, b), b, lo, len, c);
    PendingDone(t, b, lo, lo + len);
  }
}
