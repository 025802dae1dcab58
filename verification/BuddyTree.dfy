/** The tree that a buddy allocator's slot array stands for, and the set of live blocks it carries. */
module BuddyTree {
  import opened Powers

  /** log2 of BUDDY_ALLOC_SMALLEST_BLOCK */
  const MIN_ORDER: nat := 12

  datatype Tree = Free | Used | Split(left: Tree, right: Tree)

  /** The `pos`-th block of 2^order bytes, counted from the start of the content region. */
  datatype Block = Block(order: nat, pos: nat)

  function Lo(b: Block): nat { Scale(b.pos, b.order) }

  function Hi(b: Block): nat { Scale(b.pos, b.order) + Pow2(b.order) }

  function Left(b: Block): Block
    requires b.order > 0
  {
    Block(b.order - 1, 2 * b.pos)
  }

  function Right(b: Block): Block
    requires b.order > 0
  {
    Block(b.order - 1, 2 * b.pos + 1)
  }

  predicate Inside(c: Block, b: Block)
  {
    c.order <= b.order && Anc(c.pos, b.order - c.order) == b.pos
  }

  predicate Contains(b: Block, x: int) { Lo(b) <= x < Hi(b) }

  predicate Disjoint(b: Block, c: Block) { Hi(b) <= Lo(c) || Hi(c) <= Lo(b) }

  // ---- geometry of blocks ----

  lemma Halves(b: Block)
    requires b.order > 0
    ensures Lo(Left(b)) == Lo(b) && Hi(Left(b)) == Lo(Right(b)) && Hi(Right(b)) == Hi(b)
    ensures Hi(b) == Lo(b) + Pow2(b.order) && Lo(Right(b)) == Lo(b) + Pow2(b.order - 1)
  {
    ScaleAdd(b.pos, b.pos, b.order - 1);
    ScaleAdd(2 * b.pos, 1, b.order - 1);
    ScaleOne(b.order - 1);
  }

  lemma InsideHalf(c: Block, b: Block)
    requires Inside(c, b) && c != b
    ensures c.order < b.order
    ensures Inside(c, Left(b)) != Inside(c, Right(b))
  {
  }

  lemma HalfInside(c: Block, b: Block)
    requires b.order > 0
    requires Inside(c, Left(b)) || Inside(c, Right(b))
    ensures Inside(c, b) && c != b && c.order < b.order
  {
    var a := Anc(c.pos, b.order - 1 - c.order);
    assert Anc(c.pos, b.order - c.order) == a / 2;
  }

  lemma InsideTrans(d: Block, c: Block, b: Block)
    requires Inside(d, c) && Inside(c, b)
    ensures Inside(d, b)
  {
    AncAdd(d.pos, c.order - d.order, b.order - c.order);
  }

  lemma {:induction false} InsideInterval(c: Block, b: Block)
    requires Inside(c, b)
    ensures Lo(b) <= Lo(c) < Hi(c) <= Hi(b)
    decreases b.order
  {
    if c != b {
      InsideHalf(c, b);
      Halves(b);
      InsideInterval(c, if Inside(c, Left(b)) then Left(b) else Right(b));
    }
  }

  lemma SameOrderDisjoint(b: Block, c: Block)
    requires b.order == c.order && b.pos < c.pos
    ensures Hi(b) <= Lo(c)
  {
    ScaleAdd(b.pos, 1, b.order);
    ScaleAdd(b.pos + 1, c.pos - b.pos - 1, b.order);
    ScaleOne(b.order);
  }

  lemma NestedOrDisjoint(b: Block, c: Block)
    ensures Inside(b, c) || Inside(c, b) || Disjoint(b, c)
  {
    var s, l := if b.order <= c.order then b else c, if b.order <= c.order then c else b;
    var up := Block(l.order, Anc(s.pos, l.order - s.order));
    InsideInterval(s, up);
    if up.pos < l.pos {
      SameOrderDisjoint(up, l);
    } else if l.pos < up.pos {
      SameOrderDisjoint(l, up);
    }
  }

  // ---- trees over blocks ----

  /** A split block is larger than the smallest order. */
  predicate Fits(t: Tree, order: nat)
  {
    MIN_ORDER <= order &&
    (t.Split? ==> order > MIN_ORDER && Fits(t.left, order - 1) && Fits(t.right, order - 1))
  }

  predicate HasUsed(t: Tree)
  {
    match t
    case Free => false
    case Used => true
    case Split(l, r) => HasUsed(l) || HasUsed(r)
  }

  /** The used leaves (`used`) or the free leaves (`!used`) of the tree rooted at block `b`. */
  function Leaves(t: Tree, b: Block, used: bool): set<Block>
    requires Fits(t, b.order)
  {
    match t
    case Free => if used then {} else {b}
    case Used => if used then {b} else {}
    case Split(l, r) => Leaves(l, Left(b), used) + Leaves(r, Right(b), used)
  }

  function Live(t: Tree, b: Block): set<Block>
    requires Fits(t, b.order)
  {
    Leaves(t, b, true)
  }

  lemma {:induction false} LeavesInside(t: Tree, b: Block, used: bool)
    requires Fits(t, b.order)
    ensures forall c :: c in Leaves(t, b, used) ==> Inside(c, b) && MIN_ORDER <= c.order
    ensures t.Split? ==> forall c :: c in Leaves(t, b, used) ==> c.order < b.order
    ensures t.Split? ==> b !in Leaves(t, b, used)
  {
    if t.Split? {
      LeavesInside(t.left, Left(b), used);
      LeavesInside(t.right, Right(b), used);
      forall c | c in Leaves(t, b, used) ensures Inside(c, b) && c.order < b.order {
        HalfInside(c, b);
      }
    }
  }

  lemma {:induction false} HasUsedIffLive(t: Tree, b: Block)
    requires Fits(t, b.order)
    ensures HasUsed(t) <==> Live(t, b) != {}
  {
    if t.Split? {
      HasUsedIffLive(t.left, Left(b));
      HasUsedIffLive(t.right, Right(b));
    }
  }

  /** Leaves tile the block: every address lies in exactly one leaf. */
  function LeafAt(t: Tree, b: Block, x: int): (r: (Block, bool))
    requires Fits(t, b.order)
    ensures r.0 in Leaves(t, b, r.1)
  {
    match t
    case Free => (b, false)
    case Used => (b, true)
    case Split(l, r) => if Lo(b) <= x < Lo(b) + Pow2(b.order - 1) then LeafAt(l, Left(b), x) else LeafAt(r, Right(b), x)
  }

  lemma {:induction false} LeavesTile(t: Tree, b: Block, x: int)
    requires Fits(t, b.order) && Contains(b, x)
    ensures Contains(LeafAt(t, b, x).0, x)
    ensures forall c, used :: c in Leaves(t, b, used) && Contains(c, x) ==> (c, used) == LeafAt(t, b, x)
  {
    if t.Split? {
      Halves(b);
      var (on, off) := if x < Lo(Right(b)) then ((t.left, Left(b)), (t.right, Right(b)))
                       else ((t.right, Right(b)), (t.left, Left(b)));
      LeavesTile(on.0, on.1, x);
      forall c, used | c in Leaves(off.0, off.1, used) ensures !Contains(c, x) {
        LeavesInside(off.0, off.1, used);
        InsideInterval(c, off.1);
      }
    }
  }

  predicate UsedAt(t: Tree, b: Block, x: int)
    requires Fits(t, b.order)
  {
    exists c :: c in Live(t, b) && Contains(c, x)
  }

  // ---- canonical trees ----

  /** The range [lo, hi) is not empty and lies in `b` without filling it. */
  predicate Around(b: Block, lo: int, hi: int) { Lo(b) <= lo < hi <= Hi(b) && hi - lo < Hi(b) - Lo(b) }

  /**
   * Every split block holds a used block, except those around the range [lo, hi) that an
   * operation is working on. With an empty range this is maximal coalescing.
   */
  predicate Pending(t: Tree, b: Block, lo: int, hi: int)
    requires Fits(t, b.order)
  {
    t.Split? ==>
      && (HasUsed(t) || Around(b, lo, hi))
      && Pending(t.left, Left(b), lo, hi)
      && Pending(t.right, Right(b), lo, hi)
  }

  predicate Canonical(t: Tree, b: Block)
    requires Fits(t, b.order)
  {
    Pending(t, b, 0, 0)
  }

  /** Where no block lies around the old range, or where the range narrows, nothing new can fail. */
  lemma {:induction false} PendingNarrows(t: Tree, b: Block, lo: int, hi: int, lo': int, hi': int)
    requires Fits(t, b.order) && Pending(t, b, lo, hi)
    requires !Around(b, lo, hi) || lo <= lo' < hi' <= hi
    ensures Pending(t, b, lo', hi')
  {
    if t.Split? {
      Halves(b);
      PendingNarrows(t.left, Left(b), lo, hi, lo', hi');
      PendingNarrows(t.right, Right(b), lo, hi, lo', hi');
    }
  }

  /** Once the first address of the range is used, no exception is left. */
  lemma {:induction false} PendingDone(t: Tree, b: Block, lo: int, hi: int)
    requires Fits(t, b.order) && Pending(t, b, lo, hi)
    requires Contains(b, lo) ==> UsedAt(t, b, lo)
    ensures Canonical(t, b)
  {
    if t.Split? {
      Halves(b);
      HasUsedIffLive(t, b);
      if Contains(b, lo) {
        UsedInHalf(t, b, lo);
      }
      PendingDone(t.left, Left(b), lo, hi);
      PendingDone(t.right, Right(b), lo, hi);
    }
  }

  lemma UsedInHalf(t: Tree, b: Block, x: int)
    requires Fits(t, b.order) && t.Split? && Contains(b, x)
    ensures UsedAt(t, b, x) <==> if x < Lo(Right(b)) then UsedAt(t.left, Left(b), x) else UsedAt(t.right, Right(b), x)
  {
    Halves(b);
    LeavesInside(t.left, Left(b), true);
    LeavesInside(t.right, Right(b), true);
    forall c | c in Live(t.left, Left(b)) ensures Hi(c) <= Lo(Right(b)) {
      InsideInterval(c, Left(b));
    }
    forall c | c in Live(t.right, Right(b)) ensures Lo(Right(b)) <= Lo(c) {
      InsideInterval(c, Right(b));
    }
    assert Live(t, b) == Live(t.left, Left(b)) + Live(t.right, Right(b));
  }

  /** A canonical tree is determined by its live blocks alone. */
  lemma {:induction false} Determined(t: Tree, u: Tree, b: Block)
    requires Fits(t, b.order) && Fits(u, b.order)
    requires Canonical(t, b) && Canonical(u, b)
    requires Live(t, b) == Live(u, b)
    ensures t == u
  {
    HasUsedIffLive(t, b);
    HasUsedIffLive(u, b);
    LeavesInside(t, b, true);
    LeavesInside(u, b, true);
    if t.Used? || u.Used? {
      assert b in Live(t, b);
    } else if t.Split? && u.Split? {
      LiveHalves(t, b);
      LiveHalves(u, b);
      Determined(t.left, u.left, Left(b));
      Determined(t.right, u.right, Right(b));
    }
  }

  lemma LiveHalves(t: Tree, b: Block)
    requires Fits(t, b.order) && t.Split?
    ensures Live(t.left, Left(b)) == set c | c in Live(t, b) && Inside(c, Left(b))
    ensures Live(t.right, Right(b)) == set c | c in Live(t, b) && Inside(c, Right(b))
  {
    LeavesInside(t.left, Left(b), true);
    LeavesInside(t.right, Right(b), true);
  }

  // ---- nodes and their replacement ----

  /** The block's half that holds `c`. */
  predicate GoesLeft(c: Block, b: Block)
    requires b.order > 0
  {
    Inside(c, Left(b))
  }

  /** There is a slot for `c` in the tree: no proper ancestor of `c` is a leaf. */
  predicate HasNode(t: Tree, b: Block, c: Block)
    requires Fits(t, b.order) && Inside(c, b)
    ensures HasNode(t, b, c) ==> MIN_ORDER <= c.order
  {
    if c == b then true
    else t.Split? && (if GoesLeft(c, b) then HasNode(t.left, Left(b), c) else HasNode(t.right, Right(b), c))
  }

  function NodeAt(t: Tree, b: Block, c: Block): (n: Tree)
    requires Fits(t, b.order) && Inside(c, b) && HasNode(t, b, c)
    ensures Fits(n, c.order)
  {
    if c == b then t
    else if GoesLeft(c, b) then NodeAt(t.left, Left(b), c) else NodeAt(t.right, Right(b), c)
  }

  function ReplaceAt(t: Tree, b: Block, c: Block, n: Tree): (t': Tree)
    requires Fits(t, b.order) && Inside(c, b) && HasNode(t, b, c) && Fits(n, c.order)
    ensures Fits(t', b.order) && HasNode(t', b, c) && NodeAt(t', b, c) == n
  {
    if c == b then n
    else if GoesLeft(c, b) then Split(ReplaceAt(t.left, Left(b), c, n), t.right)
    else Split(t.left, ReplaceAt(t.right, Right(b), c, n))
  }

  /** Replacing a node swaps its leaves for the new node's leaves and touches no others. */
  lemma {:induction false} LeavesReplace(t: Tree, b: Block, c: Block, n: Tree, used: bool)
    requires Fits(t, b.order) && Inside(c, b) && HasNode(t, b, c) && Fits(n, c.order)
    ensures Leaves(ReplaceAt(t, b, c, n), b, used)
         == Leaves(t, b, used) - Leaves(NodeAt(t, b, c), c, used) + Leaves(n, c, used)
  {
    if c != b {
      InsideHalf(c, b);
      var out, in_ := Leaves(NodeAt(t, b, c), c, used), Leaves(n, c, used);
      if GoesLeft(c, b) {
        LeavesReplace(t.left, Left(b), c, n, used);
        LeavesApart(NodeAt(t, b, c), c, Left(b), t.right, Right(b), used);
        SwapPart(Leaves(t.left, Left(b), used), Leaves(t.right, Right(b), used), out, in_);
      } else {
        LeavesReplace(t.right, Right(b), c, n, used);
        LeavesApart(NodeAt(t, b, c), c, Right(b), t.left, Left(b), used);
        SwapPart(Leaves(t.right, Right(b), used), Leaves(t.left, Left(b), used), out, in_);
      }
    }
  }

  lemma LeavesApart(n: Tree, c: Block, b: Block, m: Tree, d: Block, used: bool)
    requires Fits(n, c.order) && Fits(m, d.order) && Inside(c, b) && b.order == d.order && b.pos != d.pos
    ensures Leaves(n, c, used) !! Leaves(m, d, used)
  {
    LeavesInside(n, c, used);
    LeavesInside(m, d, used);
    forall e | e in Leaves(n, c, used) ensures e !in Leaves(m, d, used) {
      InsideTrans(e, c, b);
    }
  }

  lemma SwapPart(on: set<Block>, off: set<Block>, out: set<Block>, new_: set<Block>)
    requires out !! off
    ensures (on - out + new_) + off == (on + off) - out + new_
    ensures off + (on - out + new_) == (off + on) - out + new_
  {
  }

  /** The leaves of a node are leaves of the whole tree, and a node with a used leaf is in a tree with one. */
  lemma {:induction false} NodeLeaves(t: Tree, b: Block, c: Block, used: bool)
    requires Fits(t, b.order) && Inside(c, b) && HasNode(t, b, c)
    ensures Leaves(NodeAt(t, b, c), c, used) <= Leaves(t, b, used)
    ensures HasUsed(NodeAt(t, b, c)) ==> HasUsed(t)
    ensures forall d :: d in Leaves(t, b, used) && Inside(c, d) ==> d == c
  {
    if c != b {
      InsideHalf(c, b);
      var (on, ob, off, fb) := if GoesLeft(c, b) then (t.left, Left(b), t.right, Right(b))
                               else (t.right, Right(b), t.left, Left(b));
      NodeLeaves(on, ob, c, used);
      LeavesInside(off, fb, used);
      forall d | d in Leaves(off, fb, used) ensures !Inside(c, d) {
        if Inside(c, d) {
          InsideTrans(c, d, fb);
        }
      }
    } else {
      LeavesInside(t, b, used);
    }
  }

  /** The two children of a split node are nodes too. */
  lemma {:induction false} NodeChildren(t: Tree, b: Block, c: Block)
    requires Fits(t, b.order) && Inside(c, b) && HasNode(t, b, c) && NodeAt(t, b, c).Split?
    ensures c.order > MIN_ORDER
    ensures Inside(Left(c), b) && HasNode(t, b, Left(c)) && NodeAt(t, b, Left(c)) == NodeAt(t, b, c).left
    ensures Inside(Right(c), b) && HasNode(t, b, Right(c)) && NodeAt(t, b, Right(c)) == NodeAt(t, b, c).right
  {
    HalfInside(Left(c), c);
    HalfInside(Right(c), c);
    InsideTrans(Left(c), c, b);
    InsideTrans(Right(c), c, b);
    if c != b {
      InsideHalf(c, b);
      var ob := if GoesLeft(c, b) then Left(b) else Right(b);
      InsideTrans(Left(c), c, ob);
      InsideTrans(Right(c), c, ob);
      NodeChildren(if GoesLeft(c, b) then t.left else t.right, ob, c);
    }
  }

  /** A replacement that loses no used block keeps the coalescing invariant. */
  lemma {:induction false} PendingReplace(t: Tree, b: Block, c: Block, n: Tree, lo: int, hi: int)
    requires Fits(t, b.order) && Inside(c, b) && HasNode(t, b, c) && Fits(n, c.order)
    requires Pending(t, b, lo, hi) && Pending(n, c, lo, hi)
    requires HasUsed(NodeAt(t, b, c)) ==> HasUsed(n)
    ensures Pending(ReplaceAt(t, b, c, n), b, lo, hi)
    ensures HasUsed(t) ==> HasUsed(ReplaceAt(t, b, c, n))
  {
    if c != b {
      InsideHalf(c, b);
      var (on, ob) := if GoesLeft(c, b) then (t.left, Left(b)) else (t.right, Right(b));
      PendingReplace(on, ob, c, n, lo, hi);
    }
  }

  /** Freeing a block leaves exceptions only around that block. */
  lemma {:induction false} PendingFreed(t: Tree, b: Block, c: Block, lo: int, hi: int)
    requires Fits(t, b.order) && Inside(c, b) && HasNode(t, b, c)
    requires Pending(t, b, lo, hi) && (lo < hi ==> Lo(c) <= lo < hi <= Hi(c))
    ensures Pending(ReplaceAt(t, b, c, Free), b, Lo(c), Hi(c))
  {
    if c != b {
      InsideHalf(c, b);
      Halves(b);
      var (on, ob, off, fb) := if GoesLeft(c, b) then (t.left, Left(b), t.right, Right(b))
                               else (t.right, Right(b), t.left, Left(b));
      InsideInterval(c, ob);
      PendingFreed(on, ob, c, lo, hi);
      PendingNarrows(off, fb, lo, hi, Lo(c), Hi(c));
    }
  }

  function Sibling(c: Block): Block
  {
    Block(c.order, if c.pos % 2 == 0 then c.pos + 1 else c.pos - 1)
  }

  function Parent(c: Block): Block
  {
    Block(c.order + 1, c.pos / 2)
  }

  lemma ParentHalves(c: Block)
    ensures c.pos % 2 == 0 ==> c == Left(Parent(c)) && Sibling(c) == Right(Parent(c))
    ensures c.pos % 2 == 1 ==> c == Right(Parent(c)) && Sibling(c) == Left(Parent(c))
  {
  }

  lemma ParentInside(c: Block, b: Block)
    requires Inside(c, b) && c.order < b.order
    ensures Inside(Parent(c), b)
  {
    assert Anc(c.pos, 1) == Anc(c.pos, 0) / 2;
    AncAdd(c.pos, 1, b.order - c.order - 1);
  }

  lemma {:induction false} ParentNode(t: Tree, b: Block, c: Block)
    requires Fits(t, b.order) && Inside(c, b) && HasNode(t, b, c) && c.order < b.order
    ensures Inside(Parent(c), b) && HasNode(t, b, Parent(c)) && NodeAt(t, b, Parent(c)).Split?
    ensures Inside(Sibling(c), b) && HasNode(t, b, Sibling(c))
  {
    var p := Parent(c);
    ParentHalves(c);
    ParentInside(c, b);
    if p != b {
      InsideHalf(c, b);
      InsideHalf(p, b);
      var (on, ob) := if GoesLeft(c, b) then (t.left, Left(b)) else (t.right, Right(b));
      ParentNode(on, ob, c);
    }
    NodeChildren(t, b, p);
  }

  /** When the freed block's buddy still holds a used block, coalescing is complete. */
  lemma {:induction false} FreeFinished(t: Tree, b: Block, c: Block)
    requires Fits(t, b.order) && Inside(c, b) && HasNode(t, b, c)
    requires NodeAt(t, b, c).Free? && Pending(t, b, Lo(c), Hi(c))
    requires c == b || (Inside(Sibling(c), b) && HasNode(t, b, Sibling(c)) && HasUsed(NodeAt(t, b, Sibling(c))))
    ensures Canonical(t, b)
  {
    if c != b {
      InsideHalf(c, b);
      Halves(b);
      var (on, ob, off, fb) := if GoesLeft(c, b) then (t.left, Left(b), t.right, Right(b))
                               else (t.right, Right(b), t.left, Left(b));
      InsideInterval(c, ob);
      NodeLeaves(t, b, Sibling(c), true);
      PendingNarrows(off, fb, Lo(c), Hi(c), 0, 0);
      if c != ob {
        ParentNode(on, ob, c);
      }
      FreeFinished(on, ob, c);
    }
  }

  // ---- the three rewrites ----

  /** Splitting a free block around the pending range. */
  lemma SplitFree(t: Tree, b: Block, c: Block, lo: int, hi: int)
    requires Fits(t, b.order) && Inside(c, b) && HasNode(t, b, c) && NodeAt(t, b, c).Free? && c.order > MIN_ORDER
    ensures var t' := ReplaceAt(t, b, c, Split(Free, Free));
            && Live(t', b) == Live(t, b)
            && Leaves(t', b, false) == Leaves(t, b, false) - {c} + {Left(c), Right(c)}
            && (Pending(t, b, lo, hi) && Around(c, lo, hi) ==> Pending(t', b, lo, hi))
  {
    LeavesReplace(t, b, c, Split(Free, Free), true);
    LeavesReplace(t, b, c, Split(Free, Free), false);
    if Pending(t, b, lo, hi) && Around(c, lo, hi) {
      PendingReplace(t, b, c, Split(Free, Free), lo, hi);
    }
  }

  /** Using a free block that the pending range fills. */
  lemma UseFree(t: Tree, b: Block, c: Block)
    requires Fits(t, b.order) && Inside(c, b) && HasNode(t, b, c) && NodeAt(t, b, c).Free?
    requires Pending(t, b, Lo(c), Hi(c))
    ensures var t' := ReplaceAt(t, b, c, Used);
            Live(t', b) == Live(t, b) + {c} && Canonical(t', b)
  {
    var t' := ReplaceAt(t, b, c, Used);
    LeavesReplace(t, b, c, Used, true);
    PendingReplace(t, b, c, Used, Lo(c), Hi(c));
    assert c in Live(t', b) && Contains(c, Lo(c));
    PendingDone(t', b, Lo(c), Hi(c));
  }

  /** Freeing a used block. */
  lemma FreeUsed(t: Tree, b: Block, c: Block)
    requires Fits(t, b.order) && Inside(c, b) && HasNode(t, b, c) && NodeAt(t, b, c).Used? && Canonical(t, b)
    ensures var t' := ReplaceAt(t, b, c, Free);
            Live(t', b) == Live(t, b) - {c} && Pending(t', b, Lo(c), Hi(c))
  {
    LeavesReplace(t, b, c, Free, true);
    PendingFreed(t, b, c, 0, 0);
  }

  /** Merging a freed block with its free buddy. */
  lemma MergeFree(t: Tree, b: Block, c: Block)
    requires Fits(t, b.order) && Inside(c, b) && HasNode(t, b, c) && NodeAt(t, b, c).Free? && c.order < b.order
    requires Pending(t, b, Lo(c), Hi(c))
    requires Inside(Sibling(c), b) && HasNode(t, b, Sibling(c)) && NodeAt(t, b, Sibling(c)).Free?
    ensures Inside(Parent(c), b) && HasNode(t, b, Parent(c)) && NodeAt(t, b, Parent(c)) == Split(Free, Free)
    ensures var t' := ReplaceAt(t, b, Parent(c), Free);
            Live(t', b) == Live(t, b) && Pending(t', b, Lo(Parent(c)), Hi(Parent(c)))
  {
    var p := Parent(c);
    ParentNode(t, b, c);
    ParentHalves(c);
    NodeChildren(t, b, p);
    LeavesReplace(t, b, p, Free, true);
    Halves(p);
    PendingFreed(t, b, p, Lo(c), Hi(c));
  }

  /** A node that is not free, away from the pending range, holds a used block. */
  lemma {:induction false} NodeUsed(t: Tree, b: Block, c: Block, lo: int, hi: int)
    requires Fits(t, b.order) && Inside(c, b) && HasNode(t, b, c) && !NodeAt(t, b, c).Free?
    requires Pending(t, b, lo, hi) && !Around(c, lo, hi)
    ensures HasUsed(NodeAt(t, b, c))
  {
    if c != b {
      InsideHalf(c, b);
      if GoesLeft(c, b) {
        NodeUsed(t.left, Left(b), c, lo, hi);
      } else {
        NodeUsed(t.right, Right(b), c, lo, hi);
      }
    }
  }

  /** Freeing stops when the buddy is not free: the tree is then canonical. */
  lemma FreeStops(t: Tree, b: Block, c: Block)
    requires Fits(t, b.order) && Inside(c, b) && HasNode(t, b, c) && NodeAt(t, b, c).Free?
    requires Pending(t, b, Lo(c), Hi(c))
    requires c == b || (Inside(Sibling(c), b) && HasNode(t, b, Sibling(c)) && !NodeAt(t, b, Sibling(c)).Free?)
    ensures Canonical(t, b)
  {
    if c != b {
      ParentHalves(c);
      Halves(Parent(c));
      NodeUsed(t, b, Sibling(c), Lo(c), Hi(c));
    }
    FreeFinished(t, b, c);
  }
}
