/** The flat slot array: every order's slots side by side, smallest order first. */
module BuddySlots {
  import opened Powers
  import opened BuddyTree

  datatype Kind = UNUSED | SPLIT | USED

  datatype Slot = Slot(base: int, order: nat, kind: Kind)

  const ZERO_SLOT := Slot(0, 0, UNUSED)

  function Root(max: nat): Block { Block(max, 0) }

  predicate InTree(max: nat, c: Block) { MIN_ORDER <= c.order && Inside(c, Root(max)) }

  /** Number of slots that the header of a region of 2^max bytes holds; the last one is never used. */
  function SlotCount(max: nat): nat
    requires MIN_ORDER <= max
  {
    Pow2(max - MIN_ORDER + 1)
  }

  /** First slot of an order (goto_porder_idx). */
  function FirstOf(max: nat, order: nat): int
    requires MIN_ORDER <= order <= max
  {
    Pow2(max - (MIN_ORDER - 1)) - Pow2(max - order + 1)
  }

  function EntriesOf(max: nat, order: nat): int
    requires MIN_ORDER <= order <= max
  {
    Pow2(max) / Pow2(order)
  }

  function Index(max: nat, c: Block): int
    requires MIN_ORDER <= c.order <= max
  {
    FirstOf(max, c.order) + c.pos
  }

  lemma EntriesCount(max: nat, order: nat)
    requires MIN_ORDER <= order <= max
    ensures EntriesOf(max, order) == Pow2(max - order)
    ensures forall p: nat :: p < EntriesOf(max, order) <==> InTree(max, Block(order, p))
  {
    Pow2Add(max - order, order);
    var n, d := Pow2(max - order), Pow2(order);
    assert (n * d) / d == n by {
      Quotient(n, d);
    }
    forall p: nat ensures p < EntriesOf(max, order) <==> InTree(max, Block(order, p)) {
      AncZero(p, max - order);
    }
  }

  lemma Quotient(n: nat, d: nat)
    requires d > 0
    ensures (n * d) / d == n
  {
    var q := (n * d) / d;
    assert q * d <= n * d < q * d + d;
    MulStep(n - q, d);
    assert (n - q) * d == n * d - q * d;
  }

  lemma MulStep(m: int, d: int)
    requires d > 0
    ensures m >= 1 ==> m * d >= d
    ensures m <= -1 ==> m * d <= -d
  {
  }

  lemma IndexRange(max: nat, c: Block)
    requires MIN_ORDER <= max && InTree(max, c)
    ensures 0 <= FirstOf(max, c.order) <= Index(max, c) < FirstOf(max, c.order) + Pow2(max - c.order) < SlotCount(max)
    ensures c.order < max ==> FirstOf(max, c.order + 1) == FirstOf(max, c.order) + Pow2(max - c.order)
  {
    AncZero(c.pos, max - c.order);
    Pow2Monotone(max - c.order + 1, max - (MIN_ORDER - 1));
  }

  /** Different blocks never share a slot. */
  lemma IndexInjective(max: nat, c: Block, d: Block)
    requires MIN_ORDER <= max && InTree(max, c) && InTree(max, d) && c != d
    ensures Index(max, c) != Index(max, d)
  {
    if c.order != d.order {
      var (s, l) := if c.order < d.order then (c, d) else (d, c);
      IndexRange(max, s);
      IndexRange(max, l);
      Pow2Monotone(max - l.order + 1, max - s.order);
    }
  }

  // Pointer arithmetic of goto_parent, goto_left_child, goto_right_child and goto_sibling on a
  // slot number, given the order the slot stores.

  function ParentSlot(max: nat, i: int, order: nat): int
    requires MIN_ORDER <= order < max
  {
    FirstOf(max, order + 1) + (i - FirstOf(max, order)) / 2
  }

  function LeftSlot(max: nat, i: int, order: nat): int
    requires MIN_ORDER < order <= max
  {
    FirstOf(max, order - 1) + (i - FirstOf(max, order)) * 2
  }

  function RightSlot(max: nat, i: int, order: nat): int
    requires MIN_ORDER < order <= max
  {
    FirstOf(max, order - 1) + (i - FirstOf(max, order)) * 2 + 1
  }

  function SiblingSlot(max: nat, i: int, order: nat): int
    requires MIN_ORDER <= order <= max
  {
    if (i - FirstOf(max, order)) % 2 == 0 then i + 1 else i - 1
  }

  predicate Sized(s: seq<Slot>, max: nat) { MIN_ORDER <= max && |s| == SlotCount(max) }

  function At(s: seq<Slot>, max: nat, c: Block): Slot
    requires Sized(s, max) && InTree(max, c)
  {
    IndexRange(max, c);
    s[Index(max, c)]
  }

  function KindOf(t: Tree): Kind
  {
    match t
    case Free => UNUSED
    case Used => USED
    case Split(_, _) => SPLIT
  }

  lemma HalvesInTree(max: nat, b: Block)
    requires InTree(max, b) && b.order > MIN_ORDER
    ensures InTree(max, Left(b)) && InTree(max, Right(b))
  {
    HalfInside(Left(b), b);
    HalfInside(Right(b), b);
    InsideTrans(Left(b), b, Root(max));
    InsideTrans(Right(b), b, Root(max));
  }

  /** Every slot of the subtree at `b` is zero. */
  predicate Zeroed(s: seq<Slot>, max: nat, b: Block)
    requires Sized(s, max) && InTree(max, b)
    decreases b.order
  {
    At(s, max, b) == ZERO_SLOT &&
    (b.order > MIN_ORDER ==>
       (HalvesInTree(max, b);
        Zeroed(s, max, Left(b)) && Zeroed(s, max, Right(b))))
  }

  /** The slots of the subtree at `b` are exactly those of the tree `t`. */
  predicate Encodes(s: seq<Slot>, max: nat, base: int, b: Block, t: Tree)
    requires Sized(s, max) && InTree(max, b) && Fits(t, b.order)
    decreases b.order
  {
    At(s, max, b) == Slot(base + Lo(b), b.order, KindOf(t)) &&
    (b.order > MIN_ORDER ==>
       (HalvesInTree(max, b);
        if t.Split? then Encodes(s, max, base, Left(b), t.left) && Encodes(s, max, base, Right(b), t.right)
        else Zeroed(s, max, Left(b)) && Zeroed(s, max, Right(b))))
  }

  ghost predicate SameOn(s: seq<Slot>, s': seq<Slot>, max: nat, b: Block)
    requires Sized(s, max) && Sized(s', max)
  {
    forall d :: InTree(max, d) && Inside(d, b) ==> At(s, max, d) == At(s', max, d)
  }

  ghost predicate SameOff(s: seq<Slot>, s': seq<Slot>, max: nat, b: Block)
    requires Sized(s, max) && Sized(s', max)
  {
    forall d :: InTree(max, d) && !Inside(d, b) ==> At(s, max, d) == At(s', max, d)
  }

  lemma SameHalves(s: seq<Slot>, s': seq<Slot>, max: nat, b: Block)
    requires Sized(s, max) && Sized(s', max) && b.order > 0 && SameOn(s, s', max, b)
    ensures SameOn(s, s', max, Left(b)) && SameOn(s, s', max, Right(b))
  {
    forall d | Inside(d, Left(b)) || Inside(d, Right(b)) ensures Inside(d, b) {
      HalfInside(d, b);
    }
  }

  lemma {:induction false} ZeroedFrame(s: seq<Slot>, s': seq<Slot>, max: nat, b: Block)
    requires Sized(s, max) && Sized(s', max) && InTree(max, b)
    requires SameOn(s, s', max, b) && Zeroed(s, max, b)
    ensures Zeroed(s', max, b)
    decreases b.order
  {
    if b.order > MIN_ORDER {
      HalvesInTree(max, b);
      SameHalves(s, s', max, b);
      ZeroedFrame(s, s', max, Left(b));
      ZeroedFrame(s, s', max, Right(b));
    }
  }

  lemma {:induction false} EncodesFrame(s: seq<Slot>, s': seq<Slot>, max: nat, base: int, b: Block, t: Tree)
    requires Sized(s, max) && Sized(s', max) && InTree(max, b) && Fits(t, b.order)
    requires SameOn(s, s', max, b) && Encodes(s, max, base, b, t)
    ensures Encodes(s', max, base, b, t)
    decreases b.order
  {
    if b.order > MIN_ORDER {
      HalvesInTree(max, b);
      SameHalves(s, s', max, b);
      if t.Split? {
        EncodesFrame(s, s', max, base, Left(b), t.left);
        EncodesFrame(s, s', max, base, Right(b), t.right);
      } else {
        ZeroedFrame(s, s', max, Left(b));
        ZeroedFrame(s, s', max, Right(b));
      }
    }
  }

  /** Rewriting the slots of one node rewrites that node of the tree and nothing else. */
  lemma {:induction false} EncodesReplace(s: seq<Slot>, s': seq<Slot>, max: nat, base: int, b: Block, t: Tree,
                                          c: Block, n: Tree)
    requires Sized(s, max) && Sized(s', max) && InTree(max, b) && Fits(t, b.order)
    requires Inside(c, b) && HasNode(t, b, c) && Fits(n, c.order) && InTree(max, c)
    requires Encodes(s, max, base, b, t) && SameOff(s, s', max, c)
    requires Encodes(s', max, base, c, n)
    ensures Encodes(s', max, base, b, ReplaceAt(t, b, c, n))
    decreases b.order
  {
    if c != b {
      InsideHalf(c, b);
      HalvesInTree(max, b);
      if GoesLeft(c, b) {
        EncodesReplace(s, s', max, base, Left(b), t.left, c, n);
        OffHalf(s, s', max, c, Left(b), Right(b));
        EncodesFrame(s, s', max, base, Right(b), t.right);
      } else {
        EncodesReplace(s, s', max, base, Right(b), t.right, c, n);
        OffHalf(s, s', max, c, Right(b), Left(b));
        EncodesFrame(s, s', max, base, Left(b), t.left);
      }
    }
  }

  lemma OffHalf(s: seq<Slot>, s': seq<Slot>, max: nat, c: Block, on: Block, off: Block)
    requires Sized(s, max) && Sized(s', max) && SameOff(s, s', max, c)
    requires Inside(c, on) && on.order == off.order && on.pos != off.pos
    ensures SameOn(s, s', max, off)
  {
    forall d | InTree(max, d) && Inside(d, off) ensures !Inside(d, c) {
      if Inside(d, c) {
        InsideTrans(d, c, on);
      }
    }
  }

  /** The slot of a node stores that node. */
  lemma {:induction false} SlotOfNode(s: seq<Slot>, max: nat, base: int, b: Block, t: Tree, c: Block)
    requires Sized(s, max) && InTree(max, b) && Fits(t, b.order) && Encodes(s, max, base, b, t)
    requires Inside(c, b) && HasNode(t, b, c)
    ensures InTree(max, c) && Encodes(s, max, base, c, NodeAt(t, b, c))
    decreases b.order
  {
    if c != b {
      InsideHalf(c, b);
      HalvesInTree(max, b);
      if GoesLeft(c, b) {
        SlotOfNode(s, max, base, Left(b), t.left, c);
      } else {
        SlotOfNode(s, max, base, Right(b), t.right, c);
      }
    }
  }

  lemma {:induction false} ZeroedInside(s: seq<Slot>, max: nat, b: Block, c: Block)
    requires Sized(s, max) && InTree(max, b) && Zeroed(s, max, b) && Inside(c, b) && InTree(max, c)
    ensures At(s, max, c) == ZERO_SLOT
    decreases b.order
  {
    if c != b {
      InsideHalf(c, b);
      HalvesInTree(max, b);
      ZeroedInside(s, max, if GoesLeft(c, b) then Left(b) else Right(b), c);
    }
  }

  /** A slot is in use and UNUSED exactly when its block is a free leaf. */
  lemma {:induction false} FreeSlotIsFreeLeaf(s: seq<Slot>, max: nat, base: int, b: Block, t: Tree, c: Block)
    requires Sized(s, max) && InTree(max, b) && Fits(t, b.order) && Encodes(s, max, base, b, t)
    requires Inside(c, b) && InTree(max, c)
    ensures At(s, max, c) != ZERO_SLOT && At(s, max, c).kind == UNUSED <==> c in Leaves(t, b, false)
    ensures c in Leaves(t, b, false) ==> HasNode(t, b, c) && NodeAt(t, b, c).Free?
    ensures At(s, max, c).order == 0 <==> At(s, max, c) == ZERO_SLOT
    decreases b.order
  {
    LeavesInside(t, b, false);
    if c != b {
      InsideHalf(c, b);
      HalvesInTree(max, b);
      var (ob, fb) := if GoesLeft(c, b) then (Left(b), Right(b)) else (Right(b), Left(b));
      if t.Split? {
        LeavesInside(if GoesLeft(c, b) then t.right else t.left, fb, false);
        FreeSlotIsFreeLeaf(s, max, base, ob, if GoesLeft(c, b) then t.left else t.right, c);
      } else {
        ZeroedInside(s, max, ob, c);
      }
    }
  }

  /** Equal trees have equal slots. */
  lemma {:induction false} SlotsFromTree(s: seq<Slot>, s': seq<Slot>, max: nat, base: int, b: Block, t: Tree, c: Block)
    requires Sized(s, max) && Sized(s', max) && InTree(max, b) && Fits(t, b.order)
    requires Encodes(s, max, base, b, t) && Encodes(s', max, base, b, t)
    requires Inside(c, b) && InTree(max, c)
    ensures At(s, max, c) == At(s', max, c)
    decreases b.order
  {
    if c != b {
      InsideHalf(c, b);
      HalvesInTree(max, b);
      var ob := if GoesLeft(c, b) then Left(b) else Right(b);
      if t.Split? {
        SlotsFromTree(s, s', max, base, ob, if GoesLeft(c, b) then t.left else t.right, c);
      } else {
        ZeroedInside(s, max, ob, c);
        ZeroedInside(s', max, ob, c);
      }
    }
  }

  /** Every slot number but the last belongs to a block. */
  lemma {:induction false} BlockOfIndex(max: nat, i: nat, order: nat) returns (c: Block)
    requires MIN_ORDER <= order <= max && FirstOf(max, order) <= i < SlotCount(max) - 1
    ensures InTree(max, c) && Index(max, c) == i
    decreases max - order
  {
    if i < FirstOf(max, order) + Pow2(max - order) {
      c := Block(order, i - FirstOf(max, order));
      AncZero(c.pos, max - order);
    } else {
      c := BlockOfIndex(max, i, order + 1);
    }
  }

  lemma SlotsEqual(s: seq<Slot>, s': seq<Slot>, max: nat, base: int, t: Tree)
    requires Sized(s, max) && Sized(s', max) && Fits(t, max)
    requires Encodes(s, max, base, Root(max), t) && Encodes(s', max, base, Root(max), t)
    requires s[|s| - 1] == s'[|s| - 1]
    ensures s == s'
  {
    hide Encodes, Fits, Pow2, Index;
    forall i | 0 <= i < |s| - 1 ensures s[i] == s'[i] {
      var c := BlockOfIndex(max, i, MIN_ORDER);
      SlotsFromTree(s, s', max, base, Root(max), t, c);
    }
  }

  /** The whole slot array is determined by the set of live blocks: it does not remember the past. */
  lemma SlotsDetermined(s: seq<Slot>, s': seq<Slot>, max: nat, base: int, t: Tree, t': Tree)
    requires Sized(s, max) && Sized(s', max) && Fits(t, max) && Fits(t', max)
    requires Encodes(s, max, base, Root(max), t) && Encodes(s', max, base, Root(max), t')
    requires s[|s| - 1] == s'[|s| - 1] == ZERO_SLOT
    requires Canonical(t, Root(max)) && Canonical(t', Root(max))
    requires Live(t, Root(max)) == Live(t', Root(max))
    ensures s == s'
  {
    Determined(t, t', Root(max));
    SlotsEqual(s, s', max, base, t);
  }

  // ---- what single writes do to the tree ----

  lemma WriteOne(s: seq<Slot>, max: nat, c: Block, x: Slot)
    requires Sized(s, max) && InTree(max, c)
    ensures 0 <= Index(max, c) < |s| - 1
    ensures var s' := s[Index(max, c) := x];
            && Sized(s', max) && At(s', max, c) == x
            && forall d :: InTree(max, d) && d != c ==> At(s', max, d) == At(s, max, d)
  {
    IndexRange(max, c);
    forall d | InTree(max, d) && d != c
      ensures At(s[Index(max, c) := x], max, d) == At(s, max, d)
    {
      IndexRange(max, d);
      IndexInjective(max, c, d);
    }
  }

  predicate Leaf(t: Tree) { !t.Split? }

  /** Changing the kind of a leaf's slot changes that leaf. */
  lemma RetypeLeaf(s: seq<Slot>, max: nat, base: int, t: Tree, c: Block, n: Tree)
    requires Sized(s, max) && Fits(t, max) && Encodes(s, max, base, Root(max), t)
    requires Inside(c, Root(max)) && HasNode(t, Root(max), c) && Leaf(NodeAt(t, Root(max), c)) && Leaf(n)
    ensures InTree(max, c) && 0 <= Index(max, c) < |s| - 1
    ensures var s' := s[Index(max, c) := s[Index(max, c)].(kind := KindOf(n))];
            Sized(s', max) && Encodes(s', max, base, Root(max), ReplaceAt(t, Root(max), c, n))
  {
    SlotOfNode(s, max, base, Root(max), t, c);
    var x := At(s, max, c).(kind := KindOf(n));
    WriteOne(s, max, c, x);
    var s' := s[Index(max, c) := x];
    if c.order > MIN_ORDER {
      HalvesInTree(max, c);
      NotBelow(c, Left(c));
      NotBelow(c, Right(c));
      ZeroedFrame(s, s', max, Left(c));
      ZeroedFrame(s, s', max, Right(c));
    }
    EncodesReplace(s, s', max, base, Root(max), t, c, n);
  }

  lemma NotBelow(c: Block, b: Block)
    requires b.order < c.order
    ensures forall d :: Inside(d, b) ==> d != c
  {
  }

  /** A free leaf after the three writes of a split. */
  lemma SplitLeaf(s: seq<Slot>, max: nat, base: int, t: Tree, c: Block)
    requires Sized(s, max) && Fits(t, max) && Encodes(s, max, base, Root(max), t)
    requires Inside(c, Root(max)) && HasNode(t, Root(max), c) && NodeAt(t, Root(max), c).Free? && c.order > MIN_ORDER
    ensures InTree(max, c) && InTree(max, Left(c)) && InTree(max, Right(c))
    ensures var l, r, i := Index(max, Left(c)), Index(max, Right(c)), Index(max, c);
            && 0 <= l < |s| - 1 && 0 <= r < |s| - 1 && 0 <= i < |s| - 1 && l != i && r != i
            && var s' := s[l := Slot(base + Lo(c), c.order - 1, UNUSED)]
                          [r := Slot(base + Lo(c) + Pow2(c.order - 1), c.order - 1, UNUSED)]
                          [i := s[i].(kind := SPLIT)];
               Sized(s', max) && Encodes(s', max, base, Root(max), ReplaceAt(t, Root(max), c, Split(Free, Free)))
  {
    hide Encodes, Fits, HasNode, NodeAt, ReplaceAt;
    SlotOfNode(s, max, base, Root(max), t, c);
    HalvesInTree(max, c);
    Halves(c);
    var x, z := Slot(base + Lo(c), c.order - 1, UNUSED), At(s, max, c).(kind := SPLIT);
    var y := Slot(base + Lo(c) + Pow2(c.order - 1), c.order - 1, UNUSED);
    WriteOne(s, max, Left(c), x);
    var s1 := s[Index(max, Left(c)) := x];
    WriteOne(s1, max, Right(c), y);
    var s2 := s1[Index(max, Right(c)) := y];
    WriteOne(s2, max, c, z);
    IndexInjective(max, c, Left(c));
    IndexInjective(max, c, Right(c));
    SplitWritten(s, s2[Index(max, c) := z], max, base, t, c);
  }

  /** The slots that differ after a split, and what they then stand for. */
  lemma SplitWritten(s: seq<Slot>, s': seq<Slot>, max: nat, base: int, t: Tree, c: Block)
    requires Sized(s, max) && Sized(s', max) && Fits(t, max) && Encodes(s, max, base, Root(max), t)
    requires InTree(max, c) && HasNode(t, Root(max), c) && NodeAt(t, Root(max), c).Free? && c.order > MIN_ORDER
    requires InTree(max, Left(c)) && InTree(max, Right(c))
    requires At(s', max, c) == At(s, max, c).(kind := SPLIT)
    requires At(s', max, Left(c)) == Slot(base + Lo(Left(c)), c.order - 1, UNUSED)
    requires At(s', max, Right(c)) == Slot(base + Lo(Right(c)), c.order - 1, UNUSED)
    requires forall d :: InTree(max, d) && d !in {c, Left(c), Right(c)} ==> At(s', max, d) == At(s, max, d)
    ensures Encodes(s', max, base, Root(max), ReplaceAt(t, Root(max), c, Split(Free, Free)))
  {
    hide Encodes, Fits, HasNode, NodeAt, ReplaceAt, Pow2, Scale, At;
    SplitEncoded(s, s', max, base, t, c);
    OffThree(s, s', max, c);
    EncodesReplace(s, s', max, base, Root(max), t, c, Split(Free, Free));
  }

  lemma SplitEncoded(s: seq<Slot>, s': seq<Slot>, max: nat, base: int, t: Tree, c: Block)
    requires Sized(s, max) && Sized(s', max) && Fits(t, max) && Encodes(s, max, base, Root(max), t)
    requires InTree(max, c) && HasNode(t, Root(max), c) && NodeAt(t, Root(max), c).Free? && c.order > MIN_ORDER
    requires InTree(max, Left(c)) && InTree(max, Right(c))
    requires At(s', max, c) == At(s, max, c).(kind := SPLIT)
    requires At(s', max, Left(c)) == Slot(base + Lo(Left(c)), c.order - 1, UNUSED)
    requires At(s', max, Right(c)) == Slot(base + Lo(Right(c)), c.order - 1, UNUSED)
    requires forall d :: InTree(max, d) && d !in {c, Left(c), Right(c)} ==> At(s', max, d) == At(s, max, d)
    ensures Fits(Split(Free, Free), c.order) && Encodes(s', max, base, c, Split(Free, Free))
  {
    hide HasNode, NodeAt, Pow2, Scale, Index;
    SlotOfNode(s, max, base, Root(max), t, c);
    FreeHalf(s, s', max, base, c, Left(c));
    FreeHalf(s, s', max, base, c, Right(c));
  }

  lemma OffThree(s: seq<Slot>, s': seq<Slot>, max: nat, c: Block)
    requires Sized(s, max) && Sized(s', max) && c.order > 0
    requires forall d :: InTree(max, d) && d !in {c, Left(c), Right(c)} ==> At(s', max, d) == At(s, max, d)
    ensures SameOff(s, s', max, c)
  {
    HalfInside(Left(c), c);
    HalfInside(Right(c), c);
  }

  lemma FreeHalf(s: seq<Slot>, s': seq<Slot>, max: nat, base: int, c: Block, h: Block)
    requires Sized(s, max) && Sized(s', max) && InTree(max, c) && c.order > MIN_ORDER && h in {Left(c), Right(c)}
    requires InTree(max, h) && Zeroed(s, max, h) && At(s', max, h) == Slot(base + Lo(h), h.order, UNUSED)
    requires forall d :: InTree(max, d) && d !in {c, Left(c), Right(c)} ==> At(s', max, d) == At(s, max, d)
    ensures Encodes(s', max, base, h, Free)
  {
    if h.order > MIN_ORDER {
      HalvesInTree(max, h);
      ZeroedFrame(s, s', max, Left(h));
      ZeroedFrame(s, s', max, Right(h));
    }
  }

  /** Two free buddies after the three writes of a merge. */
  lemma MergeLeaves(s: seq<Slot>, max: nat, base: int, t: Tree, c: Block)
    requires Sized(s, max) && Fits(t, max) && Encodes(s, max, base, Root(max), t)
    requires Inside(c, Root(max)) && HasNode(t, Root(max), c) && NodeAt(t, Root(max), c) == Split(Free, Free)
    ensures InTree(max, c) && c.order > MIN_ORDER && InTree(max, Left(c)) && InTree(max, Right(c))
    ensures var l, r, i := Index(max, Left(c)), Index(max, Right(c)), Index(max, c);
            && 0 <= l < |s| - 1 && 0 <= r < |s| - 1 && 0 <= i < |s| - 1
            && l != i && r != i && l != r
            && var s' := s[i := s[i].(kind := UNUSED)][l := ZERO_SLOT][r := ZERO_SLOT];
               Sized(s', max) && Encodes(s', max, base, Root(max), ReplaceAt(t, Root(max), c, Free))
  {
    SlotOfNode(s, max, base, Root(max), t, c);
    HalvesInTree(max, c);
    var z := At(s, max, c).(kind := UNUSED);
    WriteOne(s, max, c, z);
    var s1 := s[Index(max, c) := z];
    WriteOne(s1, max, Left(c), ZERO_SLOT);
    var s2 := s1[Index(max, Left(c)) := ZERO_SLOT];
    WriteOne(s2, max, Right(c), ZERO_SLOT);
    IndexInjective(max, c, Left(c));
    IndexInjective(max, c, Right(c));
    IndexInjective(max, Left(c), Right(c));
    MergeWritten(s, s2[Index(max, Right(c)) := ZERO_SLOT], max, base, t, c);
  }

  lemma MergeWritten(s: seq<Slot>, s': seq<Slot>, max: nat, base: int, t: Tree, c: Block)
    requires Sized(s, max) && Sized(s', max) && Fits(t, max) && Encodes(s, max, base, Root(max), t)
    requires InTree(max, c) && HasNode(t, Root(max), c) && NodeAt(t, Root(max), c) == Split(Free, Free)
    requires c.order > MIN_ORDER
    requires InTree(max, Left(c)) && InTree(max, Right(c))
    requires At(s', max, c) == At(s, max, c).(kind := UNUSED)
    requires At(s', max, Left(c)) == At(s', max, Right(c)) == ZERO_SLOT
    requires forall d :: InTree(max, d) && d !in {c, Left(c), Right(c)} ==> At(s', max, d) == At(s, max, d)
    ensures Encodes(s', max, base, Root(max), ReplaceAt(t, Root(max), c, Free))
  {
    assert Encodes(s', max, base, c, Free) by {
      SlotOfNode(s, max, base, Root(max), t, c);
      ZeroHalf(s, s', max, base, c, Left(c));
      ZeroHalf(s, s', max, base, c, Right(c));
    }
    OffThree(s, s', max, c);
    EncodesReplace(s, s', max, base, Root(max), t, c, Free);
  }

  lemma ZeroHalf(s: seq<Slot>, s': seq<Slot>, max: nat, base: int, c: Block, h: Block)
    requires Sized(s, max) && Sized(s', max) && InTree(max, c) && c.order > MIN_ORDER && h in {Left(c), Right(c)}
    requires InTree(max, h) && Encodes(s, max, base, h, Free) && At(s', max, h) == ZERO_SLOT
    requires forall d :: InTree(max, d) && d !in {c, Left(c), Right(c)} ==> At(s', max, d) == At(s, max, d)
    ensures Zeroed(s', max, h)
  {
    if h.order > MIN_ORDER {
      HalvesInTree(max, h);
      ZeroedFrame(s, s', max, Left(h));
      ZeroedFrame(s, s', max, Right(h));
    }
  }

  lemma {:induction false} AllZeroed(s: seq<Slot>, max: nat, b: Block)
    requires Sized(s, max) && InTree(max, b)
    requires forall d :: InTree(max, d) && Inside(d, b) ==> At(s, max, d) == ZERO_SLOT
    ensures Zeroed(s, max, b)
    decreases b.order
  {
    if b.order > MIN_ORDER {
      HalvesInTree(max, b);
      forall d | Inside(d, Left(b)) || Inside(d, Right(b)) ensures Inside(d, b) {
        HalfInside(d, b);
      }
      AllZeroed(s, max, Left(b));
      AllZeroed(s, max, Right(b));
    }
  }

  /** A zeroed header with the largest slot written stands for one free block. */
  lemma InitialSlots(s: seq<Slot>, max: nat, base: int)
    requires Sized(s, max) && forall i :: 0 <= i < |s| ==> s[i] == ZERO_SLOT
    ensures 0 <= FirstOf(max, max) < |s| - 1
    ensures var s' := s[FirstOf(max, max) := Slot(base, max, UNUSED)];
            Sized(s', max) && Encodes(s', max, base, Root(max), Free)
  {
    var root, x := Root(max), Slot(base, max, UNUSED);
    WriteOne(s, max, root, x);
    ScaleAdd(0, 0, max);
    RootAlone(s, s[Index(max, root) := x], max, base);
  }

  lemma RootAlone(s: seq<Slot>, s': seq<Slot>, max: nat, base: int)
    requires Sized(s, max) && Sized(s', max) && forall i :: 0 <= i < |s| ==> s[i] == ZERO_SLOT
    requires At(s', max, Root(max)) == Slot(base + Lo(Root(max)), max, UNUSED)
    requires forall d :: InTree(max, d) && d != Root(max) ==> At(s', max, d) == At(s, max, d)
    ensures Encodes(s', max, base, Root(max), Free)
  {
    if max > MIN_ORDER {
      HalvesInTree(max, Root(max));
      NotBelow(Root(max), Left(Root(max)));
      NotBelow(Root(max), Right(Root(max)));
      forall d | InTree(max, d) && d != Root(max) ensures At(s', max, d) == ZERO_SLOT {
        IndexRange(max, d);
      }
      AllZeroed(s', max, Left(Root(max)));
      AllZeroed(s', max, Right(Root(max)));
    }
  }
}
