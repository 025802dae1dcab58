/** The buddy allocator over its slot array. */
module Buddy {
  import opened Powers
  import opened Bits
  import opened BuddyTree
  import opened BuddySlots
  import opened BuddyRange
  import opened BuddyFit

  class Allocator {
    /** Start of the content region; the header is the slot array. */
    const base: nat
    /** The content region has 2^max bytes. */
    const max: nat
    const slots: array<Slot>
    /** The tree that the slots stand for. */
    ghost var tree: Tree

    /** The slots stand for the tree. */
    ghost predicate Formed()
      reads this, slots
    {
      && MIN_ORDER <= max < 64 && base + Pow2(max) < WORD
      && Sized(slots[..], max) && slots[slots.Length - 1] == ZERO_SLOT
      && Fits(tree, max) && Encodes(slots[..], max, base, Root(max), tree)
    }

    /** The slots stand for a maximally coalesced tree: the invariant between operations. */
    ghost predicate Valid()
      reads this, slots
    {
      Formed() && Canonical(tree, Root(max))
    }

    /** The blocks in use. */
    ghost function Blocks(): set<Block>
      requires Formed()
      reads this, slots
    {
      Live(tree, Root(max))
    }

    ghost function FreeLeaves(): set<Block>
      requires Formed()
      reads this, slots
    {
      Leaves(tree, Root(max), false)
    }

    /** `c` is a node of the tree and `i` is its slot number. */
    ghost predicate Holds(i: int, c: Block)
      requires Formed()
      reads this, slots
    {
      && Inside(c, Root(max)) && HasNode(tree, Root(max), c)
      && MIN_ORDER <= c.order <= max && i == Index(max, c) && 0 <= i < slots.Length - 1
      && slots[i] == Slot(base + Lo(c), c.order, KindOf(NodeAt(tree, Root(max), c)))
    }

    lemma NodeSlot(c: Block)
      requires Formed() && Inside(c, Root(max)) && HasNode(tree, Root(max), c)
      ensures Holds(Index(max, c), c) && InTree(max, c)
    {
      SlotOfNode(slots[..], max, base, Root(max), tree, c);
      IndexRange(max, c);
    }

    lemma RootSlot()
      requires Formed()
      ensures Holds(FirstOf(max, max), Root(max)) && NodeAt(tree, Root(max), Root(max)) == tree
      ensures Lo(Root(max)) == 0 && Hi(Root(max)) == Pow2(max)
    {
      hide Encodes, Leaves, Fits;
      NodeSlot(Root(max));
      ScaleAdd(0, 0, max);
    }

    /** buddy_init, on a region whose length is a power of two. */
    constructor (base: nat, length: nat)
      requires length == Pow2(FloorLog(if length == 0 then 1 else length)) && length >= Pow2(MIN_ORDER)
      requires base + length < WORD
      ensures Valid() && fresh(slots)
      ensures this.base == base && Pow2(max) == length
      ensures Blocks() == {} && FreeLeaves() == {Root(max)}
    {
      hide Encodes, Leaves, Pending, Fits, Scale, FloorLog;
      var m := Ilog2(length);
      OrderRange(length);
      FreshTree(m);
      var s := new Slot[SlotCount(m)](_ => ZERO_SLOT);
      InitialSlots(s[..], m, base);
      ghost var zero := s[..];
      s[FirstOf(m, m)] := Slot(base, m, UNUSED);
      assert s[..] == zero[FirstOf(m, m) := Slot(base, m, UNUSED)];
      this.base := base;
      this.max := m;
      this.slots := s;
      this.tree := Free;
    }

    /** find_free_slot: the lowest free slot of an order. */
    method FindFreeSlot(order: nat) returns (found: bool, i: nat)
      requires Formed() && MIN_ORDER <= order <= max
      ensures !found ==> forall g :: g in FreeLeaves() ==> g.order != order
      ensures found ==> i >= FirstOf(max, order)
      ensures found ==> var c := Block(order, i - FirstOf(max, order));
                c in FreeLeaves() && Holds(i, c) && NodeAt(tree, Root(max), c).Free?
                && forall g :: g in FreeLeaves() && g.order == order ==> c.pos <= g.pos
    {
      hide Encodes, Pow2, Fits, HasNode, NodeAt, Inside, Leaves;
      var first, n := FirstOf(max, order), EntriesOf(max, order);
      EntriesCount(max, order);
      var k := 0;
      while k < n
        invariant 0 <= k <= n
        invariant forall g :: g in FreeLeaves() && g.order == order ==> k <= g.pos
      {
        TestedSlot(order, k);
        var slot := slots[first + k];
        if !(slot.base == 0 && slot.order == 0) && slot.kind == UNUSED {
          return true, first + k;
        }
        k := k + 1;
      }
      NoneLeft(order, n);
      return false, 0;
    }

    /** What the test of find_free_slot says about the k-th slot of an order. */
    lemma TestedSlot(order: nat, k: nat)
      requires Formed() && MIN_ORDER <= order <= max && k < EntriesOf(max, order)
      ensures 0 <= FirstOf(max, order) + k < slots.Length - 1
      ensures var slot, c := slots[FirstOf(max, order) + k], Block(order, k);
              && (c in FreeLeaves() <==> !(slot.base == 0 && slot.order == 0) && slot.kind == UNUSED)
              && (c in FreeLeaves() ==> Holds(FirstOf(max, order) + k, c) && NodeAt(tree, Root(max), c).Free?)
    {
      var c := Block(order, k);
      EntriesCount(max, order);
      IndexRange(max, c);
      FreeSlotIsFreeLeaf(slots[..], max, base, Root(max), tree, c);
      if c in FreeLeaves() {
        NodeSlot(c);
      }
    }

    lemma NoneLeft(order: nat, n: nat)
      requires Formed() && MIN_ORDER <= order <= max && n == EntriesOf(max, order)
      requires forall g :: g in FreeLeaves() && g.order == order ==> n <= g.pos
      ensures forall g :: g in FreeLeaves() ==> g.order != order
    {
      EntriesCount(max, order);
      LeavesInside(tree, Root(max), false);
      forall g | g in FreeLeaves() && g.order == order ensures InTree(max, Block(order, g.pos)) {
      }
    }

    /** insert_child_slot */
    method InsertChildSlot(parent: nat, child: Slot)
      requires Sized(slots[..], max) && parent < slots.Length && MIN_ORDER < slots[parent].order <= max
      requires var o := slots[parent].order;
               0 <= LeftSlot(max, parent, o) < slots.Length && 0 <= RightSlot(max, parent, o) < slots.Length
      modifies slots
      ensures var o := old(slots[parent].order);
              slots[..] == if old(slots[parent].base) == child.base
                           then old(slots[..])[LeftSlot(max, parent, o) := child]
                           else old(slots[..])[RightSlot(max, parent, o) := child]
    {
      var o := slots[parent].order;
      if slots[parent].base == child.base {
        slots[LeftSlot(max, parent, o)] := child;
      } else {
        slots[RightSlot(max, parent, o)] := child;
      }
    }

    /** Split a free block: insert both halves and mark the old slot. */
    method SplitSlot(i: nat, ghost c: Block)
      requires Formed() && Holds(i, c) && NodeAt(tree, Root(max), c).Free? && c.order > MIN_ORDER
      modifies this`tree, slots
      ensures Formed() && tree == ReplaceAt(old(tree), Root(max), c, Split(Free, Free)) && Holds(i, c)
    {
      hide Encodes, Pow2, Fits, HasNode, NodeAt, ReplaceAt, Inside;
      ghost var s, t := slots[..], tree;
      SplitLeaf(s, max, base, tree, c);
      var order, addr := slots[i].order, slots[i].base;
      var left := Slot(addr, order - 1, UNUSED);
      var right := Slot(addr + Pow2(order - 1), order - 1, UNUSED);
      InsertChildSlot(i, left);
      assert slots[..] == s[Index(max, Left(c)) := left];
      InsertChildSlot(i, right);
      assert slots[..] == s[Index(max, Left(c)) := left][Index(max, Right(c)) := right];
      slots[i] := slots[i].(kind := SPLIT);
      assert slots[..] == s[Index(max, Left(c)) := left][Index(max, Right(c)) := right][i := s[i].(kind := SPLIT)];
      tree := ReplaceAt(t, Root(max), c, Split(Free, Free));
    }

    /**
     * buddy_alloc. It halts (not `ok`) exactly when the request is empty or larger than the
     * region, or when no block of the right order is clear of the live blocks. Otherwise it
     * takes the start of the best fit, and the live set gains exactly that block.
     */
    method Alloc(bytes: nat) returns (ok: bool, ptr: nat)
      requires Valid()
      modifies this`tree, slots
      ensures Valid()
      ensures ok <==> 1 <= bytes <= Pow2(max) && Room(old(Blocks()), Root(max), OrderFor(bytes))
      ensures !ok ==> slots[..] == old(slots[..]) && tree == old(tree)
      ensures ok ==> exists f :: BestFit(old(tree), Root(max), OrderFor(bytes), f) && f.order >= OrderFor(bytes)
                       && var c := FirstIn(f, OrderFor(bytes));
                          ptr == base + Lo(c) && c !in old(Blocks()) && Blocks() == old(Blocks()) + {c}
    {
      hide Encodes, Leaves, Fits, HasNode, NodeAt, ReplaceAt, Pending, Scale, Inside, Room, Pow2, FirstIn;
      if bytes == 0 || bytes > Pow2(max) {
        return false, 0;
      }
      var k := RequestOrder(bytes);
      var tmp := k;
      ghost var down, f := false, Root(max);
      while true
        invariant Formed() && k <= tmp <= max && Blocks() == old(Blocks())
        invariant !down ==> tree == old(tree) && slots[..] == old(slots[..])
        invariant !down ==> forall g :: g in FreeLeaves() && k <= g.order ==> tmp <= g.order
        invariant down ==> BestFit(old(tree), Root(max), k, f) && tmp <= f.order
        invariant down ==> BestFit(tree, Root(max), k, FirstIn(f, tmp))
        invariant down ==> Pending(tree, Root(max), Lo(f), Lo(f) + Pow2(k))
        decreases if down then 0 else 1, if down then tmp else max - tmp
      {
        var found, i := FindFreeSlot(tmp);
        if !found {
          if tmp == max {
            NoFit(tree, Root(max), k);
            return false, 0;
          }
          tmp := tmp + 1;
        } else {
          ghost var c := Block(tmp, i - FirstOf(max, tmp));
          if !down {
            f := c;
            FoundBest(tree, Root(max), k, c);
            FirstInSelf(c);
            PendingNarrows(tree, Root(max), 0, 0, Lo(c), Lo(c) + Pow2(k));
          } else {
            assert c == FirstIn(f, tmp);
          }
          if slots[i].order > k {
            AimLeft(tree, Root(max), c, k);
            SplitSlot(i, c);
            tmp := tmp - 1;
            FirstInHalf(f, tmp);
            down := true;
          } else {
            Served(old(tree), Root(max), k, f);
            RetypeLeaf(slots[..], max, base, tree, c, Used);
            UseFree(tree, Root(max), c);
            slots[i] := slots[i].(kind := USED);
            tree := ReplaceAt(tree, Root(max), c, Used);
            return true, slots[i].base;
          }
        }
      }
    }

    /** The children of a split node. */
    lemma Children(i: nat, c: Block)
      requires Formed() && Holds(i, c) && NodeAt(tree, Root(max), c).Split?
      ensures c.order > MIN_ORDER
      ensures Holds(LeftSlot(max, i, c.order), Left(c)) && Holds(RightSlot(max, i, c.order), Right(c))
      ensures NodeAt(tree, Root(max), c) == Split(NodeAt(tree, Root(max), Left(c)), NodeAt(tree, Root(max), Right(c)))
    {
      hide Encodes, Leaves, Fits, Pow2, HasNode, NodeAt;
      NodeChildren(tree, Root(max), c);
      NodeSlot(Left(c));
      NodeSlot(Right(c));
    }

    /** The half of a split block that an address is searched in. */
    lemma SearchedHalf(i: nat, c: Block, x: int)
      requires Formed() && Holds(i, c) && NodeAt(tree, Root(max), c).Split?
      ensures Holds(LeftSlot(max, i, c.order), Left(c)) && Holds(RightSlot(max, i, c.order), Right(c))
      ensures var l, r := NodeAt(tree, Root(max), Left(c)), NodeAt(tree, Root(max), Right(c));
              LeafAt(NodeAt(tree, Root(max), c), c, x)
                == if Lo(c) <= x < Lo(c) + Pow2(c.order) / 2 then LeafAt(l, Left(c), x) else LeafAt(r, Right(c), x)
    {
      hide Encodes, Leaves, Fits, HasNode, NodeAt, Scale, Inside;
      Children(i, c);
    }

    /** find_slot_by_addr: the leaf that the address leads to, when it is used. */
    method FindSlotByAddr(ptr: nat) returns (found: bool, i: nat)
      requires Formed()
      ensures found <==> LeafAt(tree, Root(max), ptr - base).1
      ensures found ==> var c := LeafAt(tree, Root(max), ptr - base).0;
                Holds(i, c) && NodeAt(tree, Root(max), c).Used?
    {
      hide Encodes, Leaves, Fits, Pow2, Scale, Inside;
      RootSlot();
      found, i := false, FirstOf(max, max);
      ghost var c, x := Root(max), ptr - base;
      while slots[i].order >= MIN_ORDER
        invariant 0 <= i < slots.Length && Holds(i, c) && !found
        invariant LeafAt(tree, Root(max), x) == LeafAt(NodeAt(tree, Root(max), c), c, x)
        decreases c.order
      {
        var slot := slots[i];
        if slot.kind == SPLIT {
          SearchedHalf(i, c, x);
        }
        if slot.kind == UNUSED {
          break;
        } else if slot.base <= ptr && ptr <= slot.base + Pow2(slot.order) / 2 - 1 {
          if slot.kind == SPLIT {
            i, c := LeftSlot(max, i, slot.order), Left(c);
          } else if slot.kind == USED {
            found := true;
            break;
          }
        } else {
          if slot.kind == SPLIT {
            i, c := RightSlot(max, i, slot.order), Right(c);
          } else if slot.kind == USED {
            found := true;
            break;
          }
        }
      }
    }

    /**
     * buddy_free. It halts (not `ok`) for the null pointer and for an address whose leaf is not
     * used; otherwise the live set loses exactly that leaf and all coalescing is done.
     */
    method Release(ptr: nat) returns (ok: bool)
      requires Valid()
      modifies this`tree, slots
      ensures Valid()
      ensures ok <==> ptr != 0 && LeafAt(old(tree), Root(max), ptr - base).1
      ensures !ok ==> slots[..] == old(slots[..]) && tree == old(tree)
      ensures ok ==> LeafAt(old(tree), Root(max), ptr - base).0 in old(Blocks())
      ensures ok ==> Blocks() == old(Blocks()) - {LeafAt(old(tree), Root(max), ptr - base).0}
    {
      hide Encodes, Leaves, Fits, HasNode, NodeAt, ReplaceAt, Pending, Scale, Inside, Pow2, LeafAt;
      if ptr == 0 {
        return false;
      }
      var found, i := FindSlotByAddr(ptr);
      if !found {
        return false;
      }
      ghost var c := LeafAt(tree, Root(max), ptr - base).0;
      Retype(i, UNUSED, c, Free);
      FreeUsed(old(tree), Root(max), c);
      while slots[i].order < max
        invariant Formed() && 0 <= i < slots.Length && Holds(i, c) && NodeAt(tree, Root(max), c).Free?
        invariant Pending(tree, Root(max), Lo(c), Hi(c))
        invariant Blocks() == old(Blocks()) - {LeafAt(old(tree), Root(max), ptr - base).0}
        decreases max - c.order
      {
        Family(i, c);
        var sibling := SiblingSlot(max, i, slots[i].order);
        if slots[sibling].kind != UNUSED {
          FreeStops(tree, Root(max), c);
          return true;
        }
        MergeFree(tree, Root(max), c);
        var large := MergeSlots(i, sibling, c);
        i, c := large, Parent(c);
      }
      RootOnly(c);
      FreeStops(tree, Root(max), c);
      return true;
    }

    lemma RootOnly(c: Block)
      requires Inside(c, Root(max)) && c.order >= max
      ensures c == Root(max)
    {
    }

    /** Write the kind of a leaf. */
    method Retype(i: nat, kind: Kind, ghost c: Block, ghost n: Tree)
      requires Formed() && Holds(i, c) && Leaf(NodeAt(tree, Root(max), c)) && Leaf(n) && kind == KindOf(n)
      modifies this`tree, slots
      ensures Formed() && Fits(n, c.order) && tree == ReplaceAt(old(tree), Root(max), c, n)
      ensures Holds(i, c)
    {
      hide Encodes, Leaves, HasNode, NodeAt, ReplaceAt, Pending, Scale, Inside, Pow2;
      RetypeLeaf(slots[..], max, base, tree, c, n);
      slots[i] := slots[i].(kind := kind);
      tree := ReplaceAt(tree, Root(max), c, n);
    }

    /** The buddy and the parent of a node that is not the root. */
    lemma Family(i: nat, c: Block)
      requires Formed() && Holds(i, c) && c.order < max
      ensures Holds(SiblingSlot(max, i, c.order), Sibling(c)) && Holds(ParentSlot(max, i, c.order), Parent(c))
      ensures NodeAt(tree, Root(max), Parent(c)).Split?
    {
      hide Encodes, Leaves, Fits, Pow2, Scale, HasNode, NodeAt, Sized;
      ParentNode(tree, Root(max), c);
      NodeSlot(Sibling(c));
      NodeSlot(Parent(c));
    }

    /** Merge two free buddies: free the parent and zero both slots. */
    method MergeSlots(i: nat, sibling: nat, ghost c: Block) returns (large: nat)
      requires Formed() && Holds(i, c) && c.order < max && sibling == SiblingSlot(max, i, c.order)
      requires Holds(sibling, Sibling(c)) && Holds(ParentSlot(max, i, c.order), Parent(c))
      requires NodeAt(tree, Root(max), Parent(c)) == Split(Free, Free)
      modifies this`tree, slots
      ensures Formed() && tree == ReplaceAt(old(tree), Root(max), Parent(c), Free)
      ensures Holds(large, Parent(c))
    {
      hide Encodes, Leaves, Fits, HasNode, NodeAt, ReplaceAt, Pending, Scale, Inside, Pow2;
      ghost var s, t, p := slots[..], tree, Parent(c);
      MergeLeaves(s, max, base, tree, p);
      ParentHalves(c);
      large := ParentSlot(max, i, slots[i].order);
      slots[large] := slots[large].(kind := UNUSED);
      slots[i] := ZERO_SLOT;
      slots[sibling] := ZERO_SLOT;
      assert slots[..] == s[large := s[large].(kind := UNUSED)]
                           [Index(max, Left(p)) := ZERO_SLOT][Index(max, Right(p)) := ZERO_SLOT];
      tree := ReplaceAt(t, Root(max), p, Free);
    }

    /**
     * buddy_pre_alloc, on a range of whole pages inside the region. It halts (not `ok`) exactly
     * when one of the blocks the range is cut into is neither free nor part of a larger used
     * block; otherwise exactly the free ones among them become live. The recursive calls run
     * while blocks around the range are split but still empty.
     */
    method PreAlloc(addr: nat, length: nat) returns (ok: bool)
      requires Formed() && RangeIn(Root(max), addr - base, length)
      requires Pending(tree, Root(max), addr - base, addr - base + length)
      modifies this`tree, slots
      ensures ok <==> Reservable(old(Blocks()), Pieces(Root(max), addr - base, length))
      ensures ok ==> Valid() && Blocks() == Reserved(old(Blocks()), Pieces(Root(max), addr - base, length))
      decreases length
    {
      hide Encodes, Leaves, Fits, HasNode, NodeAt, ReplaceAt, Pending, Scale, Inside, Pow2;
      hide Pieces, CutOf, Reservable, Reserved, Reaches;
      ghost var lo, hi, live := addr - base, addr - base + length, Blocks();
      RangeBound(addr, length);
      var power, first := PowerParts(length);
      if !power {
        /* the largest power of two first, then the rest */
        CutAtPower(Root(max), lo, length);
        ReserveCut(live, Root(max), lo, length, lo + first);
        PendingNarrows(tree, Root(max), lo, hi, lo, lo + first);
        ok := PreAlloc(addr, first);
        if ok {
          PendingNarrows(tree, Root(max), 0, 0, lo + first, hi);
          ok := PreAlloc(addr + first, length - first);
        }
        return;
      }

      var straddles, mid;
      straddles, ok, mid := Descend(addr, length);
      if straddles {
        ReserveCut(live, Root(max), lo, length, mid - base);
        PendingNarrows(tree, Root(max), lo, hi, lo, mid - base);
        ok := PreAlloc(addr, mid - addr);
        if ok {
          PendingNarrows(tree, Root(max), 0, 0, mid - base, hi);
          ok := PreAlloc(mid, addr + length - mid);
        }
      }
    }

    /**
     * The loop of buddy_pre_alloc, for a power of two: down from the root to the block that the range fills
     * or that is used already, or to the middle of a block that the range straddles.
     */
    method Descend(addr: nat, length: nat) returns (straddles: bool, ok: bool, mid: nat)
      requires Formed() && RangeIn(Root(max), addr - base, length) && Pow2(FloorLog(length)) == length
      requires Pending(tree, Root(max), addr - base, addr - base + length)
      modifies this`tree, slots
      ensures straddles ==> Formed() && Pending(tree, Root(max), addr - base, addr - base + length)
      ensures straddles ==> Blocks() == old(Blocks()) && addr < mid < addr + length
      ensures straddles ==> CutOf(Root(max), addr - base, length) == At(mid - base)
      ensures !straddles ==> (ok <==> Reservable(old(Blocks()), Pieces(Root(max), addr - base, length)))
      ensures !straddles && ok ==>
                Valid() && Blocks() == Reserved(old(Blocks()), Pieces(Root(max), addr - base, length))
    {
      hide Encodes, Leaves, Fits, HasNode, NodeAt, ReplaceAt, Pending, Scale, Inside, Pow2;
      hide Pieces, CutOf, Reservable, Reserved, Reaches;
      ghost var lo, hi, live := addr - base, addr - base + length, Blocks();
      RangeBound(addr, length);
      WordIsPow2();
      straddles, ok, mid := false, false, 0;
      var k := Ilog2(length);
      var i, next := FirstOf(max, max), 0;
      RootSlot();
      ReachesRoot(Root(max), lo, length);
      ghost var c := Root(max);
      while true
        invariant Formed() && 0 <= i < slots.Length && Holds(i, c) && Blocks() == live && !straddles
        invariant Pending(tree, Root(max), lo, hi) && Reaches(Root(max), lo, length, c)
        decreases c.order
      {
        var order, cur := slots[i].order, Pow2(slots[i].order);
        next := Pow2(order - 1);
        ReachedSize(Root(max), lo, length, c);
        ReachedContains(c, lo, length);
        if addr >= slots[i].base && addr + length <= slots[i].base + cur {
          if order > k {
            if slots[i].kind == UNUSED {
              SplitFree(tree, Root(max), c, lo, hi);
              SplitSlot(i, c);
              straddles, i, c := GoDown(i, c, addr, length);
              if straddles {
                break;
              }
            } else if slots[i].kind == SPLIT {
              straddles, i, c := GoDown(i, c, addr, length);
              if straddles {
                break;
              }
            } else if slots[i].kind == USED {
              ReserveInUsed(tree, Root(max), lo, length, c);
              ok := true;
              return;
            }
          } else if order == k {
            ReserveAt(tree, Root(max), lo, length, c);
            if slots[i].kind != UNUSED {
              return;
            }
            UseFree(tree, Root(max), c);
            Retype(i, USED, c, Used);
            ok := true;
            return;
          }
        }
      }
      mid := slots[i].base + next;
      CutInMiddle(Root(max), lo, length, c);
    }

    lemma RangeBound(addr: nat, length: nat)
      requires Formed() && RangeIn(Root(max), addr - base, length)
      ensures PAGE <= length <= Pow2(63) && addr >= base && addr + length <= base + Pow2(max)
    {
      hide Encodes, Leaves, Fits, HasNode, NodeAt, Scale, Inside;
      RootSlot();
      Pow2Monotone(max, 63);
    }

    /** From a split node, go to the half that holds the range, unless it straddles the middle. */
    method GoDown(i: nat, ghost c: Block, addr: nat, length: nat) returns (straddles: bool, j: nat, ghost d: Block)
      requires Formed() && Holds(i, c) && NodeAt(tree, Root(max), c).Split?
      requires RangeIn(Root(max), addr - base, length) && Reaches(Root(max), addr - base, length, c)
      ensures straddles ==> j == i && d == c && c.order > MIN_ORDER && Lo(Right(c)) == Lo(c) + Pow2(c.order - 1)
      ensures straddles ==> addr - base < Lo(Right(c)) < addr - base + length
      ensures !straddles ==> Holds(j, d) && Reaches(Root(max), addr - base, length, d) && d.order < c.order
    {
      hide Encodes, Leaves, Fits, HasNode, NodeAt, Pending, Scale, Inside, Pow2, Reaches;
      Step(i, c, addr - base, length);
      var next := Pow2(slots[i].order - 1);
      if addr + length <= slots[i].base + next {
        return false, LeftSlot(max, i, slots[i].order), Left(c);
      } else if addr >= slots[i].base + next {
        return false, RightSlot(max, i, slots[i].order), Right(c);
      } else {
        return true, i, c;
      }
    }

    lemma Step(i: nat, c: Block, lo: int, length: int)
      requires Formed() && Holds(i, c) && NodeAt(tree, Root(max), c).Split?
      requires RangeIn(Root(max), lo, length) && Reaches(Root(max), lo, length, c)
      ensures c.order > MIN_ORDER && Lo(Right(c)) == Lo(c) + Pow2(c.order - 1)
      ensures Holds(LeftSlot(max, i, c.order), Left(c)) && Holds(RightSlot(max, i, c.order), Right(c))
      ensures lo + length <= Lo(Right(c)) ==> Reaches(Root(max), lo, length, Left(c))
      ensures Lo(Right(c)) <= lo ==> Reaches(Root(max), lo, length, Right(c))
    {
      Children(i, c);
      Halves(c);
      ReachesHalves(Root(max), lo, length, c);
    }

    /** The length checks of buddy_pre_alloc: is it a power of two, and if not which one comes first? */
    method PowerParts(length: nat) returns (power: bool, first: nat)
      requires PAGE <= length <= Pow2(63) && Paged(length)
      ensures power <==> Pow2(FloorLog(length)) == length
      ensures first == Pow2(FloorLog(length)) <= length
    {
      WordIsPow2();
      RoundUpPaged(length);
      var len := RoundUpPo2(length, MIN_ORDER);
      var up := Clp2(len);
      first := Flp2(len);
      power := len == up;
      PowerTest(length);
    }

    /** The order that buddy_alloc asks for. */
    method RequestOrder(bytes: nat) returns (k: nat)
      requires MIN_ORDER <= max < 64 && 1 <= bytes <= Pow2(max)
      ensures k == OrderFor(bytes) && MIN_ORDER <= k <= max
    {
      WordIsPow2();
      Pow2Monotone(max, 63);
      var p := Clp2(bytes);
      CeilBelow(bytes, max);
      k := Ilog2(p);
      FloorLogUnique(p, CeilLog(bytes));
      if k < MIN_ORDER {
        k := MIN_ORDER;
      }
    }
  }

  lemma FreshTree(max: nat)
    requires max >= MIN_ORDER
    ensures Fits(Free, max) && Canonical(Free, Root(max))
    ensures Live(Free, Root(max)) == {} && Leaves(Free, Root(max), false) == {Root(max)}
  {
  }

  // ---- what the operations promise together ----

  /**
   * The slots are a function of the live blocks: two allocators over the same region with the
   * same live blocks hold the same slots, whatever was allocated, reserved and freed before.
   */
  lemma SameLiveSameSlots(a: Allocator, b: Allocator)
    requires a.Valid() && b.Valid() && a.base == b.base && a.max == b.max && a.Blocks() == b.Blocks()
    ensures a.slots[..] == b.slots[..]
  {
    hide Encodes, Leaves, Fits, Pow2, Pending;
    SlotsDetermined(a.slots[..], b.slots[..], a.max, a.base, a.tree, b.tree);
  }

  /** Inside the region, buddy_free finds the live block that holds the address, if there is one. */
  lemma LeafInRegion(t: Tree, b: Block, x: int)
    requires Fits(t, b.order) && Contains(b, x)
    ensures LeafAt(t, b, x).1 <==> InSome(Live(t, b), x)
    ensures Contains(LeafAt(t, b, x).0, x)
    ensures forall c :: c in Live(t, b) && Contains(c, x) ==> LeafAt(t, b, x) == (c, true)
  {
    LeavesTile(t, b, x);
  }

  /**
   * Outside the region it does not refuse: any foreign address leads to the last leaf, so that
   * freeing it succeeds exactly when the last block of the region is in use.
   */
  lemma {:induction false} LeafOutsideRegion(t: Tree, b: Block, x: int)
    requires Fits(t, b.order) && !Contains(b, x)
    ensures LeafAt(t, b, x) == LeafAt(t, b, Hi(b) - 1)
  {
    if t.Split? {
      Halves(b);
      LeafOutsideRegion(t.right, Right(b), x);
    }
  }

  /** Freeing a foreign address succeeds if and only if the last byte of the region is in use. */
  method ReleaseForeign(a: Allocator, ptr: nat) returns (ok: bool)
    requires a.Valid() && ptr != 0 && !Contains(Root(a.max), ptr - a.base)
    modifies a`tree, a.slots
    ensures a.Valid() && (ok <==> InSome(old(a.Blocks()), Pow2(a.max) - 1))
    ensures ok ==> forall c :: c in old(a.Blocks()) && Contains(c, Pow2(a.max) - 1) ==>
                     a.Blocks() == old(a.Blocks()) - {c}
  {
    hide Encodes, Leaves, Fits, Pending, Scale, Pow2, LeafAt;
    a.RootSlot();
    LeafOutsideRegion(a.tree, Root(a.max), ptr - a.base);
    LeafInRegion(a.tree, Root(a.max), Pow2(a.max) - 1);
    ok := a.Release(ptr);
  }

  lemma WholeOrder(max: nat)
    requires max >= MIN_ORDER
    ensures OrderFor(Pow2(max)) == max && Room({}, Root(max), max)
  {
    CeilBelow(Pow2(max), max);
    if CeilLog(Pow2(max)) < max {
      Pow2Monotone(CeilLog(Pow2(max)), max);
    }
    assert Inside(Root(max), Root(max)) && Clear({}, Root(max));
  }

  /** It does happen: allocate a whole region, then free the first address behind it. */
  method ForeignReleaseHappens(base: nat, length: nat) returns (a: Allocator, ok: bool)
    requires length == Pow2(FloorLog(if length == 0 then 1 else length)) && length >= Pow2(MIN_ORDER)
    requires base + length < WORD
    ensures fresh(a) && a.Valid() && a.base == base && Pow2(a.max) == length && ok && a.Blocks() == {}
  {
    hide Encodes, Leaves, Fits, Pending, Scale, Pow2, Room, BestFit, FirstIn, OrderFor;
    a := new Allocator(base, length);
    WholeOrder(a.max);
    ghost var t := a.tree;
    var done, ptr := a.Alloc(length);
    ghost var f :| BestFit(t, Root(a.max), a.max, f) && f.order >= a.max
      && var c := FirstIn(f, a.max); ptr == a.base + Lo(c) && c !in Live(t, Root(a.max)) && a.Blocks() == {} + {c};
    OnlyBlock(a, FirstIn(f, a.max));
    a.RootSlot();
    ok := ReleaseForeign(a, base + length);
  }

  lemma OnlyBlock(a: Allocator, c: Block)
    requires a.Formed() && c in a.Blocks() && c.order == a.max
    ensures c == Root(a.max)
  {
    LeavesInside(a.tree, Root(a.max), true);
  }

  /** Allocating and freeing the returned non-zero address restores every slot. */
  method AllocThenRelease(a: Allocator, bytes: nat) returns (done: bool, ptr: nat)
    requires a.Valid()
    modifies a`tree, a.slots
    ensures done <==> 1 <= bytes <= Pow2(a.max) && Room(old(a.Blocks()), Root(a.max), OrderFor(bytes))
    ensures a.Valid()
    ensures done && ptr != 0 ==> a.slots[..] == old(a.slots[..])
  {
    hide Encodes, Leaves, Fits, Pow2, Pending, Room, BestFit, FirstIn, Scale, LeafAt;
    ghost var s, t, k := a.slots[..], a.tree, if bytes == 0 then 0 else OrderFor(bytes);
    done, ptr := a.Alloc(bytes);
    if done && ptr != 0 {
      ghost var f :| BestFit(t, Root(a.max), k, f) && f.order >= k
        && var c := FirstIn(f, k);
           ptr == a.base + Lo(c) && c !in Live(t, Root(a.max)) && a.Blocks() == Live(t, Root(a.max)) + {c};
      LeafOfLive(a.tree, Root(a.max), FirstIn(f, k));
      var freed := a.Release(ptr);
      SlotsDetermined(s, a.slots[..], a.max, a.base, t, a.tree);
    }
  }

  lemma LeafOfLive(t: Tree, b: Block, c: Block)
    requires Fits(t, b.order) && c in Live(t, b)
    ensures LeafAt(t, b, Lo(c)) == (c, true)
  {
    LeavesInside(t, b, true);
    InsideInterval(c, b);
    LeavesTile(t, b, Lo(c));
  }

  // ---- conservation ----

  /** Total size of a set of blocks. */
  ghost function Bytes(s: set<Block>): nat
  {
    if s == {} then 0
    else
      var c :| c in s;
      Pow2(c.order) + Bytes(s - {c})
  }

  lemma {:induction false} BytesRemove(s: set<Block>, c: Block)
    requires c in s
    ensures Bytes(s) == Pow2(c.order) + Bytes(s - {c})
    decreases s
  {
    var d :| d in s && Bytes(s) == Pow2(d.order) + Bytes(s - {d});
    if d != c {
      BytesRemove(s - {d}, c);
      BytesRemove(s - {c}, d);
      assert s - {d} - {c} == s - {c} - {d};
    }
  }

  lemma {:induction false} BytesUnion(s: set<Block>, u: set<Block>)
    requires s !! u
    ensures Bytes(s + u) == Bytes(s) + Bytes(u)
    decreases s
  {
    if s == {} {
      assert s + u == u;
    } else {
      var c :| c in s;
      BytesUnion(s - {c}, u);
      BytesRemove(s, c);
      BytesRemove(s + u, c);
      assert s + u - {c} == (s - {c}) + u;
    }
  }

  /** Used and free bytes always add up to the region. */
  lemma {:induction false} BytesConserved(t: Tree, b: Block)
    requires Fits(t, b.order)
    ensures Bytes(Leaves(t, b, true)) + Bytes(Leaves(t, b, false)) == Pow2(b.order)
  {
    if t.Split? {
      BytesConserved(t.left, Left(b));
      BytesConserved(t.right, Right(b));
      LeavesApart(t.left, Left(b), Left(b), t.right, Right(b), true);
      LeavesApart(t.left, Left(b), Left(b), t.right, Right(b), false);
      BytesUnion(Leaves(t.left, Left(b), true), Leaves(t.right, Right(b), true));
      BytesUnion(Leaves(t.left, Left(b), false), Leaves(t.right, Right(b), false));
    } else {
      BytesRemove({b}, b);
    }
  }

  lemma CeilBelow(v: nat, n: nat)
    requires 1 <= v <= Pow2(n)
    ensures CeilLog(v) <= n && Pow2(CeilLog(v)) <= Pow2(n)
  {
    if CeilLog(v) > n {
      Pow2Monotone(n, CeilLog(v) - 1);
    }
    Pow2Monotone(CeilLog(v), n);
  }

  lemma OrderRange(length: nat)
    requires Pow2(MIN_ORDER) <= length < WORD && length == Pow2(FloorLog(length))
    ensures MIN_ORDER <= FloorLog(length) < 64
  {
    WordIsPow2();
    FloorLogBelow(length, 64);
    if FloorLog(length) < MIN_ORDER {
      Pow2Monotone(FloorLog(length) + 1, MIN_ORDER);
    }
  }

  lemma ReachedContains(c: Block, lo: int, length: int)
    requires length > 0 && exists b :: Reaches(b, lo, length, c)
    ensures Lo(c) <= lo && lo + length <= Lo(c) + Pow2(c.order)
  {
  }
}
