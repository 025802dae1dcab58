/** The page-frame database: two linked lists, relinked in place. */
module PageFrames {
  import opened Options

  class PageFrame {
    const phyAddr: nat
    var next: PageFrame?

    constructor (phyAddr: nat, next: PageFrame?)
      ensures this.phyAddr == phyAddr && this.next == next
    {
      this.phyAddr, this.next := phyAddr, next;
    }
  }

  ghost function After(nodes: seq<PageFrame>, i: int): PageFrame?
    requires 0 <= i < |nodes|
  {
    if i + 1 < |nodes| then nodes[i + 1] else null
  }

  /** `nodes` is the list that starts at `head`. */
  ghost predicate Chain(head: PageFrame?, nodes: seq<PageFrame>)
    reads nodes
  {
    && (if nodes == [] then head == null else head == nodes[0])
    && forall i :: 0 <= i < |nodes| ==> nodes[i].next == After(nodes, i)
  }

  lemma ChainHead(head: PageFrame?, nodes: seq<PageFrame>)
    requires Chain(head, nodes)
    ensures head == null <==> nodes == []
    ensures head != null ==> head == nodes[0]
  {
  }

  lemma ChainNext(head: PageFrame?, nodes: seq<PageFrame>, k: nat)
    requires Chain(head, nodes) && k < |nodes|
    ensures k + 1 < |nodes| ==> nodes[k].next == nodes[k + 1]
    ensures k + 1 == |nodes| ==> nodes[k].next == null
  {
  }

  lemma ChainCons(n: PageFrame, nodes: seq<PageFrame>)
    requires Chain(n.next, nodes)
    ensures Chain(n, [n] + nodes)
  {
    var all := [n] + nodes;
    forall i | 0 <= i < |all| ensures all[i].next == After(all, i) {
      if i > 0 {
        assert all[i] == nodes[i - 1];
      }
    }
  }

  lemma ChainTail(nodes: seq<PageFrame>)
    requires nodes != [] && Chain(nodes[0], nodes)
    ensures Chain(nodes[0].next, nodes[1..])
  {
    var rest := nodes[1..];
    assert nodes[0].next == After(nodes, 0);
    forall i | 0 <= i < |rest| ensures rest[i].next == After(rest, i) {
      assert rest[i] == nodes[i + 1];
    }
  }

  ghost function Addrs(nodes: seq<PageFrame>): (a: seq<nat>)
    ensures |a| == |nodes| && forall i :: 0 <= i < |a| ==> a[i] == nodes[i].phyAddr
  {
    seq(|nodes|, i requires 0 <= i < |nodes| => nodes[i].phyAddr)
  }

  lemma ChainLinks(head: PageFrame?, nodes: seq<PageFrame>)
    requires Chain(head, nodes)
    ensures forall i :: 0 <= i < |nodes| ==> nodes[i].next == After(nodes, i)
  {
  }

  /** The list after its k-th node has been bypassed. */
  lemma ChainBypass(nodes: seq<PageFrame>, k: nat)
    requires 0 < k < |nodes| && nodes[k - 1].next == After(nodes, k)
    requires forall i :: 0 <= i < |nodes| && i != k - 1 ==> nodes[i].next == After(nodes, i)
    ensures Chain(nodes[0], nodes[..k] + nodes[k + 1..])
  {
    var rest := nodes[..k] + nodes[k + 1..];
    forall i | 0 <= i < |rest| ensures rest[i].next == After(rest, i) {
      assert rest[i] == if i < k then nodes[i] else nodes[i + 1];
    }
  }

  lemma AddrsCons(n: PageFrame, nodes: seq<PageFrame>)
    ensures Addrs([n] + nodes) == [n.phyAddr] + Addrs(nodes)
  {
  }

  lemma AddrsSlice(nodes: seq<PageFrame>, k: nat)
    requires k < |nodes|
    ensures Addrs(nodes[..k] + nodes[k + 1..]) == Addrs(nodes)[..k] + Addrs(nodes)[k + 1..]
    ensures Addrs(nodes[1..]) == Addrs(nodes)[1..]
  {
  }

  /** No address occurs twice. */
  ghost predicate Unique(s: seq<nat>) { forall x :: multiset(s)[x] <= 1 }

  lemma UniqueAt(s: seq<nat>, i: nat, j: nat)
    requires Unique(s) && i < j < |s|
    ensures s[i] != s[j]
  {
    assert s == s[..i] + [s[i]] + s[i + 1..j] + [s[j]] + s[j + 1..];
    assert multiset(s)[s[i]] <= 1;
  }

  /** `s` without its first `x`. */
  function Without(s: seq<nat>, x: nat): (r: seq<nat>)
    requires x in s
    ensures multiset(s) == multiset(r) + multiset{x}
  {
    assert s == [s[0]] + s[1..];
    if s[0] == x then s[1..] else [s[0]] + Without(s[1..], x)
  }

  lemma {:induction false} WithoutAt(s: seq<nat>, k: nat)
    requires k < |s| && s[k] !in s[..k]
    ensures Without(s, s[k]) == s[..k] + s[k + 1..]
  {
    if k > 0 {
      assert s[..k][0] == s[0];
      WithoutAt(s[1..], k - 1);
    }
  }

  // ---- the database as a value ----

  datatype Pool = Pool(free: seq<nat>, used: seq<nat>)

  /** The frames of a pool, free or used. */
  ghost function Frames(p: Pool): multiset<nat> { multiset(p.free) + multiset(p.used) }

  ghost predicate Sound(p: Pool) { forall x :: Frames(p)[x] <= 1 }

  datatype Request = Take | Give(addr: nat)

  /** One call; None when the kernel halts. */
  function Serve(p: Pool, r: Request): (q: Option<Pool>)
  {
    match r
    case Take => if p.free == [] then None else Some(Pool(p.free[1..], [p.free[0]] + p.used))
    case Give(a) => if a !in p.used then None else Some(Pool([a] + p.free, Without(p.used, a)))
  }

  function ServeAll(p: Pool, rs: seq<Request>): (q: Option<Pool>)
    decreases |rs|
  {
    if rs == [] then Some(p)
    else
      match Serve(p, rs[0])
      case None => None
      case Some(q) => ServeAll(q, rs[1..])
  }

  lemma ServeConserves(p: Pool, r: Request)
    requires Serve(p, r).Some?
    ensures Frames(Serve(p, r).value) == Frames(p)
  {
    if r.Take? {
      assert p.free == [p.free[0]] + p.free[1..];
    }
  }

  lemma SoundAfter(p: Pool, r: Request)
    requires Sound(p) && Serve(p, r).Some?
    ensures Sound(Serve(p, r).value)
  {
    ServeConserves(p, r);
  }

  /** Any sequence of calls keeps the set of frames, and no frame is ever free and used or used twice. */
  lemma {:induction false} RunConserves(p: Pool, rs: seq<Request>)
    requires Sound(p) && ServeAll(p, rs).Some?
    ensures Frames(ServeAll(p, rs).value) == Frames(p) && Sound(ServeAll(p, rs).value)
    decreases rs
  {
    if rs != [] {
      ServeConserves(p, rs[0]);
      RunConserves(Serve(p, rs[0]).value, rs[1..]);
    }
  }

  /** A frame that is handed out was free, so it was not in use. */
  lemma TakeFresh(p: Pool)
    requires Sound(p) && p.free != []
    ensures p.free[0] !in p.used && p.free[0] !in p.free[1..]
  {
    assert p.free == [p.free[0]] + p.free[1..];
    assert Frames(p)[p.free[0]] <= 1;
  }

  lemma UsedApart(p: Pool, k: nat)
    requires Sound(p) && k < |p.used|
    ensures p.used[k] !in p.free
    ensures forall i :: 0 <= i < |p.used| && i != k ==> p.used[i] != p.used[k]
  {
    assert Frames(p)[p.used[k]] <= 1;
    assert Unique(p.used) by {
      forall x ensures multiset(p.used)[x] <= 1 {
        assert Frames(p)[x] <= 1;
      }
    }
    forall i | 0 <= i < |p.used| && i != k ensures p.used[i] != p.used[k] {
      if i < k {
        UniqueAt(p.used, i, k);
      } else {
        UniqueAt(p.used, k, i);
      }
    }
  }

  /** Taking a frame and giving it back restores both lists. */
  lemma TakeThenGive(p: Pool)
    requires p.free != []
    ensures ServeAll(p, [Take, Give(p.free[0])]) == Some(p)
  {
    var q := Serve(p, Take).value;
    assert [Take, Give(p.free[0])][1..] == [Give(p.free[0])];
    assert Serve(q, Give(p.free[0])) == Some(Pool([p.free[0]] + p.free[1..], p.used));
    assert [p.free[0]] + p.free[1..] == p.free;
    assert ServeAll(q, [Give(p.free[0])]) == ServeAll(p, []) by {
      assert [Give(p.free[0])][1..] == [];
    }
  }

  lemma NotUsed(p: Pool, addr: nat)
    ensures Serve(p, Give(addr)).Some? <==> addr in p.used
  {
  }

  /** Moving the k-th used node to the front of the free list gives the frame back, and moves no other. */
  lemma GivenBack(free: seq<PageFrame>, used: seq<PageFrame>, k: nat, addr: nat)
    requires k < |used| && used[k].phyAddr == addr && addr !in Addrs(used)[..k]
    ensures var free', used' := [used[k]] + free, used[..k] + used[k + 1..];
            && Serve(Pool(Addrs(free), Addrs(used)), Give(addr)) == Some(Pool(Addrs(free'), Addrs(used')))
            && (set n: object | n in free' + used') == (set n: object | n in free + used)
  {
    assert Addrs(used)[k] == addr;
    WithoutAt(Addrs(used), k);
    AddrsSlice(used, k);
    AddrsCons(used[k], free);
    assert used == used[..k] + [used[k]] + used[k + 1..];
  }

  // ---- the linked lists ----

  class Database {
    var free: PageFrame?
    var used: PageFrame?
    ghost var freeNodes: seq<PageFrame>
    ghost var usedNodes: seq<PageFrame>

    ghost function Repr(): set<PageFrame>
      reads this
    {
      set n | n in freeNodes + usedNodes
    }

    ghost function Value(): Pool
      reads this
    {
      Pool(Addrs(freeNodes), Addrs(usedNodes))
    }

    /** Both lists are acyclic and end in null, and no frame is in them twice. */
    ghost predicate Valid()
      reads this, Repr()
    {
      Chain(free, freeNodes) && Chain(used, usedNodes) && Sound(Value())
    }

    /** pageframe_init: one node per frame, each pushed to the front of the free list. */
    constructor (pages: nat, count: nat)
      ensures Valid() && fresh(Repr())
      ensures |Value().free| == count && Value().used == []
      ensures forall i :: 0 <= i < count ==> Value().free[i] == pages + (count - 1 - i) * 4096
    {
      free, used, freeNodes, usedNodes := null, null, [], [];
      new;
      var i, addr := 0, pages;
      while i < count
        invariant 0 <= i <= count && addr == pages + i * 4096
        invariant used == null && usedNodes == [] && |freeNodes| == i
        invariant Chain(free, freeNodes)
        invariant forall k :: 0 <= k < i ==> fresh(freeNodes[k])
        invariant forall k :: 0 <= k < i ==> Addrs(freeNodes)[k] == pages + (i - 1 - k) * 4096
      {
        var pf := new PageFrame(addr, free);
        ChainCons(pf, freeNodes);
        AddrsCons(pf, freeNodes);
        free, freeNodes := pf, [pf] + freeNodes;
        addr := addr + 4096;
        i := i + 1;
      }
      DescendingUnique(Addrs(freeNodes));
    }

    /** pageframe_alloc: move the first free node to the used list; halts when there is none. */
    method Alloc() returns (ok: bool, addr: nat)
      requires Valid()
      modifies this, Repr()
      ensures Valid() && Repr() == old(Repr())
      ensures ok <==> Serve(old(Value()), Take).Some?
      ensures ok ==> Some(Value()) == Serve(old(Value()), Take) && addr == old(Value().free[0])
      ensures !ok ==> Value() == old(Value())
    {
      hide Chain, Sound, Frames;
      ChainHead(free, freeNodes);
      if free == null {
        return false, 0;
      }
      var pf := free;
      ghost var rest := freeNodes[1..];
      NodeApart();
      SoundAfter(Value(), Take);
      AddrsSlice(freeNodes, 0);
      AddrsCons(pf, usedNodes);
      ChainTail(freeNodes);
      free := free.next;
      pf.next := used;
      ChainCons(pf, usedNodes);
      used := pf;
      freeNodes, usedNodes := rest, [pf] + usedNodes;
      return true, pf.phyAddr;
    }

    /** pageframe_free: unlink the node from the used list and push it on the free list; halts when it is not there. */
    method Release(addr: nat) returns (ok: bool)
      requires Valid()
      modifies this, Repr()
      ensures ok <==> Serve(old(Value()), Give(addr)).Some?
      ensures ok ==> Valid() && Repr() == old(Repr()) && Some(Value()) == Serve(old(Value()), Give(addr))
      ensures !ok ==> Value() == old(Value())
    {
      hide Chain, Sound, Frames, Addrs, After, Serve;
      ChainHead(used, usedNodes);
      NotUsed(Value(), addr);
      if used == null {
        return false;
      }
      var found, pf, k := DeleteNode(addr);
      if !found {
        return false;
      }
      SoundAfter(old(Value()), Give(addr));
      GivenBack(freeNodes, old(usedNodes), k, addr);
      pf.next := free;
      ChainCons(pf, freeNodes);
      free := pf;
      freeNodes := [pf] + freeNodes;
      return true;
    }

    /** delete_node: unlink the node with the address from the used list. */
    method DeleteNode(addr: nat) returns (found: bool, item: PageFrame?, ghost k: nat)
      requires Valid() && used != null
      modifies this`used, this`usedNodes, Repr()
      ensures found <==> addr in old(Addrs(usedNodes))
      ensures !found ==> usedNodes == old(usedNodes)
      ensures found ==> k < |old(usedNodes)| && item == old(usedNodes)[k] && item.phyAddr == addr
      ensures found ==> addr !in old(Addrs(usedNodes))[..k]
      ensures found ==> usedNodes == old(usedNodes[..k] + usedNodes[k + 1..])
      ensures found ==> item !in usedNodes && item !in freeNodes
      ensures found ==> Chain(free, freeNodes) && Chain(used, usedNodes)
    {
      hide Sound, Frames, Chain, After, Addrs;
      ChainHead(used, usedNodes);
      var pred;
      found, pred, k := FindPredecessor(addr);
      if !found {
        return false, null, k;
      }
      NodesApart(k);
      if pred == null {
        ChainTail(usedNodes);
        item := used;
        used := used.next;
        assert usedNodes[..0] + usedNodes[1..] == usedNodes[1..];
      } else {
        NodesApart(k - 1);
        ChainNext(used, usedNodes, k - 1);
        ChainLinks(used, usedNodes);
        item := pred.next;
        pred.next := item.next;
        ChainBypass(usedNodes, k);
      }
      usedNodes := usedNodes[..k] + usedNodes[k + 1..];
    }

    /** A used node is in the lists once. */
    lemma NodesApart(k: nat)
      requires Valid() && k < |usedNodes|
      ensures usedNodes[k] !in freeNodes
      ensures forall i :: 0 <= i < |usedNodes| && i != k ==> usedNodes[i] != usedNodes[k]
      ensures usedNodes[k] !in usedNodes[..k] + usedNodes[k + 1..]
    {
      hide Sound, Frames, Chain;
      UsedApart(Value(), k);
      forall i | 0 <= i < |freeNodes| ensures freeNodes[i] != usedNodes[k] {
        assert Value().free[i] != Value().used[k];
      }
      forall i | 0 <= i < |usedNodes| && i != k ensures usedNodes[i] != usedNodes[k] {
        assert Value().used[i] != Value().used[k];
      }
    }

    /** find_predecessor: the node before the one with the address, null when that is the first; halts without one. */
    method FindPredecessor(addr: nat) returns (found: bool, pred: PageFrame?, ghost k: nat)
      requires Valid() && used != null
      ensures found <==> addr in Addrs(usedNodes)
      ensures found ==> k < |usedNodes| && usedNodes[k].phyAddr == addr && addr !in Addrs(usedNodes)[..k]
      ensures found ==> pred == if k == 0 then null else usedNodes[k - 1]
    {
      hide Sound, Frames, Chain, After, Addrs;
      ChainHead(used, usedNodes);
      var tmp := used;
      k := 0;
      if tmp.phyAddr == addr {
        return true, null, 0;
      }
      while tmp != null
        invariant k <= |usedNodes| && (if k < |usedNodes| then tmp == usedNodes[k] else tmp == null)
        invariant forall i :: 0 <= i <= k && i < |usedNodes| ==> usedNodes[i].phyAddr != addr
        decreases |usedNodes| - k
      {
        ChainNext(used, usedNodes, k);
        if tmp.next != null && tmp.next.phyAddr == addr {
          return true, tmp, k + 1;
        }
        tmp, k := tmp.next, k + 1;
      }
      return false, null, 0;
    }

    /** The first free node is nowhere else. */
    lemma NodeApart()
      requires Valid() && freeNodes != []
      ensures freeNodes[0] !in freeNodes[1..] && freeNodes[0] !in usedNodes
      ensures Repr() == set n | n in freeNodes[1..] + ([freeNodes[0]] + usedNodes)
    {
      TakeFresh(Value());
      AddrsSlice(freeNodes, 0);
      assert freeNodes == [freeNodes[0]] + freeNodes[1..];
    }
  }

  lemma DescendingUnique(s: seq<nat>)
    requires forall i, j :: 0 <= i < j < |s| ==> s[i] > s[j]
    ensures Unique(s)
  {
    forall x ensures multiset(s)[x] <= 1 {
      CountOnce(s, x);
    }
  }

  lemma {:induction false} CountOnce(s: seq<nat>, x: nat)
    requires forall i, j :: 0 <= i < j < |s| ==> s[i] != s[j]
    ensures multiset(s)[x] <= 1
  {
    if s != [] {
      assert s == [s[0]] + s[1..];
      CountOnce(s[1..], x);
      assert s[0] !in s[1..];
    }
  }
}
