/** Four-level page tables in physical memory, built on demand from a pool of zeroed frames. */
module PageTables {
  import opened Options

  type Frame = nat

  /** A table entry: 12 flag bits and a 36-bit page number; the other bits are always zero. */
  datatype Entry = Entry(flags: nat, base: nat)

  const EMPTY := Entry(0, 0)

  type Table = seq<Entry>

  type Memory = map<Frame, Table>

  const ENTRIES: nat := 512

  /** PREP_BASE_ADDR keeps 28 bits of the page number. */
  function Prep(addr: nat): nat { (addr / 4096) % 0x1000_0000 }

  function MakeEntry(addr: nat, flags: nat): Entry { Entry(flags % 4096, Prep(addr)) }

  /** The table an entry points to, as page_alloc computes it: a 36-bit field shifted in 36 bits. */
  function Next(e: Entry): Frame { (e.base * 4096) % 0x10_0000_0000 }

  predicate Present(e: Entry) { e.flags % 2 == 1 }

  /** Page-aligned and below 2^36, so that Prep and Next lose nothing. */
  predicate FrameOk(f: Frame) { f % 4096 == 0 && f < 0x10_0000_0000 }

  function Get(mem: Memory, f: Frame, i: nat): Entry
  {
    if f in mem && i < |mem[f]| then mem[f][i] else EMPTY
  }

  function Put(mem: Memory, f: Frame, i: nat, e: Entry): Memory
  {
    if f in mem && i < |mem[f]| then mem[f := mem[f][i := e]] else mem
  }

  /** The region that paging_init clears. */
  function ZeroTables(frames: seq<Frame>): Memory { map f | f in frames :: seq(ENTRIES, _ => EMPTY) }

  // ---- virtual addresses ----

  /** PML4E, PDPTE, PDE and PTE of an address. */
  function Path(v: nat): (p: seq<nat>)
    ensures |p| == 4 && forall k :: 0 <= k < 4 ==> p[k] < ENTRIES
  {
    [(v / 0x80_0000_0000) % 512, (v / 0x4000_0000) % 512, (v / 0x20_0000) % 512, (v / 0x1000) % 512]
  }

  /** The page of an address in the 48-bit virtual space. */
  function PageOf(v: nat): nat { (v / 0x1000) % 0x10_0000_0000 }

  /** The four indices name exactly the page. */
  lemma PathIsPage(v: nat, w: nat)
    ensures Path(v) == Path(w) <==> PageOf(v) == PageOf(w)
  {
    PathDigits(v);
    PathDigits(w);
    hide Path, PageOf;
    assert Path(v) == [Path(v)[0], Path(v)[1], Path(v)[2], Path(v)[3]];
    assert Path(w) == [Path(w)[0], Path(w)[1], Path(w)[2], Path(w)[3]];
  }

  /** Every choice of four indices of a table is the path of some page. */
  lemma PathOnto(a: nat, b: nat, c: nat, d: nat)
    requires a < ENTRIES && b < ENTRIES && c < ENTRIES && d < ENTRIES
    ensures Path((((a * 512 + b) * 512 + c) * 512 + d) * 0x1000) == [a, b, c, d]
  {
    hide Path;
    var two := a * 512 + b;
    var three := two * 512 + c;
    var n := three * 512 + d;
    PathOfPage(n * 0x1000);
    LastDigit(a, b);
    LastDigit(two, c);
    LastDigit(three, d);
    assert n * 0x1000 / 0x1000 == n && a % 512 == a;
  }

  lemma LastDigit(q: nat, d: nat)
    requires d < 512
    ensures (q * 512 + d) / 512 == q && (q * 512 + d) % 512 == d
  {
  }

  lemma PathDigits(v: nat)
    ensures var p, n := Path(v), PageOf(v);
            && n == ((p[0] * 512 + p[1]) * 512 + p[2]) * 512 + p[3]
            && p[3] == n % 512 && p[2] == n / 512 % 512 && p[1] == n / 512 / 512 % 512 && p[0] == n / 512 / 512 / 512
  {
    PathOfPage(v);
    var n := v / 0x1000;
    LowDigits(n);
    FourDigits(n % 0x10_0000_0000);
  }

  lemma PathOfPage(v: nat)
    ensures var n := v / 0x1000;
            Path(v) == [n / 512 / 512 / 512 % 512, n / 512 / 512 % 512, n / 512 % 512, n % 512]
  {
    assert v / 0x20_0000 == v / 0x1000 / 512;
    assert v / 0x4000_0000 == v / 0x1000 / 512 / 512;
    assert v / 0x80_0000_0000 == v / 0x1000 / 512 / 512 / 512;
  }

  /** Reducing to four digits changes none of them. */
  lemma LowDigits(n: nat)
    ensures var m := n % 0x10_0000_0000;
            && m % 512 == n % 512 && m / 512 % 512 == n / 512 % 512
            && m / 512 / 512 % 512 == n / 512 / 512 % 512 && m / 512 / 512 / 512 % 512 == n / 512 / 512 / 512 % 512
  {
    var m, q := n % 0x10_0000_0000, n / 0x10_0000_0000;
    assert n == m + q * 0x10_0000_0000;
    assert n / 512 == m / 512 + q * 0x800_0000;
    assert n / 512 / 512 == m / 512 / 512 + q * 0x4_0000;
    assert n / 512 / 512 / 512 == m / 512 / 512 / 512 + q * 512;
  }

  lemma FourDigits(m: nat)
    requires m < 0x10_0000_0000
    ensures m == ((m / 512 / 512 / 512 % 512 * 512 + m / 512 / 512 % 512) * 512 + m / 512 % 512) * 512 + m % 512
    ensures m / 512 / 512 / 512 < 512
  {
  }

  // ---- what the processor does ----

  /** One step of the table walk: section 5.3 of the AMD64 manual, volume 2, for 4-Kbyte pages. */
  function Step(mem: Memory, f: Frame, i: nat): Option<Frame>
  {
    if Present(Get(mem, f, i)) then Some(Get(mem, f, i).base * 4096) else None
  }

  function Walk(mem: Memory, f: Frame, path: seq<nat>): Option<Frame>
    decreases |path|
  {
    if path == [] then Some(f)
    else
      var g :- Step(mem, f, path[0]);
      Walk(mem, g, path[1..])
  }

  function Translate(mem: Memory, root: Frame, v: nat): Option<nat>
  {
    var page :- Walk(mem, root, Path(v));
    Some(page + v % 4096)
  }

  /** PAGE_READ_WRITE_BIT and PAGE_USER_SUPERVISOR_BIT */
  const WRITE_BIT: nat := 2
  const USER_BIT: nat := 4

  predicate Has(e: Entry, bit: nat)
    requires bit > 0
  {
    e.flags / bit % 2 == 1
  }

  /** An access that needs the bit is allowed when every entry on the way has it. */
  ghost predicate Allows(mem: Memory, root: Frame, path: seq<nat>, bit: nat)
    requires bit > 0
  {
    forall k :: 0 <= k < |path| ==>
      Walk(mem, root, path[..k]).Some? && Has(Get(mem, Walk(mem, root, path[..k]).value, path[k]), bit)
  }

  // ---- page_alloc ----

  datatype Space = Space(mem: Memory, free: seq<Frame>)

  /** Install a table from the pool when the entry is empty; None when the pool is exhausted. */
  function EnsureTable(s: Space, f: Frame, i: nat, flags: nat): Option<Space>
  {
    if Get(s.mem, f, i) != EMPTY then Some(s)
    else if s.free == [] then None
    else Some(Space(Put(s.mem, f, i, MakeEntry(s.free[0], flags)), s.free[1..]))
  }

  function WritePage(mem: Memory, f: Frame, i: nat, p: nat, flags: nat): Memory
  {
    if Get(mem, f, i) != EMPTY then mem else Put(mem, f, i, MakeEntry(p, flags))
  }

  /** page_alloc; None when the kernel halts for want of a frame. */
  function PageAlloc(s: Space, root: Frame, v: nat, p: nat, flags: nat): Option<Space>
  {
    var s1 :- EnsureTable(s, root, Path(v)[0], flags);
    var pdp := Next(Get(s1.mem, root, Path(v)[0]));
    var s2 :- EnsureTable(s1, pdp, Path(v)[1], flags);
    var pd := Next(Get(s2.mem, pdp, Path(v)[1]));
    var s3 :- EnsureTable(s2, pd, Path(v)[2], flags);
    var pt := Next(Get(s3.mem, pd, Path(v)[2]));
    Some(Space(WritePage(s3.mem, pt, Path(v)[3], p, flags), s3.free))
  }

  // ---- the shape of the tables ----

  /** Each live table and the indices that lead to it; kernel and process roots all have the empty path. */
  type Places = map<Frame, seq<nat>>

  ghost predicate EntryOk(mem: Memory, at: Places, f: Frame, i: nat)
    requires f in at
  {
    var e := Get(mem, f, i);
    e != EMPTY ==>
      && Present(e)
      && (|at[f]| < 3 ==> e.base * 4096 in at && at[e.base * 4096] == at[f] + [i])
  }

  ghost predicate WellFormed(mem: Memory, at: Places)
  {
    && (forall f :: f in at ==> f in mem && FrameOk(f) && |at[f]| <= 3)
    && (forall f :: f in mem ==> |mem[f]| == ENTRIES)
    && (forall f, i :: f in at && 0 <= i < ENTRIES ==> EntryOk(mem, at, f, i))
  }

  ghost predicate ZeroTable(mem: Memory, f: Frame)
  {
    f in mem && forall i :: 0 <= i < ENTRIES ==> Get(mem, f, i) == EMPTY
  }

  /** The pool: aligned frames, not in use, all zero, none twice. */
  ghost predicate Spare(mem: Memory, at: Places, free: seq<Frame>)
  {
    && (forall k :: 0 <= k < |free| ==> free[k] !in at && FrameOk(free[k]) && ZeroTable(mem, free[k]))
    && (forall j, k :: 0 <= j < k < |free| ==> free[j] != free[k])
  }

  lemma ZeroKept(mem: Memory, f: Frame, i: nat, e: Entry, g: Frame)
    requires g != f && ZeroTable(mem, g)
    ensures ZeroTable(Put(mem, f, i, e), g)
  {
    forall j | 0 <= j < ENTRIES ensures Get(Put(mem, f, i, e), g, j) == EMPTY {
      assert Get(mem, g, j) == EMPTY;
    }
  }

  /** An entry names a page exactly below 2^40, and page_alloc finds the table again exactly below 2^36. */
  lemma EntryRoundTrip(f: Frame, flags: nat)
    ensures MakeEntry(f, flags).base * 4096 == f <==> f % 4096 == 0 && f < 0x100_0000_0000
    ensures Next(MakeEntry(f, flags)) == f <==> f % 4096 == 0 && f < 0x10_0000_0000
  {
    NextRange(MakeEntry(f, flags));
    var m := f / 4096;
    assert m % 0x1000_0000 == m <==> m < 0x1000_0000;
    if f % 4096 == 0 && f < 0x10_0000_0000 {
      assert MakeEntry(f, flags).base * 4096 == f;
    }
  }

  lemma FrameRoundTrip(f: Frame, flags: nat)
    requires FrameOk(f)
    ensures MakeEntry(f, flags).base * 4096 == f && Next(MakeEntry(f, flags)) == f
  {
  }

  lemma NextRange(e: Entry)
    ensures Next(e) < 0x10_0000_0000 && Next(e) % 4096 == 0
  {
    assert (e.base * 4096) % 0x10_0000_0000 == e.base % 0x100_0000 * 4096;
  }

  lemma NextIsStep(mem: Memory, at: Places, f: Frame, i: nat)
    requires WellFormed(mem, at) && f in at && |at[f]| < 3 && i < ENTRIES && Get(mem, f, i) != EMPTY
    ensures Step(mem, f, i) == Some(Next(Get(mem, f, i)))
    ensures Next(Get(mem, f, i)) in at && at[Next(Get(mem, f, i))] == at[f] + [i]
  {
    assert EntryOk(mem, at, f, i);
    var g := Get(mem, f, i).base * 4096;
    assert FrameOk(g);
  }

  /** Installing a zero table changes no translation, and leads only to the new table. */
  lemma {:induction false} InstallWalk(mem: Memory, at: Places, f: Frame, i: nat, n: Frame, flags: nat, g: Frame,
                                       path: seq<nat>)
    requires WellFormed(mem, at) && f in at && |at[f]| < 3 && i < ENTRIES && Get(mem, f, i) == EMPTY
    requires n !in at && FrameOk(n) && ZeroTable(mem, n) && flags % 2 == 1
    requires g in at && |at[g]| + |path| <= 4 && forall k :: 0 <= k < |path| ==> path[k] < ENTRIES
    ensures var mem' := Put(mem, f, i, MakeEntry(n, flags));
            || Walk(mem', g, path) == Walk(mem, g, path)
            || (Walk(mem, g, path) == None && at[g] + path == at[f] + [i] && Walk(mem', g, path) == Some(n))
    decreases |path|
  {
    if path != [] {
      var mem' := Put(mem, f, i, MakeEntry(n, flags));
      FrameRoundTrip(n, flags);
      var j, rest := path[0], path[1..];
      assert EntryOk(mem, at, g, j);
      if g == f && j == i {
        assert path == [i] + rest;
        if rest != [] {
          assert rest[0] == path[1];
          ZeroKept(mem, f, i, MakeEntry(n, flags), n);
          assert Get(mem', n, rest[0]) == EMPTY;
        }
      } else if Get(mem, g, j) != EMPTY && rest != [] {
        var h := Get(mem, g, j).base * 4096;
        assert |at[g]| < 3;
        InstallWalk(mem, at, f, i, n, flags, h, rest);
        assert at[g] + path == at[h] + rest;
      }
    }
  }

  /** Writing an empty last-level entry changes the translation of that page only. */
  lemma {:induction false} WriteWalk(mem: Memory, at: Places, f: Frame, i: nat, e: Entry, g: Frame, path: seq<nat>)
    requires WellFormed(mem, at) && f in at && |at[f]| == 3 && i < ENTRIES && Get(mem, f, i) == EMPTY && Present(e)
    requires g in at && |at[g]| + |path| <= 4 && forall k :: 0 <= k < |path| ==> path[k] < ENTRIES
    ensures at[g] + path != at[f] + [i] ==> Walk(Put(mem, f, i, e), g, path) == Walk(mem, g, path)
    ensures path != [] && Walk(mem, g, path[..|path| - 1]) == Some(f) && path[|path| - 1] == i ==>
              Walk(Put(mem, f, i, e), g, path) == Some(e.base * 4096)
    ensures path != [] && Walk(mem, g, path[..|path| - 1]) != Some(f) ==>
              Walk(Put(mem, f, i, e), g, path) == Walk(mem, g, path)
    decreases |path|
  {
    if path != [] {
      var mem' := Put(mem, f, i, e);
      var j, rest := path[0], path[1..];
      assert EntryOk(mem, at, g, j);
      if rest == [] {
        assert path[..0] == [] && path == [j];
      } else {
        assert g != f;
        assert path[..|path| - 1][1..] == rest[..|rest| - 1];
        if Get(mem, g, j) != EMPTY {
          var h := Get(mem, g, j).base * 4096;
          WriteWalk(mem, at, f, i, e, h, rest);
          assert at[g] + path == at[h] + rest;
        }
      }
    }
  }

  predicate InRange(path: seq<nat>) { forall k :: 0 <= k < |path| ==> path[k] < ENTRIES }

  /** What page_alloc keeps at every step. */
  ghost predicate Good(s: Space, at: Places) { WellFormed(s.mem, at) && Spare(s.mem, at, s.free) }

  lemma InstallGood(s: Space, at: Places, f: Frame, i: nat, flags: nat)
    requires Good(s, at) && f in at && |at[f]| < 3 && i < ENTRIES && flags % 2 == 1
    requires Get(s.mem, f, i) == EMPTY && s.free != []
    ensures var n := s.free[0];
            Good(Space(Put(s.mem, f, i, MakeEntry(n, flags)), s.free[1..]), at[n := at[f] + [i]])
  {
    InstallWellFormed(s, at, f, i, flags);
    var n, e := s.free[0], MakeEntry(s.free[0], flags);
    hide WellFormed, MakeEntry, ZeroTable, Put, FrameOk;
    forall k | 0 <= k < |s.free[1..]|
      ensures s.free[1..][k] == s.free[k + 1] && ZeroTable(Put(s.mem, f, i, e), s.free[k + 1])
    {
      ZeroKept(s.mem, f, i, e, s.free[k + 1]);
    }
  }

  lemma InstallWellFormed(s: Space, at: Places, f: Frame, i: nat, flags: nat)
    requires Good(s, at) && f in at && |at[f]| < 3 && i < ENTRIES && flags % 2 == 1
    requires Get(s.mem, f, i) == EMPTY && s.free != []
    ensures var n := s.free[0]; WellFormed(Put(s.mem, f, i, MakeEntry(n, flags)), at[n := at[f] + [i]])
  {
    var n := s.free[0];
    var mem', at' := Put(s.mem, f, i, MakeEntry(n, flags)), at[n := at[f] + [i]];
    FrameRoundTrip(n, flags);
    forall g, j | g in at' && 0 <= j < ENTRIES ensures EntryOk(mem', at', g, j) {
      if g != n {
        assert EntryOk(s.mem, at, g, j);
      } else {
        ZeroKept(s.mem, f, i, MakeEntry(n, flags), n);
      }
    }
  }

  lemma WriteGood(s: Space, at: Places, f: Frame, i: nat, e: Entry)
    requires Good(s, at) && f in at && |at[f]| == 3 && i < ENTRIES && Present(e)
    ensures Good(Space(Put(s.mem, f, i, e), s.free), at)
  {
    var mem' := Put(s.mem, f, i, e);
    forall g, j | g in at && 0 <= j < ENTRIES ensures EntryOk(mem', at, g, j) {
      assert EntryOk(s.mem, at, g, j);
    }
    forall k | 0 <= k < |s.free| ensures ZeroTable(mem', s.free[k]) {
      ZeroKept(s.mem, f, i, e, s.free[k]);
    }
  }

  lemma {:induction false} WalkLast(mem: Memory, f: Frame, path: seq<nat>)
    requires path != []
    ensures Walk(mem, f, path) == match Walk(mem, f, path[..|path| - 1])
                                  case None => None
                                  case Some(g) => Step(mem, g, path[|path| - 1])
    decreases |path|
  {
    if |path| == 1 {
      assert path[..0] == [] && path[1..] == [];
    } else {
      assert path[..|path| - 1][0] == path[0] && path[..|path| - 1][1..] == path[1..][..|path| - 2];
      if Step(mem, f, path[0]).Some? {
        WalkLast(mem, Step(mem, f, path[0]).value, path[1..]);
      }
    }
  }

  /** The translations through `root` after mapping the page of `v`: the first mapping wins. */
  ghost function Mapped(mem: Memory, root: Frame, v: nat, p: nat, w: nat): Option<nat>
  {
    if PageOf(w) == PageOf(v) && Translate(mem, root, v) == None then Some(Prep(p) * 4096 + w % 4096)
    else Translate(mem, root, w)
  }
}
