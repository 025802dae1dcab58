/** qsort.c and shuffle.c: the in-place quicksort over a shuffled array. */
module Sorting {
  /** What a comparison function promises: its signs form a total preorder. */
  ghost predicate TotalPreorder<T(!new)>(cmp: (T, T) -> int)
  {
    && (forall x, y :: cmp(x, y) < 0 <==> cmp(y, x) > 0)
    && (forall x, y, z :: cmp(x, y) <= 0 && cmp(y, z) <= 0 ==> cmp(x, z) <= 0)
  }

  ghost predicate Sorted<T>(s: seq<T>, cmp: (T, T) -> int)
  {
    forall i, j :: 0 <= i < j < |s| ==> cmp(s[i], s[j]) <= 0
  }

  /** `t` rearranges `s`, and only between `lo` and `hi` (exclusive). */
  ghost predicate Rearranged<T>(s: seq<T>, t: seq<T>, lo: nat, hi: nat)
  {
    lo <= hi <= |s| == |t| && s[..lo] == t[..lo] && s[hi..] == t[hi..] && multiset(s) == multiset(t)
  }

  lemma RearrangedTwice<T>(s: seq<T>, t: seq<T>, u: seq<T>, lo: nat, hi: nat)
    requires Rearranged(s, t, lo, hi) && Rearranged(t, u, lo, hi)
    ensures Rearranged(s, u, lo, hi)
  {
  }

  lemma RearrangedWithin<T>(s: seq<T>, t: seq<T>, lo: nat, hi: nat, lo1: nat, hi1: nat)
    requires Rearranged(s, t, lo1, hi1) && lo <= lo1 && hi1 <= hi <= |s|
    ensures Rearranged(s, t, lo, hi)
  {
    assert s[..lo] == s[..lo1][..lo] && t[..lo] == t[..lo1][..lo];
    assert s[hi..] == s[hi1..][hi - hi1..] && t[hi..] == t[hi1..][hi - hi1..];
  }

  lemma Parts<T>(s: seq<T>, lo: nat, hi: nat)
    requires lo <= hi <= |s|
    ensures multiset(s) == multiset(s[..lo]) + multiset(s[lo..hi]) + multiset(s[hi..])
  {
    assert s == s[..lo] + s[lo..hi] + s[hi..];
  }

  /** A rearrangement keeps the values of its range. */
  lemma RangeKept<T>(s: seq<T>, t: seq<T>, lo: nat, hi: nat)
    requires Rearranged(s, t, lo, hi)
    ensures multiset(s[lo..hi]) == multiset(t[lo..hi])
  {
    Parts(s, lo, hi);
    Parts(t, lo, hi);
    forall x | x in multiset(s[lo..hi]) || x in multiset(t[lo..hi])
      ensures multiset(s[lo..hi])[x] == multiset(t[lo..hi])[x]
    {
      assert multiset(s)[x] == multiset(s[..lo])[x] + multiset(s[lo..hi])[x] + multiset(s[hi..])[x];
      assert multiset(t)[x] == multiset(t[..lo])[x] + multiset(t[lo..hi])[x] + multiset(t[hi..])[x];
    }
  }

  lemma RangeMember<T>(s: seq<T>, t: seq<T>, lo: nat, hi: nat, k: nat) returns (m: nat)
    requires Rearranged(s, t, lo, hi) && lo <= k < hi
    ensures lo <= m < hi && s[m] == t[k]
  {
    RangeKept(s, t, lo, hi);
    assert t[lo..hi][k - lo] in multiset(t[lo..hi]);
    assert t[k] in s[lo..hi];
    var i :| 0 <= i < hi - lo && s[lo..hi][i] == t[k];
    m := lo + i;
  }

  lemma SwapRearranges<T>(s: seq<T>, i: nat, j: nat)
    requires i < |s| && j < |s|
    ensures multiset(s[i := s[j]][j := s[i]]) == multiset(s)
  {
  }

  method Swap<T>(a: array<T>, i: nat, j: nat)
    requires i < a.Length && j < a.Length
    modifies a
    ensures a[..] == old(Swapped(a[..], i, j))
  {
    a[i], a[j] := a[j], a[i];
  }

  // ---- shuffle ----

  /** The partners that the random numbers choose: never index 0. */
  ghost function Picks(n: nat, rand: nat -> nat): (p: seq<nat>)
    requires n >= 2
    ensures |p| == n && forall k :: 0 <= k < n ==> 1 <= p[k] < n
  {
    seq(n, k requires k >= 0 => rand(k) % (n - 1) + 1)
  }

  /** The exchanges from step `i` on. */
  ghost function Exchanges<T>(s: seq<T>, picks: seq<nat>, i: nat): (t: seq<T>)
    requires i <= |picks| <= |s| && forall k :: 0 <= k < |picks| ==> picks[k] < |picks|
    ensures |t| == |s|
    decreases |picks| - i
  {
    if i == |picks| then s else Exchanges(Swapped(s, i, picks[i]), picks, i + 1)
  }

  lemma Exchanged<T>(s: seq<T>, picks: seq<nat>)
    requires |picks| <= |s| && forall k :: 0 <= k < |picks| ==> picks[k] < |picks|
    ensures Exchanges(s, picks, |picks|) == s
  {
  }

  lemma NextExchange<T>(s: seq<T>, picks: seq<nat>, i: nat)
    requires i < |picks| <= |s| && forall k :: 0 <= k < |picks| ==> picks[k] < |picks|
    ensures Exchanges(s, picks, i) == Exchanges(Swapped(s, i, picks[i]), picks, i + 1)
  {
  }

  /** After the first step index 0 is never touched again. */
  lemma {:induction false} FirstStays<T>(s: seq<T>, picks: seq<nat>, i: nat)
    requires 1 <= i <= |picks| <= |s| && forall k :: 0 <= k < |picks| ==> 1 <= picks[k] < |picks|
    ensures Exchanges(s, picks, i)[0] == s[0]
    decreases |picks| - i
  {
    if i < |picks| {
      FirstStays(Swapped(s, i, picks[i]), picks, i + 1);
    }
  }

  /** So the first element always leaves its place: what comes first was not first. */
  lemma ShuffleMoves<T>(s: seq<T>, rand: nat -> nat)
    requires |s| >= 2
    ensures var t := Exchanges(s, Picks(|s|, rand), 0); t[0] == s[rand(0) % (|s| - 1) + 1] && t[0] in s[1..]
  {
    hide Exchanges, Swapped;
    var p := Picks(|s|, rand);
    FirstComes(s, p);
    assert p[0] == rand(0) % (|s| - 1) + 1;
    assert s[p[0]] == s[1..][p[0] - 1];
  }

  lemma FirstComes<T>(s: seq<T>, picks: seq<nat>)
    requires 1 <= |picks| <= |s| && forall k :: 0 <= k < |picks| ==> 1 <= picks[k] < |picks|
    ensures Exchanges(s, picks, 0)[0] == s[picks[0]]
  {
    hide Exchanges;
    NextExchange(s, picks, 0);
    FirstStays(Swapped(s, 0, picks[0]), picks, 1);
  }

  /** The partner that brings the next element to its place. */
  lemma PickOne<T>(s: seq<T>, t: seq<T>, i: nat) returns (j: nat)
    requires i < |s| && Rearranged(s, t, i, |s|) && |s| >= 2
    requires i == 0 ==> t[0] in s[1..]
    ensures 1 <= j < |s| && Rearranged(Swapped(s, i, j), t, i + 1, |s|) && |Swapped(s, i, j)| == |s|
  {
    hide Swapped;
    if i == 0 {
      var m :| 0 <= m < |s[1..]| && s[1..][m] == t[0];
      j := m + 1;
    } else {
      j := RangeMember(s, t, i, |s|, i);
    }
    Placed(s, t, i, j);
  }

  lemma Placed<T>(s: seq<T>, t: seq<T>, i: nat, j: nat)
    requires i <= j < |s| && Rearranged(s, t, i, |s|) && s[j] == t[i]
    ensures Rearranged(Swapped(s, i, j), t, i + 1, |s|) && |Swapped(s, i, j)| == |s|
  {
    SwapRearranges(s, i, j);
    var s1 := Swapped(s, i, j);
    hide Swapped;
    assert s1[..i] == t[..i] && s1[i] == t[i];
    assert s1[..i + 1] == s1[..i] + [s1[i]] && t[..i + 1] == t[..i] + [t[i]];
  }

  /** The partners that lead from `s` to `t` once the first `i` elements agree. */
  lemma {:induction false} PicksFor<T>(s: seq<T>, t: seq<T>, i: nat) returns (picks: seq<nat>)
    requires Rearranged(s, t, i, |s|) && |s| >= 2
    requires i == 0 ==> t[0] in s[1..]
    ensures |picks| == |s| && forall k :: 0 <= k < |s| ==> 1 <= picks[k] < |s|
    ensures Exchanges(s, picks, i) == t
    decreases |s| - i
  {
    if i == |s| {
      picks := seq(|s|, k => 1);
    } else {
      hide Rearranged, Swapped;
      var j := PickOne(s, t, i);
      var s1 := Swapped(s, i, j);
      picks := PicksFor(s1, t, i + 1);
      Later(s1, picks, picks[i := j], i + 1);
      picks := picks[i := j];
    }
  }

  /** Partners of steps gone by do not matter. */
  lemma {:induction false} Later<T>(s: seq<T>, p: seq<nat>, q: seq<nat>, i: nat)
    requires i <= |p| == |q| <= |s| && p[i..] == q[i..]
    requires forall k :: 0 <= k < |p| ==> p[k] < |p| && q[k] < |p|
    ensures Exchanges(s, p, i) == Exchanges(s, q, i)
    decreases |p| - i
  {
    if i < |p| {
      assert p[i] == p[i..][0] && p[i + 1..] == p[i..][1..] && q[i + 1..] == q[i..][1..];
      Later(Swapped(s, i, p[i]), p, q, i + 1);
    }
  }

  /** And every rearrangement that begins with another than the first element is reached by some random numbers. */
  lemma ShuffleReaches<T>(s: seq<T>, t: seq<T>) returns (rand: nat -> nat)
    requires |s| >= 2 && multiset(s) == multiset(t) && |s| == |t| && t[0] in s[1..]
    ensures Exchanges(s, Picks(|s|, rand), 0) == t
  {
    var picks := PicksFor(s, t, 0);
    rand := (k: nat) => if k < |picks| && picks[k] >= 1 then picks[k] - 1 else 0;
    forall k | 0 <= k < |s| ensures rand(k) % (|s| - 1) + 1 == picks[k] {
      SmallRemainder(picks[k] - 1, |s| - 1);
    }
    assert Picks(|s|, rand) == picks;
  }

  lemma SmallRemainder(x: nat, n: nat)
    requires x < n
    ensures x % n == x
  {
  }

  /** shuffle, with any source of random numbers. */
  method Shuffle<T>(a: array<T>, n: nat, rand: nat -> nat)
    requires n <= a.Length
    modifies a
    ensures Rearranged(old(a[..]), a[..], 0, n)
    ensures n < 2 ==> a[..] == old(a[..])
    ensures n >= 2 ==> a[..] == Exchanges(old(a[..]), Picks(n, rand), 0)
  {
    if n < 2 {
      return;
    }
    hide Exchanges, Swapped;
    ghost var picks := Picks(n, rand);
    for i := 0 to n
      invariant Rearranged(old(a[..]), a[..], 0, n)
      invariant Exchanges(a[..], picks, i) == Exchanges(old(a[..]), picks, 0)
    {
      var r := rand(i) % (n - 1) + 1;
      NextExchange(a[..], picks, i);
      SwapWithin(a[..], i, r, 0, n);
      Swap(a, i, r);
    }
    Exchanged(a[..], picks);
  }

  /** Every element of s[from..to] is related to `p`. */
  ghost predicate AllAtMost<T>(s: seq<T>, from: nat, to: nat, p: T, cmp: (T, T) -> int)
    requires to <= |s|
  {
    forall k :: from <= k < to ==> cmp(s[k], p) <= 0
  }

  ghost predicate AllAtLeast<T>(s: seq<T>, from: nat, to: nat, p: T, cmp: (T, T) -> int)
    requires to <= |s|
  {
    forall k :: from <= k < to ==> cmp(p, s[k]) <= 0
  }

  function Swapped<T>(s: seq<T>, i: nat, j: nat): seq<T>
    requires i < |s| && j < |s|
  {
    s[i := s[j]][j := s[i]]
  }

  lemma SwapWithin<T>(s: seq<T>, i: nat, j: nat, lo: nat, hi: nat)
    requires lo <= i < hi <= |s| && lo <= j < hi
    ensures Rearranged(s, Swapped(s, i, j), lo, hi)
  {
    SwapRearranges(s, i, j);
  }

  lemma Reflexive<T(!new)>(cmp: (T, T) -> int, x: T)
    requires TotalPreorder(cmp)
    ensures cmp(x, x) == 0
  {
  }

  lemma NotLess<T(!new)>(cmp: (T, T) -> int, x: T, y: T)
    requires TotalPreorder(cmp) && !(cmp(x, y) < 0)
    ensures cmp(y, x) <= 0
  {
  }

  /** The exchange of two elements on the wrong sides of the pivot. */
  lemma ExchangeKeeps<T>(s: seq<T>, cmp: (T, T) -> int, lo: nat, i: nat, j: nat, hi: nat)
    requires lo < i < j <= hi < |s| && cmp(s[j], s[lo]) <= 0 && cmp(s[lo], s[i]) <= 0
    requires AllAtMost(s, lo, i, s[lo], cmp) && AllAtLeast(s, j + 1, hi + 1, s[lo], cmp)
    ensures var t := Swapped(s, i, j);
            t[lo] == s[lo] && AllAtMost(t, lo, i + 1, t[lo], cmp) && AllAtLeast(t, j, hi + 1, t[lo], cmp)
  {
  }

  /** The pivot goes where the two scans met. */
  lemma PivotPlaced<T>(s: seq<T>, cmp: (T, T) -> int, lo: nat, i: nat, j: nat, hi: nat)
    requires lo <= j <= i <= hi < |s| && cmp(s[j], s[lo]) <= 0
    requires AllAtMost(s, lo, i, s[lo], cmp) && AllAtLeast(s, j + 1, hi + 1, s[lo], cmp)
    ensures var t := Swapped(s, lo, j); AllAtMost(t, lo, j, t[j], cmp) && AllAtLeast(t, j + 1, hi + 1, t[j], cmp)
  {
  }

  lemma AtMostGrows<T>(s: seq<T>, from: nat, to: nat, p: T, cmp: (T, T) -> int)
    requires from <= to < |s| && AllAtMost(s, from, to, p, cmp) && cmp(s[to], p) <= 0
    ensures AllAtMost(s, from, to + 1, p, cmp)
  {
  }

  lemma AtLeastGrows<T>(s: seq<T>, from: nat, to: nat, p: T, cmp: (T, T) -> int)
    requires from < to <= |s| && AllAtLeast(s, from + 1, to, p, cmp) && cmp(p, s[from]) <= 0
    ensures AllAtLeast(s, from, to, p, cmp)
  {
  }

  lemma ScansStart<T(!new)>(s: seq<T>, cmp: (T, T) -> int, lo: nat, hi: nat)
    requires TotalPreorder(cmp) && lo < hi < |s|
    ensures cmp(s[lo], s[lo]) == 0 && AllAtMost(s, lo, lo + 1, s[lo], cmp) && AllAtLeast(s, hi + 1, hi + 1, s[lo], cmp)
    ensures Rearranged(s, s, lo, hi + 1)
  {
    Reflexive(cmp, s[lo]);
  }

  /** The scan from the left: stop at the first element that is not less than the pivot, or at `hi`. */
  method ScanRight<T(!new)>(a: array<T>, cmp: (T, T) -> int, lo: nat, hi: nat, from: nat) returns (i: nat)
    requires TotalPreorder(cmp) && lo < from <= hi < a.Length && AllAtMost(a[..], lo, from, a[lo], cmp)
    ensures from <= i <= hi && AllAtMost(a[..], lo, i, a[lo], cmp)
    ensures i < hi ==> cmp(a[lo], a[i]) <= 0
    ensures forall k :: from <= k < i ==> cmp(a[k], a[lo]) < 0
  {
    hide TotalPreorder, AllAtMost;
    i := from;
    while cmp(a[i], a[lo]) < 0
      invariant from <= i <= hi && AllAtMost(a[..], lo, i, a[lo], cmp)
      invariant forall k :: from <= k < i ==> cmp(a[k], a[lo]) < 0
      decreases hi - i
    {
      if i == hi {
        break;
      }
      AtMostGrows(a[..], lo, i, a[lo], cmp);
      i := i + 1;
    }
    if i < hi {
      NotLess(cmp, a[i], a[lo]);
    }
  }

  /** The scan from the right: stop at the first element that is not greater than the pivot. */
  method ScanLeft<T(!new)>(a: array<T>, cmp: (T, T) -> int, lo: nat, hi: nat, from: nat) returns (j: nat)
    requires TotalPreorder(cmp) && lo <= from <= hi < a.Length && AllAtLeast(a[..], from + 1, hi + 1, a[lo], cmp)
    ensures lo <= j <= from && AllAtLeast(a[..], j + 1, hi + 1, a[lo], cmp) && cmp(a[j], a[lo]) <= 0
    ensures forall k :: j < k <= from ==> cmp(a[lo], a[k]) < 0
  {
    hide TotalPreorder, AllAtLeast;
    Reflexive(cmp, a[lo]);
    j := from;
    while cmp(a[lo], a[j]) < 0
      invariant lo <= j <= from && AllAtLeast(a[..], j + 1, hi + 1, a[lo], cmp)
      invariant forall k :: j < k <= from ==> cmp(a[lo], a[k]) < 0
      decreases j
    {
      if j == lo {
        break;
      }
      AtLeastGrows(a[..], j, hi + 1, a[lo], cmp);
      j := j - 1;
    }
    NotLess(cmp, a[lo], a[j]);
  }

  method Partition<T(!new)>(a: array<T>, cmp: (T, T) -> int, lo: nat, hi: nat) returns (j: nat)
    requires TotalPreorder(cmp) && lo < hi < a.Length
    modifies a
    ensures lo <= j <= hi && Rearranged(old(a[..]), a[..], lo, hi + 1)
    ensures AllAtMost(a[..], lo, j, a[j], cmp) && AllAtLeast(a[..], j + 1, hi + 1, a[j], cmp)
  {
    hide TotalPreorder, Rearranged, Swapped, AllAtMost, AllAtLeast;
    ScansStart(a[..], cmp, lo, hi);
    var i := lo;
    j := hi + 1;
    while true
      invariant lo <= i < j <= hi + 1 && i < hi
      invariant Rearranged(old(a[..]), a[..], lo, hi + 1)
      invariant AllAtMost(a[..], lo, i + 1, a[lo], cmp) && AllAtLeast(a[..], j, hi + 1, a[lo], cmp)
      decreases j
    {
      ghost var s := a[..];
      i := ScanRight(a, cmp, lo, hi, i + 1);
      j := ScanLeft(a, cmp, lo, hi, j - 1);
      if i >= j {
        break;
      }
      ExchangeKeeps(s, cmp, lo, i, j, hi);
      SwapWithin(s, i, j, lo, hi + 1);
      RearrangedTwice(old(a[..]), s, Swapped(s, i, j), lo, hi + 1);
      Swap(a, i, j);
      assert a[lo] == a[..][lo];
    }
    PivotPlaced(a[..], cmp, lo, i, j, hi);
    SwapWithin(a[..], lo, j, lo, hi + 1);
    RearrangedTwice(old(a[..]), a[..], Swapped(a[..], lo, j), lo, hi + 1);
    Swap(a, lo, j);
  }

  /** The sorted parts around a placed pivot make a sorted range. */
  lemma SortedAround<T(!new)>(s: seq<T>, cmp: (T, T) -> int, lo: nat, j: nat, hi: nat)
    requires TotalPreorder(cmp) && lo <= j < hi <= |s|
    requires Sorted(s[lo..j], cmp) && Sorted(s[j + 1..hi], cmp)
    requires AllAtMost(s, lo, j, s[j], cmp) && AllAtLeast(s, j + 1, hi, s[j], cmp)
    ensures Sorted(s[lo..hi], cmp)
  {
    forall x, y | lo <= x < y < hi ensures cmp(s[x], s[y]) <= 0 {
      if y < j {
        assert cmp(s[lo..j][x - lo], s[lo..j][y - lo]) <= 0;
      } else if x > j {
        assert cmp(s[j + 1..hi][x - j - 1], s[j + 1..hi][y - j - 1]) <= 0;
      } else {
        Reflexive(cmp, s[j]);
        assert cmp(s[x], s[j]) <= 0 && cmp(s[j], s[y]) <= 0;
      }
    }
  }

  /** Sorting one side leaves the pivot in place and the bounds intact. */
  lemma BoundsKept<T>(s: seq<T>, t: seq<T>, cmp: (T, T) -> int, lo: nat, hi: nat, p: T)
    requires Rearranged(s, t, lo, hi)
    ensures AllAtMost(s, lo, hi, p, cmp) ==> AllAtMost(t, lo, hi, p, cmp)
    ensures AllAtLeast(s, lo, hi, p, cmp) ==> AllAtLeast(t, lo, hi, p, cmp)
  {
    forall k | lo <= k < hi
      ensures AllAtMost(s, lo, hi, p, cmp) ==> cmp(t[k], p) <= 0
      ensures AllAtLeast(s, lo, hi, p, cmp) ==> cmp(p, t[k]) <= 0
    {
      var m := RangeMember(s, t, lo, hi, k);
    }
  }

  lemma OutsideSame<T>(s: seq<T>, t: seq<T>, lo: nat, hi: nat)
    requires Rearranged(s, t, lo, hi)
    ensures lo <= hi <= |s| == |t| && forall k :: 0 <= k < lo || hi <= k < |s| ==> s[k] == t[k]
  {
    forall k | 0 <= k < lo || hi <= k < |s| ensures s[k] == t[k] {
      if k < lo {
        assert s[k] == s[..lo][k];
      } else {
        assert s[k] == s[hi..][k - hi];
      }
    }
  }

  lemma BoundsSame<T>(s: seq<T>, t: seq<T>, cmp: (T, T) -> int, from: nat, to: nat, p: T)
    requires to <= |s| == |t| && forall k :: from <= k < to ==> s[k] == t[k]
    ensures AllAtMost(s, from, to, p, cmp) <==> AllAtMost(t, from, to, p, cmp)
    ensures AllAtLeast(s, from, to, p, cmp) <==> AllAtLeast(t, from, to, p, cmp)
  {
  }

  lemma Nothing<T>(s: seq<T>, cmp: (T, T) -> int, lo: nat, hi: nat)
    requires lo <= hi <= |s| && hi - lo <= 1
    ensures Rearranged(s, s, lo, hi) && Sorted(s[lo..hi], cmp)
  {
  }

  /** Partition a range, then sort its two sides. */
  lemma SortStep<T(!new)>(s: seq<T>, s0: seq<T>, s1: seq<T>, s2: seq<T>, cmp: (T, T) -> int, lo: nat, j: nat, hi: nat)
    requires TotalPreorder(cmp) && lo <= j < hi && Rearranged(s, s0, lo, hi)
    requires AllAtMost(s0, lo, j, s0[j], cmp) && AllAtLeast(s0, j + 1, hi, s0[j], cmp)
    requires Rearranged(s0, s1, lo, j) && Sorted(s1[lo..j], cmp)
    requires Rearranged(s1, s2, j + 1, hi) && Sorted(s2[j + 1..hi], cmp)
    ensures Rearranged(s, s2, lo, hi) && Sorted(s2[lo..hi], cmp)
  {
    hide TotalPreorder, Sorted, AllAtMost, AllAtLeast, Rearranged;
    OutsideSame(s, s0, lo, hi);
    OutsideSame(s0, s1, lo, j);
    var p := s0[j];
    OutsideSame(s1, s2, j + 1, hi);
    assert s2[lo..j] == s1[lo..j];
    RearrangedWithin(s0, s1, lo, hi, lo, j);
    RearrangedWithin(s1, s2, lo, hi, j + 1, hi);
    RearrangedTwice(s, s0, s1, lo, hi);
    RearrangedTwice(s, s1, s2, lo, hi);
    BoundsKept(s0, s1, cmp, lo, j, p);
    BoundsSame(s0, s1, cmp, j + 1, hi, p);
    BoundsKept(s1, s2, cmp, j + 1, hi, p);
    BoundsSame(s1, s2, cmp, lo, j, p);
    SortedAround(s2, cmp, lo, j, hi);
  }

  method Sort<T(!new)>(a: array<T>, cmp: (T, T) -> int, lo: nat, hi: nat)
    requires TotalPreorder(cmp) && lo <= hi + 1 && hi < a.Length
    modifies a
    ensures Rearranged(old(a[..]), a[..], lo, hi + 1) && Sorted(a[..][lo..hi + 1], cmp)
    decreases hi + 1 - lo
  {
    hide TotalPreorder, Sorted, AllAtMost, AllAtLeast, Rearranged;
    if hi <= lo {
      Nothing(a[..], cmp, lo, hi + 1);
      return;
    }
    var j := Partition(a, cmp, lo, hi);
    ghost var s0 := a[..];
    if j > 0 {
      Sort(a, cmp, lo, j - 1);
    } else {
      Nothing(s0, cmp, 0, 0);
    }
    ghost var s1 := a[..];
    Sort(a, cmp, j + 1, hi);
    SortStep(old(a[..]), s0, s1, a[..], cmp, lo, j, hi + 1);
  }

  method Qsort<T(!new)>(a: array<T>, n: nat, cmp: (T, T) -> int, rand: nat -> nat)
    requires TotalPreorder(cmp) && n <= a.Length
    modifies a
    ensures Rearranged(old(a[..]), a[..], 0, n) && Sorted(a[..n], cmp)
  {
    if n < 2 {
      return;
    }
    Shuffle(a, n, rand);
    ghost var s := a[..];
    Sort(a, cmp, 0, n - 1);
    RearrangedTwice(old(a[..]), s, a[..], 0, n);
  }
}
