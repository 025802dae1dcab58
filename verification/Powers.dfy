/** Powers of two, and the binary ancestor of a position. */
module Powers {
  /** Unsigned 64-bit values are the integers in [0, WORD). */
  const WORD: nat := 0x1_0000_0000_0000_0000

  function Pow2(n: nat): (r: nat)
    ensures r >= 1
  {
    if n == 0 then 1 else 2 * Pow2(n - 1)
  }

  lemma {:induction false} Pow2Add(m: nat, n: nat)
    ensures Pow2(m + n) == Pow2(m) * Pow2(n)
  {
    if m > 0 {
      Pow2Add(m - 1, n);
    }
  }

  lemma Pow2Byte()
    ensures Pow2(8) == 0x100
  {
  }

  lemma WordIsPow2()
    ensures WORD == Pow2(64)
  {
    hide Pow2;
    Pow2Byte();
    Pow2Add(8, 8);
    Pow2Add(16, 16);
    Pow2Add(32, 32);
  }

  lemma {:induction false} Pow2Monotone(m: nat, n: nat)
    requires m <= n
    ensures Pow2(m) <= Pow2(n)
    ensures m < n ==> 2 * Pow2(m) <= Pow2(n)
    decreases n
  {
    if m < n {
      Pow2Monotone(m, n - 1);
    }
  }

  /** p * 2^k. */
  function Scale(p: nat, k: nat): nat
  {
    if k == 0 then p else 2 * Scale(p, k - 1)
  }

  lemma {:induction false} ScaleIsProduct(p: nat, k: nat)
    ensures Scale(p, k) == p * Pow2(k)
  {
    if k > 0 {
      ScaleIsProduct(p, k - 1);
    }
  }

  lemma {:induction false} ScaleAdd(p: nat, q: nat, k: nat)
    ensures Scale(p + q, k) == Scale(p, k) + Scale(q, k)
  {
    if k > 0 {
      ScaleAdd(p, q, k - 1);
    }
  }

  lemma {:induction false} ScaleOne(k: nat)
    ensures Scale(1, k) == Pow2(k)
  {
    if k > 0 {
      ScaleOne(k - 1);
    }
  }

  /** Position `d` levels above position `q` in a binary tree stored level by level. */
  function Anc(q: nat, d: nat): nat
  {
    if d == 0 then q else Anc(q, d - 1) / 2
  }

  lemma {:induction false} AncAdd(q: nat, d: nat, e: nat)
    ensures Anc(q, d + e) == Anc(Anc(q, d), e)
  {
    if e > 0 {
      AncAdd(q, d, e - 1);
    }
  }

  /** Level by level, a position is bounded by a power of two exactly when its ancestor is 0. */
  lemma {:induction false} AncZero(q: nat, d: nat)
    ensures Anc(q, d) == 0 <==> q < Pow2(d)
  {
    if d > 0 {
      AncAdd(q, 1, d - 1);
      assert Anc(q, 1) == Anc(q, 0) / 2 == q / 2;
      AncZero(q / 2, d - 1);
    }
  }
}
