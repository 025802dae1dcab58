/** 64-bit rounding, logarithm and power routines, against their arithmetic meaning. */
module Bits {
  import opened Powers

  // ---- bitwise operators on integers ----

  function Or(a: nat, b: nat): nat
    decreases a + b
  {
    if a == 0 && b == 0 then 0
    else 2 * Or(a / 2, b / 2) + (if a % 2 == 1 || b % 2 == 1 then 1 else 0)
  }

  function And(a: nat, b: nat): nat
    decreases a + b
  {
    if a == 0 && b == 0 then 0
    else 2 * And(a / 2, b / 2) + (if a % 2 == 1 && b % 2 == 1 then 1 else 0)
  }

  function Shr(v: nat, w: nat): nat
  {
    if w == 0 then v else Shr(v / 2, w - 1)
  }

  /** The low `e` bits. */
  function Low(v: nat, e: nat): nat
  {
    if e == 0 then 0 else 2 * Low(v / 2, e - 1) + v % 2
  }

  predicate Bit(v: nat, i: nat) { Shr(v, i) % 2 == 1 }

  lemma {:induction false} BitOr(a: nat, b: nat, i: nat)
    ensures Bit(Or(a, b), i) <==> Bit(a, i) || Bit(b, i)
  {
    if i == 0 {
    } else {
      assert Or(a, b) / 2 == Or(a / 2, b / 2);
      BitOr(a / 2, b / 2, i - 1);
    }
  }

  lemma {:induction false} ShrShr(v: nat, w: nat, i: nat)
    ensures Shr(Shr(v, w), i) == Shr(v, w + i)
  {
    if w > 0 {
      ShrShr(v / 2, w - 1, i);
    }
  }

  lemma {:induction false} ShrZero(v: nat, w: nat)
    ensures Shr(v, w) == 0 <==> v < Pow2(w)
  {
    if w > 0 {
      ShrZero(v / 2, w - 1);
    }
  }

  lemma {:induction false} ShrBelow(v: nat, w: nat, u: nat)
    requires v < Pow2(w + u)
    ensures Shr(v, w) < Pow2(u)
  {
    if w > 0 {
      ShrBelow(v / 2, w - 1, u);
    }
  }

  lemma {:induction false} LowWhole(v: nat, e: nat)
    ensures Low(v, e) <= v && Low(v, e) < Pow2(e)
    ensures Low(v, e) == v <==> v < Pow2(e)
    ensures Low(v - Low(v, e), e) == 0
  {
    if e > 0 {
      LowWhole(v / 2, e - 1);
      var r := v - Low(v, e);
      assert r / 2 == v / 2 - Low(v / 2, e - 1) && r % 2 == 0;
    }
  }

  lemma {:induction false} LowZero(v: nat, e: nat)
    requires Low(v, e) == 0
    ensures v == Scale(Shr(v, e), e)
  {
    if e > 0 {
      LowZero(v / 2, e - 1);
    }
  }

  lemma AndBit(a: nat, half: nat, bit: nat)
    requires bit <= 1
    ensures And(a, 2 * half + bit) == 2 * And(a / 2, half) + (if bit == 1 then a % 2 else 0)
  {
    assert (2 * half + bit) / 2 == half && (2 * half + bit) % 2 == bit;
  }

  /** Masking with the complement of 2^e - 1 clears the low e bits. */
  lemma {:induction false} AndMask(a: nat, e: nat, n: nat)
    requires a < Pow2(n) && e <= n
    ensures Pow2(e) <= Pow2(n) && And(a, Pow2(n) - Pow2(e)) == a - Low(a, e)
  {
    hide And;
    Pow2Monotone(e, n);
    if n == 0 {
      AndZero();
    } else if e == 0 {
      AndMask(a / 2, 0, n - 1);
      AndBit(a, Pow2(n - 1) - 1, 1);
    } else {
      AndMask(a / 2, e - 1, n - 1);
      AndBit(a, Pow2(n - 1) - Pow2(e - 1), 0);
    }
  }

  lemma AndZero()
    ensures And(0, 0) == 0
  {
  }

  // ---- logarithms ----

  lemma {:induction false} FloorLogExists(v: nat) returns (e: nat)
    requires v >= 1
    ensures Pow2(e) <= v < 2 * Pow2(e)
  {
    if v == 1 {
      e := 0;
    } else {
      e := FloorLogExists(v / 2);
      e := e + 1;
    }
  }

  /** The exponent of the greatest power of two that is at most `v`. */
  ghost function FloorLog(v: nat): (e: nat)
    requires v >= 1
    ensures Pow2(e) <= v < 2 * Pow2(e)
  {
    assert exists e: nat :: Pow2(e) <= v < 2 * Pow2(e) by {
      var e := FloorLogExists(v);
    }
    var e: nat :| Pow2(e) <= v < 2 * Pow2(e);
    e
  }

  lemma FloorLogUnique(v: nat, e: nat)
    requires Pow2(e) <= v < 2 * Pow2(e)
    ensures v >= 1 && FloorLog(v) == e
  {
    var f := FloorLog(v);
    if f < e {
      Pow2Monotone(f, e);
    } else if e < f {
      Pow2Monotone(e, f);
    }
  }

  lemma FloorLogHalf(v: nat)
    requires v >= 2
    ensures FloorLog(v) == 1 + FloorLog(v / 2)
  {
    FloorLogUnique(v, 1 + FloorLog(v / 2));
  }

  lemma FloorLogBelow(v: nat, n: nat)
    requires 1 <= v < Pow2(n)
    ensures FloorLog(v) < n
  {
    if FloorLog(v) >= n {
      Pow2Monotone(n, FloorLog(v));
    }
  }

  lemma {:induction false} FloorLogShift(v: nat, w: nat)
    requires Shr(v, w) >= 1
    ensures v >= 1 && FloorLog(v) == w + FloorLog(Shr(v, w))
  {
    if w > 0 {
      FloorLogShift(v / 2, w - 1);
      FloorLogHalf(v);
    }
  }

  lemma {:induction false} TopBit(v: nat, i: nat)
    requires v >= 1 && i >= FloorLog(v)
    ensures Bit(v, i) <==> i == FloorLog(v)
  {
    if v == 1 {
      FloorLogUnique(1, 0);
      ShrZero(v, i);
      if i >= 1 {
        Pow2Monotone(1, i);
      }
    } else {
      FloorLogHalf(v);
      TopBit(v / 2, i - 1);
    }
  }

  /** Exponent of the least power of two that is at least `v`. */
  ghost function CeilLog(v: nat): (e: nat)
    requires v >= 1
    ensures v <= Pow2(e) && (e > 0 ==> Pow2(e - 1) < v)
  {
    if v == 1 then 0 else FloorLog(v - 1) + 1
  }

  // ---- flp2 and clp2 ----

  function SmearBy(v: nat, w: nat): nat { Or(v, Shr(v, w)) }

  /** The six steps of flp2 and clp2: v |= v >> 1, 2, 4, 8, 16, 32. */
  function Smear(v: nat): nat
  {
    SmearBy(SmearBy(SmearBy(SmearBy(SmearBy(SmearBy(v, 1), 2), 4), 8), 16), 32)
  }

  /** Bit i of `r` is set exactly when one of the `w` bits of `v` from i upwards is. */
  ghost predicate Smeared(v: nat, r: nat, w: nat)
  {
    forall i: nat :: Bit(r, i) <==> exists j: nat :: i <= j < i + w && Bit(v, j)
  }

  /** Each smearing step doubles the reach. */
  lemma SmearStep(v: nat, r: nat, w: nat)
    requires Smeared(v, r, w)
    ensures Smeared(v, SmearBy(r, w), w + w)
  {
    forall i: nat
      ensures Bit(SmearBy(r, w), i) <==> exists j: nat :: i <= j < i + (w + w) && Bit(v, j)
    {
      BitOr(r, Shr(r, w), i);
      ShrShr(r, w, i);
      assert Bit(SmearBy(r, w), i) <==> Bit(r, i) || Bit(r, w + i);
      if j: nat :| i <= j < i + (w + w) && Bit(v, j) {
        assert if j < i + w then Bit(r, i) else Bit(r, w + i);
      }
    }
  }

  lemma SmearReach(v: nat)
    ensures Smeared(v, Smear(v), 64)
  {
    assert Smeared(v, v, 1);
    var a := SmearBy(v, 1);
    SmearStep(v, v, 1);
    var b := SmearBy(a, 2);
    SmearStep(v, a, 2);
    var c := SmearBy(b, 4);
    SmearStep(v, b, 4);
    var d := SmearBy(c, 8);
    SmearStep(v, c, 8);
    var e := SmearBy(d, 16);
    SmearStep(v, d, 16);
    SmearStep(v, e, 32);
  }

  lemma {:induction false} OnesUpTo(r: nat, n: nat)
    requires forall i: nat :: Bit(r, i) <==> i < n
    ensures r == Pow2(n) - 1
    decreases r
  {
    assert Bit(r, 0) <==> 0 < n;
    if r > 0 {
      forall i: nat ensures Bit(r / 2, i) <==> i < n - 1 {
        assert Bit(r, i + 1) <==> Bit(r / 2, i);
      }
      if n == 0 {
        OnesUpTo(r / 2, 0);
      } else {
        OnesUpTo(r / 2, n - 1);
      }
    }
  }

  lemma SmearedTop(v: nat, r: nat, n: nat, i: nat)
    requires 1 <= v < Pow2(n) && Smeared(v, r, n)
    ensures Bit(r, i) <==> i < FloorLog(v) + 1
  {
    FloorLogBelow(v, n);
    if i <= FloorLog(v) {
      TopBit(v, FloorLog(v));
    } else {
      forall j: nat | j >= i ensures !Bit(v, j) {
        TopBit(v, j);
      }
    }
  }

  lemma NextPower(n: nat)
    ensures Pow2(n + 1) == 2 * Pow2(n)
  {
  }

  lemma SmearZero()
    ensures Smear(0) == 0
  {
    SmearReach(0);
    forall j: nat ensures !Bit(0, j) {
      ShrZero(0, j);
    }
    OnesUpTo(Smear(0), 0);
  }

  /** Smearing sets every bit below the highest one, and no other. */
  lemma SmearFills(v: nat)
    requires v < Pow2(64)
    ensures v == 0 ==> Smear(v) == 0
    ensures v >= 1 ==> Smear(v) == 2 * Pow2(FloorLog(v)) - 1
  {
    hide Smear, Pow2, FloorLog, Bit;
    SmearReach(v);
    var r := Smear(v);
    if v == 0 {
      SmearZero();
    } else {
      forall i: nat ensures Bit(r, i) <==> i < FloorLog(v) + 1 {
        SmearedTop(v, r, 64, i);
      }
      OnesUpTo(r, FloorLog(v) + 1);
      NextPower(FloorLog(v));
    }
  }

  /** flp2: the greatest power of two that is at most `value`, and 0 for 0. */
  method Flp2(value: nat) returns (r: nat)
    requires value < WORD
    ensures value == 0 ==> r == 0
    ensures value >= 1 ==> r == Pow2(FloorLog(value))
  {
    var v := value;
    v := Or(v, Shr(v, 1));
    v := Or(v, Shr(v, 2));
    v := Or(v, Shr(v, 4));
    v := Or(v, Shr(v, 8));
    v := Or(v, Shr(v, 16));
    v := Or(v, Shr(v, 32));
    WordIsPow2();
    SmearFills(value);
    r := v - v / 2;
  }

  /** clp2: the least power of two that is at least `value` up to 2^63; 0 and anything larger wrap to 0. */
  method Clp2(value: nat) returns (r: nat)
    requires value < WORD
    ensures 1 <= value <= Pow2(63) ==> r == Pow2(CeilLog(value))
    ensures value == 0 || value > Pow2(63) ==> r == 0
  {
    var v := if value == 0 then WORD - 1 else value - 1;
    ghost var less := v;
    v := Or(v, Shr(v, 1));
    v := Or(v, Shr(v, 2));
    v := Or(v, Shr(v, 4));
    v := Or(v, Shr(v, 8));
    v := Or(v, Shr(v, 16));
    v := Or(v, Shr(v, 32));
    assert v == Smear(less);
    r := if v + 1 == WORD then 0 else v + 1;
    SmearedPlusOne(value, less);
  }

  lemma SmearedPlusOne(value: nat, less: nat)
    requires value < WORD && less == if value == 0 then WORD - 1 else value - 1
    ensures 1 <= value <= Pow2(63) ==> Smear(less) + 1 == Pow2(CeilLog(value)) < WORD
    ensures value == 0 || value > Pow2(63) ==> Smear(less) + 1 == WORD
  {
    WordIsPow2();
    SmearFills(less);
    if less >= 1 {
      CeilRange(less);
    }
  }

  lemma CeilRange(v: nat)
    requires 1 <= v < Pow2(64)
    ensures v < Pow2(63) ==> Pow2(FloorLog(v) + 1) <= Pow2(63)
    ensures v >= Pow2(63) ==> FloorLog(v) == 63
  {
    if v < Pow2(63) {
      FloorLogBelow(v, 63);
      Pow2Monotone(FloorLog(v) + 1, 63);
    } else {
      FloorLogUnique(v, 63);
    }
  }

  // ---- ilog2 ----

  /** One ROUND step: when a bit of the upper half of a 2w-bit field is set, shift it down. */
  method Round(v: nat, p: nat, w: nat) returns (v': nat, p': nat)
    requires v < Pow2(w + w)
    ensures v' < Pow2(w)
    ensures v == 0 ==> v' == 0 && p' == p
    ensures v >= 1 ==> v' >= 1 && p' + FloorLog(v') == p + FloorLog(v)
  {
    v', p' := v, p;
    AndMask(v, w, w + w);
    LowWhole(v, w);
    ShrZero(v, w);
    ShrBelow(v, w, w);
    if And(v, Pow2(w + w) - Pow2(w)) != 0 {
      FloorLogShift(v, w);
      p' := p' + w;
      v' := Shr(v', w);
    }
  }

  method Ilog32(v32: nat, p32: nat) returns (p: nat)
    requires v32 < Pow2(32)
    ensures v32 == 0 ==> p == p32
    ensures v32 >= 1 ==> p == p32 + FloorLog(v32)
  {
    var v;
    v, p := Round(v32, p32, 16);
    v, p := Round(v, p, 8);
    v, p := Round(v, p, 4);
    v, p := Round(v, p, 2);
    v, p := Round(v, p, 1);
  }

  lemma HighHalf(vv: nat, w: nat)
    requires vv < Pow2(w + w)
    ensures Shr(vv, w) < Pow2(w) && Low(vv, w) < Pow2(w)
    ensures Shr(vv, w) == 0 ==> Low(vv, w) == vv
    ensures Shr(vv, w) != 0 ==> vv >= 1 && FloorLog(vv) == w + FloorLog(Shr(vv, w))
  {
    ShrZero(vv, w);
    ShrBelow(vv, w, w);
    LowWhole(vv, w);
    if Shr(vv, w) != 0 {
      FloorLogShift(vv, w);
    }
  }

  /** ilog2: the floor of the binary logarithm, and 0 for 0. */
  method Ilog2(vv: nat) returns (p: nat)
    requires vv < WORD
    ensures vv == 0 ==> p == 0
    ensures vv >= 1 ==> p == FloorLog(vv)
  {
    WordIsPow2();
    HighHalf(vv, 32);
    var v := Shr(vv, 32);
    if v != 0 {
      p := Ilog32(v, 32);
    } else {
      p := Ilog32(Low(vv, 32), 0);
    }
  }

  // ---- upow ----

  function Pow(b: nat, e: nat): nat
  {
    if e == 0 then 1 else b * Pow(b, e - 1)
  }

  lemma {:induction false} PowSquare(b: nat, n: nat)
    ensures Pow(b * b, n) == Pow(b, 2 * n)
  {
    if n > 0 {
      PowSquare(b, n - 1);
      assert Pow(b, 2 * n) == b * Pow(b, 2 * n - 1) == b * (b * Pow(b, 2 * n - 2));
    }
  }

  lemma DivBounds(v: nat, d: nat, q: nat, r: nat)
    requires d > 0 && q * d + r <= v
    ensures v / d >= q
  {
    var p := v / d;
    assert v < (p + 1) * d;
    assert q > p ==> q * d >= (p + 1) * d;
  }

  lemma DivBelow(v: nat, d: nat, q: nat)
    requires d > 0 && v < q * d
    ensures v / d < q
  {
    var p := v / d;
    assert p * d <= v;
    assert p >= q ==> p * d >= q * d;
  }

  /** `x` and `y` leave the same remainder modulo `m`. */
  predicate Cong(x: nat, y: nat, m: nat)
    requires m > 0
  {
    x % m == y % m
  }

  lemma CongMul(a: nat, a': nat, b: nat, m: nat)
    requires m > 0 && Cong(a, a', m)
    ensures Cong(a * b, a' * b, m) && Cong(b * a, b * a', m)
  {
    ReduceMul(a, b, m);
    ReduceMul(a', b, m);
  }

  lemma ReduceMul(a: nat, b: nat, m: nat)
    requires m > 0
    ensures (a * b) % m == ((a % m) * b) % m
  {
    var q, r := a / m, a % m;
    assert a == q * m + r;
    assert (q * m + r) * b == (q * m) * b + r * b;
    assert (q * m) * b == (q * b) * m;
    AddMultiple(r * b, q * b, m);
  }

  lemma {:induction false} AddMultiple(x: nat, k: nat, d: nat)
    requires d > 0
    ensures (k * d + x) % d == x % d
  {
    if k > 0 {
      AddMultiple(x, k - 1, d);
      assert k * d + x == ((k - 1) * d + x) + d;
      OneMore((k - 1) * d + x, d);
    }
  }

  lemma OneMore(y: nat, d: nat)
    requires d > 0
    ensures (y + d) % d == y % d
  {
    var q, r := y / d, y % d;
    assert y + d == (q + 1) * d + r;
    QuotientRemainder(y + d, d, q + 1, r);
  }

  lemma QuotientRemainder(y: nat, d: nat, q: nat, r: nat)
    requires d > 0 && y == q * d + r && r < d
    ensures y / d == q && y % d == r
  {
    DivBounds(y, d, q, r);
    assert (q + 1) * d == q * d + d;
    DivBelow(y, d, q + 1);
  }

  lemma {:induction false} CongPow(a: nat, a': nat, n: nat, m: nat)
    requires m > 0 && Cong(a, a', m)
    ensures Cong(Pow(a, n), Pow(a', n), m)
  {
    if n > 0 {
      CongPow(a, a', n - 1, m);
      CongMul(a, a', Pow(a, n - 1), m);
      CongMul(Pow(a, n - 1), Pow(a', n - 1), a', m);
    }
  }

  lemma CongReduce(a: nat, m: nat)
    requires m > 0
    ensures Cong(a % m, a, m)
  {
    QuotientRemainder(a % m, m, 0, a % m);
  }

  /** The odd step of square-and-multiply. */
  lemma OddStep(y: nat, p: nat, e: nat, m: nat)
    requires m > 0 && e % 2 == 1
    ensures Cong(((p * y) % m) * Pow(p, 2 * (e / 2)), y * Pow(p, e), m)
  {
    CongReduce(p * y, m);
    CongMul((p * y) % m, p * y, Pow(p, e - 1), m);
    assert (p * y) * Pow(p, e - 1) == y * (p * Pow(p, e - 1));
  }

  /** The squaring step of square-and-multiply. */
  lemma SquareStep(y: nat, p: nat, e: nat, m: nat)
    requires m > 0
    ensures Cong(y * Pow((p * p) % m, e), y * Pow(p, 2 * e), m)
  {
    PowSquare(p, e);
    CongReduce(p * p, m);
    CongPow((p * p) % m, p * p, e, m);
    CongMul(Pow((p * p) % m, e), Pow(p * p, e), y, m);
  }

  /** Multiplication in a word. */
  function Mul(a: nat, b: nat, m: nat): (r: nat)
    requires m > 0
    ensures r < m
  {
    (a * b) % m
  }

  /** What is still to be multiplied into `y` is p^e. */
  ghost predicate Remains(y: nat, p: nat, e: nat, goal: nat, m: nat)
    requires m > 0
  {
    y < m && Cong(y * Pow(p, e), goal, m)
  }

  lemma RemainsAll(base: nat, exp: nat, m: nat)
    requires m > 1
    ensures Remains(1, base, exp, Pow(base, exp), m)
  {
  }

  lemma OddKeeps(y: nat, p: nat, e: nat, goal: nat, m: nat)
    requires m > 0 && Remains(y, p, e, goal, m) && e % 2 == 1
    ensures Remains(Mul(p, y, m), p, 2 * (e / 2), goal, m)
  {
    OddStep(y, p, e, m);
  }

  lemma EvenKeeps(y: nat, p: nat, e: nat, goal: nat, m: nat)
    requires m > 0 && Remains(y, p, e, goal, m) && e % 2 == 0
    ensures Remains(y, p, 2 * (e / 2), goal, m)
  {
  }

  lemma SquareKeeps(y: nat, p: nat, e: nat, goal: nat, m: nat)
    requires m > 0 && Remains(y, p, 2 * e, goal, m)
    ensures Remains(y, Mul(p, p, m), e, goal, m)
  {
    SquareStep(y, p, e, m);
  }

  lemma NothingRemains(y: nat, p: nat, goal: nat, m: nat)
    requires m > 0 && Remains(y, p, 0, goal, m)
    ensures y == goal % m
  {
    QuotientRemainder(y, m, 0, y);
  }

  /** Square-and-multiply in words that hold the integers below `word`. */
  method PowerIn(base: nat, exp: nat, word: nat) returns (r: nat)
    requires word > 1
    ensures r == Pow(base, exp) % word
  {
    hide Remains, Mul, Pow;
    ghost var goal := Pow(base, exp);
    var y: nat, p: nat, e: nat := 1, base, exp;
    RemainsAll(base, exp, word);
    while true
      invariant Remains(y, p, e, goal, word)
      decreases e
    {
      if e % 2 == 1 {
        OddKeeps(y, p, e, goal, word);
        y := Mul(p, y, word);
      } else {
        EvenKeeps(y, p, e, goal, word);
      }
      e := e / 2;
      if e == 0 {
        NothingRemains(y, p, goal, word);
        return y;
      }
      SquareKeeps(y, p, e, goal, word);
      p := Mul(p, p, word);
    }
  }

  /** upow: exponentiation modulo 2^64. */
  method Upow(base: nat, exp: nat) returns (r: nat)
    requires base < WORD && exp < WORD
    ensures r == Pow(base, exp) % WORD
  {
    r := PowerIn(base, exp, WORD);
  }

  lemma {:induction false} PowOfTwo(n: nat)
    ensures Pow(2, n) == Pow2(n)
  {
    if n > 0 {
      PowOfTwo(n - 1);
    }
  }

  lemma PowerTest(v: nat)
    requires v >= 1
    ensures v == Pow2(CeilLog(v)) <==> v == Pow2(FloorLog(v))
  {
    if v == Pow2(CeilLog(v)) {
      FloorLogUnique(v, CeilLog(v));
    } else if v == Pow2(FloorLog(v)) {
      if CeilLog(v) < FloorLog(v) {
        Pow2Monotone(CeilLog(v), FloorLog(v));
      } else if CeilLog(v) > FloorLog(v) {
        Pow2Monotone(FloorLog(v), CeilLog(v) - 1);
      }
    }
  }

  // ---- round_up_po2 ----

  /** round_up_po2 on n-bit words, for the power of two 2^e. */
  function RoundUpIn(value: nat, e: nat, n: nat): nat
    requires value < Pow2(n) && e < n
  {
    Pow2Monotone(e, n);
    var sum := value + Pow2(e) - 1;
    And(if sum < Pow2(n) then sum else sum - Pow2(n), Pow2(n) - Pow2(e))
  }

  function RoundUpPo2(value: nat, e: nat): nat
    requires value < WORD && e < 64
  {
    WordIsPow2();
    RoundUpIn(value, e, 64)
  }

  lemma MaskClears(a: nat, e: nat, n: nat)
    requires a < Pow2(n) && e <= n
    ensures Pow2(e) <= Pow2(n)
    ensures var r := And(a, Pow2(n) - Pow2(e)); Low(r, e) == 0 && r <= a < r + Pow2(e) && (a < Pow2(e) ==> r == 0)
  {
    AndMask(a, e, n);
    LowWhole(a, e);
  }

  /** round_up_po2: the least multiple of 2^e that is at least `value`, or 0 when the sum wraps. */
  lemma RoundUpIsLeastMultiple(value: nat, e: nat, n: nat)
    requires value < Pow2(n) && e < n
    ensures Low(RoundUpIn(value, e, n), e) == 0
    ensures value + Pow2(e) - 1 < Pow2(n) ==> value <= RoundUpIn(value, e, n) < value + Pow2(e)
    ensures value + Pow2(e) - 1 >= Pow2(n) ==> RoundUpIn(value, e, n) == 0
  {
    Pow2Monotone(e, n);
    var sum := value + Pow2(e) - 1;
    MaskClears(if sum < Pow2(n) then sum else sum - Pow2(n), e, n);
  }
}
