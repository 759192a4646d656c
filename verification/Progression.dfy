/** Daily orders of app/core/src/progression.rs: Euclid's loop, the coprime-stride search and the
    walk through the pool. */
module Progression {
  import opened Arith
  import opened Sets
  import opened Bytes

  const POOL_SIZE: nat := 12
  const SLATE_SIZE: nat := 3

  // ------------------------------------------------------------------ divisibility ---

  ghost predicate Divides(d: int, n: int) {
    exists k: int :: n == d * k
  }

  lemma DividesLinear(d: int, a: int, b: int, x: int, y: int)
    requires Divides(d, a) && Divides(d, b)
    ensures Divides(d, a * x + b * y)
  {
    var j :| a == d * j;
    var k :| b == d * k;
    assert a * x == d * (j * x) && b * y == d * (k * y);
    assert a * x + b * y == d * (j * x + k * y);
  }

  ghost predicate Common(d: int, a: int, b: int) {
    Divides(d, a) && Divides(d, b)
  }

  /** One step of Euclid's algorithm keeps the common divisors. */
  lemma EuclidStep(d: int, a: nat, b: nat)
    requires b > 0
    ensures Common(d, a, b) <==> Common(d, b, Remainder(a, b))
  {
    QuotientRemainder(a, b);
    var q, r := Quotient(a, b), Remainder(a, b);
    assert a * 1 + b * (-q) == r && b * q + r * 1 == a by {
      assert b * q == q * b && b * (-q) == -(q * b);
    }
    if Common(d, a, b) {
      DividesLinear(d, a, b, 1, -q);
    }
    if Common(d, b, r) {
      DividesLinear(d, b, r, q, 1);
    }
  }

  /** What the loop computes, with the coefficients that witness it. */
  ghost predicate IsGcd(g: int, a: nat, b: nat) {
    && Common(g, a, b)
    && (forall d :: Common(d, a, b) ==> Divides(d, g))
    && exists x: int, y: int :: Combines(g, a, b, x, y)
  }

  predicate Combines(g: int, a: int, b: int, x: int, y: int) {
    g == a * x + b * y
  }

  lemma CombineStep(a: nat, b: nat, a0: nat, b0: nat, x1: int, y1: int, x2: int, y2: int)
    requires b > 0 && Combines(a, a0, b0, x1, y1) && Combines(b, a0, b0, x2, y2)
    ensures var q := Quotient(a, b);
            Combines(Remainder(a, b), a0, b0, x1 - q * x2, y1 - q * y2)
  {
    QuotientRemainder(a, b);
    var q := Quotient(a, b);
    assert a0 * (x1 - q * x2) == a0 * x1 - q * (a0 * x2);
    assert b0 * (y1 - q * y2) == b0 * y1 - q * (b0 * y2);
    assert q * (a0 * x2 + b0 * y2) == q * (a0 * x2) + q * (b0 * y2);
  }

  lemma Trivially(d: int, n: int)
    ensures Divides(d, 0) && Divides(n, n) && Divides(1, n)
  {
    assert 0 == d * 0 && n == n * 1 && n == 1 * n;
  }

  /** Two pairs with the same common divisors. */
  ghost predicate SameCommon(a: nat, b: nat, a0: nat, b0: nat) {
    forall d :: Common(d, a, b) <==> Common(d, a0, b0)
  }

  lemma SameCommonStep(a: nat, b: nat, a0: nat, b0: nat)
    requires b > 0 && SameCommon(a, b, a0, b0)
    ensures SameCommon(b, Remainder(a, b), a0, b0)
  {
    forall d ensures Common(d, b, Remainder(a, b)) <==> Common(d, a0, b0) {
      EuclidStep(d, a, b);
    }
  }

  lemma GcdDone(a: nat, a0: nat, b0: nat, x: int, y: int)
    requires SameCommon(a, 0, a0, b0) && Combines(a, a0, b0, x, y)
    ensures IsGcd(a, a0, b0)
  {
    Trivially(a, a);
    assert Common(a, a, 0);
    forall d | Common(d, a0, b0) ensures Divides(d, a) {
      assert Common(d, a, 0);
    }
  }

  /** `gcd`: the greatest common divisor, and 1 for two zeros. */
  method Gcd(a0: nat, b0: nat) returns (g: nat)
    ensures a0 == b0 == 0 ==> g == 1
    ensures a0 > 0 || b0 > 0 ==> g > 0 && IsGcd(g, a0, b0)
  {
    hide SameCommon, Combines, IsGcd;
    var a, b := a0, b0;
    ghost var x1: int, y1: int, x2: int, y2: int := 1, 0, 0, 1;
    GcdStart(a, b);
    while b != 0
      invariant SameCommon(a, b, a0, b0)
      invariant Combines(a, a0, b0, x1, y1) && Combines(b, a0, b0, x2, y2)
      invariant a0 > 0 || b0 > 0 <==> a > 0 || b > 0
      decreases b
    {
      var t := Remainder(a, b);
      SameCommonStep(a, b, a0, b0);
      CombineStep(a, b, a0, b0, x1, y1, x2, y2);
      ghost var q := Quotient(a, b);
      x1, y1, x2, y2 := x2, y2, x1 - q * x2, y1 - q * y2;
      a := b;
      b := t;
    }
    if a == 0 {
      return 1;
    }
    GcdDone(a, a0, b0, x1, y1);
    return a;
  }

  lemma GcdStart(a: nat, b: nat)
    ensures SameCommon(a, b, a, b) && Combines(a, a, b, 1, 0) && Combines(b, a, b, 0, 1)
  {
  }

  ghost predicate Coprime(a: nat, b: nat) {
    forall d :: Common(d, a, b) ==> Divides(d, 1)
  }

  lemma CoprimeIsGcdOne(g: nat, a: nat, b: nat)
    requires g > 0 && IsGcd(g, a, b)
    ensures g == 1 <==> Coprime(a, b)
  {
    if Coprime(a, b) {
      assert Divides(g, 1);
      var k :| 1 == g * k;
      assert k >= 1;
      MulAtLeast(g, k);
    }
  }

  /** The search always ends: one past the pool size is coprime to it. */
  lemma SuccessorCoprime(n: nat)
    ensures Coprime(n + 1, n)
  {
    forall d | Common(d, n + 1, n) ensures Divides(d, 1) {
      DividesLinear(d, n + 1, n, 1, -1);
    }
  }

  lemma CoprimeCombines(a: nat, b: nat, g: nat) returns (x: int, y: int)
    requires g == 1 && IsGcd(g, a, b)
    ensures a * x + b * y == 1
  {
    x, y :| Combines(g, a, b, x, y);
  }

  // ----------------------------------------------------------------------- the walk ---

  function Position(start: nat, stride: nat, step: nat, count: nat): (p: nat)
    requires count > 0
    ensures p < count
  {
    Remainder(start + stride * step, count)
  }

  lemma SameRemainder(a: nat, b: nat, n: nat)
    requires n > 0
    ensures Remainder(a, n) == Remainder(b, n) <==> Divides(n, a - b)
  {
    QuotientRemainder(a, n);
    QuotientRemainder(b, n);
    var qa: int, qb: int, ra: int, rb: int := Quotient(a, n), Quotient(b, n), Remainder(a, n), Remainder(b, n);
    assert a - b == n * (qa - qb) + (ra - rb) by {
      assert n * (qa - qb) == qa * n - qb * n;
    }
    if ra == rb {
      assert a - b == n * (qa - qb);
    }
    if Divides(n, a - b) {
      var k :| a - b == n * k;
      var m := k - (qa - qb);
      assert ra - rb == n * m by {
        assert n * m == n * k - n * (qa - qb);
      }
      SmallMultiple(n, m, ra - rb);
    }
  }

  lemma SmallMultiple(n: nat, m: int, v: int)
    requires n > 0 && v == n * m && v < n && n + v > 0
    ensures v == 0
  {
    if m >= 1 {
      MulAtLeast(n, m);
    } else if m <= -1 {
      MulAtLeast(n, -m);
    }
  }

  lemma CancelStride(stride: int, count: int, x: int, y: int, e: int, k: int)
    requires stride * x + count * y == 1 && stride * e == count * k
    ensures e == count * (k * x + y * e)
  {
    assert e == e * (stride * x + count * y);
    assert e * (stride * x + count * y) == (stride * e) * x + count * (y * e);
    assert (count * k) * x + count * (y * e) == count * (k * x + y * e);
  }

  /** Two steps of the walk meet only if they are a multiple of the pool size apart. */
  lemma WalkInjective(start: nat, stride: nat, count: nat, x: int, y: int, i: nat, j: nat)
    requires count > 0 && stride * x + count * y == 1
    requires i < count && j < count
    ensures Position(start, stride, i, count) == Position(start, stride, j, count) <==> i == j
  {
    if Position(start, stride, i, count) == Position(start, stride, j, count) {
      var e := i - j;
      SameRemainder(start + stride * i, start + stride * j, count);
      assert start + stride * i - (start + stride * j) == stride * e by {
        assert stride * e == stride * i - stride * j;
      }
      var k :| stride * e == count * k;
      CancelStride(stride, count, x, y, e, k);
      SmallMultiple(count, k * x + y * e, e);
    }
  }

  /** The equation that the step solves. */
  lemma StepSolves(stride: int, count: int, x: int, y: int, e: int, q: int, i: int)
    requires stride * x + count * y == 1 && x * e == count * q + i
    ensures stride * i - e == count * (-y * e - stride * q)
  {
    assert stride * (x * e) == (stride * x) * e;
    assert (stride * x) * e == (1 - count * y) * e;
    assert (1 - count * y) * e == e - count * (y * e);
    assert stride * (count * q + i) == count * (stride * q) + stride * i;
    assert count * (-y * e - stride * q) == -(count * (y * e)) - count * (stride * q);
  }

  /** Every entry is met at some step below the pool size. */
  lemma WalkReaches(start: nat, stride: nat, count: nat, x: int, y: int, p: nat) returns (i: nat)
    requires count > 0 && stride * x + count * y == 1 && p < count
    ensures i < count && Position(start, stride, i, count) == p
  {
    var w := x * (p - start);
    i := w % count;
    var q := w / count;
    assert w == count * q + i;
    StepSolves(stride, count, x, y, p - start, q, i);
    hide Remainder;
    assert Divides(count, start + stride * i - p);
    SameRemainder(start + stride * i, p, count);
    DivMod(0, count, p);
  }

  ghost predicate Visits(start: nat, stride: nat, count: nat, p: nat)
    requires count > 0
  {
    exists i: nat :: i < count && Position(start, stride, i, count) == p
  }

  /** With a stride coprime to it, a pool of any size is walked through completely and without
      repetition in as many steps as it has entries. */
  lemma WalkVisitsAll(start: nat, stride: nat, count: nat, g: nat)
    requires count > 0 && IsGcd(g, stride, count) && g == 1
    ensures forall i, j :: 0 <= i < j < count ==> Position(start, stride, i, count) != Position(start, stride, j, count)
    ensures forall p :: 0 <= p < count ==> Visits(start, stride, count, p)
  {
    var x, y := CoprimeCombines(stride, count, g);
    forall i, j | 0 <= i < j < count
      ensures Position(start, stride, i, count) != Position(start, stride, j, count)
    {
      WalkInjective(start, stride, count, x, y, i, j);
    }
    forall p | 0 <= p < count ensures Visits(start, stride, count, p) {
      var i := WalkReaches(start, stride, count, x, y, p);
    }
  }

  // ---------------------------------------------------------------------- the slate ---

  const SEED_STEP: int := 6_364_136_223_846_793_005
  const SEED_START: int := 1_442_695_040_888_963_407

  /** The day, as an unsigned word, mixed by one step of a linear congruential generator. */
  function Seed(day: int): (s: nat)
    ensures s < TWO_64
  {
    (day % TWO_64 * SEED_STEP + SEED_START) % TWO_64
  }


  /** Inverse of the step modulo 2^64. */
  const SEED_BACK: int := 13_877_824_140_714_322_085

  lemma SameModulo(a: int, b: int, m: int)
    requires m > 0
    ensures a % m == b % m <==> Divides(m, a - b)
  {
    var q := a / m - b / m;
    assert a == m * (a / m) + a % m && b == m * (b / m) + b % m;
    assert m * q == m * (a / m) - m * (b / m);
    if a % m == b % m {
      assert a - b == m * q;
    }
    if Divides(m, a - b) {
      var k :| a - b == m * k;
      var v := a % m - b % m;
      assert m * (k - q) == m * k - m * q;
      assert v == m * (k - q);
      SmallProduct(m, k - q, v);
    }
  }

  lemma SmallProduct(m: int, k: int, v: int)
    requires m > 0 && v == m * k && -m < v < m
    ensures v == 0
  {
    if k >= 1 {
      MulAtLeast(m, k);
    }
    if k <= -1 {
      MulAtLeast(m, -k);
    }
  }

  lemma Commute(x: int, y: int, z: int)
    ensures (x * y) * z == x * (y * z) && x * y == y * x && (x + y) * z == x * z + y * z
  {
  }

  /** Reducing a factor first makes no difference. */
  lemma ScaleModulo(a: int, x: int, y: int, m: int)
    requires m > 0
    ensures (a % m * x + y) % m == (a * x + y) % m
  {
    var q, r := a / m, a % m;
    assert a == m * q + r;
    Commute(m * q, r, x);
    Commute(m, q, x);
    assert a * x + y - (r * x + y) == m * (q * x);
    SameModulo(a * x + y, r * x + y, m);
  }

  /** Nor does reducing a summand. */
  lemma StepModulo(v: int, s: int, m: int)
    requires m > 0
    ensures (v % m + s) % m == (v + s) % m
  {
    var q, r := v / m, v % m;
    assert v == m * q + r;
    assert v + s - (r + s) == m * q;
    SameModulo(v + s, r + s, m);
  }

  lemma Cancelled(e: int, x: int, back: int, j: int, k: int, m: int)
    requires e * x == m * k && x * back == 1 + m * j
    ensures e == m * (k * back - e * j)
  {
    Commute(e, x, back);
    Commute(m, k, back);
    assert e * (x * back) == m * (k * back);
    Commute(1, m * j, e);
    Commute(e, 1 + m * j, 0);
    Commute(m, j, e);
    Commute(j, e, 0);
    assert e * (1 + m * j) == e + m * (e * j);
    Commute(k * back, -(e * j), m);
    Commute(m, k * back - e * j, 0);
    Commute(m, k * back, 0);
    Commute(m, e * j, 0);
    Commute(-1, e * j, m);
  }

  /** A factor with an inverse can be taken away again. */
  lemma Unscaled(c: int, d: int, x: int, y: int, back: int, j: int, m: int)
    requires m > 0 && x * back == 1 + m * j
    ensures (c * x + y) % m == (d * x + y) % m <==> c % m == d % m
  {
    if (c * x + y) % m == (d * x + y) % m {
      SameModulo(c * x + y, d * x + y, m);
      var k :| c * x + y - (d * x + y) == m * k;
      Commute(c, -d, x);
      Commute(-1, d, x);
      assert (c - d) * x == m * k;
      Cancelled(c - d, x, back, j, k, m);
      assert Divides(m, c - d);
      SameModulo(c, d, m);
    }
    if c % m == d % m {
      ScaleModulo(c, x, y, m);
      ScaleModulo(d, x, y, m);
    }
  }

  /** Seeds start at a fixed value and go on by a fixed step, wrapping around; two days share a seed only if they
      are a multiple of 2^64 apart. */
  lemma SeedExactly(a: int, b: int)
    ensures Seed(0) == SEED_START
    ensures Seed(a + 1) == (Seed(a) + SEED_STEP) % TWO_64
    ensures Seed(a) == Seed(b) <==> a % TWO_64 == b % TWO_64
  {
    hide Seed;
    SeedWhole(a);
    SeedWhole(b);
    SeedNext(a);
    StepBack();
    Unscaled(a, b, SEED_STEP, SEED_START, SEED_BACK, (SEED_STEP * SEED_BACK - 1) / TWO_64, TWO_64);
  }

  lemma StepBack()
    ensures SEED_STEP * SEED_BACK == 1 + TWO_64 * ((SEED_STEP * SEED_BACK - 1) / TWO_64)
    ensures Seed(0) == SEED_START
  {
  }

  lemma SeedWhole(day: int)
    ensures Seed(day) == (day * SEED_STEP + SEED_START) % TWO_64
  {
    ScaleModulo(day, SEED_STEP, SEED_START, TWO_64);
  }

  lemma SeedNext(a: int)
    ensures Seed(a + 1) == (Seed(a) + SEED_STEP) % TWO_64
  {
    hide Seed;
    SeedWhole(a);
    SeedWhole(a + 1);
    Commute(a, 1, SEED_STEP);
    StepModulo(a * SEED_STEP + SEED_START, SEED_STEP, TWO_64);
  }

  /** The first stride from `first` on that is coprime to the pool size. */
  method FindStride(first: nat, count: nat) returns (stride: nat)
    requires 0 < first <= count
    ensures first <= stride <= count + 1 && IsGcd(1, stride, count)
    ensures forall s :: first <= s < stride ==> !Coprime(s, count)
  {
    stride := first;
    var g := Gcd(stride, count);
    CoprimeIsGcdOne(g, stride, count);
    while g != 1
      invariant first <= stride <= count + 1
      invariant g > 0 && IsGcd(g, stride, count) && (g == 1 <==> Coprime(stride, count))
      invariant forall s :: first <= s < stride ==> !Coprime(s, count)
      decreases count + 1 - stride
    {
      if stride == count + 1 {
        SuccessorCoprime(count);
        assert false;
      }
      stride := stride + 1;
      g := Gcd(stride, count);
      CoprimeIsGcdOne(g, stride, count);
    }
  }

  /** Where the search for a stride begins on a given day. */
  function FirstStride(day: int, count: nat): (f: nat)
    requires count > 0
    ensures 0 < f <= count
  {
    Remainder(Seed(day) / 0x1_0000_0000, count) + 1
  }

  /** The first steps of the walk from the day's start, by the first suitable stride. */
  ghost predicate IsSlate(day: int, count: nat, slate: seq<nat>, stride: nat)
    requires count > 0
  {
    && |slate| == (if SLATE_SIZE < count then SLATE_SIZE else count)
    && (forall i :: 0 <= i < |slate| ==> slate[i] == Position(Remainder(Seed(day), count), stride, i, count))
    && FirstStride(day, count) <= stride && IsGcd(1, stride, count)
    && forall s :: FirstStride(day, count) <= s < stride ==> !Coprime(s, count)
  }

  /** `slate_for_day`, as positions in a pool of any size. */
  method Slate(day: int, count: nat) returns (slate: seq<nat>, ghost stride: nat)
    requires count > 0
    ensures IsSlate(day, count, slate, stride)
    ensures Distinct(slate) && forall i :: 0 <= i < |slate| ==> slate[i] < count
  {
    hide IsGcd, Coprime;
    var wanted := if SLATE_SIZE < count then SLATE_SIZE else count;
    var start := Remainder(Seed(day), count);
    var s := FindStride(FirstStride(day, count), count);
    stride := s;
    slate := [];
    while |slate| < wanted
      invariant |slate| <= wanted
      invariant forall i :: 0 <= i < |slate| ==> slate[i] == Position(start, s, i, count)
    {
      slate := slate + [Remainder(start + s * |slate|, count)];
    }
    WalkVisitsAll(start, s, count, 1);
  }

  /** Every day has three distinct orders, and the day alone decides which. */
  method SlateForDay(day: int) returns (slate: seq<nat>, ghost stride: nat)
    ensures IsSlate(day, POOL_SIZE, slate, stride)
    ensures |slate| == SLATE_SIZE && Distinct(slate) && forall i :: 0 <= i < SLATE_SIZE ==> slate[i] < POOL_SIZE
  {
    hide IsGcd, Coprime, Position;
    slate, stride := Slate(day, POOL_SIZE);
  }

  lemma SeedsOfDays()
    ensures Seed(0) == 1_442_695_040_888_963_407 && Seed(1) == 7_806_831_264_735_756_412
    ensures Seed(-1) == 13_525_302_890_751_722_018
  {
  }

  lemma CommonApart(d: int, a: int, b: int, x: int, y: int)
    requires Common(d, a, b) && a * x + b * y == 1
    ensures Divides(d, 1)
  {
    DividesLinear(d, a, b, x, y);
  }

  lemma CoprimeTo12()
    ensures Coprime(5, 12) && Coprime(11, 12) && !Coprime(10, 12)
  {
    forall d | Common(d, 5, 12) ensures Divides(d, 1) {
      CommonApart(d, 5, 12, 5, -2);
    }
    forall d | Common(d, 11, 12) ensures Divides(d, 1) {
      CommonApart(d, 11, 12, -1, 1);
    }
    assert 10 == 2 * 5 && 12 == 2 * 6;
    assert Common(2, 10, 12) && !Divides(2, 1);
  }

  /** The first suitable stride from 5, 10 and 11 on. */
  lemma FirstStrides(first: nat, stride: nat)
    requires first <= stride && IsGcd(1, stride, 12) && forall s :: first <= s < stride ==> !Coprime(s, 12)
    ensures first == 5 ==> stride == 5
    ensures first == 10 || first == 11 ==> stride == 11
  {
    hide IsGcd, Coprime;
    CoprimeTo12();
    CoprimeIsGcdOne(1, stride, 12);
  }

  lemma StartsOfDays()
    ensures Remainder(Seed(0), 12) == 7 && FirstStride(0, 12) == 11
    ensures Remainder(Seed(1), 12) == 4 && FirstStride(1, 12) == 5
    ensures Remainder(Seed(-1), 12) == 2 && FirstStride(-1, 12) == 10
  {
    hide Seed;
    SeedsOfDays();
  }

  lemma WalkFrom(start: nat, stride: nat, slate: seq<nat>)
    requires |slate| == 3 && forall i :: 0 <= i < 3 ==> slate[i] == Position(start, stride, i, 12)
    ensures start == 7 && stride == 11 ==> slate == [7, 6, 5]
    ensures start == 4 && stride == 5 ==> slate == [4, 9, 2]
    ensures start == 2 && stride == 11 ==> slate == [2, 1, 0]
  {
    Positions();
    hide Position;
    assert slate == [slate[0], slate[1], slate[2]];
  }

  lemma Positions()
    ensures Position(7, 11, 0, 12) == 7 && Position(7, 11, 1, 12) == 6 && Position(7, 11, 2, 12) == 5
    ensures Position(4, 5, 0, 12) == 4 && Position(4, 5, 1, 12) == 9 && Position(4, 5, 2, 12) == 2
    ensures Position(2, 11, 0, 12) == 2 && Position(2, 11, 1, 12) == 1 && Position(2, 11, 2, 12) == 0
  {
    hide Position;
    PositionIs(7, 11, 0, 7, 0);
    PositionIs(7, 11, 1, 18, 1);
    PositionIs(7, 11, 2, 29, 2);
    PositionIs(4, 5, 0, 4, 0);
    PositionIs(4, 5, 1, 9, 0);
    PositionIs(4, 5, 2, 14, 1);
    PositionIs(2, 11, 0, 2, 0);
    PositionIs(2, 11, 1, 13, 1);
    PositionIs(2, 11, 2, 24, 2);
  }

  lemma PositionIs(start: nat, stride: nat, step: nat, sum: nat, rounds: nat)
    requires start + stride * step == sum && 0 <= sum - 12 * rounds < 12
    ensures Position(start, stride, step, 12) == sum - 12 * rounds
  {
    DivMod(rounds, 12, sum - 12 * rounds);
  }

  /** The orders of three days, one of them before the epoch. */
  lemma SlatesOfDays(day: int, slate: seq<nat>, stride: nat)
    requires IsSlate(day, POOL_SIZE, slate, stride)
    ensures day == 0 ==> slate == [7, 6, 5] && stride == 11
    ensures day == 1 ==> slate == [4, 9, 2] && stride == 5
    ensures day == -1 ==> slate == [2, 1, 0] && stride == 11
  {
    hide Seed, Coprime, IsGcd, FirstStride, Remainder, Position;
    StartsOfDays();
    FirstStrides(FirstStride(day, POOL_SIZE), stride);
    WalkFrom(Remainder(Seed(day), POOL_SIZE), stride, slate);
  }

  /** Two devices agree on a day without talking to each other. */
  lemma SlateDetermined(day: int, count: nat, a: seq<nat>, strideA: nat, b: seq<nat>, strideB: nat)
    requires count > 0 && IsSlate(day, count, a, strideA) && IsSlate(day, count, b, strideB)
    ensures a == b && strideA == strideB
  {
    CoprimeIsGcdOne(1, strideA, count);
    CoprimeIsGcdOne(1, strideB, count);
  }
}
