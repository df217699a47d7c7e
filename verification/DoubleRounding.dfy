/** Rounding a half operation to double first and then narrowing is innocuous: sums and products are exact in
    double, and a fused multiply-add or a quotient never rounds onto a half midpoint it did not lie on. */
module DoubleRounding {
  import opened Powers
  import opened Rounding
  import opened Half
  import opened HalfProofs

  // ----- when two rationals narrow alike -----

  /** The two rationals lie on the same side of t / 2. */
  ghost predicate SameSide(n: nat, d: nat, n': nat, d': nat, t: nat) {
    && (2 * n < t * d <==> 2 * n' < t * d')
    && (2 * n > t * d <==> 2 * n' > t * d')
  }

  /** The same side of every boundary of the half format: 2^-14 and the midpoints up to overflow. */
  ghost predicate SameSides(n: nat, d: nat, n': nat, d': nat) {
    && (n < 0x400 * d <==> n' < 0x400 * d')
    && forall b: nat | 0x400 <= b < INF16 :: SameSide(n, d, n', d', Midpoint2(11, b))
  }

  lemma SameSidesAgree(n: nat, d: nat, n': nat, d': nat, h: nat)
    requires d > 0 && d' > 0 && SameSides(n, d, n', d') && DirectMagnitude(n', d', h)
    ensures DirectMagnitude(n, d, h)
  {
    hide Value, NearestEven;
    if n >= 0x400 * d {
      var b': nat :| NearestEven(11, n', d', b') && h == if b' > INF16 then INF16 else b';
      Landmarks();
      NearestMono(11, n', d', b', 0x400);
      if b' < INF16 {
        NearestIsAround(11, n', d', b');
        assert SameSide(n, d, n', d', Midpoint2(11, b'));
        if b' > 0x400 {
          assert SameSide(n, d, n', d', Midpoint2(11, b' - 1));
        } else {
          ValueStep(11, 0x3ff);
          ScaledLess(Midpoint2(11, 0x3ff), 0x800, d);
        }
        AroundIsNearest(11, n, d, b');
      } else {
        var b := NearestExists(11, n, d);
        assert SameSide(n, d, n', d', Midpoint2(11, INF16 - 1));
        NearestVsMidpoint(11, n, d, b, INF16 - 1);
        NearestVsMidpoint(11, n', d', b', INF16 - 1);
      }
    }
  }

  // ----- the half boundaries as doubles -----

  /** The midpoint above half pattern b: an odd 12-bit significand times a power of two. */
  lemma MidpointParts(b: nat) returns (k: nat, t: nat)
    requires 0x400 <= b < INF16
    ensures k <= 29 && 0x801 <= t <= 0xfff && t % 2 == 1 && Midpoint2(11, b) == t * Pow2(k)
  {
    hide Pow2, Value;
    Constants();
    var top: nat;
    k, top := b / 0x400 - 1, 0x400 + b % 0x400;
    PatternValues(11, k, top);
    assert b == k * 0x400 + top;
    t := 2 * top + 1;
    assert top * Pow2(k) + (top + 1) * Pow2(k) == t * Pow2(k);
  }

  /** Its double pattern: the value, in units of 2^-1074, is half of Midpoint2 times 2^1050; and the gap to
      each neighbouring double. */
  lemma MidpointDouble(k: nat, t: nat) returns (z: nat)
    requires k <= 29 && 0x801 <= t <= 0xfff
    ensures 0 < z < INF64
    ensures 2 * Value(53, z) == t * Pow2(k) * Pow2(1050)
    ensures Value(53, z + 1) == Value(53, z) + Pow2(k + 1008)
    ensures Value(53, z - 1) >= Value(53, z) - Pow2(k + 1008)
  {
    hide Pow2, Value;
    Constants();
    Pow2Add(11, 41);
    Pow2Succ(41);
    var sig := t * Pow2(41);
    assert FRAC64 == 0x800 * Pow2(41);
    ScaledLess(0x801, t, Pow2(41));
    ScaledLess(t, 0x1000, Pow2(41));
    z := (k + 1008) * FRAC64 + sig;
    PatternValues(53, k + 1008, sig);
    PatternValues(53, k + 1008, sig - 1);
    MidpointScale(k, t);
    var s := Pow2(k + 1008);
    assert (sig + 1) * s == sig * s + s && (sig - 1) * s == sig * s - s;
  }

  lemma MidpointScale(k: nat, t: nat)
    ensures 2 * (t * Pow2(41) * Pow2(k + 1008)) == t * Pow2(k) * Pow2(1050)
  {
    hide Pow2;
    Pow2Succ(41);
    Pow2Add(42, k + 1008);
    Pow2Add(k, 1050);
    assert 2 * (t * Pow2(41) * Pow2(k + 1008)) == t * (2 * Pow2(41) * Pow2(k + 1008));
    assert t * Pow2(k) * Pow2(1050) == t * (Pow2(k) * Pow2(1050));
  }

  // ----- rounding to double keeps the side, unless it lands on the boundary -----

  /** n/d is so near the midpoint t * 2^k / 2 that the nearest double may be the midpoint itself. */
  ghost predicate TooNear(n: nat, d: nat, k: nat, t: nat) {
    Abs(2 * n - t * Pow2(k) * d) * Pow2(42) <= Pow2(k) * d
  }

  /** The rational keeps clear of every half boundary it does not lie on. */
  ghost predicate Clear(n: nat, d: nat) {
    && (forall k: nat, t: nat | k <= 29 && 0x801 <= t <= 0xfff && t % 2 == 1 ::
          TooNear(n, d, k, t) ==> 2 * n == t * Pow2(k) * d)
    && (n < 0x400 * d ==> (0x400 * d - n) * Pow2(44) > d)
  }

  /** The nearest double to a clear rational lies on the same side of every half midpoint. */
  lemma DoubleKeepsSide(n: nat, d: nat, x: nat, k: nat, t: nat)
    requires d > 0 && NearestEven(53, n * Pow2(1050), d, x) && Clear(n, d)
    requires k <= 29 && 0x801 <= t <= 0xfff && t % 2 == 1
    ensures SameSide(n, d, Value(53, x), Pow2(1050), t * Pow2(k))
  {
    hide Pow2, Value, NearestEven;
    var z := MidpointDouble(k, t);
    var u, m := Pow2(1050), t * Pow2(k);
    var N := n * u;
    assert m * u * d == (m * d) * u;
    NearestMono(53, N, d, x, z);
    SideScaled(2 * n, m * d, u);
    assert 2 * N == (2 * n) * u;
    assert 2 * (Value(53, z) * d) == (2 * Value(53, z)) * d;
    if x < z {
      ValueMono(53, x, z);
    } else if x > z {
      ValueMono(53, z, x);
    } else {
      NearestGap(53, N, d, z, Pow2(k + 1008));
      GapIsTooNear(n, d, k, m, Value(53, z));
      assert TooNear(n, d, k, t);
    }
  }

  /** If a pattern is the nearest one, the rational is within half a gap of it. */
  lemma NearestGap(p: nat, n: nat, d: nat, z: nat, gap: nat)
    requires p > 0 && d > 0 && z > 0 && NearestEven(p, n, d, z)
    requires Value(p, z + 1) == Value(p, z) + gap && Value(p, z - 1) >= Value(p, z) - gap
    ensures 2 * Abs(n - Value(p, z) * d) <= gap * d
  {
    hide Value;
    var v, lo := Value(p, z), Value(p, z - 1);
    assert Distance(p, n, d, z) <= Distance(p, n, d, z + 1);
    assert Distance(p, n, d, z) <= Distance(p, n, d, z - 1);
    SumScaled(v, gap, d);
    SumScaled(lo, gap, d);
    ScaledLess(v, lo + gap, d);
    ValueMono(p, z - 1, z);
    ScaledLess(lo, v, d);
    ValueStep(p, z);
    ScaledLess(v, v + gap, d);
  }

  /** Half a gap, in half units: v is the midpoint m / 2 on the finer scale. */
  lemma GapIsTooNear(n: nat, d: nat, k: nat, m: nat, v: nat)
    requires 2 * v == m * Pow2(1050) && 2 * Abs(n * Pow2(1050) - v * d) <= Pow2(k + 1008) * d
    ensures Abs(2 * n - m * d) * Pow2(42) <= Pow2(k) * d
  {
    hide Pow2;
    Pow2Add(k, 1008);
    Pow2Add(42, 1008);
    var w := Pow2(1008);
    assert Pow2(k) * w * d == Pow2(k) * d * w;
    if Abs(2 * n - m * d) * Pow2(42) > Pow2(k) * d {
      ScaledLess(Pow2(k) * d, Abs(2 * n - m * d) * Pow2(42), w);
    }
  }

  /** Rounding a clear rational to double first and then narrowing gives the directly rounded half. */
  lemma NarrowInnocuous(n: nat, d: nat, x: nat)
    requires d > 0 && x < INF64 && NearestEven(53, n * Pow2(1050), d, x) && Clear(n, d)
    ensures DirectMagnitude(n, d, Narrow(x))
  {
    hide Pow2, Value, NearestEven, DirectMagnitude, Narrow;
    forall b: nat | 0x400 <= b < INF16
      ensures SameSide(n, d, Value(53, x), Pow2(1050), Midpoint2(11, b))
    {
      var k, t := MidpointParts(b);
      DoubleKeepsSide(n, d, x, k, t);
    }
    DoubleKeepsFlush(n, d, x);
    NarrowCorrect(x);
    SameSidesAgree(n, d, Value(53, x), Pow2(1050), Narrow(x));
  }

  /** A clear rational below 2^-14 stays below it in double. */
  lemma DoubleKeepsFlush(n: nat, d: nat, x: nat)
    requires d > 0 && NearestEven(53, n * Pow2(1050), d, x) && Clear(n, d)
    ensures n < 0x400 * d <==> Value(53, x) < 0x400 * Pow2(1050)
  {
    hide Pow2, Value, NearestEven;
    var z, u := 1009 * FRAC64, Pow2(1050);
    Landmarks();
    var N := n * u;
    NearestMono(53, N, d, x, z);
    assert 0x400 * u * d == (0x400 * d) * u;
    SideScaled(n, 0x400 * d, u);
    if x < z {
      ValueMono(53, x, z);
    } else if z < x {
      ValueMono(53, z, x);
    } else if n < 0x400 * d {
      FlushGap(n, d, z);
    }
  }

  lemma FlushGap(n: nat, d: nat, z: nat)
    requires d > 0 && z == 1009 * FRAC64 && NearestEven(53, n * Pow2(1050), d, z) && n < 0x400 * d
    ensures (0x400 * d - n) * Pow2(44) <= d
  {
    hide Pow2, Value, NearestEven;
    Landmarks();
    Constants();
    PatternValues(53, 1007, 2 * FRAC64 - 1);
    var u, w := Pow2(1050), Pow2(1007);
    Pow2Succ(1007);
    Pow2Add(52, 1008);
    assert Value(53, z - 1) == (2 * FRAC64 - 1) * w == Value(53, z) - w by {
      PatternValues(53, 1008, FRAC64);
      assert (2 * FRAC64 - 1) * w == FRAC64 * (2 * w) - w;
    }
    NearestLowerGap(53, n * u, d, z, w);
    Pow2Add(43, 1007);
    Pow2Succ(43);
    var gap := 0x400 * d - n;
    assert 0x400 * u * d - n * u == gap * u;
    assert 2 * (gap * (Pow2(43) * w)) == gap * Pow2(44) * w;
    if gap * Pow2(44) > d {
      ScaledLess(d, gap * Pow2(44), w);
    }
  }

  lemma NearestLowerGap(p: nat, n: nat, d: nat, z: nat, gap: nat)
    requires p > 0 && d > 0 && z > 0 && NearestEven(p, n, d, z) && n <= Value(p, z) * d
    requires Value(p, z - 1) == Value(p, z) - gap
    ensures 2 * (Value(p, z) * d - n) <= gap * d
  {
    hide Value;
    assert Distance(p, n, d, z) <= Distance(p, n, d, z - 1);
    SumScaled(Value(p, z - 1), gap, d);
    ValueMono(p, z - 1, z);
    ScaledLess(Value(p, z - 1), Value(p, z), d);
  }
}
