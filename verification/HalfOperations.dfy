/** The reference operations on halves against one direct rounding of the exact result. */
module HalfOperations {
  import opened Powers
  import opened Rounding
  import opened Half
  import opened HalfProofs
  import opened DoubleRounding

  // ----- widening is exact -----

  /** A finite half's magnitude: an 11-bit significand (or zero) times a power of two. */
  lemma HalfParts(h: half) returns (k: nat, m: nat)
    requires FiniteHalf(h)
    ensures k <= 29 && (m == 0 || 0x400 <= m < 0x800) && Abs(HVal(h)) == m * Pow2(k)
    ensures h % SIGN16 >= 0x400 ==> m > 0 && k == h / 0x400 % 0x20 - 1 && m == 0x400 + h % 0x400
    ensures h % SIGN16 < 0x400 ==> m == 0
  {
    hide Pow2, Value;
    Constants();
    var mag := h % SIGN16;
    if mag < 0x400 {
      k, m := 0, 0;
    } else {
      assert mag / 0x400 == h / 0x400 % 0x20 && mag % 0x400 == h % 0x400;
      k, m := mag / 0x400 - 1, 0x400 + mag % 0x400;
      PatternValue(11, k, m);
      assert mag == k * 0x400 + m;
    }
  }

  /** h2d is exact on finite halves and keeps the sign. */
  lemma H2dExact(h: half)
    requires FiniteHalf(h)
    ensures FiniteDouble(H2d(h)) && DVal(H2d(h)) == HVal(h) * Pow2(1050)
    ensures Negative(H2d(h)) <==> h >= SIGN16
  {
    hide Pow2, Value;
    var k, m := HalfParts(h);
    if m == 0 {
      PatternZero(53);
    } else {
      WidenedValue(k, m);
      AbsProduct(HVal(h), Pow2(1050));
      SignOfProduct(HVal(h), Pow2(1050));
    }
  }

  /** The widened pattern has the half's value. */
  lemma WidenedValue(k: nat, m: nat)
    requires 0x400 <= m < 0x800
    ensures Value(53, (k + 1008) * FRAC64 + m * 0x400_0000_0000) == m * Pow2(k) * Pow2(1050)
  {
    hide Pow2, Value;
    Constants();
    PatternValue(53, k + 1008, m * 0x400_0000_0000);
    Pow2Add(42, k + 1008);
    Pow2Add(k, 1050);
    assert m * 0x400_0000_0000 * Pow2(k + 1008) == m * (0x400_0000_0000 * Pow2(k + 1008));
    assert m * (Pow2(k) * Pow2(1050)) == m * Pow2(k) * Pow2(1050);
  }

  lemma NegateExact(x: double)
    requires FiniteDouble(x)
    ensures FiniteDouble(Negate(x)) && DVal(Negate(x)) == -DVal(x) && Negative(Negate(x)) == !Negative(x)
  {
    hide Value;
  }

  // ----- from the host's double to the half -----

  /** A correctly rounded double of a clear rational narrows to the directly rounded half. */
  lemma RoundedNarrows(num: int, den: nat, zeroNeg: bool, y: double, n: int, d: nat)
    requires den > 0 && d > 0 && RoundedDouble(num, den, zeroNeg, y) && Clear(Abs(n), d)
    requires num * d == n * Pow2(1050) * den
    ensures Direct(n, d, zeroNeg, D2h(y))
  {
    hide Pow2, Value, NearestEven, DirectMagnitude, Narrow, Clear;
    SignOfProduct(num, d);
    Pow2Positive(n, den);
    if n == 0 {
      NarrowZero();
      ZeroDirect(d);
    } else {
      AbsProduct(num, d);
      AbsProduct(n * Pow2(1050), den);
      AbsProduct(n, Pow2(1050));
      NearestRescale(53, Abs(num), den, Abs(n) * Pow2(1050), d, y % SIGN64);
      NarrowInnocuous(Abs(n), d, y % SIGN64);
    }
  }

  lemma Pow2Positive(n: int, den: nat)
    requires den > 0
    ensures (n * Pow2(1050) * den < 0 <==> n < 0) && (n * Pow2(1050) * den == 0 <==> n == 0)
  {
    hide Pow2;
    SignOfProduct(n, Pow2(1050));
    SignOfProduct(n * Pow2(1050), den);
  }

  lemma NarrowZero()
    ensures Narrow(0) == 0
  {
  }

  lemma ZeroDirect(d: nat)
    requires d > 0
    ensures DirectMagnitude(0, d, 0)
  {
  }

  // ----- clearance -----

  /** An integer number of half units keeps clear of every boundary. */
  lemma ClearInteger(n: nat)
    ensures Clear(n, 1)
  {
    hide Pow2;
    Constants();
    forall k: nat, t: nat | k <= 29 && 0x801 <= t <= 0xfff && t % 2 == 1 && TooNear(n, 1, k, t)
      ensures 2 * n == t * Pow2(k) * 1
    {
      Pow2Mono(k, 29);
      Pow2_29();
    }
    Pow2Add(42, 2);
    Pow2Small();
  }

  lemma Pow2_29()
    ensures Pow2(29) == 0x2000_0000 && Pow2(17) == 0x2_0000 && Pow2(18) == 0x4_0000 && Pow2(24) == 0x100_0000
    ensures Pow2(16) == 0x1_0000
  {
    hide Pow2;
    Pow2Word();
    Constants();
    Pow2Succ(16);
    Pow2Succ(17);
    Pow2Add(18, 11);
    Pow2Add(16, 8);
  }

  /** A half's 11-bit significand cannot meet a midpoint's odd 12-bit one. */
  lemma OddPart(m: nat, i: nat, t: nat, j: nat)
    requires m < 0x800 < t && t % 2 == 1
    ensures m * Pow2(i) != t * Pow2(j)
  {
    hide Pow2;
    if i <= j {
      Pow2Add(j - i, i);
      SmallSide(m, t, Pow2(j - i), Pow2(i));
    } else {
      Pow2Add(i - j, j);
      Pow2Succ(i - j - 1);
      EvenSide(m, Pow2(i - j - 1), t, Pow2(j));
    }
  }

  lemma SmallSide(m: nat, t: nat, f: nat, s: nat)
    requires m < t && f > 0 && s > 0
    ensures m * s < t * (f * s)
  {
    MulLe(t, t, 1, f);
    ScaledLess(m, t * f, s);
    Reassociate(t, f, s);
  }

  lemma EvenSide(m: nat, f: nat, t: nat, s: nat)
    requires t % 2 == 1 && s > 0
    ensures m * ((2 * f) * s) != t * s
  {
    assert m * ((2 * f) * s) == 2 * (m * f) * s;
    SideScaled(2 * (m * f), t, s);
  }

  /** A product below 2^8 half units leaves the addend too far from any midpoint of a large binade. */
  lemma SmallProduct(q: int, c: int, mc: nat, kc: nat, t: nat, j: nat)
    requires Abs(q) < 0x1_0000_0000 && Abs(c) == mc * Pow2(kc) && mc < 0x800 < t && t % 2 == 1
    ensures Abs(2 * Abs(q + c * 0x100_0000) - t * Pow2(j) * 0x400_0000_0000) > 0x800
  {
    hide Pow2;
    var big := t * Pow2(j);
    ScaledLess(1, Pow2(j), t);
    NotNearMidpoint(mc, kc, t, j);
    if Abs(2 * Abs(q + c * 0x100_0000) - big * 0x400_0000_0000) <= 0x800 {
      NearMultiple(q, c, big);
    }
  }

  lemma NearMultiple(q: int, c: int, big: nat)
    requires Abs(q) < 0x1_0000_0000 && big > 0
    requires Abs(2 * Abs(q + c * 0x100_0000) - big * 0x400_0000_0000) <= 0x800
    ensures Abs(Abs(c) - big * 0x2_0000) <= 0x100
  {
  }

  /** A half is at least a whole step away from the midpoints of a large binade. */
  lemma NotNearMidpoint(mc: nat, kc: nat, t: nat, j: nat)
    requires mc < 0x800 < t && t % 2 == 1
    ensures Abs(mc * Pow2(kc) - t * Pow2(j) * 0x2_0000) > 0x100
  {
    hide Pow2;
    MulLe(t, t, 1, Pow2(j));
    Pow2_29();
    if kc < 17 {
      Pow2Mono(kc, 16);
      MulLe(mc, 0x7ff, Pow2(kc), 0x1_0000);
    } else {
      Pow2Add(kc - 17, 17);
      OddPart(mc, kc - 17, t, j);
      Reassociate(mc, Pow2(kc - 17), 0x2_0000);
    }
  }

  lemma Reassociate(a: nat, b: nat, c: nat)
    ensures a * (b * c) == a * b * c
  {
  }

  /** The exact a * b + c, over 2^24, keeps clear of every half boundary it does not lie on: q is the product,
      c the addend. */
  lemma ClearFma(q: int, m: nat, w: nat, c: int, mc: nat, kc: nat)
    requires Abs(q) == m * Pow2(w) && m < 0x40_0000
    requires Abs(c) == mc * Pow2(kc) && mc < 0x800
    ensures Clear(Abs(q + c * 0x100_0000), Pow2(24))
  {
    hide Pow2;
    Constants();
    Pow2_29();
    var n := Abs(q + c * 0x100_0000);
    forall k: nat, t: nat | k <= 29 && 0x801 <= t <= 0xfff && t % 2 == 1 && TooNear(n, Pow2(24), k, t)
      ensures 2 * n == t * Pow2(k) * Pow2(24)
    {
      FmaNear(q, m, w, c, mc, kc, k, t);
    }
    Pow2Add(42, 2);
    Pow2Small();
  }

  lemma FmaNear(q: int, m: nat, w: nat, c: int, mc: nat, kc: nat, k: nat, t: nat)
    requires Abs(q) == m * Pow2(w) && m < 0x40_0000
    requires Abs(c) == mc * Pow2(kc) && mc < 0x800
    requires k <= 29 && 0x801 <= t <= 0xfff && t % 2 == 1
    requires TooNear(Abs(q + c * 0x100_0000), Pow2(24), k, t)
    ensures 2 * Abs(q + c * 0x100_0000) == t * Pow2(k) * Pow2(24)
  {
    hide Pow2, TooNear;
    NearBound(Abs(q + c * 0x100_0000), k, t);
    if k >= 18 {
      if w >= 11 {
        LargeProduct(m, w);
        MultipleSmall(Abs(q + c * 0x100_0000), q, m * Pow2(w - 11), c, t * Pow2(k - 18));
      } else {
        BoundedProduct(m, w);
        SmallProduct(q, c, mc, kc, t, k - 18);
      }
    }
  }

  lemma LargeProduct(m: nat, w: nat)
    requires w >= 11
    ensures m * Pow2(w) == m * Pow2(w - 11) * 0x800
  {
    hide Pow2;
    Pow2Add(w - 11, 11);
    Constants();
    Reassociate(m, Pow2(w - 11), 0x800);
  }

  lemma BoundedProduct(m: nat, w: nat)
    requires w <= 10 && m < 0x40_0000
    ensures m * Pow2(w) < 0x1_0000_0000
  {
    hide Pow2;
    Pow2Mono(w, 10);
    Constants();
    MulLe(m, 0x3f_ffff, Pow2(w), 0x400);
  }

  /** Too near means equal in the small binades, and within 2^11 units of 2^-48 in the large ones. */
  lemma NearBound(n: nat, k: nat, t: nat)
    requires k <= 29 && TooNear(n, Pow2(24), k, t)
    ensures k < 18 ==> 2 * n == t * Pow2(k) * Pow2(24)
    ensures k >= 18 ==> && t * Pow2(k) * Pow2(24) == t * Pow2(k - 18) * 0x400_0000_0000
                        && Abs(2 * n - t * Pow2(k - 18) * 0x400_0000_0000) <= 0x800
  {
    hide Pow2;
    Constants();
    Pow2_29();
    if k < 18 {
      Pow2Mono(k, 17);
    } else {
      Pow2Add(k - 18, 18);
      Pow2Mono(k - 18, 11);
      assert t * (Pow2(k - 18) * 0x4_0000) * 0x100_0000 == t * Pow2(k - 18) * 0x400_0000_0000;
    }
  }

  /** A difference that is a multiple of 4096 and at most 2048 is zero. */
  lemma MultipleSmall(n: nat, q: int, q': nat, c: int, big: nat)
    requires n == Abs(q + c * 0x100_0000) && Abs(q) == q' * 0x800
    requires Abs(2 * n - big * 0x400_0000_0000) <= 0x800
    ensures 2 * n == big * 0x400_0000_0000
  {
    var p: int := q';
    var sq: int := if q < 0 then -p else p;
    assert q == sq * 0x800;
    var x := sq + c * 0x2000;
    assert q + c * 0x100_0000 == x * 0x800;
    var z := Abs(x) - big * 0x4000_0000;
    assert n == Abs(x) * 0x800;
    assert 2 * n - big * 0x400_0000_0000 == 0x1000 * z;
  }

  /** A quotient of two halves keeps clear of every half boundary it does not lie on. */
  lemma ClearQuotient(ma: nat, ka: nat, mb: nat, kb: nat)
    requires ma < 0x800 && ka <= 29 && 0x400 <= mb < 0x800 && kb <= 29
    ensures Clear(ma * Pow2(ka) * 0x100_0000, mb * Pow2(kb))
  {
    hide Pow2;
    Constants();
    Pow2_29();
    var n, d := ma * Pow2(ka) * 0x100_0000, mb * Pow2(kb);
    forall k: nat, t: nat | k <= 29 && 0x801 <= t <= 0xfff && t % 2 == 1 && TooNear(n, d, k, t)
      ensures 2 * n == t * Pow2(k) * d
    {
      QuotientNear(ma, ka, mb, kb, k, t);
    }
    FlushClear(n, d, mb, kb);
  }

  lemma FlushClear(n: nat, d: nat, mb: nat, kb: nat)
    requires d == mb * Pow2(kb) && mb < 0x800 && kb <= 29
    ensures n < 0x400 * d ==> (0x400 * d - n) * Pow2(44) > d
  {
    hide Pow2;
    Constants();
    Pow2_29();
    Pow2Small();
    Pow2Mono(kb, 29);
    MulLe(mb, 0x7ff, Pow2(kb), 0x2000_0000);
    Pow2Add(42, 2);
  }

  lemma QuotientNear(ma: nat, ka: nat, mb: nat, kb: nat, k: nat, t: nat)
    requires ma < 0x800 && 0x400 <= mb < 0x800 && 0x801 <= t
    requires TooNear(ma * Pow2(ka) * 0x100_0000, mb * Pow2(kb), k, t)
    ensures 2 * (ma * Pow2(ka) * 0x100_0000) == t * Pow2(k) * (mb * Pow2(kb))
  {
    hide Pow2, TooNear, Abs;
    QuotientSides(ma, ka, mb, kb, k, t);
    var n, d := ma * Pow2(ka) * 0x100_0000, mb * Pow2(kb);
    var l, r, w := ma * Pow2(ka + 25), (t * mb) * Pow2(k + kb), mb * Pow2(k + kb);
    NearSides(n, d, k, t, l, r, w);
    QuotientApart(ma, ka + 25, mb, k + kb, t);
  }

  lemma NearSides(n: nat, d: nat, k: nat, t: nat, l: nat, r: nat, w: nat)
    requires TooNear(n, d, k, t) && Pow2(42) == 0x400_0000_0000
    requires 2 * n == l && t * Pow2(k) * d == r && Pow2(k) * d == w
    ensures Abs(l - r) * 0x400_0000_0000 <= w
  {
  }

  lemma QuotientApart(ma: nat, i: nat, mb: nat, j: nat, t: nat)
    requires ma < 0x800 && 0x400 <= mb < 0x800 && 0x801 <= t
    requires Abs(ma * Pow2(i) - (t * mb) * Pow2(j)) * 0x400_0000_0000 <= mb * Pow2(j)
    ensures ma * Pow2(i) == (t * mb) * Pow2(j)
  {
    hide Pow2;
    if i >= j {
      Pow2Add(i - j, j);
      CoarseQuotient(ma, Pow2(i - j), t * mb, mb, Pow2(j));
    } else {
      Pow2Mono(i + 1, j);
      Pow2Succ(i);
      FineQuotient(ma, Pow2(i), t, mb, Pow2(j));
    }
  }

  /** The two sides of the comparison as multiples of powers of two. */
  lemma QuotientSides(ma: nat, ka: nat, mb: nat, kb: nat, k: nat, t: nat)
    ensures 2 * (ma * Pow2(ka) * 0x100_0000) == ma * Pow2(ka + 25)
    ensures t * Pow2(k) * (mb * Pow2(kb)) == (t * mb) * Pow2(k + kb)
    ensures Pow2(k) * (mb * Pow2(kb)) == mb * Pow2(k + kb) && Pow2(42) == 0x400_0000_0000
  {
    hide Pow2;
    Constants();
    Pow2_29();
    Pow2Succ(24);
    Pow2Add(ka, 25);
    Pow2Add(k, kb);
  }

  /** Both sides are multiples of s, so they differ by nothing or by at least s. */
  lemma CoarseQuotient(ma: nat, f: nat, r: nat, mb: nat, s: nat)
    requires s > 0 && mb < 0x800 && Abs(ma * (f * s) - r * s) * 0x400_0000_0000 <= mb * s
    ensures ma * (f * s) == r * s
  {
    var x := ma * f - r;
    assert ma * (f * s) - r * s == x * s;
    AbsProduct(x, s);
    if x != 0 {
      ScaledLess(1, Abs(x), s);
      ScaledLess(mb, 0x800, s);
    }
  }

  /** The divisor's side dominates: the two cannot be that close. */
  lemma FineQuotient(ma: nat, a: nat, t: nat, mb: nat, s: nat)
    requires ma < 0x800 && 2 * a <= s && 0x801 <= t && 0x400 <= mb && a > 0
    ensures Abs(ma * a - (t * mb) * s) * 0x400_0000_0000 > mb * s
  {
    MulLe(ma, 0x800, a, a);
    MulLe(0x801, t, mb, mb);
    MulLe(0x801 * mb, t * mb, s, s);
    assert 0x801 * mb * s == 0x801 * (mb * s);
    MulLe(0x400, mb, s, s);
  }

  // ----- the operations -----

  lemma SumUnits(x: int, y: int, u: int)
    ensures x * u + y * u == (x + y) * u && x * u - y * u == (x - y) * u
  {
  }

  /** A half sum through double is the exact sum rounded once. */
  lemma HaddDirect(a: half, b: half, r: half)
    requires FiniteHalf(a) && FiniteHalf(b) && RefHadd(a, b, r)
    ensures Direct(HVal(a) + HVal(b), 1, a >= SIGN16 && b >= SIGN16, r)
  {
    hide Pow2, DVal, HVal, H2d, D2h, Clear, Direct, RoundedDouble;
    var y: double :| HostAdd(H2d(a), H2d(b), y) && r == D2h(y);
    H2dExact(a);
    H2dExact(b);
    SumUnits(HVal(a), HVal(b), Pow2(1050));
    ClearInteger(Abs(HVal(a) + HVal(b)));
    RoundedNarrows(DVal(H2d(a)) + DVal(H2d(b)), 1, a >= SIGN16 && b >= SIGN16, y, HVal(a) + HVal(b), 1);
  }

  lemma HsubDirect(a: half, b: half, r: half)
    requires FiniteHalf(a) && FiniteHalf(b) && RefHsub(a, b, r)
    ensures Direct(HVal(a) - HVal(b), 1, a >= SIGN16 && b < SIGN16, r)
  {
    hide Pow2, DVal, HVal, H2d, D2h, Clear, Direct, RoundedDouble, Negate;
    var y: double :| HostAdd(H2d(a), Negate(H2d(b)), y) && r == D2h(y);
    H2dExact(a);
    H2dExact(b);
    NegateExact(H2d(b));
    SumUnits(HVal(a), HVal(b), Pow2(1050));
    ClearInteger(Abs(HVal(a) - HVal(b)));
    RoundedNarrows(DVal(H2d(a)) + DVal(Negate(H2d(b))), 1, a >= SIGN16 && b < SIGN16, y, HVal(a) - HVal(b), 1);
  }

  /** The exact product plus addend in units of 2^-24, over 2^24. */
  function FmaUnits(p: int, c: int): int {
    p + c * 0x100_0000
  }

  lemma FmaScaled(wa: int, wb: int, wc: int, u: int, e: int, v: int)
    requires e == u * 0x100_0000
    ensures ((wa * u) * (wb * u) + (wc * u) * e) * 0x100_0000 == FmaUnits(wa * wb, wc) * u * e
  {
  }

  lemma FourProduct(a: nat, b: nat, c: nat, d: nat)
    ensures (a * b) * (c * d) == (a * c) * (b * d)
  {
  }

  lemma ClearHalves(a: half, b: half, c: half, q: int, w: int)
    requires FiniteHalf(a) && FiniteHalf(b) && FiniteHalf(c)
    requires Abs(q) == Abs(HVal(a)) * Abs(HVal(b)) && Abs(w) == Abs(HVal(c))
    ensures Clear(Abs(FmaUnits(q, w)), Pow2(24))
  {
    hide Pow2, HVal, Clear;
    var ka, ma := HalfParts(a);
    var kb, mb := HalfParts(b);
    var kc, mc := HalfParts(c);
    Pow2Add(ka, kb);
    FourProduct(ma, Pow2(ka), mb, Pow2(kb));
    MulLe(ma, 0x7ff, mb, 0x7ff);
    ClearFma(q, ma * mb, ka + kb, w, mc, kc);
  }

  lemma AbsTimes(x: int, y: int)
    ensures Abs(x * y) == Abs(x) * Abs(y) && (-x) * y == -(x * y)
  {
  }

  /** One exact value and one rounding: the shape of both the product and the fused multiply-add. */
  lemma FmaNarrows(x: double, y: double, z: double, wx: int, wy: int, wz: int, zeroNeg: bool, r: double)
    requires DVal(x) == wx * Pow2(1050) && DVal(y) == wy * Pow2(1050) && DVal(z) == wz * Pow2(1050)
    requires RoundedDouble(DVal(x) * DVal(y) + DVal(z) * Pow2(1074), Pow2(1074), zeroNeg, r)
    requires Clear(Abs(FmaUnits(wx * wy, wz)), Pow2(24))
    ensures Direct(FmaUnits(wx * wy, wz), Pow2(24), zeroNeg, D2h(r))
  {
    hide Pow2, DVal, D2h, Clear, Direct, RoundedDouble, FmaUnits;
    Pow2_29();
    Pow2Add(1050, 24);
    FmaScaled(wx, wy, wz, Pow2(1050), Pow2(1074), 0);
    RoundedNarrows(DVal(x) * DVal(y) + DVal(z) * Pow2(1074), Pow2(1074), zeroNeg, r, FmaUnits(wx * wy, wz), Pow2(24));
  }

  lemma NegateIfExact(c: bool, h: half)
    requires FiniteHalf(h)
    ensures DVal(NegateIf(c, H2d(h))) == (if c then -HVal(h) else HVal(h)) * Pow2(1050)
    ensures Negative(NegateIf(c, H2d(h))) <==> (h >= SIGN16) != c
  {
    hide Pow2, DVal, HVal, H2d, Negate;
    H2dExact(h);
    NegateExact(H2d(h));
    SumUnits(0, HVal(h), Pow2(1050));
  }

  /** The fused multiply-add through double, though not always exact there, is the exact a * b + c rounded
      once to half precision, for every choice of the two negations. */
  lemma HfmaDirect(a: half, b: half, c: half, np: bool, nc: bool, r: half)
    requires FiniteHalf(a) && FiniteHalf(b) && FiniteHalf(c) && RefHfma(a, b, c, np, nc, r)
    ensures var x, z := if np then -HVal(a) else HVal(a), if nc then -HVal(c) else HVal(c);
            Direct(FmaUnits(x * HVal(b), z), Pow2(24),
                   ((a >= 0x8000) != np) != (b >= 0x8000) && (c >= 0x8000) != nc, r)
  {
    hide Pow2, DVal, HVal, H2d, D2h, Clear, Direct, RoundedDouble, NegateIf;
    var x, z := if np then -HVal(a) else HVal(a), if nc then -HVal(c) else HVal(c);
    var y: double :| HostFma(NegateIf(np, H2d(a)), H2d(b), NegateIf(nc, H2d(c)), y) && r == D2h(y);
    NegateIfExact(np, a);
    H2dExact(b);
    NegateIfExact(nc, c);
    AbsTimes(x, HVal(b));
    ClearHalves(a, b, c, x * HVal(b), z);
    FmaNarrows(NegateIf(np, H2d(a)), H2d(b), NegateIf(nc, H2d(c)), x, HVal(b), z,
               ((a >= 0x8000) != np) != (b >= 0x8000) && (c >= 0x8000) != nc, y);
  }

  /** A half product through double is the exact product rounded once. */
  lemma HmulDirect(a: half, b: half, r: half)
    requires FiniteHalf(a) && FiniteHalf(b) && RefHmul(a, b, r)
    ensures Direct(HVal(a) * HVal(b), Pow2(24), (a >= 0x8000) != (b >= 0x8000), r)
  {
    hide Pow2, DVal, HVal, H2d, D2h, Clear, Direct, RoundedDouble;
    var y: double :| HostMul(H2d(a), H2d(b), y) && r == D2h(y);
    H2dExact(a);
    H2dExact(b);
    ZeroValues();
    AbsTimes(HVal(a), HVal(b));
    ClearHalves(a, b, 0, HVal(a) * HVal(b), 0);
    FmaNarrows(H2d(a), H2d(b), 0, HVal(a), HVal(b), 0, (a >= SIGN16) != (b >= SIGN16), y);
  }

  lemma ZeroValues()
    ensures HVal(0) == 0 && DVal(0) == 0
  {
  }

  /** A half quotient through double is the exact quotient rounded once; a zero (or flushed) divisor gives a
      signed infinity, or the canonical NaN for 0 / 0. */
  lemma HdivDirect(a: half, b: half, r: half)
    requires FiniteHalf(a) && FiniteHalf(b) && RefHdiv(a, b, r)
    ensures var neg := (a >= 0x8000) != (b >= 0x8000);
            if HVal(b) != 0 then
              Direct((if neg then -1 else 1) * (Abs(HVal(a)) * 0x100_0000), Abs(HVal(b)), neg, r)
            else if HVal(a) == 0 then r == 0x7e00
            else r == if neg then 0xfc00 else 0x7c00
  {
    hide Pow2, DVal, HVal, H2d, D2h, Clear, Direct, RoundedDouble;
    var y: double :| HostDiv(H2d(a), H2d(b), y) && r == D2h(y);
    H2dExact(a);
    H2dExact(b);
    SignOfProduct(HVal(a), Pow2(1050));
    SignOfProduct(HVal(b), Pow2(1050));
    if HVal(b) == 0 {
      SpecialNarrow(y);
    } else {
      QuotientNarrows(a, b, y);
    }
  }

  lemma SpecialNarrow(y: double)
    ensures y % SIGN64 > INF64 ==> D2h(y) == NAN16
    ensures D2h(INF64) == INF16 && D2h(INF64 + SIGN64) == INF16 + SIGN16
  {
  }

  lemma QuotientNarrows(a: half, b: half, y: double)
    requires FiniteHalf(a) && FiniteHalf(b) && HVal(b) != 0
    requires HostDiv(H2d(a), H2d(b), y) && DVal(H2d(b)) != 0
    ensures var neg := (a >= SIGN16) != (b >= SIGN16);
            Direct((if neg then -1 else 1) * (Abs(HVal(a)) * 0x100_0000), Abs(HVal(b)), neg, D2h(y))
  {
    hide Pow2, DVal, HVal, H2d, D2h, Clear, Direct, RoundedDouble;
    H2dExact(a);
    H2dExact(b);
    var ka, ma := HalfParts(a);
    var kb, mb := HalfParts(b);
    var neg := (a >= SIGN16) != (b >= SIGN16);
    var sign := if neg then -1 else 1;
    var wa, wb, u := Abs(HVal(a)), Abs(HVal(b)), Pow2(1050);
    assert mb == 0 ==> wb == 0;
    AbsProduct(HVal(a), u);
    AbsProduct(HVal(b), u);
    Pow2_29();
    Pow2Add(1050, 24);
    QuotientScaled(sign, wa, wb, u);
    ClearQuotient(ma, ka, mb, kb);
    AbsTimes(sign, wa * 0x100_0000);
    RoundedNarrows(sign * (wa * u) * Pow2(1074), wb * u, neg, y, sign * (wa * 0x100_0000), wb);
  }

  lemma QuotientScaled(sign: int, wa: nat, wb: nat, u: nat)
    ensures u > 0 && wb > 0 ==> wb * u > 0
    ensures sign * (wa * u) * (u * 0x100_0000) * wb == sign * (wa * 0x100_0000) * u * (wb * u)
  {
  }

  // ----- what is exact in double, and that the host always has an answer -----

  /** A representable value is returned unrounded. */
  lemma ExactDouble(num: int, den: nat, zeroNeg: bool, y: double, m: nat, j: nat)
    requires den > 0 && RoundedDouble(num, den, zeroNeg, y)
    requires m < Pow2(53) && Abs(num) == m * Pow2(j) * den
    ensures DVal(y) * den == num
  {
    hide Pow2, Value, NearestEven;
    var z := Representable(53, m, j);
    PatternZero(53);
    if num != 0 {
      NearestExact(53, Abs(num), den, z, y % SIGN64);
    }
  }

  /** Half sums are exact in double. */
  lemma HaddExact(a: half, b: half, y: double)
    requires FiniteHalf(a) && FiniteHalf(b) && HostAdd(H2d(a), H2d(b), y)
    ensures DVal(y) == DVal(H2d(a)) + DVal(H2d(b))
  {
    hide Pow2, DVal, HVal, H2d, RoundedDouble;
    H2dExact(a);
    H2dExact(b);
    var ka, ma := HalfParts(a);
    var kb, mb := HalfParts(b);
    SumUnits(HVal(a), HVal(b), Pow2(1050));
    AbsProduct(HVal(a) + HVal(b), Pow2(1050));
    Pow2Mono(ka, 29);
    Pow2Mono(kb, 29);
    Pow2_29();
    Constants();
    MulLe(ma, 0x7ff, Pow2(ka), 0x2000_0000);
    MulLe(mb, 0x7ff, Pow2(kb), 0x2000_0000);
    ExactDouble(DVal(H2d(a)) + DVal(H2d(b)), 1, a >= SIGN16 && b >= SIGN16, y, Abs(HVal(a) + HVal(b)), 1050);
  }

  /** Half products are exact in double. */
  lemma HmulExact(a: half, b: half, y: double)
    requires FiniteHalf(a) && FiniteHalf(b) && HostMul(H2d(a), H2d(b), y)
    ensures DVal(y) * Pow2(1074) == DVal(H2d(a)) * DVal(H2d(b))
  {
    hide Pow2, DVal, HVal, H2d, RoundedDouble;
    H2dExact(a);
    H2dExact(b);
    var ka, ma := HalfParts(a);
    var kb, mb := HalfParts(b);
    var u := Pow2(1050);
    MulLe(ma, 0x7ff, mb, 0x7ff);
    Constants();
    ProductScale(ka, kb);
    AbsTimes(DVal(H2d(a)), DVal(H2d(b)));
    AbsProduct(HVal(a), u);
    AbsProduct(HVal(b), u);
    SixProduct(ma, Pow2(ka), mb, Pow2(kb), u);
    Reassociate(ma * mb, Pow2(ka + kb + 1026), Pow2(1074));
    ExactDouble(DVal(H2d(a)) * DVal(H2d(b)), Pow2(1074), (a >= SIGN16) != (b >= SIGN16), y, ma * mb, ka + kb + 1026);
  }

  lemma ProductScale(ka: nat, kb: nat)
    ensures Pow2(ka) * Pow2(kb) * (Pow2(1050) * Pow2(1050)) == Pow2(ka + kb + 1026) * Pow2(1074)
  {
    hide Pow2;
    Pow2Add(ka, kb);
    Pow2Add(1050, 1050);
    Pow2Add(ka + kb, 2100);
    Pow2Add(ka + kb + 1026, 1074);
  }

  lemma SixProduct(ma: nat, a: nat, mb: nat, b: nat, u: nat)
    ensures (ma * a * u) * (mb * b * u) == (ma * mb) * (a * b * (u * u))
  {
  }

  ghost predicate Significand(n: nat, m: nat, j: nat) {
    m < Pow2(53) && n == m * Pow2(j)
  }

  /** n is a 53-bit significand times a power of two. */
  ghost predicate FitsDouble(n: nat) {
    exists m: nat, j: nat :: Significand(n, m, j)
  }

  /** The rounding of q * 2^1026 units is exact precisely when q fits a double's significand. */
  lemma ScaledExactIff(q: int, num: int, zeroNeg: bool, y: double)
    requires num == q * Pow2(1026) * Pow2(1074) && RoundedDouble(num, Pow2(1074), zeroNeg, y)
    ensures DVal(y) * Pow2(1074) == num <==> FitsDouble(Abs(q))
  {
    hide Pow2, Value, RoundedDouble, FitsDouble;
    if FitsDouble(Abs(q)) {
      FitsIsExact(q, num, zeroNeg, y);
    } else if DVal(y) * Pow2(1074) == num {
      SameProduct(DVal(y), q * Pow2(1026), Pow2(1074));
      ExactFits(q, y);
    }
  }

  lemma FitsIsExact(q: int, num: int, zeroNeg: bool, y: double)
    requires num == q * Pow2(1026) * Pow2(1074) && RoundedDouble(num, Pow2(1074), zeroNeg, y) && FitsDouble(Abs(q))
    ensures DVal(y) * Pow2(1074) == num
  {
    hide Pow2, Value, RoundedDouble, DVal;
    var m: nat, j: nat :| Significand(Abs(q), m, j);
    Pow2Add(j, 1026);
    AbsProduct(q, Pow2(1026));
    AbsProduct(q * Pow2(1026), Pow2(1074));
    Reassociate(m, Pow2(j), Pow2(1026));
    ExactDouble(num, Pow2(1074), zeroNeg, y, m, j + 1026);
  }

  lemma ExactFits(q: int, y: double)
    requires DVal(y) == q * Pow2(1026)
    ensures FitsDouble(Abs(q))
  {
    hide Pow2, Value;
    var k, m := PatternParts(53, y % SIGN64);
    AbsProduct(q, Pow2(1026));
    assert m * Pow2(k) == Abs(q) * Pow2(1026);
    if k >= 1026 {
      Pow2Add(k - 1026, 1026);
      Reassociate(m, Pow2(k - 1026), Pow2(1026));
      SameProduct(m * Pow2(k - 1026), Abs(q), Pow2(1026));
      assert Significand(Abs(q), m, k - 1026);
    } else {
      Pow2Add(1026 - k, k);
      Reassociate(Abs(q), Pow2(1026 - k), Pow2(k));
      SameProduct(m, Abs(q) * Pow2(1026 - k), Pow2(k));
      MulLe(Abs(q), Abs(q), 1, Pow2(1026 - k));
      Pow2Zero();
      assert Significand(Abs(q), Abs(q), 0);
    }
  }

  ghost predicate ExactFma(x: double, y: double, z: double, r: double) {
    DVal(r) * Pow2(1074) == DVal(x) * DVal(y) + DVal(z) * Pow2(1074)
  }

  /** The host's double fma of three halves is exact precisely when the integer a * b * 2^48 + c * 2^48 (negations
      applied) has a significand of at most 53 bits. */
  lemma HfmaExactIff(a: half, b: half, c: half, np: bool, nc: bool, r: double)
    requires FiniteHalf(a) && FiniteHalf(b) && FiniteHalf(c)
    requires HostFma(NegateIf(np, H2d(a)), H2d(b), NegateIf(nc, H2d(c)), r)
    ensures var x, z := if np then -HVal(a) else HVal(a), if nc then -HVal(c) else HVal(c);
            ExactFma(NegateIf(np, H2d(a)), H2d(b), NegateIf(nc, H2d(c)), r)
            <==> FitsDouble(Abs(FmaUnits(x * HVal(b), z)))
  {
    hide Pow2, DVal, HVal, H2d, RoundedDouble, NegateIf, FitsDouble, FmaUnits;
    var x, z := if np then -HVal(a) else HVal(a), if nc then -HVal(c) else HVal(c);
    NegateIfExact(np, a);
    H2dExact(b);
    NegateIfExact(nc, c);
    Pow2_29();
    Pow2Add(1050, 24);
    Pow2Add(1026, 24);
    var u, e := Pow2(1050), Pow2(1074);
    FmaScaled(x, HVal(b), z, u, e, 0);
    var num := (x * u) * (HVal(b) * u) + (z * u) * e;
    UnscaleUnits(num, FmaUnits(x * HVal(b), z), Pow2(1026), u, e);
    ScaledExactIff(FmaUnits(x * HVal(b), z), num, ((a >= SIGN16) != np) != (b >= SIGN16) && (c >= SIGN16) != nc, r);
  }

  lemma UnscaleUnits(num: int, q: int, w: nat, u: nat, e: nat)
    requires u == w * 0x100_0000 && num * 0x100_0000 == q * u * e
    ensures num == q * w * e
  {
    assert q * u * e == (q * w * e) * 0x100_0000;
  }

  /** 2047^2 * 2^34 + 1025, an odd number of 56 bits. */
  const WITNESS: nat := 2047 * 2047 * 0x4_0000_0000 + 1025

  /** So it is not always exact: 65504 * 65504 + 1025 * 2^-24 has no double. */
  lemma FmaNotExact(r: double)
    requires HostFma(H2d(0x7bff), H2d(0x7bff), H2d(0x0401), r)
    ensures !ExactFma(H2d(0x7bff), H2d(0x7bff), H2d(0x0401), r)
  {
    hide Pow2, Value, DVal, H2d, RoundedDouble, FitsDouble, HVal;
    WitnessUnits();
    NotFits();
    HfmaExactIff(0x7bff, 0x7bff, 0x0401, false, false, r);
  }

  lemma WitnessUnits()
    ensures FmaUnits(HVal(0x7bff) * HVal(0x7bff), HVal(0x0401)) == WITNESS * Pow2(24)
  {
    hide Pow2, Value;
    Pow2Zero();
    Constants();
    Pow2_29();
    PatternValue(11, 29, 2047);
    PatternValue(11, 0, 1025);
  }

  lemma NotFits()
    ensures !FitsDouble(WITNESS * Pow2(24))
  {
    hide Pow2;
    Constants();
    forall m: nat, j: nat
      ensures !Significand(WITNESS * Pow2(24), m, j)
    {
      if m < Pow2(53) && j <= 24 {
        Pow2Add(24 - j, j);
        SmallSide(m, WITNESS, Pow2(24 - j), Pow2(j));
      } else if m < Pow2(53) {
        Pow2Add(j - 24, 24);
        Pow2Succ(j - 25);
        EvenSide(m, Pow2(j - 25), WITNESS, Pow2(24));
      }
    }
  }

  lemma SameProduct(a: int, b: int, e: nat)
    requires e > 0 && a * e == b * e
    ensures a == b
  {
    SignOfProduct(a - b, e);
    assert (a - b) * e == a * e - b * e;
  }

  /** Whatever the operands, the host has a finite answer: the relations above are never empty. */
  lemma HostAnswers(num: int, den: nat, zeroNeg: bool) returns (y: double)
    requires den > 0 && Abs(num) <= Pow2(1152) * den
    ensures RoundedDouble(num, den, zeroNeg, y)
  {
    hide Pow2, Value, NearestEven;
    Constants();
    if num == 0 {
      y := if zeroNeg then SIGN64 else 0;
    } else {
      var b := NearestExists(53, Abs(num), den);
      PatternValue(53, 1100, FRAC64);
      Pow2Add(52, 1100);
      NearestMono(53, Abs(num), den, b, 1101 * FRAC64);
      y := if num < 0 then SIGN64 + b else b;
    }
  }

  lemma HfmaAnswers(a: half, b: half, c: half, np: bool, nc: bool) returns (r: half)
    requires FiniteHalf(a) && FiniteHalf(b) && FiniteHalf(c)
    ensures RefHfma(a, b, c, np, nc, r)
  {
    hide Pow2, DVal, HVal, H2d, NegateIf, D2h, RoundedDouble;
    NegateIfExact(np, a);
    H2dExact(b);
    NegateIfExact(nc, c);
    var x, y, z := NegateIf(np, H2d(a)), H2d(b), NegateIf(nc, H2d(c));
    FmaBound(a, b, c, DVal(x), DVal(y), DVal(z));
    var d := HostAnswers(DVal(x) * DVal(y) + DVal(z) * Pow2(1074), Pow2(1074), (Negative(x) != Negative(y)) && Negative(z));
    r := D2h(d);
    assert HostFma(x, y, z, d);
  }

  lemma FmaBound(a: half, b: half, c: half, x: int, y: int, z: int)
    requires FiniteHalf(a) && FiniteHalf(b) && FiniteHalf(c)
    requires Abs(x) == Abs(HVal(a) * Pow2(1050)) && y == HVal(b) * Pow2(1050) && Abs(z) == Abs(HVal(c) * Pow2(1050))
    ensures Abs(x * y + z * Pow2(1074)) <= Pow2(1152) * Pow2(1074)
  {
    hide Pow2, HVal;
    var ka, ma := HalfParts(a);
    var kb, mb := HalfParts(b);
    var kc, mc := HalfParts(c);
    var u, e := Pow2(1050), Pow2(1074);
    HalfBound(ma, ka, HVal(a));
    HalfBound(mb, kb, HVal(b));
    HalfBound(mc, kc, HVal(c));
    AbsTimes(x, y);
    AbsProduct(z, e);
    Pow2Add(1091, 1091);
    Pow2Add(1091, 1074);
    MulLe(Abs(x), Pow2(1091), Abs(y), Pow2(1091));
    MulLe(Abs(z), Pow2(1091), e, e);
    Pow2Mono(2182, 2225);
    Pow2Mono(2165, 2225);
    Pow2Succ(2225);
    Pow2Add(1152, 1074);
  }

  lemma HalfBound(m: nat, k: nat, w: int)
    requires Abs(w) == m * Pow2(k) && m < 0x800 && k <= 29
    ensures Abs(w * Pow2(1050)) <= Pow2(1091)
  {
    hide Pow2;
    Constants();
    Pow2_29();
    Pow2Mono(k, 29);
    MulLe(m, 0x800, Pow2(k), Pow2(29));
    Pow2Add(11, 29);
    Pow2Succ(40);
    Pow2Add(41, 1050);
    AbsProduct(w, Pow2(1050));
    MulLe(Abs(w), Pow2(41), Pow2(1050), Pow2(1050));
  }

  lemma HalfMagnitude(h: half)
    requires FiniteHalf(h)
    ensures Abs(HVal(h) * Pow2(1050)) <= Pow2(1091)
  {
    hide Pow2, HVal;
    var k, m := HalfParts(h);
    HalfBound(m, k, HVal(h));
  }

  lemma TwiceBound()
    ensures 2 * Pow2(1091) <= Pow2(1152)
  {
    hide Pow2;
    Pow2Succ(1091);
    Pow2Mono(1092, 1152);
  }

  lemma HaddAnswers(a: half, b: half) returns (r: half, s: half)
    requires FiniteHalf(a) && FiniteHalf(b)
    ensures RefHadd(a, b, r) && RefHsub(a, b, s)
  {
    hide Pow2, DVal, HVal, H2d, D2h, RoundedDouble, Negate;
    H2dExact(a);
    H2dExact(b);
    NegateExact(H2d(b));
    HalfMagnitude(a);
    HalfMagnitude(b);
    TwiceBound();
    var x, y, z := H2d(a), H2d(b), Negate(H2d(b));
    var d := HostAnswers(DVal(x) + DVal(y), 1, Negative(x) && Negative(y));
    assert HostAdd(x, y, d);
    var e := HostAnswers(DVal(x) + DVal(z), 1, Negative(x) && Negative(z));
    assert HostAdd(x, z, e);
    r, s := D2h(d), D2h(e);
  }

  lemma HmulAnswers(a: half, b: half) returns (r: half)
    requires FiniteHalf(a) && FiniteHalf(b)
    ensures RefHmul(a, b, r)
  {
    hide Pow2, DVal, HVal, H2d, D2h, RoundedDouble;
    H2dExact(a);
    H2dExact(b);
    HalfMagnitude(a);
    HalfMagnitude(b);
    var x, y := H2d(a), H2d(b);
    AbsTimes(DVal(x), DVal(y));
    MulLe(Abs(DVal(x)), Pow2(1091), Abs(DVal(y)), Pow2(1091));
    Pow2Add(1091, 1091);
    Pow2Add(1152, 1074);
    Pow2Mono(2182, 2226);
    var d := HostAnswers(DVal(x) * DVal(y), Pow2(1074), Negative(x) != Negative(y));
    assert HostMul(x, y, d);
    r := D2h(d);
  }

  lemma HdivAnswers(a: half, b: half) returns (r: half)
    requires FiniteHalf(a) && FiniteHalf(b)
    ensures RefHdiv(a, b, r)
  {
    hide Pow2, DVal, HVal, H2d, D2h, RoundedDouble;
    H2dExact(a);
    H2dExact(b);
    var x, y := H2d(a), H2d(b);
    var neg := Negative(x) != Negative(y);
    var d: double;
    if DVal(y) == 0 {
      d := if DVal(x) == 0 then INF64 + 1 else INF64 + if neg then SIGN64 else 0;
    } else {
      DivBound(a, b);
      var num := (if neg then -1 else 1) * Abs(DVal(x)) * Pow2(1074);
      SignedMagnitude(neg, Abs(DVal(x)), Pow2(1074));
      d := HostAnswers(num, Abs(DVal(y)), neg);
    }
    assert HostDiv(x, y, d);
    r := D2h(d);
  }

  lemma SignedMagnitude(neg: bool, a: nat, e: nat)
    ensures Abs((if neg then -1 else 1) * a * e) == a * e
  {
    AbsProduct((if neg then -1 else 1) * a, e);
  }

  lemma DivBound(a: half, b: half)
    requires FiniteHalf(a) && FiniteHalf(b) && DVal(H2d(b)) != 0
    ensures Abs(DVal(H2d(a))) * Pow2(1074) <= Pow2(1152) * Abs(DVal(H2d(b)))
  {
    hide Pow2, DVal, HVal, H2d;
    H2dExact(a);
    H2dExact(b);
    HalfMagnitude(a);
    var u := Pow2(1050);
    SignOfProduct(HVal(b), u);
    AbsProduct(HVal(b), u);
    ScaledLess(1, Abs(HVal(b)), u);
    MulLe(Abs(DVal(H2d(a))), Pow2(1091), Pow2(1074), Pow2(1074));
    Pow2Add(1091, 1074);
    Pow2Add(1152, 1050);
    Pow2Mono(2165, 2202);
    MulLe(Pow2(1152), Pow2(1152), u, Abs(DVal(H2d(b))));
  }

  /** One direct rounding determines the half: together with the answers above, each reference operation returns
      exactly the bits of the one-rounding result. */
  lemma DirectUnique(num: int, den: nat, zeroNegative: bool, h: half, h': half)
    requires den > 0 && Direct(num, den, zeroNegative, h) && Direct(num, den, zeroNegative, h')
    ensures h == h'
  {
    hide NearestEven;
    var n := Abs(num);
    if n >= 0x400 * den {
      var b: nat :| NearestEven(11, n, den, b) && h % SIGN16 == if b > INF16 then INF16 else b;
      var c: nat :| NearestEven(11, n, den, c) && h' % SIGN16 == if c > INF16 then INF16 else c;
      NearestUnique(11, n, den, b, c);
    }
  }
}
