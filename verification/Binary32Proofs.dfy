/** The generator's rounding is IEEE 754-2019 roundTiesToEven (section 4.3.1), once per operation. */
module Binary32Proofs {
  import opened Wrappers
  import opened Words
  import opened Powers
  import opened Rounding
  import opened Binary32

  /** Magnitude pattern of +infinity: the first one that is not finite. */
  const INFINITY: nat := 0x7f80_0000

  ghost predicate Finite(bits: int) {
    0 <= bits < MOD32 && bits % 0x8000_0000 < INFINITY
  }

  /** |x| in units of 2^-149 is Scaled(x) / x.den. */
  ghost function Scaled(x: Fraction): nat {
    Abs(x.num) * Pow2(149)
  }

  /** r is the nearest finite pattern, ties to even, with x's sign, and +0 for zero. */
  ghost predicate RoundsTo(x: Fraction, r: int)
    requires x.Valid()
  {
    && Finite(r)
    && (x.num < 0 <==> r >= 0x8000_0000)
    && (x.num == 0 ==> r == 0)
    && NearestEven(24, Scaled(x), x.den, r % 0x8000_0000)
  }

  // ----- the exponent bracket -----

  lemma {:induction false} BitLengthBounds(n: nat)
    requires n > 0
    ensures BitLength(n) > 0 && Pow2(BitLength(n) - 1) <= n < Pow2(BitLength(n))
  {
    if n > 1 {
      BitLengthBounds(n / 2);
    }
  }

  /** The bit-length estimate e satisfies 2^(e-1) < n/d < 2^(e+1): one lower on both sides than the source's
      comment says. */
  lemma EstimateBracket(n: nat, d: nat)
    requires n > 0 && d > 0
    ensures var e := Estimate(n, d);
            RightSide(d, e) < 2 * LeftSide(n, e) && LeftSide(n, e) < 2 * RightSide(d, e)
  {
    hide Pow2, BitLength;
    var a, c, e := BitLength(n), BitLength(d), Estimate(n, d);
    BitLengthBounds(n);
    BitLengthBounds(d);
    Pow2Succ(a - 1);
    Pow2Succ(c - 1);
    Pow2Zero();
    if e >= 0 {
      Pow2Add(e, c);
      BracketProducts(Pow2(a), Pow2(c - 1), n, d, Pow2(e));
    } else {
      Pow2Add(-e, a);
      BracketProducts(Pow2(c), Pow2(a - 1), d, n, Pow2(-e));
    }
  }

  /** d lies in [c, 2c), n in [a/2, a), and a is 2c scaled by s: then d * s and n differ by less than two. */
  lemma BracketProducts(a: nat, c: nat, n: nat, d: nat, s: nat)
    requires s > 0 && c <= d < 2 * c && a == s * (2 * c) && n < a <= 2 * n
    ensures d * s < 2 * n && n < 2 * (d * s)
  {
  }

  /** The comment beside the estimate states the bracket 2^e <= n/d < 2^(e+2). Its upper half always holds; its
      lower half holds exactly when the guard of the correction below it is false, so that the correction never
      runs where the comment is right. */
  lemma EstimateCommentIff(n: nat, d: nat)
    requires n > 0 && d > 0
    ensures var e := Estimate(n, d);
            RightSide(d, e) <= LeftSide(n, e) < 4 * RightSide(d, e) <==> !(LeftSide(n, e) < RightSide(d, e))
  {
    hide Pow2, BitLength, LeftSide, RightSide;
    EstimateBracket(n, d);
  }

  /** For a denominator that is a power of two the estimate is the exponent: the comment's bracket holds and the
      correction does not run. */
  lemma EstimateDyadic(n: nat, k: nat)
    requires n > 0
    ensures var e := Estimate(n, Pow2(k));
            RightSide(Pow2(k), e) <= LeftSide(n, e) < 4 * RightSide(Pow2(k), e)
  {
    hide Pow2, BitLength, LeftSide, RightSide;
    BitLengthBounds(n);
    BitLengthPow2(k);
    DyadicSides(n, BitLength(n), k);
    EstimateCommentIff(n, Pow2(k));
  }

  lemma DyadicSides(n: nat, b: nat, k: nat)
    requires b > 0 && Pow2(b - 1) <= n
    ensures var e := b - (k + 1); RightSide(Pow2(k), e) <= LeftSide(n, e)
  {
    hide Pow2;
    Pow2Zero();
    var e := b - (k + 1);
    if e >= 0 {
      Pow2Add(k, e);
    } else {
      Pow2Add(b - 1, -e);
      ScaledLess(Pow2(b - 1), n, Pow2(-e));
    }
  }

  lemma {:induction false} BitLengthPow2(k: nat)
    ensures BitLength(Pow2(k)) == k + 1
  {
    if k > 0 {
      BitLengthPow2(k - 1);
      assert Pow2(k) / 2 == Pow2(k - 1);
    }
  }

  /** The bracket of the comment fails for some fractions: 1/3, whose estimate is -1, is the smallest example. */
  lemma EstimateCommentFails()
    ensures Estimate(1, 3) == -1 && !(RightSide(3, -1) <= LeftSide(1, -1))
  {
    assert BitLength(1) == 1 && BitLength(3) == 2;
  }

  // ----- the fractions the generator rounds -----

  /** x's denominator is a power of two. */
  ghost predicate Dyadic(x: Fraction) {
    exists k: nat :: x.den == Pow2(k)
  }

  /** Decoded patterns are dyadic, sums and products of dyadic fractions are, and so are integers: the arguments
      of every fr2f in fadd, fmul, fma and requant. */
  lemma ArgumentsAreDyadic(bits: word, x: Fraction, y: Fraction)
    requires Dyadic(x) && Dyadic(y) && x.Valid() && y.Valid()
    ensures F2Fr(bits).Some? ==> Dyadic(F2Fr(bits).value)
    ensures Dyadic(Plus(x, y)) && Dyadic(Times(x, y))
    ensures forall i: int :: Dyadic(Fraction(i, 1))
  {
    hide Pow2, Plus, Times;
    PatternDyadic(bits);
    var j: nat :| x.den == Pow2(j);
    var k: nat :| y.den == Pow2(k);
    Pow2Add(j, k);
    ResultDens(x, y);
    assert Plus(x, y).den == Pow2(j + k) && Times(x, y).den == Pow2(j + k);
    Pow2Zero();
    forall i: int
      ensures Dyadic(Fraction(i, 1))
    {
      assert Fraction(i, 1).den == Pow2(0);
    }
  }

  lemma ResultDens(x: Fraction, y: Fraction)
    requires x.Valid() && y.Valid()
    ensures Plus(x, y).den == x.den * y.den && Times(x, y).den == x.den * y.den
  {
  }

  lemma PatternDyadic(bits: word)
    ensures F2Fr(bits).Some? ==> Dyadic(F2Fr(bits).value)
  {
    hide Pow2;
    Pow2_23();
    var e := bits / 0x80_0000 % 0x100;
    if 0 < e < 127 {
      Pow2Add(23, 127 - e);
      assert F2Fr(bits).value.den == Pow2(23 + (127 - e));
    } else if e >= 127 && e != 0xff {
      assert F2Fr(bits).value.den == Pow2(23);
    } else if e == 0 {
      assert F2Fr(bits).value.den == Pow2(149);
    }
  }

  /** Reducing a dyadic fraction to lowest terms keeps it dyadic: a divisor of a power of two is one. */
  lemma {:induction false} DivisorOfPow2(d: nat, c: nat, k: nat) returns (j: nat)
    requires d * c == Pow2(k)
    ensures d == Pow2(j)
    decreases k
  {
    if k == 0 {
      Pow2Zero();
      OneFactors(d, c);
      j := 0;
    } else if d % 2 == 0 {
      assert 2 * (d / 2 * c) == 2 * Pow2(k - 1);
      j := DivisorOfPow2(d / 2, c, k - 1);
      j := j + 1;
    } else {
      EvenFactor(d, c, Pow2(k - 1));
      j := DivisorOfPow2(d, c / 2, k - 1);
    }
  }

  lemma OneFactors(d: nat, c: nat)
    requires d * c == 1
    ensures d == 1
  {
    if d > 1 {
      MulLe(2, d, 1, c);
    }
  }

  lemma EvenFactor(d: nat, c: nat, h: nat)
    requires d % 2 == 1 && d * c == 2 * h
    ensures c % 2 == 0 && d * (c / 2) == h
  {
    var q := d / 2;
    assert d == 2 * q + 1;
    assert d * c == 2 * (q * c) + c;
    assert c == 2 * (c / 2);
    assert d * c == 2 * (d * (c / 2));
  }

  /** So for every value the generator rounds, in lowest terms as Python keeps it, the comment is right. */
  lemma CommentHoldsForGenerator(x: Fraction, n: nat, d: nat, c: nat)
    requires x.Valid() && Dyadic(x) && n > 0 && d > 0 && Abs(x.num) == n * c && x.den == d * c
    ensures var e := Estimate(n, d); RightSide(d, e) <= LeftSide(n, e) < 4 * RightSide(d, e)
  {
    hide Pow2, BitLength, LeftSide, RightSide, Estimate;
    var k: nat :| x.den == Pow2(k);
    var j := DivisorOfPow2(d, c, k);
    EstimateDyadic(n, j);
  }

  /** After the correction and the clamp: 2^e <= n/d < 2^(e+1), or the subnormal exponent and only the upper
      bound. */
  lemma ExponentBracket(n: nat, d: nat)
    requires n > 0 && d > 0
    ensures var e := Exponent(n, d);
            e >= -126 && LeftSide(n, e) < 2 * RightSide(d, e) && (e > -126 ==> RightSide(d, e) <= LeftSide(n, e))
  {
    hide Pow2, Estimate;
    EstimateBracket(n, d);
    Pow2Zero();
    var e0 := Estimate(n, d);
    var low := LeftSide(n, e0) < RightSide(d, e0);
    var e1 := if low then e0 - 1 else e0;
    if low {
      OneLower(n, d, e0);
    }
    if e1 < -126 {
      Pow2Mono(126, -e1 - 1);
      MulLe(n, n, Pow2(126), Pow2(-e1 - 1));
      Pow2Succ(-e1 - 1);
      assert n * (2 * Pow2(-e1 - 1)) == 2 * (n * Pow2(-e1 - 1));
    }
  }

  /** Lowering the exponent by one halves the right side or doubles the left. */
  lemma OneLower(n: nat, d: nat, e: int)
    ensures e >= 1 ==> LeftSide(n, e - 1) == LeftSide(n, e) && RightSide(d, e) == 2 * RightSide(d, e - 1)
    ensures e < 1 ==> LeftSide(n, e - 1) == 2 * LeftSide(n, e) && RightSide(d, e - 1) == RightSide(d, e)
  {
  }

  // ----- the significand -----

  /** The scaled quotient is the fraction in units of 2^(e-149+126), exactly: numerator and denominator differ
      from it by a common factor. */
  lemma ScaleFactor(n: nat, d: nat, e: int) returns (t: nat)
    requires d > 0 && e >= -126
    ensures t > 0
    ensures n * Pow2(149) == ScaledNum(n, e - 23) * t
    ensures d * Pow2(e + 126) == ScaledDen(d, e - 23) * t
  {
    hide Pow2;
    var q, k := e - 23, e + 126;
    if q >= 0 {
      t := Pow2(149);
      Pow2Add(q, 149);
      assert d * (Pow2(q) * Pow2(149)) == (d * Pow2(q)) * Pow2(149);
    } else {
      t := Pow2(k);
      Pow2Add(-q, k);
      assert n * (Pow2(-q) * Pow2(k)) == (n * Pow2(-q)) * Pow2(k);
    }
  }

  /** The scaled quotient is 2^23 times the quotient of the two shifted sides. */
  lemma SideFactor(n: nat, d: nat, e: int) returns (u: nat)
    ensures u > 0
    ensures 0x80_0000 * LeftSide(n, e) == ScaledNum(n, e - 23) * u
    ensures RightSide(d, e) == ScaledDen(d, e - 23) * u
  {
    hide Pow2;
    Pow2_23();
    Pow2Zero();
    if e >= 23 {
      u := 0x80_0000;
      Pow2Add(e - 23, 23);
      assert d * (Pow2(e - 23) * Pow2(23)) == (d * Pow2(e - 23)) * Pow2(23);
    } else if e >= 0 {
      u := Pow2(e);
      Pow2Add(23 - e, e);
      assert n * (Pow2(23 - e) * Pow2(e)) == (n * Pow2(23 - e)) * Pow2(e);
    } else {
      u := 1;
      Pow2Add(23, -e);
      assert n * (Pow2(23) * Pow2(-e)) == Pow2(23) * (n * Pow2(-e));
    }
  }

  lemma SignificandBounds(n: nat, d: nat, e: int)
    requires d > 0 && LeftSide(n, e) < 2 * RightSide(d, e)
    ensures ScaledNum(n, e - 23) < 0x100_0000 * ScaledDen(d, e - 23)
    ensures RightSide(d, e) <= LeftSide(n, e) ==> 0x80_0000 * ScaledDen(d, e - 23) <= ScaledNum(n, e - 23)
  {
    hide Pow2, LeftSide, RightSide, ScaledNum, ScaledDen;
    var u := SideFactor(n, d, e);
    var num, den := ScaledNum(n, e - 23), ScaledDen(d, e - 23);
    assert (0x100_0000 * den) * u == 0x100_0000 * (den * u);
    assert (0x80_0000 * den) * u == 0x80_0000 * (den * u);
    if num >= 0x100_0000 * den {
      ScaledLess(0x100_0000 * den, num, u);
    }
    if num < 0x80_0000 * den {
      ScaledLess(num, 0x80_0000 * den, u);
    }
  }

  lemma Pow2_23()
    ensures Pow2(23) == 0x80_0000 && Pow2(24) == 0x100_0000
  {
    Pow2Word();
    Pow2Succ(7);
    Pow2Add(16, 7);
    Pow2Succ(23);
  }

  lemma MantissaNearest(n: nat, d: nat, e: int)
    requires n > 0 && d > 0 && e >= -126
    requires LeftSide(n, e) < 2 * RightSide(d, e) && (e > -126 ==> RightSide(d, e) <= LeftSide(n, e))
    ensures var mi := RoundHalfEven(ScaledNum(n, e - 23), ScaledDen(d, e - 23));
            && mi <= 0x100_0000 && (e > -126 ==> mi >= 0x80_0000)
            && NearestEven(24, n * Pow2(149), d, (e + 126) * 0x80_0000 + mi)
  {
    hide NearestEven, LeftSide, RightSide, ScaledNum, ScaledDen, RoundHalfEven, Pow2;
    var t := ScaleFactor(n, d, e);
    SignificandBounds(n, d, e);
    Pow2_23();
    ScaledNearest(24, n * Pow2(149), d, e + 126, ScaledNum(n, e - 23), ScaledDen(d, e - 23), t);
  }

  // ----- the theorem -----

  /** fr2f rounds to nearest, ties to even, subnormals and carries included, and fails exactly when the
      nearest pattern with an unbounded exponent is past the largest finite one. */
  lemma Fr2fNearest(x: Fraction, b: nat)
    requires x.Valid() && x.num != 0 && NearestEven(24, Scaled(x), x.den, b)
    ensures Fr2f(x) == if b >= INFINITY then None else Some((if x.num < 0 then 0x8000_0000 else 0) + b)
  {
    hide NearestEven, RoundHalfEven, ScaledNum, ScaledDen, LeftSide, RightSide, Exponent, Pow2;
    var n, d := Abs(x.num), x.den;
    var e := Exponent(n, d);
    ExponentBracket(n, d);
    MantissaNearest(n, d, e);
    var mi := RoundHalfEven(ScaledNum(n, e - 23), ScaledDen(d, e - 23));
    NearestUnique(24, n * Pow2(149), d, b, (e + 126) * 0x80_0000 + mi);
  }

  lemma Fr2fZero(x: Fraction)
    requires x.Valid() && x.num == 0
    ensures Fr2f(x) == Some(0)
  {
  }

  /** Every result is the correct rounding of its exact argument. */
  lemma Fr2fCorrect(x: Fraction)
    requires x.Valid()
    ensures Fr2f(x).Some? ==> RoundsTo(x, Fr2f(x).value)
  {
    hide Value, Pow2, NearestEven;
    var b := NearestExists(24, Scaled(x), x.den);
    if x.num == 0 {
      PatternValue(24, 0, 0);
      NearestExact(24, Scaled(x), x.den, 0, b);
    } else {
      Fr2fNearest(x, b);
      if b == 0 && x.num < 0 && Fr2f(x).Some? {
        assert Fr2f(x).value % 0x8000_0000 == 0;
      }
    }
  }

  /** The largest magnitude that does not overflow lies just below 2^128 - 2^103. */
  lemma Fr2fOverflow(x: Fraction)
    requires x.Valid()
    ensures Fr2f(x).None? <==> Scaled(x) >= x.den * (0x1ff_ffff * Pow2(252))
  {
    hide NearestEven, Value, Pow2, Fr2f;
    var n, d, u := Scaled(x), x.den, Pow2(252);
    var b := NearestExists(24, n, d);
    LargestFinite();
    if x.num == 0 {
      Fr2fZero(x);
      Positive(d, u);
    } else {
      Fr2fNearest(x, b);
      AboveTop(n, d, b);
    }
  }

  lemma LargestFinite()
    ensures Value(24, 0x7f7f_ffff) == 0x1ff_fffe * Pow2(252) && Value(24, INFINITY) == 0x200_0000 * Pow2(252)
  {
    hide Value, Pow2;
    Pow2_23();
    Pow2Succ(252);
    PatternValue(24, 253, 0xff_ffff);
    PatternValue(24, 253, 0x100_0000);
  }

  /** Between the largest finite value and 2^128 the midpoint decides, and goes up. */
  lemma AboveTop(n: nat, d: nat, b: nat)
    requires d > 0 && NearestEven(24, n, d, b)
    requires Value(24, 0x7f7f_ffff) * d == 0x1ff_fffe * (d * Pow2(252))
    requires Value(24, INFINITY) * d == 0x200_0000 * (d * Pow2(252))
    ensures b >= INFINITY <==> n >= 0x1ff_ffff * (d * Pow2(252))
  {
    hide Value, Pow2, NearestEven;
    var top, w := 0x7f7f_ffff, d * Pow2(252);
    if n <= 0x1ff_fffe * w {
      NearestMono(24, n, d, b, top);
      Positive(d, Pow2(252));
    } else if n >= 0x200_0000 * w {
      NearestMono(24, n, d, b, INFINITY);
    } else {
      var up := n >= 0x1ff_ffff * w;
      NearestOfTwo(24, n, d, top, up);
      NearestUnique(24, n, d, b, if up then top + 1 else top);
    }
  }

  // ----- decoding and the round trip -----

  /** A pattern's fraction has exactly the pattern's value. */
  lemma F2FrValue(bits: word)
    ensures F2Fr(bits).Some? <==> Finite(bits)
    ensures Finite(bits) ==>
              && Scaled(F2Fr(bits).value) == Value(24, bits % 0x8000_0000) * F2Fr(bits).value.den
              && (F2Fr(bits).value.num < 0 <==> bits > 0x8000_0000)
              && (F2Fr(bits).value.num == 0 <==> bits % 0x8000_0000 == 0)
  {
    hide Value, Pow2;
    var s, e, m := bits / 0x8000_0000, bits / 0x80_0000 % 0x100, bits % 0x80_0000;
    assert bits % 0x8000_0000 == e * 0x80_0000 + m;
    if e == 0 {
      Pow2_23();
      PatternValue(24, 0, m);
      Pow2Zero();
    } else if e != 0xff {
      Pow2_23();
      PatternValue(24, e - 1, 0x80_0000 + m);
      NormalValue(e, 0x80_0000 + m);
    }
  }

  /** sig * 2^(e - 150) as the source writes it, over 2^23. */
  lemma NormalValue(e: nat, sig: nat)
    requires 0 < e < 0xff && sig > 0
    ensures e >= 127 ==> sig * Pow2(e - 127) > 0
    ensures e >= 127 ==> sig * Pow2(e - 127) * Pow2(149) == sig * Pow2(e - 1) * 0x80_0000
    ensures e < 127 ==> sig * Pow2(149) == sig * Pow2(e - 1) * (0x80_0000 * Pow2(127 - e))
  {
    hide Pow2;
    Pow2_23();
    if e >= 127 {
      Pow2Add(e - 127, 149);
      Pow2Add(e - 1, 23);
      var a, b, c := Pow2(e - 127), Pow2(149), Pow2(e - 1);
      assert sig * a * b == sig * (a * b);
      assert sig * (c * 0x80_0000) == sig * c * 0x80_0000;
      Positive(sig, a);
    } else {
      Pow2Add(127 - e, 23);
      Pow2Add(e - 1, 150 - e);
      var c, f := Pow2(e - 1), Pow2(127 - e);
      assert sig * (c * (f * 0x80_0000)) == sig * c * (0x80_0000 * f);
    }
  }

  /** Decoding a finite pattern and rounding gives the pattern back, except that -0 comes back as +0. */
  lemma RoundTrip(bits: word)
    requires Finite(bits)
    ensures F2Fr(bits).Some?
    ensures Fr2f(F2Fr(bits).value) == Some(if bits == 0x8000_0000 then 0 else bits)
  {
    hide Value, NearestEven, Pow2, Fr2f, F2Fr;
    F2FrValue(bits);
    var x := F2Fr(bits).value;
    if x.num == 0 {
      Fr2fZero(x);
    } else {
      var b := NearestExists(24, Scaled(x), x.den);
      NearestExact(24, Scaled(x), x.den, bits % 0x8000_0000, b);
      Fr2fNearest(x, b);
    }
  }

  /** The exact a * b + c over 2^298, from the patterns' values in units of 2^-149. */
  ghost function Signed32(bits: word): int {
    var v: int := Value(24, bits % 0x8000_0000);
    if bits >= 0x8000_0000 then -v else v
  }

  /** n / 2^(2 * 149) as a fraction. */
  ghost function Exactly(n: int): (x: Fraction)
    ensures x.Valid()
  {
    Pow2Add(149, 149);
    Fraction(n, Pow2(298))
  }

  /** Rounding does not depend on how the fraction is written. */
  lemma Fr2fInvariant(x: Fraction, y: Fraction)
    requires x.Valid() && y.Valid() && x.num * y.den == y.num * x.den
    ensures Fr2f(x) == Fr2f(y)
  {
    hide Value, Pow2, NearestEven, Fr2f;
    if x.num == 0 {
      Fr2fZero(x);
      Fr2fZero(y);
    } else {
      var b := NearestExists(24, Scaled(x), x.den);
      AbsProduct(x.num, y.den);
      AbsProduct(y.num, x.den);
      var p := Pow2(149);
      assert Abs(x.num) * p * y.den == p * (Abs(x.num) * y.den);
      assert Abs(y.num) * p * x.den == p * (Abs(y.num) * x.den);
      NearestRescale(24, Scaled(x), x.den, Scaled(y), y.den, b);
      Fr2fNearest(x, b);
      Fr2fNearest(y, b);
    }
  }

  /** fma is a true fused multiply-add: its result is the single correct rounding of the exact a * b + c. */
  lemma FmaRoundsOnce(a: word, b: word, c: word)
    requires Finite(a) && Finite(b) && Finite(c)
    ensures var exact := Exactly(Signed32(a) * Signed32(b) + Signed32(c) * Pow2(149));
            Fma(a, b, c) == Fr2f(exact) && (Fma(a, b, c).Some? ==> RoundsTo(exact, Fma(a, b, c).value))
  {
    hide Value, F2Fr, Fr2f, Pow2;
    F2FrValue(a);
    F2FrValue(b);
    F2FrValue(c);
    var x, y, z := F2Fr(a).value, F2Fr(b).value, F2Fr(c).value;
    SignedScaled(a, x);
    SignedScaled(b, y);
    SignedScaled(c, z);
    var p := Pow2(149);
    var sum := Plus(Times(x, y), z);
    var exact := Exactly(Signed32(a) * Signed32(b) + Signed32(c) * p);
    Pow2Add(149, 149);
    SumOfProducts(x.num, x.den, y.num, y.den, z.num, z.den, p, Signed32(a), Signed32(b), Signed32(c));
    Fr2fInvariant(sum, exact);
    Fr2fCorrect(exact);
  }

  /** fadd and fmul, too, round the exact result once. */
  lemma AddMulRoundOnce(a: word, b: word)
    requires Finite(a) && Finite(b)
    ensures var sum := Exactly((Signed32(a) + Signed32(b)) * Pow2(149));
            Fadd(a, b) == Fr2f(sum) && (Fadd(a, b).Some? ==> RoundsTo(sum, Fadd(a, b).value))
    ensures var product := Exactly(Signed32(a) * Signed32(b));
            Fmul(a, b) == Fr2f(product) && (Fmul(a, b).Some? ==> RoundsTo(product, Fmul(a, b).value))
  {
    hide Value, F2Fr, Fr2f, Pow2;
    F2FrValue(a);
    F2FrValue(b);
    var x, y := F2Fr(a).value, F2Fr(b).value;
    SignedScaled(a, x);
    SignedScaled(b, y);
    var p := Pow2(149);
    Pow2Add(149, 149);
    var sum, product := Exactly((Signed32(a) + Signed32(b)) * p), Exactly(Signed32(a) * Signed32(b));
    SumAndProduct(x.num, x.den, y.num, y.den, p, Signed32(a), Signed32(b));
    Fr2fInvariant(Plus(x, y), sum);
    Fr2fInvariant(Times(x, y), product);
    Fr2fCorrect(sum);
    Fr2fCorrect(product);
  }

  lemma SumAndProduct(xn: int, xd: int, yn: int, yd: int, p: int, a: int, b: int)
    requires xn * p == a * xd && yn * p == b * yd
    ensures (xn * yd + yn * xd) * (p * p) == ((a + b) * p) * (xd * yd)
    ensures (xn * yn) * (p * p) == (a * b) * (xd * yd)
  {
    FourFactors(xn, yn, p, p);
    FourFactors(a, b, xd, yd);
    FourFactors(xn, yd, p, p);
    FourFactors(yn, xd, p, p);
    FourFactors(a, p, xd, yd);
    FourFactors(b, p, yd, xd);
    assert (xn * yd + yn * xd) * (p * p) == (xn * yd) * (p * p) + (yn * xd) * (p * p);
    assert ((a + b) * p) * (xd * yd) == (a * p) * (xd * yd) + (b * p) * (yd * xd);
  }

  lemma FourFactors(a: int, b: int, c: int, d: int)
    ensures (a * b) * (c * d) == (a * c) * (b * d)
  {
  }

  lemma SignedScaled(bits: word, x: Fraction)
    requires Finite(bits) && x.Valid() && Scaled(x) == Value(24, bits % 0x8000_0000) * x.den
    requires (x.num < 0 <==> bits > 0x8000_0000) && (x.num == 0 <==> bits % 0x8000_0000 == 0)
    ensures x.num * Pow2(149) == Signed32(bits) * x.den
  {
    hide Value, Pow2;
    var v, p := Value(24, bits % 0x8000_0000), Pow2(149);
    if bits >= 0x8000_0000 {
      assert x.num * p == -(Abs(x.num) * p);
      assert (-v) * x.den == -(v * x.den);
    }
  }

  /** Cross-multiplying a sum of a product and a term. */
  lemma SumOfProducts(xn: int, xd: int, yn: int, yd: int, zn: int, zd: int, p: int, a: int, b: int, c: int)
    requires xn * p == a * xd && yn * p == b * yd && zn * p == c * zd
    ensures ((xn * yn) * zd + zn * (xd * yd)) * (p * p) == (a * b + c * p) * (xd * yd * zd)
  {
  }
}
