/** Rounding a positive rational to a binary floating-point format, nearest with ties to even
    (IEEE 754-2019, section 4.3.1).
    A magnitude pattern b of precision p splits into an exponent field b / 2^(p-1) and p - 1 mantissa bits;
    the exponent field is not bounded here. Value(p, b) is its value in units of the format's smallest
    subnormal, so a rational n/d is given by its numerator in those units. */
module Rounding {
  import opened Powers

  function Quotient(a: nat, b: nat): nat
    requires b > 0
  {
    a / b
  }

  function Remainder(a: nat, b: nat): (r: nat)
    requires b > 0
    ensures r < b
  {
    a % b
  }

  function Value(p: nat, b: nat): nat
    requires p > 0
  {
    var h := Pow2(p - 1);
    var ef, m := Quotient(b, h), Remainder(b, h);
    if ef == 0 then m else (h + m) * Pow2(ef - 1)
  }

  function Abs(x: int): nat {
    if x < 0 then -x else x
  }

  /** How far the value of pattern b is from n/d, times d. */
  function Distance(p: nat, n: nat, d: nat, b: nat): nat
    requires p > 0
  {
    Abs(n - Value(p, b) * d)
  }

  /** No pattern is nearer to n/d than b, and if another is as near then b is the even one. */
  ghost predicate NearestEven(p: nat, n: nat, d: nat, b: nat)
    requires p > 0
  {
    forall c: nat :: Distance(p, n, d, b) <= Distance(p, n, d, c) &&
                     (Distance(p, n, d, c) == Distance(p, n, d, b) && c != b ==> b % 2 == 0)
  }

  lemma ScaledLess(a: nat, b: nat, d: nat)
    requires a <= b
    ensures a * d <= b * d
    ensures a < b && d > 0 ==> a * d < b * d
  {
  }

  lemma SideScaled(a: nat, b: nat, u: nat)
    requires u > 0
    ensures (a < b <==> a * u < b * u) && (a > b <==> a * u > b * u)
  {
  }

  lemma DivMod(q: nat, r: nat, k: nat)
    requires r < k
    ensures Quotient(q * k + r, k) == q && Remainder(q * k + r, k) == r
  {
    var x := q * k + r;
    var y := Quotient(x, k);
    DivIdentity(x, k);
    assert (y + 1) * k == y * k + k && (q + 1) * k == q * k + k;
    SideScaled(y, q + 1, k);
    SideScaled(q, y + 1, k);
  }

  lemma DivIdentity(x: nat, k: nat)
    requires k > 0
    ensures x == Quotient(x, k) * k + Remainder(x, k)
  {
  }

  /** The pattern that a significand m and a scale of 2^k build, carry into the next binade included. */
  lemma PatternValue(p: nat, k: nat, m: nat)
    requires p > 0 && m <= Pow2(p) && (k == 0 || m >= Pow2(p - 1))
    ensures Value(p, k * Pow2(p - 1) + m) == m * Pow2(k)
  {
    hide Quotient, Remainder;
    var h := Pow2(p - 1);
    assert Pow2(p) == 2 * h;
    if m < h {
      DivMod(k, m, h);
    } else if m < 2 * h {
      assert k * h + m == (k + 1) * h + (m - h);
      DivMod(k + 1, m - h, h);
    } else {
      assert k * h + m == (k + 2) * h + 0;
      DivMod(k + 2, 0, h);
      assert Pow2(k + 1) == 2 * Pow2(k);
      assert h * (2 * Pow2(k)) == (2 * h) * Pow2(k);
    }
  }

  /** Any significand of at most p bits on a non-negative scale has a pattern. */
  lemma {:induction false} Representable(p: nat, m: nat, k: nat) returns (b: nat)
    requires p > 0 && m <= Pow2(p)
    ensures Value(p, b) == m * Pow2(k) && b <= k * Pow2(p - 1) + m
    decreases k
  {
    hide Value, Pow2;
    Pow2Succ(p - 1);
    if k == 0 || m >= Pow2(p - 1) {
      PatternValue(p, k, m);
      b := k * Pow2(p - 1) + m;
    } else {
      b := Representable(p, 2 * m, k - 1);
      Pow2Succ(k - 1);
      Halve(m, Pow2(k - 1));
      assert k * Pow2(p - 1) == (k - 1) * Pow2(p - 1) + Pow2(p - 1);
    }
  }

  lemma Halve(m: nat, u: nat)
    ensures 2 * m * u == m * (2 * u)
  {
  }

  /** Every pattern is built that way. */
  lemma PatternParts(p: nat, b: nat) returns (k: nat, m: nat)
    requires p > 0
    ensures m < Pow2(p) && (k == 0 || m >= Pow2(p - 1)) && b == k * Pow2(p - 1) + m
    ensures Value(p, b) == m * Pow2(k) && Value(p, b + 1) == (m + 1) * Pow2(k)
  {
    hide Quotient, Remainder, Value, Pow2;
    var h := Pow2(p - 1);
    DivIdentity(b, h);
    Pow2Succ(p - 1);
    var ef, r := Quotient(b, h), Remainder(b, h);
    if ef == 0 {
      k, m := 0, r;
      assert ef * h == 0;
    } else {
      k, m := ef - 1, h + r;
      assert ef * h == (ef - 1) * h + h;
    }
    PatternValue(p, k, m);
    PatternValue(p, k, m + 1);
  }

  lemma ValueStep(p: nat, b: nat)
    requires p > 0
    ensures Value(p, b) < Value(p, b + 1)
  {
    var k, m := PatternParts(p, b);
    assert (m + 1) * Pow2(k) == m * Pow2(k) + Pow2(k);
  }

  /** Larger patterns have larger values. */
  lemma {:induction false} ValueMono(p: nat, b: nat, c: nat)
    requires p > 0 && b < c
    ensures Value(p, b) < Value(p, c)
    decreases c
  {
    ValueStep(p, c - 1);
    if b < c - 1 {
      ValueMono(p, b, c - 1);
    }
  }

  lemma {:induction false} ValueAtLeast(p: nat, b: nat)
    requires p > 0
    ensures b <= Value(p, b)
  {
    if b > 0 {
      ValueAtLeast(p, b - 1);
      ValueStep(p, b - 1);
    }
  }

  /** Between two neighbouring patterns the nearer one wins, and at the midpoint the even one. */
  lemma NearestOfTwo(p: nat, n: nat, d: nat, b: nat, up: bool)
    requires p > 0 && d > 0 && Value(p, b) * d <= n < Value(p, b + 1) * d
    requires var lo, hi := n - Value(p, b) * d, Value(p, b + 1) * d - n;
             up <==> lo > hi || (lo == hi && b % 2 == 1)
    ensures NearestEven(p, n, d, if up then b + 1 else b)
  {
    hide Value;
    var r := if up then b + 1 else b;
    forall c: nat
      ensures Distance(p, n, d, r) <= Distance(p, n, d, c)
      ensures Distance(p, n, d, c) == Distance(p, n, d, r) && c != r ==> r % 2 == 0
    {
      if c < b {
        ValueMono(p, c, b);
        ScaledLess(Value(p, c), Value(p, b), d);
      } else if c > b + 1 {
        ValueMono(p, b + 1, c);
        ScaledLess(Value(p, b + 1), Value(p, c), d);
      }
    }
  }

  /** The two patterns around n/d. */
  lemma {:induction false} Bracket(p: nat, n: nat, d: nat, hi: nat) returns (b: nat)
    requires p > 0 && d > 0 && n < Value(p, hi) * d
    ensures Value(p, b) * d <= n < Value(p, b + 1) * d
    decreases hi
  {
    if hi == 0 {
      PatternValue(p, 0, 0);
      assert false;
    } else if n < Value(p, hi - 1) * d {
      b := Bracket(p, n, d, hi - 1);
    } else {
      b := hi - 1;
    }
  }

  lemma NearestExists(p: nat, n: nat, d: nat) returns (b: nat)
    requires p > 0 && d > 0
    ensures NearestEven(p, n, d, b)
  {
    ValueAtLeast(p, n + 1);
    ScaledLess(n + 1, Value(p, n + 1), d);
    ScaledLess(1, d, n + 1);
    var lo := Bracket(p, n, d, n + 1);
    var x, y := n - Value(p, lo) * d, Value(p, lo + 1) * d - n;
    var up := x > y || (x == y && lo % 2 == 1);
    NearestOfTwo(p, n, d, lo, up);
    b := if up then lo + 1 else lo;
  }

  /** Of three patterns in order, the middle one is nearer than one of the outer two. */
  lemma MiddleNearer(p: nat, n: nat, d: nat, b: nat, m: nat, c: nat)
    requires p > 0 && d > 0 && b < m < c
    ensures Distance(p, n, d, m) < Distance(p, n, d, b) || Distance(p, n, d, m) < Distance(p, n, d, c)
  {
    hide Value;
    ValueMono(p, b, m);
    ValueMono(p, m, c);
    ScaledLess(Value(p, b), Value(p, m), d);
    ScaledLess(Value(p, m), Value(p, c), d);
  }

  /** The correctly rounded result is unique: two would be neighbours, hence not both even. */
  lemma NearestUnique(p: nat, n: nat, d: nat, b: nat, c: nat)
    requires p > 0 && d > 0 && NearestEven(p, n, d, b) && NearestEven(p, n, d, c)
    ensures b == c
  {
    assert Distance(p, n, d, b) == Distance(p, n, d, c);
    if b + 1 < c {
      MiddleNearer(p, n, d, b, b + 1, c);
    } else if c + 1 < b {
      MiddleNearer(p, n, d, c, c + 1, b);
    }
  }

  /** A representable value rounds to itself. */
  lemma NearestExact(p: nat, n: nat, d: nat, b: nat, r: nat)
    requires p > 0 && d > 0 && n == Value(p, b) * d && NearestEven(p, n, d, r)
    ensures r == b
  {
    assert Distance(p, n, d, r) <= Distance(p, n, d, b);
    if r < b {
      ValueMono(p, r, b);
      ScaledLess(Value(p, r), Value(p, b), d);
    } else if b < r {
      ValueMono(p, b, r);
      ScaledLess(Value(p, b), Value(p, r), d);
    }
  }

  /** Rounding never crosses a representable value. */
  lemma NearestMono(p: nat, n: nat, d: nat, r: nat, t: nat)
    requires p > 0 && d > 0 && NearestEven(p, n, d, r)
    ensures n <= Value(p, t) * d ==> r <= t
    ensures n >= Value(p, t) * d ==> r >= t
  {
    if r > t {
      ValueMono(p, t, r);
      ScaledLess(Value(p, t), Value(p, r), d);
      assert Distance(p, n, d, r) <= Distance(p, n, d, t);
    } else if r < t {
      ValueMono(p, r, t);
      ScaledLess(Value(p, r), Value(p, t), d);
      assert Distance(p, n, d, r) <= Distance(p, n, d, t);
    }
  }

  // ----- rounding a scaled quotient -----

  lemma SignOfProduct(a: int, d: nat)
    requires d > 0
    ensures (a * d < 0 <==> a < 0) && (a * d == 0 <==> a == 0)
  {
  }

  lemma MulLe(a: nat, b: nat, c: nat, d: nat)
    requires a <= b && c <= d
    ensures a * c <= b * d
  {
  }

  /** num/den rounded to the nearest integer, half to even. */
  function RoundHalfEven(num: nat, den: nat): nat
    requires den > 0
  {
    var q, rem := Quotient(num, den), Remainder(num, den);
    if 2 * rem > den || (2 * rem == den && q % 2 == 1) then q + 1 else q
  }

  lemma QuotientBounds(num: nat, den: nat, lo: nat, hi: nat)
    requires den > 0 && lo * den <= num < hi * den
    ensures lo <= Quotient(num, den) < hi
  {
    DivIdentity(num, den);
    var mi := Quotient(num, den);
    assert (mi + 1) * den == mi * den + den;
    SideScaled(lo, mi + 1, den);
    SideScaled(mi, hi, den);
  }

  lemma PatternValues(p: nat, k: nat, mi: nat)
    requires p > 0 && mi < Pow2(p) && (k == 0 || mi >= Pow2(p - 1))
    ensures Value(p, k * Pow2(p - 1) + mi) == mi * Pow2(k)
    ensures Value(p, k * Pow2(p - 1) + mi + 1) == (mi + 1) * Pow2(k)
  {
    hide Value, Pow2;
    PatternValue(p, k, mi);
    PatternValue(p, k, mi + 1);
  }

  /** The quotient and remainder of the scaled fraction, scaled back. */
  lemma SplitScaled(n: nat, d: nat, s: nat, num: nat, den: nat, t: nat, mi: nat, rem: nat)
    requires n == num * t && d * s == den * t && num == mi * den + rem
    ensures mi * s * d + rem * t == n
    ensures (mi + 1) * s * d == mi * s * d + den * t
  {
    assert mi * s * d == mi * (d * s) == (mi * den) * t;
    assert (mi + 1) * s * d == mi * s * d + d * s;
  }

  /** Comparing the remainder with half the denominator is comparing the two distances. */
  lemma TieBreak(rem: nat, den: nat, t: nat)
    requires t > 0 && rem < den
    ensures rem * t < den * t
    ensures rem * t > den * t - rem * t <==> 2 * rem > den
    ensures rem * t == den * t - rem * t <==> 2 * rem == den
  {
    ScaledLess(rem, den, t);
    assert 2 * (rem * t) == (2 * rem) * t;
    if 2 * rem > den {
      ScaledLess(den, 2 * rem, t);
    } else if 2 * rem < den {
      ScaledLess(2 * rem, den, t);
    }
  }

  /** A significand rounded half to even, on the scale of its binade, is the nearest pattern: n/d in units of
      the smallest subnormal, num/den the same number in units of the last mantissa bit. */
  lemma ScaledNearest(p: nat, n: nat, d: nat, k: nat, num: nat, den: nat, t: nat)
    requires p > 1 && d > 0 && den > 0 && t > 0 && n == num * t && d * Pow2(k) == den * t
    requires num < Pow2(p) * den && (k > 0 ==> Pow2(p - 1) * den <= num)
    ensures var mi := RoundHalfEven(num, den);
            && mi <= Pow2(p) && (k > 0 ==> mi >= Pow2(p - 1))
            && NearestEven(p, n, d, k * Pow2(p - 1) + mi)
  {
    hide NearestEven, Quotient, Remainder, Value, Pow2;
    QuotientBounds(num, den, 0, Pow2(p));
    if k > 0 {
      QuotientBounds(num, den, Pow2(p - 1), Pow2(p));
    }
    var mi, rem := Quotient(num, den), Remainder(num, den);
    DivIdentity(num, den);
    PatternValues(p, k, mi);
    SplitScaled(n, d, Pow2(k), num, den, t, mi, rem);
    TieBreak(rem, den, t);
    EvenScale(p, k, mi);
    NearestOfTwo(p, n, d, k * Pow2(p - 1) + mi, 2 * rem > den || (2 * rem == den && mi % 2 == 1));
  }

  lemma EvenScale(p: nat, k: nat, mi: nat)
    requires p > 1
    ensures (k * Pow2(p - 1) + mi) % 2 == mi % 2
  {
    var h := Pow2(p - 2);
    assert k * (2 * h) + mi == 2 * (k * h) + mi;
  }

  // ----- other ways to write the same rational -----

  lemma AbsProduct(a: int, d: nat)
    ensures Abs(a * d) == Abs(a) * d
  {
    if a < 0 {
      assert a * d == -((-a) * d);
      MulLe(0, -a, d, d);
    } else {
      MulLe(0, a, d, d);
    }
  }

  /** Rounding only depends on the quotient n/d. */
  lemma NearestRescale(p: nat, n: nat, d: nat, n': nat, d': nat, b: nat)
    requires p > 0 && d > 0 && d' > 0 && n * d' == n' * d && NearestEven(p, n, d, b)
    ensures NearestEven(p, n', d', b)
  {
    hide Value;
    forall c: nat
      ensures Distance(p, n', d', c) * d == Distance(p, n, d, c) * d'
    {
      var v := Value(p, c);
      assert (n' - v * d') * d == n' * d - v * d' * d;
      assert (n - v * d) * d' == n * d' - v * d * d';
      assert v * d' * d == v * d * d';
      AbsProduct(n' - v * d', d);
      AbsProduct(n - v * d, d');
    }
    forall c: nat
      ensures Distance(p, n', d', b) <= Distance(p, n', d', c)
      ensures Distance(p, n', d', c) == Distance(p, n', d', b) && c != b ==> b % 2 == 0
    {
      var x, y := Distance(p, n, d, b), Distance(p, n, d, c);
      var x', y' := Distance(p, n', d', b), Distance(p, n', d', c);
      assert x' * d == x * d' && y' * d == y * d';
      SideScaled(x, y, d');
      SideScaled(x', y', d);
    }
  }

  // ----- nearest, stated by the two midpoints around a pattern -----

  /** Twice the midpoint between pattern b and its successor. */
  function Midpoint2(p: nat, b: nat): nat
    requires p > 0
  {
    Value(p, b) + Value(p, b + 1)
  }

  ghost predicate Around(p: nat, n: nat, d: nat, b: nat)
    requires p > 0
  {
    && (b > 0 ==> 2 * n >= Midpoint2(p, b - 1) * d && (2 * n == Midpoint2(p, b - 1) * d ==> b % 2 == 0))
    && 2 * n <= Midpoint2(p, b) * d && (2 * n == Midpoint2(p, b) * d ==> b % 2 == 0)
  }

  lemma SumScaled(a: nat, b: nat, d: nat)
    ensures (a + b) * d == a * d + b * d
  {
  }

  lemma AroundIsNearest(p: nat, n: nat, d: nat, b: nat)
    requires p > 0 && d > 0 && Around(p, n, d, b)
    ensures NearestEven(p, n, d, b)
  {
    hide Value, NearestEven;
    var v := Value(p, b);
    ValueStep(p, b);
    ScaledLess(v, Value(p, b + 1), d);
    SumScaled(v, Value(p, b + 1), d);
    if n >= v * d {
      NearestOfTwo(p, n, d, b, false);
    } else {
      PatternZero(p);
      assert b == 0 ==> v * d == 0;
      ValueStep(p, b - 1);
      ScaledLess(Value(p, b - 1), v, d);
      SumScaled(Value(p, b - 1), v, d);
      NearestOfTwo(p, n, d, b - 1, true);
    }
  }

  lemma PatternZero(p: nat)
    requires p > 0
    ensures Value(p, 0) == 0
  {
    PatternValue(p, 0, 0);
  }

  lemma NearestIsAround(p: nat, n: nat, d: nat, b: nat)
    requires p > 0 && d > 0 && NearestEven(p, n, d, b)
    ensures Around(p, n, d, b)
  {
    hide Value;
    var v := Value(p, b);
    ValueStep(p, b);
    ScaledLess(v, Value(p, b + 1), d);
    SumScaled(v, Value(p, b + 1), d);
    assert Distance(p, n, d, b) <= Distance(p, n, d, b + 1);
    if b > 0 {
      ValueStep(p, b - 1);
      ScaledLess(Value(p, b - 1), v, d);
      SumScaled(Value(p, b - 1), v, d);
      assert Distance(p, n, d, b) <= Distance(p, n, d, b - 1);
    }
  }

  /** On which side of a midpoint the rational lies decides on which side its rounding lies. */
  lemma NearestVsMidpoint(p: nat, n: nat, d: nat, b: nat, t: nat)
    requires p > 0 && d > 0 && NearestEven(p, n, d, b)
    ensures 2 * n < Midpoint2(p, t) * d ==> b <= t
    ensures 2 * n > Midpoint2(p, t) * d ==> b > t
    ensures 2 * n == Midpoint2(p, t) * d && t % 2 == 1 ==> b > t
  {
    hide Value, NearestEven;
    NearestIsAround(p, n, d, b);
    if t < b {
      MidpointMono(p, t, b - 1);
      ScaledLess(Midpoint2(p, t), Midpoint2(p, b - 1), d);
    } else if b < t {
      MidpointMono(p, b, t);
      ScaledLess(Midpoint2(p, b), Midpoint2(p, t), d);
    }
  }

  lemma MidpointMono(p: nat, b: nat, c: nat)
    requires p > 0 && b <= c
    ensures Midpoint2(p, b) <= Midpoint2(p, c)
    ensures b < c ==> Midpoint2(p, b) < Midpoint2(p, c)
  {
    if b < c {
      ValueMono(p, b, c);
      ValueMono(p, b + 1, c + 1);
    }
  }
}
