/** Requantization of an INT32 accumulator to a byte, in its three forms: the golden model on exact fractions,
    the host on floats with truncate-and-fix, and the kernel on floats with a rounding conversion. */
module Requant {
  import opened Wrappers
  import opened Words
  import Sums
  import opened Powers
  import opened Rounding
  import opened Binary32
  import opened Binary32Proofs

  /** 127.0f */
  const F127: word := 0x42fe_0000

  const ZERO: Fraction := Fraction(0, 1)
  const TOP: Fraction := Fraction(127, 1)
  const HALF: Fraction := Fraction(1, 2)

  function Less(x: Fraction, y: Fraction): bool {
    x.num * y.den < y.num * x.den
  }

  /** The float pattern Fr2f returns, as the 32-bit word it is. */
  function Pattern(x: Option<int>): Option<word> {
    var b :- x;
    Some(Wrap(b))
  }

  /** (float)i */
  function ToFloat(i: int): Option<word> {
    Pattern(Fr2f(Fraction(i, 1)))
  }

  /** fmaf((float)acc, scale, zp) and its exact value: where all three versions start. */
  function Scale(acc: int, scale: word, zp: word): Option<word> {
    var a :- ToFloat(acc);
    Pattern(Fma(a, scale, zp))
  }

  // ----- golden: exact fractions -----

  /** min(max(v, 0), 127) */
  function Clamp(v: Fraction): Fraction {
    var lo := if Less(v, ZERO) then ZERO else v;
    if Less(TOP, lo) then TOP else lo
  }

  /** Python's round on a Fraction. */
  function Round(x: Fraction): int
    requires x.Valid()
  {
    var floor, rem := x.num / x.den, x.num % x.den;
    if 2 * rem < x.den then floor
    else if 2 * rem > x.den then floor + 1
    else if floor % 2 == 0 then floor
    else floor + 1
  }

  function GoldenRequant(acc: int, scale: word, zp: word): Option<int> {
    var v :- Scale(acc, scale, zp);
    var x :- F2Fr(v);
    Some(Round(Clamp(x)))
  }

  // ----- host: floats, truncate and fix -----

  /** v > 127.0f ? 127.0f : (v < 0.0f ? 0.0f : v) */
  function HostClamp(v: word): Option<word> {
    var x :- F2Fr(v);
    Some(if Less(TOP, x) then F127 else if Less(x, ZERO) then 0 else v)
  }

  function Minus(a: Fraction, b: Fraction): (r: Fraction)
    requires a.Valid() && b.Valid()
    ensures r.Valid()
  {
    Plus(a, b.(num := -b.num))
  }

  /** Subtraction of floats, rounded once. */
  function Fsub(a: word, b: word): Option<word> {
    var x :- F2Fr(a);
    var y :- F2Fr(b);
    Pattern(Fr2f(Minus(x, y)))
  }

  /** rne_u8: truncate, then look at the float difference to the truncated value. */
  function RneU8(v: word): Option<int> {
    var x :- F2Fr(v);
    var i := x.num / x.den;
    var fi :- ToFloat(i);
    var d :- Fsub(v, fi);
    var f :- F2Fr(d);
    Some(if Less(HALF, f) || (f.num * 2 == f.den && i % 2 == 1) then i + 1 else i)
  }

  function HostRequant(acc: int, scale: word, zp: word): Option<int> {
    var v :- Scale(acc, scale, zp);
    var c :- HostClamp(v);
    RneU8(c)
  }

  // ----- kernel: floats, rounding conversion -----

  /** fmaxf(fminf(v, 127.0f), 0.0f) */
  function KernelClamp(v: word): Option<word> {
    var x :- F2Fr(v);
    var lo := if Less(x, TOP) then v else F127;
    var y :- F2Fr(lo);
    Some(if Less(ZERO, y) then lo else 0)
  }

  /** fcvt.w.s in round-to-nearest-even mode. */
  function ConvertRne(v: word): Option<int> {
    var x :- F2Fr(v);
    Some(Round(x))
  }

  function KernelRequant(acc: int, scale: word, zp: word): Option<int> {
    var v :- Scale(acc, scale, zp);
    var c :- KernelClamp(v);
    ConvertRne(c)
  }

  // ----- what rounding means -----

  predicate Even(r: int) {
    r % 2 == 0
  }

  /** r is the integer nearest to x, the even one of two. */
  ghost predicate NearestInt(x: Fraction, r: int) {
    forall c: int :: Gap(x, r) <= Gap(x, c) && (Gap(x, r) == Gap(x, c) && c != r ==> Even(r))
  }

  /** |x - c| times the denominator. */
  function Gap(x: Fraction, c: int): nat {
    Abs(x.num - c * x.den)
  }

  lemma GapFrom(x: Fraction, floor: int, rem: int, c: int)
    requires x.Valid() && x.num == floor * x.den + rem && 0 <= rem < x.den
    ensures Gap(x, floor) == rem && Gap(x, floor + 1) == x.den - rem
    ensures c < floor ==> Gap(x, c) > Gap(x, floor) && (rem > 0 ==> Gap(x, c) > Gap(x, floor + 1))
    ensures c > floor + 1 ==> Gap(x, c) > Gap(x, floor) && Gap(x, c) > Gap(x, floor + 1)
  {
    Multiple(c - floor, x.den);
    Multiple(1, x.den);
    Regroup(x.num, floor, rem, c, x.den);
    Regroup(x.num, floor, rem, floor + 1, x.den);
  }

  lemma Multiple(k: int, d: nat)
    ensures k >= 1 ==> k * d >= d
    ensures k >= 2 ==> k * d >= 2 * d
    ensures k <= -1 ==> k * d <= -(d as int)
    ensures 1 * d == d
  {
  }

  lemma Regroup(n: int, floor: int, rem: int, c: int, d: int)
    requires n == floor * d + rem
    ensures n - c * d == rem - (c - floor) * d
  {
  }

  lemma RoundIsNearest(x: Fraction)
    requires x.Valid()
    ensures NearestInt(x, Round(x))
  {
    forall c: int
      ensures Gap(x, Round(x)) <= Gap(x, c)
      ensures Gap(x, Round(x)) == Gap(x, c) && c != Round(x) ==> Even(Round(x))
    {
      GapFrom(x, x.num / x.den, x.num % x.den, c);
    }
  }

  lemma RoundUnique(x: Fraction, r: int)
    requires x.Valid() && NearestInt(x, r)
    ensures r == Round(x)
  {
    hide Gap, Round;
    RoundIsNearest(x);
    var q := Round(x);
    assert Gap(x, r) == Gap(x, q);
    assert r != q ==> Even(r) && Even(q);
    hide NearestInt;
    Consecutive(x, r);
  }

  /** Nothing as near as the rounding is further than one integer away. */
  lemma Consecutive(x: Fraction, r: int)
    requires x.Valid() && Gap(x, r) == Gap(x, Round(x))
    ensures r == Round(x) || Even(r) != Even(Round(x))
  {
    GapFrom(x, x.num / x.den, x.num % x.den, r);
  }

  // ----- floats that are exact -----

  /** A value no larger than 2^31 (2^180 units of 2^-149) has a finite pattern. */
  lemma SmallIsFinite(b: nat)
    requires Value(24, b) <= 0x8000_0000 * Pow2(149)
    ensures b < INFINITY
  {
    hide Value, Pow2;
    if b >= INFINITY {
      LargestFinite();
      if b > INFINITY {
        ValueMono(24, INFINITY, b);
      }
      Pow2Add(149, 103);
      Pow2Mono(32, 103);
      Pow2Word();
      BigProduct(Pow2(149), Pow2(103));
      assert false;
    }
  }

  lemma BigProduct(p: nat, q: nat)
    requires q >= 0x1_0000_0000 && p > 0
    ensures 0x200_0000 * (p * q) > 0x8000_0000 * p
  {
  }

  /** If some finite pattern has exactly the value of x, conversion finds it. */
  lemma ExactConversion(x: Fraction, b: nat)
    requires x.Valid() && x.num >= 0 && b < INFINITY && Scaled(x) == Value(24, b) * x.den
    ensures Fr2f(x) == Some(b)
    ensures F2Fr(b).Some? && F2Fr(b).value.num * x.den == x.num * F2Fr(b).value.den && F2Fr(b).value.num >= 0
  {
    hide Value, Pow2, Fr2f, F2Fr;
    F2FrValue(b);
    RoundTrip(b);
    var y, p := F2Fr(b).value, Pow2(149);
    assert b % 0x8000_0000 == b;
    Fr2fInvariant(x, y);
  }

  lemma CancelRight(a: nat, b: nat, p: nat)
    requires p > 0 && a * p == b * p
    ensures a == b
  {
  }

  /** A small non-negative integer converts to float without rounding. */
  lemma ToFloatExact(i: nat)
    requires i <= 0x100_0000
    ensures ToFloat(i).Some? && F2Fr(ToFloat(i).value).Some?
    ensures var y := F2Fr(ToFloat(i).value).value; y.num == i * y.den
  {
    hide Value, Pow2, Fr2f, F2Fr;
    Pow2_23();
    var b := Representable(24, i, 149);
    ScaledLess(i, 0x8000_0000, Pow2(149));
    SmallIsFinite(b);
    ExactConversion(Fraction(i, 1), b);
    Sums.WrapWord(b);
  }

  /** The part of a float below the units digit is again a float: truncation loses no bits of the rest. */
  lemma FractionRepresentable(bits: nat) returns (b: nat)
    ensures Value(24, b) == Remainder(Value(24, bits), Pow2(149))
  {
    hide Value, Pow2, Remainder, Quotient;
    var k, m := PatternParts(24, bits);
    if k >= 149 {
      Pow2Add(k - 149, 149);
      WholeNumber(m, Pow2(k - 149), Pow2(149));
      b := Representable(24, 0, 0);
    } else {
      Pow2Add(149 - k, k);
      var r := LowBits(m, Pow2(149 - k), Pow2(k));
      b := Representable(24, r, k);
    }
  }

  lemma WholeNumber(m: nat, a: nat, p: nat)
    requires p > 0
    ensures Remainder(m * (a * p), p) == 0
  {
    hide Remainder, Quotient;
    assert m * (a * p) == (m * a) * p + 0;
    DivMod(m * a, 0, p);
  }

  lemma LowBits(m: nat, u: nat, s: nat) returns (r: nat)
    requires u > 0 && s > 0
    ensures u * s > 0 && r <= m && r * s == Remainder(m * s, u * s)
  {
    hide Remainder, Quotient;
    Positive(u, s);
    var q := Quotient(m, u);
    r := Remainder(m, u);
    DivIdentity(m, u);
    TailOf(q, r, u, s);
    DivMod(q, r * s, u * s);
    DropHigh(q, r, u, m);
  }

  lemma TailOf(q: nat, r: nat, u: nat, s: nat)
    requires r < u && s > 0
    ensures (q * u + r) * s == q * (u * s) + r * s
    ensures r * s < u * s
  {
  }

  lemma DropHigh(q: nat, r: nat, u: nat, m: nat)
    requires m == q * u + r
    ensures r <= m
  {
  }

  // ----- the host's truncate-and-fix -----

  /** x's integer part and remainder, seen in units of 2^-149. */
  lemma TruncatedParts(x: Fraction, v: nat, p: nat)
    requires x.Valid() && x.num >= 0 && p > 0 && x.num * p == v * x.den
    ensures var i, rem := x.num / x.den, x.num % x.den;
            i >= 0 && Quotient(v, p) == i && rem * p == Remainder(v, p) * x.den
  {
    hide Quotient, Remainder;
    var d := x.den;
    var i, rem := x.num / d, x.num % d;
    assert x.num == i * d + rem;
    DivIdentity(v, p);
    var j, r := Quotient(v, p), Remainder(v, p);
    TruncatedProducts(i, rem, d, j, r, p);
  }

  lemma TruncatedProducts(i: int, rem: nat, d: nat, j: nat, r: nat, p: nat)
    requires rem < d && r < p && i >= 0 && (i * d + rem) * p == (j * p + r) * d
    ensures i == j && rem * p == r * d
  {
    var u := d * p;
    assert (i * d + rem) * p == i * u + rem * p by {
      assert i * d * p == i * (d * p);
    }
    assert (j * p + r) * d == j * u + r * d by {
      assert j * p * d == j * (d * p);
    }
    ScaledLess(rem, d, p);
    ScaledLess(r, p, d);
    SameQuotient(i, rem * p, j, r * d, u);
  }

  lemma SameQuotient(i: nat, a: nat, j: nat, b: nat, u: nat)
    requires a < u && b < u && i * u + a == j * u + b
    ensures i == j && a == b
  {
    hide Remainder, Quotient;
    DivMod(i, a, u);
    DivMod(j, b, u);
  }

  /** The float subtraction in rne_u8 is exact: it yields the remainder, not a rounding of it. */
  lemma SubtractionExact(v: word)
    requires F2Fr(v).Some? && F2Fr(v).value.num >= 0 && F2Fr(v).value.num / F2Fr(v).value.den <= 127
    ensures var x := F2Fr(v).value;
            var fi := ToFloat(x.num / x.den);
            && fi.Some? && Fsub(v, fi.value).Some? && F2Fr(Fsub(v, fi.value).value).Some?
            && var f := F2Fr(Fsub(v, fi.value).value).value;
               f.num * x.den == (x.num % x.den) * f.den
  {
    hide Value, Pow2, Fr2f, F2Fr, Quotient, Remainder, ToFloat, Minus;
    var x, p := F2Fr(v).value, Pow2(149);
    F2FrValue(v);
    var big := Value(24, v % 0x8000_0000);
    TruncatedParts(x, big, p);
    var i, rem := x.num / x.den, x.num % x.den;
    ToFloatExact(i);
    var y := F2Fr(ToFloat(i).value).value;
    var m := Minus(x, y);
    MinusWhole(x, y, i);
    var b := FractionRepresentable(v % 0x8000_0000);
    SmallIsFinite(b);
    Scales(rem, y.den, p, Value(24, b), x.den);
    ExactConversion(m, b);
    Sums.WrapWord(b);
    var f := F2Fr(b).value;
    Shorten(f.num, x.den, y.den, rem, f.den);
  }

  lemma MinusWhole(x: Fraction, y: Fraction, i: nat)
    requires x.Valid() && y.Valid() && x.num >= 0 && i == x.num / x.den && y.num == i * y.den
    ensures Minus(x, y).num == x.num % x.den * y.den && Minus(x, y).den == x.den * y.den
    ensures x.num % x.den * y.den >= 0
  {
    var rem := x.num % x.den;
    assert x.num == i * x.den + rem;
    assert (i * x.den + rem) * y.den == i * y.den * x.den + rem * y.den;
  }

  lemma Scales(rem: nat, e: nat, p: nat, v: nat, d: nat)
    requires rem * p == v * d
    ensures rem * e * p == v * (d * e)
  {
    assert rem * e * p == rem * p * e == v * d * e;
  }

  lemma Shorten(n: int, d: nat, e: nat, rem: nat, fd: nat)
    requires e > 0 && n * (d * e) == rem * e * fd
    ensures n * d == rem * fd
  {
    assert n * d * e == rem * fd * e;
  }

  lemma CompareHalf(fn: nat, fd: nat, rem: nat, d: nat)
    requires fd > 0 && d > 0 && fn * d == rem * fd
    ensures 1 * fd < fn * 2 <==> d < 2 * rem
    ensures fn * 2 == fd <==> 2 * rem == d
  {
    assert (fn * 2) * d == (2 * rem) * fd;
    if d < 2 * rem {
      ScaledLess(d, 2 * rem, fd);
      SideScaled(fd, fn * 2, d);
    } else if d > 2 * rem {
      ScaledLess(2 * rem, d, fd);
      SideScaled(fn * 2, fd, d);
    } else {
      CancelRight(fn * 2, fd, d);
    }
  }

  /** Truncate-and-fix is rounding to nearest, ties to even, on every float in [0, 128). */
  lemma RneU8Rounds(v: word)
    requires F2Fr(v).Some? && F2Fr(v).value.num >= 0 && F2Fr(v).value.num / F2Fr(v).value.den <= 127
    ensures RneU8(v) == Some(Round(F2Fr(v).value))
  {
    hide F2Fr, Fr2f;
    SubtractionExact(v);
    var x := F2Fr(v).value;
    var i := x.num / x.den;
    var f := F2Fr(Fsub(v, ToFloat(i).value).value).value;
    SignOfProduct(f.num, x.den);
    assert (x.num % x.den) * f.den >= 0;
    CompareHalf(f.num, f.den, x.num % x.den, x.den);
  }

  // ----- agreement -----

  lemma F127Value()
    ensures F2Fr(F127).Some?
    ensures var t := F2Fr(F127).value; t.num == 127 * t.den
  {
    Pow2Word();
    assert Pow2(6) == 64;
  }

  lemma ZeroValue()
    ensures F2Fr(0).Some? && F2Fr(0).value.num == 0
  {
  }

  /** Rounding depends only on the value. */
  lemma RoundSame(x: Fraction, y: Fraction)
    requires x.Valid() && y.Valid() && x.num * y.den == y.num * x.den
    ensures Round(x) == Round(y)
  {
    hide Gap, Round;
    var r := Round(y);
    RoundIsNearest(y);
    forall c: int
      ensures Gap(x, r) <= Gap(x, c) && (Gap(x, r) == Gap(x, c) && c != r ==> Even(r))
    {
      GapScaled(x, y, r);
      GapScaled(x, y, c);
      GapOrder(Gap(x, r), Gap(x, c), Gap(y, r), Gap(y, c), x.den, y.den);
    }
    RoundUnique(x, r);
  }

  lemma GapScaled(x: Fraction, y: Fraction, c: int)
    requires x.Valid() && y.Valid() && x.num * y.den == y.num * x.den
    ensures Gap(x, c) * y.den == Gap(y, c) * x.den
  {
  }

  lemma GapOrder(a: nat, b: nat, c: nat, d: nat, xd: nat, yd: nat)
    requires xd > 0 && yd > 0 && a * yd == c * xd && b * yd == d * xd && c <= d
    ensures a <= b && (a == b ==> c == d)
  {
    ScaledLess(c, d, xd);
    SideScaled(b, a, yd);
    if a == b {
      CancelRight(c, d, xd);
    }
  }

  /** A value in [0, 127] has an integer part and a rounding in 0..127. */
  lemma ByteRange(x: Fraction)
    requires x.Valid() && !Less(x, ZERO) && !Less(TOP, x)
    ensures 0 <= x.num / x.den <= 127 && 0 <= Round(x) <= 127
  {
  }

  /** The three clamps agree, and the result is a value in [0, 127]. */
  lemma ClampsAgree(v: word)
    requires F2Fr(v).Some?
    ensures HostClamp(v).Some? && KernelClamp(v).Some?
    ensures var h, k := F2Fr(HostClamp(v).value), F2Fr(KernelClamp(v).value);
            var c := Clamp(F2Fr(v).value);
            && h.Some? && k.Some? && c.Valid() && !Less(c, ZERO) && !Less(TOP, c)
            && h.value.num * c.den == c.num * h.value.den
            && k.value.num * c.den == c.num * k.value.den
  {
    hide F2Fr;
    F127Value();
    ZeroValue();
    var t := F2Fr(F127).value;
    assert t.num > 0;
  }

  // ----- what a requantized byte is -----

  /** The byte of the float pattern v: 0 below zero, 127 above 127, else the nearest integer, ties to even. */
  ghost predicate IsByte(v: word, r: int) {
    if Signed32(v) < 0 then r == 0
    else if Signed32(v) > 127 * Pow2(149) then r == 127
    else NearestInt(Fraction(Signed32(v), Pow2(149)), r)
  }

  ghost predicate IsScaled(acc: int, scale: word, zp: word, a: word, v: word) {
    && RoundsTo(Fraction(acc, 1), a)
    && RoundsTo(Exactly(Signed32(a) * Signed32(scale) + Signed32(zp) * Pow2(149)), v)
  }

  /** r is the byte of acc * scale + zp: the accumulator rounded once to binary32, the scaled and shifted value
      rounded once, then clamped and rounded to an integer. */
  ghost predicate IsRequantized(acc: int, scale: word, zp: word, r: int) {
    exists a: word, v: word :: IsScaled(acc, scale, zp, a, v) && IsByte(v, r)
  }

  lemma RoundsToUnique(x: Fraction, r: int, s: int)
    requires x.Valid() && RoundsTo(x, r) && RoundsTo(x, s)
    ensures r == s
  {
    hide NearestEven;
    NearestUnique(24, Scaled(x), x.den, r % 0x8000_0000, s % 0x8000_0000);
  }

  /** The three forms have no choice: the description determines the byte. */
  lemma RequantizedUnique(acc: int, scale: word, zp: word, r: int, s: int)
    requires IsRequantized(acc, scale, zp, r) && IsRequantized(acc, scale, zp, s)
    ensures r == s
  {
    hide RoundsTo, IsByte;
    var a: word, v: word :| IsScaled(acc, scale, zp, a, v) && IsByte(v, r);
    var b: word, w: word :| IsScaled(acc, scale, zp, b, w) && IsByte(w, s);
    RoundsToUnique(Fraction(acc, 1), a, b);
    RoundsToUnique(Exactly(Signed32(a) * Signed32(scale) + Signed32(zp) * Pow2(149)), v, w);
    ByteUnique(v, r, s);
  }

  lemma ByteUnique(v: word, r: int, s: int)
    requires IsByte(v, r) && IsByte(v, s)
    ensures r == s
  {
    hide NearestInt, Pow2;
    if 0 <= Signed32(v) <= 127 * Pow2(149) {
      var x := Fraction(Signed32(v), Pow2(149));
      RoundUnique(x, r);
      RoundUnique(x, s);
    }
  }

  /** Scale computes the scaled value. */
  lemma ScaleIsScaled(acc: int, scale: word, zp: word) returns (a: word)
    requires Scale(acc, scale, zp).Some?
    ensures IsScaled(acc, scale, zp, a, Scale(acc, scale, zp).value) && Finite(Scale(acc, scale, zp).value)
  {
    hide RoundsTo, Fr2f, Fma, F2Fr, Exactly, Signed32;
    a := ToFloat(acc).value;
    Fr2fCorrect(Fraction(acc, 1));
    RoundedWord(Fraction(acc, 1), Fr2f(Fraction(acc, 1)).value);
    FmaOperands(a, scale, zp);
    FmaRoundsOnce(a, scale, zp);
    RoundedWord(Exactly(Signed32(a) * Signed32(scale) + Signed32(zp) * Pow2(149)), Fma(a, scale, zp).value);
  }

  lemma RoundedWord(x: Fraction, r: int)
    requires x.Valid() && RoundsTo(x, r)
    ensures 0 <= r < MOD32 && Wrap(r) == r && Finite(r)
  {
  }

  lemma FmaOperands(a: word, b: word, c: word)
    requires Fma(a, b, c).Some?
    ensures Finite(a) && Finite(b) && Finite(c)
  {
    hide F2Fr, Fr2f;
    F2FrValue(a);
    F2FrValue(b);
    F2FrValue(c);
  }

  /** Rounding the clamped value is the byte of the pattern. */
  lemma ClampedByte(v: word)
    requires Finite(v)
    ensures F2Fr(v).Some? && Clamp(F2Fr(v).value).Valid() && IsByte(v, Round(Clamp(F2Fr(v).value)))
  {
    hide F2Fr, Value, Pow2, NearestInt, Round;
    F2FrValue(v);
    var x, p := F2Fr(v).value, Pow2(149);
    SignedScaled(v, x);
    var y := Fraction(Signed32(v), p);
    ClampSides(x.num, x.den, Signed32(v), p);
    if Less(x, ZERO) {
      RoundWhole(0);
    } else if Less(TOP, x) {
      RoundWhole(127);
    } else {
      RoundSame(x, y);
      RoundIsNearest(y);
    }
  }

  lemma RoundWhole(i: int)
    ensures Round(Fraction(i, 1)) == i
  {
  }

  lemma ClampSides(n: int, d: nat, s: int, p: nat)
    requires d > 0 && p > 0 && n * p == s * d
    ensures n < 0 <==> s < 0
    ensures 127 * d < n <==> s > 127 * p
  {
    SignOfProduct(n, p);
    SignOfProduct(s, d);
    SignOfProduct(127 * d - n, p);
    SignOfProduct(127 * p - s, d);
    assert (127 * d - n) * p == 127 * d * p - n * p;
    assert (127 * p - s) * d == 127 * p * d - s * d;
    assert 127 * d * p == 127 * p * d;
  }

  /** For every accumulator, scale and zero point whose scaled value does not overflow, all three give the
      same byte, the one described above, always in 0..127. */
  lemma RequantAgree(acc: int, scale: word, zp: word)
    requires GoldenRequant(acc, scale, zp).Some?
    ensures HostRequant(acc, scale, zp) == KernelRequant(acc, scale, zp) == GoldenRequant(acc, scale, zp)
    ensures var r := GoldenRequant(acc, scale, zp).value;
            0 <= r <= 127 && IsRequantized(acc, scale, zp, r)
  {
    hide F2Fr, Clamp, HostClamp, KernelClamp, RneU8, Round, Scale, IsScaled, IsByte, Less;
    var v := Scale(acc, scale, zp).value;
    ClampsAgree(v);
    var c := Clamp(F2Fr(v).value);
    ByteRange(c);
    var h, k := HostClamp(v).value, KernelClamp(v).value;
    RoundSame(F2Fr(h).value, c);
    RoundSame(F2Fr(k).value, c);
    ClampedPart(F2Fr(h).value, c);
    RneU8Rounds(h);
    var a := ScaleIsScaled(acc, scale, zp);
    ClampedByte(v);
  }

  lemma ClampedPart(x: Fraction, c: Fraction)
    requires x.Valid() && c.Valid() && x.num * c.den == c.num * x.den && !Less(c, ZERO) && !Less(TOP, c)
    ensures x.num >= 0 && x.num / x.den <= 127
  {
    assert !Less(TOP, x) && !Less(x, ZERO);
    ByteRange(x);
  }

  // ----- no overflow -----

  /** (float)acc is at most 2^31 in magnitude, in units of 2^-149. */
  lemma ToFloatBound(acc: int)
    requires -0x8000_0000 <= acc <= 0x8000_0000
    ensures ToFloat(acc).Some? && Finite(ToFloat(acc).value)
    ensures Value(24, ToFloat(acc).value % 0x8000_0000) <= Pow2(180)
  {
    hide Value, Pow2, NearestEven, Fr2f;
    var x := Fraction(acc, 1);
    Pow2Word();
    Pow2Succ(31);
    Pow2Add(31, 149);
    Pow2_23();
    var top := Representable(24, 1, 180);
    ScaledLess(Abs(acc), Pow2(31), Pow2(149));
    SmallIsFinite(top);
    var b := NearestExists(24, Scaled(x), 1);
    NearestMono(24, Scaled(x), 1, b, top);
    if b < top {
      ValueMono(24, b, top);
    }
    if acc == 0 {
      Fr2fZero(x);
      PatternValue(24, 0, 0);
    } else {
      Fr2fNearest(x, b);
    }
    Sums.WrapWord(Fr2f(x).value);
  }

  lemma SignedBound(a: int, b: int, m: nat, n: nat)
    requires Abs(a) <= m && Abs(b) <= n
    ensures Abs(a * b) <= m * n
  {
  }

  lemma RoomBelowOverflow()
    ensures (Pow2(180) * Pow2(209) + Pow2(209) * Pow2(149)) * Pow2(149) < Pow2(298) * (0x1ff_ffff * Pow2(252))
  {
    hide Pow2;
    Pow2Add(180, 209);
    Pow2Add(209, 149);
    Pow2Mono(358, 389);
    Pow2Succ(389);
    Pow2Add(390, 149);
    Pow2Add(298, 252);
    Pow2Mono(539, 550);
    var a, b := Pow2(298), Pow2(252);
    assert a * (0x1ff_ffff * b) == 0x1ff_ffff * (a * b);
    ScaledLess(Pow2(389) + Pow2(358), Pow2(390), Pow2(149));
  }

  /** For every INT32 accumulator the requantizer is defined, for any scale and zero point of magnitude up
      to 2^60. The sources use 2^-10 and 3, and a calibrated scale with zero point 0. */
  lemma RequantDefined(acc: int, scale: word, zp: word)
    requires -0x8000_0000 <= acc <= 0x8000_0000 && Finite(scale) && Finite(zp)
    requires Value(24, scale % 0x8000_0000) <= Pow2(209) && Value(24, zp % 0x8000_0000) <= Pow2(209)
    ensures GoldenRequant(acc, scale, zp).Some?
  {
    hide Value, Pow2, Fr2f, ToFloat, F2Fr, Round, Clamp, Fma, NearestEven;
    ToFloatBound(acc);
    var a := ToFloat(acc).value;
    FmaRoundsOnce(a, scale, zp);
    var n := Signed32(a) * Signed32(scale) + Signed32(zp) * Pow2(149);
    var x := Exactly(n);
    SignedBound(Signed32(a), Signed32(scale), Pow2(180), Pow2(209));
    SignedBound(Signed32(zp), Pow2(149), Pow2(209), Pow2(149));
    ScaledLess(Abs(n), Pow2(180) * Pow2(209) + Pow2(209) * Pow2(149), Pow2(149));
    RoomBelowOverflow();
    Fr2fOverflow(x);
    var r := Fma(a, scale, zp).value;
    Sums.WrapWord(r);
    F2FrValue(r);
  }
}
