/** The binary16 reference: halves widened to double, one double operation, and an explicit narrower with
    flush-to-zero. Patterns are natural numbers; bit shifts and masks are divisions and remainders. */
module Half {
  import opened Powers
  import opened Rounding

  const SIGN16: nat := 0x8000
  const INF16: nat := 0x7c00
  const NAN16: nat := 0x7e00
  const SIGN64: nat := 0x8000_0000_0000_0000
  const INF64: nat := 0x7ff0_0000_0000_0000
  const FRAC64: nat := 0x10_0000_0000_0000       // 2^52

  type half = x: nat | x < 0x1_0000
  type double = x: nat | x < 0x1_0000_0000_0000_0000

  predicate FiniteHalf(h: half) {
    h % SIGN16 < INF16
  }

  predicate FiniteDouble(x: double) {
    x % SIGN64 < INF64
  }

  /** Half to double, exactly; subnormal halves count as zero. */
  function H2d(h: half): double {
    var s, e, m := h / SIGN16, h / 0x400 % 0x20, h % 0x400;
    var neg := if s == 1 then SIGN64 else 0;
    if e == 0x1f then if m != 0 then neg + INF64 + FRAC64 / 2 else neg + INF64
    else if e == 0 then neg
    else neg + (e - 15 + 1023) * FRAC64 + m * 0x400_0000_0000
  }

  /** The magnitude bits of the narrowed result of a finite double: nearest, ties to even, results below 2^-14
      flushed, overflow to infinity. */
  function Narrow(mag: nat): (h: nat)
    requires mag < INF64
    ensures h <= INF16
  {
    if mag == 0 then 0
    else
      var e := mag / FRAC64 - 1023;
      var sig := FRAC64 + mag % FRAC64;
      if e > 15 then INF16
      else if e < -14 then 0
      else
        var rounded := RoundedSignificand(sig);
        var e16 := if rounded >= 0x800 then e + 16 else e + 15;
        if e16 > 30 then INF16 else e16 * 0x400 + rounded % 0x400
  }

  /** The eleven leading bits of a 53-bit significand, rounded by guard, round and sticky bits. */
  function RoundedSignificand(sig: nat): nat {
    var top := sig / 0x400_0000_0000;
    var g := sig / 0x200_0000_0000 % 2;
    var r := sig / 0x100_0000_0000 % 2;
    var st := sig % 0x100_0000_0000 != 0;
    top + if g == 1 && (r == 1 || st || top % 2 == 1) then 1 else 0
  }

  /** Double to half; NaN is canonical and unsigned, everything else keeps its sign. */
  function D2h(v: double): half {
    var s := if v >= SIGN64 then SIGN16 else 0;
    var mag := v % SIGN64;
    if mag > INF64 then NAN16
    else if mag == INF64 then s + INF16
    else s + Narrow(mag)
  }

  // ----- the double operations, correctly rounded -----

  /** The value of a finite double in units of 2^-1074. */
  function DVal(x: double): int {
    var v: int := Value(53, x % SIGN64);
    if x >= SIGN64 then -v else v
  }

  predicate Negative(x: double) {
    x >= SIGN64
  }

  /** y is num/den (in units of 2^-1074) rounded once; an exact zero has the given sign. */
  ghost predicate RoundedDouble(num: int, den: nat, zeroNegative: bool, y: double) {
    && FiniteDouble(y)
    && (num == 0 ==> y == if zeroNegative then SIGN64 else 0)
    && (num != 0 ==> (Negative(y) <==> num < 0) && NearestEven(53, Abs(num), den, y % SIGN64))
  }

  /** x + y: an exact zero is negative only if both operands are (IEEE 754-2019, section 6.3). */
  ghost predicate HostAdd(x: double, y: double, r: double) {
    RoundedDouble(DVal(x) + DVal(y), 1, Negative(x) && Negative(y), r)
  }

  ghost predicate HostMul(x: double, y: double, r: double) {
    RoundedDouble(DVal(x) * DVal(y), Pow2(1074), Negative(x) != Negative(y), r)
  }

  /** fma(x, y, z), rounded once. */
  ghost predicate HostFma(x: double, y: double, z: double, r: double) {
    RoundedDouble(DVal(x) * DVal(y) + DVal(z) * Pow2(1074), Pow2(1074),
                  (Negative(x) != Negative(y)) && Negative(z), r)
  }

  /** x / y for finite operands; a zero divisor gives an infinity, or NaN for 0 / 0. */
  ghost predicate HostDiv(x: double, y: double, r: double) {
    var neg := Negative(x) != Negative(y);
    if DVal(y) == 0 then
      if DVal(x) == 0 then r % SIGN64 > INF64 else r == INF64 + if neg then SIGN64 else 0
    else
      RoundedDouble((if neg then -1 else 1) * Abs(DVal(x)) * Pow2(1074), Abs(DVal(y)), neg, r)
  }

  function Negate(x: double): double {
    if x >= SIGN64 then x - SIGN64 else x + SIGN64
  }

  function NegateIf(c: bool, x: double): double {
    if c then Negate(x) else x
  }

  // The reference operations relate half operands to the half results the host may return.

  ghost predicate RefHadd(a: half, b: half, r: half) {
    exists d: double :: HostAdd(H2d(a), H2d(b), d) && r == D2h(d)
  }

  ghost predicate RefHsub(a: half, b: half, r: half) {
    exists d: double :: HostAdd(H2d(a), Negate(H2d(b)), d) && r == D2h(d)
  }

  ghost predicate RefHmul(a: half, b: half, r: half) {
    exists d: double :: HostMul(H2d(a), H2d(b), d) && r == D2h(d)
  }

  ghost predicate RefHdiv(a: half, b: half, r: half) {
    exists d: double :: HostDiv(H2d(a), H2d(b), d) && r == D2h(d)
  }

  ghost predicate RefHfma(a: half, b: half, c: half, np: bool, nc: bool, r: half) {
    exists d: double :: HostFma(NegateIf(np, H2d(a)), H2d(b), NegateIf(nc, H2d(c)), d) && r == D2h(d)
  }

  // ----- the one-rounding reference -----

  /** The value of a half in units of 2^-24, subnormals flushed. */
  function HVal(h: half): int {
    var mag := h % SIGN16;
    var v: int := if mag < 0x400 then 0 else Value(11, mag);
    if h >= SIGN16 then -v else v
  }

  /** h is n/d (in units of 2^-24), n/d >= 0, rounded directly to half precision: zero below 2^-14, else the
      nearest pattern with ties to even, where everything past the largest finite value is infinity. */
  ghost predicate DirectMagnitude(n: nat, d: nat, h: nat) {
    if n < 0x400 * d then h == 0
    else exists b: nat :: NearestEven(11, n, d, b) && h == if b > INF16 then INF16 else b
  }

  ghost predicate Direct(num: int, den: nat, zeroNegative: bool, h: half) {
    && DirectMagnitude(Abs(num), den, h % SIGN16)
    && (h >= SIGN16 <==> num < 0 || (num == 0 && zeroNegative))
  }
}
