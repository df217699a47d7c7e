/** The exact binary32 arithmetic of the case generator: decoding a pattern to a fraction, rounding a fraction
    once to the nearest pattern, and add, multiply and fused multiply-add built from the two. */
module Binary32 {
  import opened Wrappers
  import opened Words
  import opened Powers
  import opened Rounding

  /** An exact rational, not necessarily in lowest terms. */
  datatype Fraction = Fraction(num: int, den: nat) {
    predicate Valid() {
      den > 0
    }
  }

  function Plus(a: Fraction, b: Fraction): (r: Fraction)
    requires a.Valid() && b.Valid()
    ensures r.Valid()
  {
    Positive(a.den, b.den);
    Fraction(a.num * b.den + b.num * a.den, a.den * b.den)
  }

  function Times(a: Fraction, b: Fraction): (r: Fraction)
    requires a.Valid() && b.Valid()
    ensures r.Valid()
  {
    Positive(a.den, b.den);
    Fraction(a.num * b.num, a.den * b.den)
  }

  lemma Positive(a: nat, b: nat)
    requires a > 0 && b > 0
    ensures a * b > 0
  {
  }

  function BitLength(n: nat): nat {
    if n == 0 then 0 else 1 + BitLength(n / 2)
  }

  function Max(a: int, b: int): int {
    if a >= b then a else b
  }

  /** Pattern to exact value; infinities and NaNs fail the source's assertion. */
  function F2Fr(bits: word): (r: Option<Fraction>)
    ensures r.Some? ==> r.value.Valid()
  {
    var s, e, m := bits / 0x8000_0000, bits / 0x80_0000 % 0x100, bits % 0x80_0000;
    if e == 0xff then None
    else
      var v := if e == 0 then Fraction(m, Pow2(149))
               else if e >= 127 then Fraction((0x80_0000 + m) * Pow2(e - 127), 0x80_0000)
               else Fraction(0x80_0000 + m, 0x80_0000 * Pow2(127 - e));
      Some(if s == 1 then v.(num := -v.num) else v)
  }

  /** x compared with 2^e: the two sides the source shifts into place. */
  function LeftSide(n: nat, e: int): nat {
    n * Pow2(Max(0, -e))
  }

  function RightSide(d: nat, e: int): nat {
    d * Pow2(Max(0, e))
  }

  /** The exponent of n/d: the bit-length estimate, corrected and clamped to the subnormal range. */
  function Estimate(n: nat, d: nat): int {
    BitLength(n) - BitLength(d)
  }

  function Exponent(n: nat, d: nat): int {
    var e := Estimate(n, d);
    Max(if LeftSide(n, e) < RightSide(d, e) then e - 1 else e, -126)
  }

  /** n/d divided by the weight 2^q of the last mantissa bit. */
  function ScaledNum(n: nat, q: int): nat {
    if q >= 0 then n else n * Pow2(-q)
  }

  function ScaledDen(d: nat, q: int): (r: nat)
    ensures d > 0 ==> r > 0
  {
    if q >= 0 then d * Pow2(q) else d
  }

  /** Fraction to the nearest pattern, ties to even; exact zero gives +0, overflow fails an assertion. */
  function Fr2f(x: Fraction): Option<int>
    requires x.Valid()
  {
    if x.num == 0 then Some(0)
    else
      var s := if x.num < 0 then 1 else 0;
      var n, d := Abs(x.num), x.den;
      var e := Exponent(n, d);
      var q := e - 23;
      var mi := RoundHalfEven(ScaledNum(n, q), ScaledDen(d, q));
      var (mi', e') := if mi == 0x100_0000 then (0x80_0000, e + 1) else (mi, e);
      if mi' >= 0x80_0000 then
        var ef := e' + 127;
        if ef >= 255 then None
        else Some(s * 0x8000_0000 + ef * 0x80_0000 + (mi' - 0x80_0000))
      else Some(s * 0x8000_0000 + mi')
  }

  function Fadd(a: word, b: word): Option<int> {
    var x :- F2Fr(a);
    var y :- F2Fr(b);
    Fr2f(Plus(x, y))
  }

  function Fmul(a: word, b: word): Option<int> {
    var x :- F2Fr(a);
    var y :- F2Fr(b);
    Fr2f(Times(x, y))
  }

  function Fma(a: word, b: word, c: word): Option<int> {
    var x :- F2Fr(a);
    var y :- F2Fr(b);
    var z :- F2Fr(c);
    Fr2f(Plus(Times(x, y), z))
  }
}
