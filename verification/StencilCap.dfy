/** The board's cap of 16 sweeps, in the stencil's own binary32 arithmetic: beyond it the buffer the host looks
    in holds another iterate than the one asked for. */
module StencilCap {
  import opened Wrappers
  import opened Words
  import opened Powers
  import opened Rounding
  import opened Binary32
  import opened Binary32Proofs
  import opened Stencil
  import Requant

  /** 0.5f and 0.125f, the coefficients of both hosts. */
  const C0: word := 0x3f00_0000
  const C1: word := 0x3e00_0000
  const NAN32: word := 0x7fc0_0000

  /** The pattern of a result; where the golden arithmetic fails an assertion, a NaN. */
  function Pattern(r: Option<int>): word {
    if r.Some? then Wrap(r.value) else NAN32
  }

  /** The operations of the stencil, each rounded once to binary32. */
  function Single(): Floats {
    Floats((x, y) => Pattern(Fadd(x, y)), (x, y) => Pattern(Fmul(x, y)), (x, y, z) => Pattern(Fma(x, y, z)))
  }

  // ----- halving -----

  /** One sweep's effect on a centre x whose neighbours are zero. */
  function Halve(x: word): word {
    Pattern(Fma(C1, 0, Pattern(Fmul(C0, x))))
  }

  lemma CoefficientValues()
    ensures Finite(C0) && Finite(C1) && Finite(0)
    ensures Signed32(C0) == Pow2(148) && Signed32(0) == 0
  {
    hide Pow2, Value;
    Pow2_23();
    Pow2Add(125, 23);
    PatternValue(24, 125, 0x80_0000);
    PatternValue(24, 0, 0);
    Pow2Zero();
  }

  /** The product with 0.5 is the correct rounding of half of x. */
  lemma ProductHalves(x: word) returns (r: nat)
    requires x < INFINITY
    ensures Fmul(C0, x) == Some(r) && r < INFINITY
    ensures NearestEven(24, Value(24, x), 2, r)
  {
    hide Pow2, Value, NearestEven, Fmul, Fr2f;
    CoefficientValues();
    AddMulRoundOnce(C0, x);
    var v, u := Value(24, x), Pow2(148);
    assert x % 0x8000_0000 == x;
    var e := Exactly(u * v);
    r := NearestExists(24, v, 2);
    Pow2Succ(148);
    Pow2Add(149, 149);
    HalfFraction(v, u, Pow2(149), Pow2(298));
    assert Scaled(e) == u * v * Pow2(149);
    NearestRescale(24, v, 2, Scaled(e), e.den, r);
    NearestMono(24, v, 2, r, x);
    ScaledLess(1, 2, v);
    if v == 0 {
      Fr2fZero(e);
      PatternValue(24, 0, 0);
      NearestExact(24, v, 2, 0, r);
    } else {
      Positive(u, v);
      Fr2fNearest(e, r);
    }
  }

  lemma HalfFraction(v: nat, u: nat, p: nat, q: nat)
    requires p == 2 * u && q == p * p
    ensures v * q == (u * v * p) * 2
    ensures u * v >= 0
  {
    assert v * (p * p) == v * ((2 * u) * p) == (u * v * p) * 2;
  }

  /** Adding it to 0.125 * 0 changes nothing: halving rounds once. */
  lemma HalveRounds(x: word)
    requires x < INFINITY
    ensures Halve(x) < INFINITY && NearestEven(24, Value(24, x), 2, Halve(x))
  {
    hide Pow2, Value, NearestEven, Fmul, Fr2f, Fma, F2Fr;
    CoefficientValues();
    var r := ProductHalves(x);
    assert Pattern(Fmul(C0, x)) == r;
    FmaRoundsOnce(C1, 0, r);
    assert r % 0x8000_0000 == r;
    var e := Exactly(Signed32(C1) * Signed32(0) + Signed32(r) * Pow2(149));
    F2FrValue(r);
    RoundTrip(r);
    SignedScaled(r, F2Fr(r).value);
    Pow2Add(149, 149);
    SumZero(Signed32(C1), Signed32(r), Pow2(149), F2Fr(r).value.num, F2Fr(r).value.den);
    Fr2fInvariant(e, F2Fr(r).value);
  }

  lemma SumZero(c: int, s: int, p: int, n: int, d: int)
    requires n * p == s * d
    ensures (c * 0 + s * p) * d == n * (p * p)
  {
    assert (s * p) * d == (s * d) * p == n * p * p;
  }

  /** A normal centre loses one from its exponent: halving is exact. */
  lemma HalveNormal(x: word)
    requires 0x100_0000 <= x < INFINITY
    ensures Halve(x) == x - 0x80_0000
  {
    hide Pow2, Value, NearestEven, Halve;
    HalveRounds(x);
    Pow2_23();
    var k, m := PatternParts(24, x);
    assert k > 0;
    PatternValue(24, k - 1, m);
    Pow2Succ(k - 1);
    assert m * (2 * Pow2(k - 1)) == (m * Pow2(k - 1)) * 2;
    NearestExact(24, Value(24, x), 2, x - 0x80_0000, Halve(x));
  }

  /** And halving never makes a centre larger. */
  lemma HalveShrinks(x: word)
    requires x < INFINITY
    ensures Halve(x) <= x
  {
    hide Pow2, Value, NearestEven, Halve;
    HalveRounds(x);
    ScaledLess(1, 2, Value(24, x));
    NearestMono(24, Value(24, x), 2, Halve(x), x);
  }

  // ----- the grid -----

  /** A one-point grid: 0.5f in a zero halo. Both are values the host draws. */
  function Grid(): (g: seq<word>)
    ensures |g| == Dot().Size()
  {
    seq(51, q => if q == CENTRE then C0 else 0)
  }

  const CENTRE: nat := 25

  function Dot(): Shape {
    Shape(1, 1, C0, C1)
  }

  /** The centre after n sweeps. */
  function Centre(n: nat): word {
    if n == 0 then C0 else Halve(Centre(n - 1))
  }

  lemma {:induction false} CentreIterate(n: nat)
    ensures Iterate(Single(), Dot(), Grid(), n)[CENTRE] == Centre(n)
  {
    hide Halve, Single;
    if n > 0 {
      CentreIterate(n - 1);
      var g := Iterate(Single(), Dot(), Grid(), n - 1);
      HaloFixed(Single(), Dot(), Grid(), n - 1, 8);
      HaloFixed(Single(), Dot(), Grid(), n - 1, 42);
      HaloFixed(Single(), Dot(), Grid(), n - 1, 24);
      HaloFixed(Single(), Dot(), Grid(), n - 1, 26);
      CentrePoint(g);
    }
  }

  lemma CentrePoint(g: seq<word>)
    requires |g| == 51 && Dot().Size() == 51 && Dot().Stride() == 17 && Dot().Interior(CENTRE)
    requires g[8] == g[42] == g[24] == g[26] == 0
    ensures Point(Single(), Dot(), g, CENTRE) == Halve(g[CENTRE])
  {
    hide Fma, Fmul, Fadd;
    ZeroSum();
  }

  lemma ZeroSum()
    ensures Pattern(Fadd(0, 0)) == 0
  {
    hide Pow2, Value, Fadd, Fr2f;
    CoefficientValues();
    AddMulRoundOnce(0, 0);
    Fr2fZero(Exactly((Signed32(0) + Signed32(0)) * Pow2(149)));
  }

  /** The first sweeps halve exactly. */
  lemma {:induction false} CentreFirst(n: nat)
    requires n <= 100
    ensures Centre(n) == C0 - n * 0x80_0000
  {
    hide Halve;
    if n > 0 {
      CentreFirst(n - 1);
      HalveNormal(Centre(n - 1));
    }
  }

  /** The later ones at least never grow. */
  lemma {:induction false} CentreLater(n: nat)
    requires n >= 17
    ensures Centre(n) <= C0 - 17 * 0x80_0000
  {
    hide Halve;
    if n == 17 {
      CentreFirst(17);
    } else {
      CentreLater(n - 1);
      HalveShrinks(Centre(n - 1));
    }
  }

  /** Beyond 16 sweeps the buffer the board looks in is an earlier iterate, with a larger centre. */
  lemma CentreDiffers(sweeps: nat)
    requires sweeps > MAX_SWEEPS
    ensures Centre(BoardIterate(sweeps)) > Centre(sweeps)
  {
    CentreFirst(BoardIterate(sweeps));
    CentreLater(sweeps);
  }

  ghost predicate Same(d: Shape, g: seq<word>, sweeps: nat)
    requires |g| == d.Size()
  {
    Iterate(Single(), d, g, BoardIterate(sweeps)) == Iterate(Single(), d, g, sweeps)
  }

  /** The board's buffer holds the requested number of sweeps of every grid exactly when at most 16 are requested;
      the one-point grid already tells the difference for every larger number. */
  lemma CapIsExact(sweeps: nat)
    ensures sweeps <= 16 <==> Same(Dot(), Grid(), sweeps)
    ensures sweeps <= 16 <==>
            forall d: Shape, g: seq<word> | d.c0 == 0x3f00_0000 && d.c1 == 0x3e00_0000 && |g| == d.Size() ::
              Same(d, g, sweeps)
  {
    hide Iterate, Centre;
    if sweeps > MAX_SWEEPS {
      CentreIterate(sweeps);
      CentreIterate(BoardIterate(sweeps));
      CentreDiffers(sweeps);
      assert !Same(Dot(), Grid(), sweeps);
    }
  }

  // ----- a fixed point -----

  /** Rounding a value that a finite pattern has, in units of 2^-298, gives that pattern. */
  lemma ExactlyPattern(n: int, b: nat)
    requires b < INFINITY && n == Value(24, b) * Pow2(149)
    ensures Fr2f(Exactly(n)) == Some(b)
  {
    hide Value, Pow2, Fr2f;
    Pow2Add(149, 149);
    var p := Pow2(149);
    ScaledLess(0, Value(24, b), p);
    assert Value(24, b) * p * p == Value(24, b) * (p * p);
    Requant.ExactConversion(Exactly(n), b);
  }

  /** 2^e as a pattern. */
  lemma PowerPattern(e: nat, b: nat)
    requires 23 <= e <= 200 && b == (e - 22) * 0x80_0000
    ensures b < INFINITY && Signed32(b) == Value(24, b) == Pow2(e)
  {
    hide Pow2, Value;
    Pow2_23();
    PatternValue(24, e - 23, 0x80_0000);
    Pow2Add(23, e - 23);
  }

  lemma HalfConstants()
    ensures Pattern(Fadd(C0, C0)) == 0x3f80_0000 && Pattern(Fadd(0x3f80_0000, 0x3f80_0000)) == 0x4000_0000
    ensures Pattern(Fmul(C0, C0)) == 0x3e80_0000 && Pattern(Fma(C1, 0x4000_0000, 0x3e80_0000)) == C0
  {
    hide Pow2, Value, Signed32, Fadd, Fmul, Fma, Fr2f, Exactly;
    PowerPattern(146, C1);
    PowerPattern(147, 0x3e80_0000);
    PowerPattern(148, C0);
    PowerPattern(149, 0x3f80_0000);
    PowerPattern(150, 0x4000_0000);
    FinitePatterns();
    AddMulRoundOnce(C0, C0);
    AddMulRoundOnce(0x3f80_0000, 0x3f80_0000);
    FmaRoundsOnce(C1, 0x4000_0000, 0x3e80_0000);
    Pow2Succ(147);
    Pow2Succ(148);
    Pow2Succ(149);
    Pow2Add(148, 148);
    Pow2Add(147, 149);
    Pow2Add(146, 150);
    Pow2Add(148, 149);
    Pow2Succ(296);
    ExactlyPattern((Pow2(148) + Pow2(148)) * Pow2(149), 0x3f80_0000);
    ExactlyPattern((Pow2(149) + Pow2(149)) * Pow2(149), 0x4000_0000);
    ExactlyPattern(Pow2(148) * Pow2(148), 0x3e80_0000);
    ExactlyPattern(Pow2(146) * Pow2(150) + Pow2(147) * Pow2(149), C0);
  }

  lemma FinitePatterns()
    ensures Finite(C0) && Finite(C1) && Finite(0x3f80_0000) && Finite(0x4000_0000) && Finite(0x3e80_0000)
  {
  }

  /** A grid that is 0.5 everywhere does not change: 0.125 * 2 + 0.5 * 0.5 == 0.5, without rounding. */
  lemma HalfIsFixed(d: Shape, g: seq<word>)
    requires d.c0 == 0x3f00_0000 && d.c1 == 0x3e00_0000 && |g| == d.Size()
    requires forall q | 0 <= q < |g| :: g[q] == 0x3f00_0000
    ensures Sweep(Single(), d, g) == g
  {
    hide Fadd, Fmul, Fma, Shape.Size, Shape.Interior;
    HalfConstants();
    forall q: nat | q < |g| && d.Interior(q)
      ensures Point(Single(), d, g, q) == C0
    {
      NeighboursInside(d, q);
    }
  }
}
