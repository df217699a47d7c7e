/** The binary16 reference computes every operation as if it rounded the exact result once: the narrower is
    correct, and rounding to double first never changes the half. */
module HalfProofs {
  import opened Powers
  import opened Rounding
  import opened Half

  lemma Constants()
    ensures Pow2(10) == 0x400 && Pow2(11) == 0x800 && Pow2(42) == 0x400_0000_0000
    ensures Pow2(52) == FRAC64 && Pow2(53) == 2 * FRAC64
  {
    hide Pow2;
    Pow2Word();
    Pow2Small();
    Pow2Add(8, 2);
    Pow2Succ(10);
    Pow2Add(32, 10);
    Pow2Add(42, 10);
    Pow2Succ(52);
  }

  lemma Pow2Small()
    ensures Pow2(1) == 2 && Pow2(2) == 4
  {
  }

  // ----- the narrower -----

  /** The eleven leading bits with guard, round and sticky are rounding the significand half to even. */
  lemma GuardBits(sig: nat)
    ensures RoundedSignificand(sig) == RoundHalfEven(sig, 0x400_0000_0000)
  {
    var unit := 0x100_0000_0000;
    var top, rem := sig / (4 * unit), sig % (4 * unit);
    assert Quotient(sig, 4 * unit) == top && Remainder(sig, 4 * unit) == rem;
    BitsBelow(top, rem, unit);
  }

  /** Guard, round and sticky bits of rem, four units wide. */
  lemma BitsBelow(top: nat, rem: nat, unit: nat)
    requires unit == 0x100_0000_0000 && rem < 4 * unit
    ensures var sig := top * (4 * unit) + rem;
            && sig / (2 * unit) % 2 == (if rem >= 2 * unit then 1 else 0)
            && sig / unit % 2 == (if rem % (2 * unit) >= unit then 1 else 0)
            && sig % unit == rem % unit
  {
    var q, low := rem / unit, rem % unit;
    var sig := top * (4 * unit) + rem;
    assert sig == (4 * top + q) * unit + low;
    assert sig / unit == 4 * top + q;
    assert q == 0 || q == 1 || q == 2 || q == 3;
    assert sig / (2 * unit) == 2 * top + q / 2;
  }

  /** A double with biased exponent ef and significand sig, against the half scale. */
  lemma DoubleParts(mag: nat) returns (ef: nat, sig: nat)
    requires FRAC64 <= mag < INF64
    ensures ef == mag / FRAC64 && sig == FRAC64 + mag % FRAC64 && 1 <= ef <= 2046 && FRAC64 <= sig < 2 * FRAC64
    ensures Value(53, mag) == sig * Pow2(ef - 1)
  {
    hide Pow2, Value;
    ef, sig := mag / FRAC64, FRAC64 + mag % FRAC64;
    Constants();
    PatternValue(53, ef - 1, sig);
    assert (ef - 1) * FRAC64 + sig == mag;
  }

  /** 2^-14 and 2^16 as doubles. */
  lemma Landmarks()
    ensures Value(53, 1009 * FRAC64) == 0x400 * Pow2(1050)
    ensures Value(53, 1039 * FRAC64) == Value(11, INF16) * Pow2(1050)
    ensures Value(11, 0x400) == 0x400
  {
    hide Pow2, Value;
    Constants();
    Pow2Zero();
    PatternValue(53, 1008, FRAC64);
    PatternValue(53, 1038, FRAC64);
    PatternValue(11, 0, 0x400);
    PatternValue(11, 30, 0x400);
    Pow2Add(52, 1008);
    Pow2Add(10, 1050);
    Pow2Add(52, 1038);
    Pow2Add(10, 30);
    Pow2Add(40, 1050);
  }

  /** Within the half exponent range, the bits the narrower assembles are the nearest half pattern. */
  lemma NormalNarrowing(mag: nat)
    requires 1009 * FRAC64 <= mag < 1039 * FRAC64
    ensures var e, sig := mag / FRAC64 - 1023, FRAC64 + mag % FRAC64;
            var rounded := RoundedSignificand(sig);
            && 0x400 <= rounded <= 0x800
            && NearestEven(11, Value(53, mag), Pow2(1050), (e + 14) * 0x400 + rounded)
  {
    hide Pow2, Value, NearestEven, RoundHalfEven, RoundedSignificand;
    var ef, sig := DoubleParts(mag);
    Constants();
    GuardBits(sig);
    var k := ef - 1009;
    Pow2Add(1050, k);
    Pow2Add(42, ef - 1);
    ScaledNearest(11, Value(53, mag), Pow2(1050), k, sig, 0x400_0000_0000, Pow2(ef - 1));
    if k == 0 {
      // the first binade: the lower bound comes from the hidden bit
      NearestAtLeastNormal(Value(53, mag), RoundHalfEven(sig, 0x400_0000_0000));
    }
  }

  lemma NearestAtLeastNormal(n: nat, b: nat)
    requires NearestEven(11, n, Pow2(1050), b) && n >= 0x400 * Pow2(1050)
    ensures b >= 0x400
  {
    hide Pow2, Value, NearestEven;
    Landmarks();
    NearestMono(11, n, Pow2(1050), b, 0x400);
  }

  /** The narrower's bits are the directly rounded magnitude. */
  lemma NarrowCorrect(mag: nat)
    requires mag < INF64
    ensures DirectMagnitude(Value(53, mag), Pow2(1050), Narrow(mag))
  {
    hide Pow2, Value, NearestEven, RoundedSignificand;
    var n, d := Value(53, mag), Pow2(1050);
    Landmarks();
    if mag < 1009 * FRAC64 {
      ValueMono(53, mag, 1009 * FRAC64);
    } else {
      if mag > 1009 * FRAC64 {
        ValueMono(53, 1009 * FRAC64, mag);
      }
      if mag < 1039 * FRAC64 {
        NormalNarrowing(mag);
      } else {
        var b := NearestExists(11, n, d);
        if mag > 1039 * FRAC64 {
          ValueMono(53, 1039 * FRAC64, mag);
        }
        NearestMono(11, n, d, b, INF16);
      }
    }
  }

  /** d2h is the correct rounding of every finite double: ties to even from 2^-14 up, signed zero below,
      infinity past the largest finite half. */
  lemma D2hCorrect(v: double)
    requires FiniteDouble(v)
    ensures Direct(DVal(v), Pow2(1050), Negative(v), D2h(v))
  {
    hide Pow2, Value, DirectMagnitude, Narrow;
    NarrowCorrect(v % SIGN64);
    PatternZero(53);
    if v % SIGN64 > 0 {
      ValueMono(53, 0, v % SIGN64);
    }
  }

  /** Halves in numerical order, infinities included. */
  function Order(h: half): int {
    if h >= SIGN16 then -(h - SIGN16) else h
  }

  lemma MagnitudeMono(n: nat, m: nat, d: nat, g: nat, h: nat)
    requires d > 0 && n <= m && DirectMagnitude(n, d, g) && DirectMagnitude(m, d, h)
    ensures g <= h
  {
    hide Value, NearestEven;
    if n >= 0x400 * d {
      var b: nat :| NearestEven(11, n, d, b) && g == if b > INF16 then INF16 else b;
      var c: nat :| NearestEven(11, m, d, c) && h == if c > INF16 then INF16 else c;
      if c < b {
        NearestIsAround(11, n, d, b);
        NearestVsMidpoint(11, m, d, c, b - 1);
        NearestVsMidpoint(11, n, d, b, c);
        NearestIsAround(11, m, d, c);
        MidpointMono(11, c, b - 1);
        ScaledLess(Midpoint2(11, c), Midpoint2(11, b - 1), d);
        NearestUnique(11, n, d, b, c);
      }
    }
  }

  lemma ZeroMagnitude(d: nat, h: nat)
    requires d > 0 && DirectMagnitude(0, d, h)
    ensures h == 0
  {
  }

  /** d2h is monotone: a larger double never narrows to a smaller half. */
  lemma D2hMonotone(x: double, y: double)
    requires FiniteDouble(x) && FiniteDouble(y) && DVal(x) <= DVal(y)
    ensures Order(D2h(x)) <= Order(D2h(y))
  {
    hide Pow2, Value, NearestEven, DirectMagnitude, D2h;
    D2hCorrect(x);
    D2hCorrect(y);
    if DVal(x) == 0 {
      ZeroMagnitude(Pow2(1050), D2h(x) % SIGN16);
    }
    if DVal(y) == 0 {
      ZeroMagnitude(Pow2(1050), D2h(y) % SIGN16);
    }
    if DVal(x) >= 0 {
      MagnitudeMono(Abs(DVal(x)), Abs(DVal(y)), Pow2(1050), D2h(x) % SIGN16, D2h(y) % SIGN16);
    } else if DVal(y) <= 0 {
      MagnitudeMono(Abs(DVal(y)), Abs(DVal(x)), Pow2(1050), D2h(y) % SIGN16, D2h(x) % SIGN16);
    }
  }
}
