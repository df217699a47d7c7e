/** What one level of the scan planner is, in the board's own numbers: the rows of a segment, and the buffers,
    paddings, parameter blocks and launches of a level. */
module ScanLevels {
  import opened Powers
  import opened ScanPlan
  import Rounding

  // ----- the rows of a segment -----

  predicate Tiles(m: nat, rows: nat, lanes: nat) {
    rows * lanes > 0 && m % (rows * lanes) == 0
  }

  /** r /= 2, j times. */
  function Halved(r: nat, j: nat): (h: nat)
    ensures h <= r
  {
    if j == 0 then r else Halved(r / 2, j - 1)
  }

  lemma {:induction false} HalvedQuotient(r: nat, j: nat)
    ensures Halved(r, j) == r / Pow2(j)
  {
    hide Pow2;
    Pow2Zero();
    if j > 0 {
      HalvedQuotient(r / 2, j - 1);
      Pow2Succ(j - 1);
      HalfAgain(r, Pow2(j - 1));
    }
  }

  lemma HalfAgain(r: nat, p: nat)
    requires p > 0
    ensures r / 2 / p == r / (2 * p)
  {
    var q := r / 2 / p;
    Rounding.DivIdentity(r / 2, p);
    assert q * (2 * p) == 2 * (q * p);
    Rounding.DivMod(q, 2 * (r / 2 % p) + r % 2, 2 * p);
  }

  /** The halving loop stops at the first of r, r / 2, r / 4, ... that tiles m. */
  lemma {:induction false} HalveChain(r: nat, m: nat, lanes: nat) returns (j: nat)
    requires r > 0 && lanes > 0 && m % lanes == 0
    ensures Halve(r, m, lanes) == Halved(r, j) && Tiles(m, Halved(r, j), lanes)
    ensures forall i: nat | i < j :: !Tiles(m, Halved(r, i), lanes)
    decreases r
  {
    hide Tiles, Halve;
    HalveStep(r, m, lanes);
    if Tiles(m, r, lanes) {
      j := 0;
    } else {
      var k := HalveChain(r / 2, m, lanes);
      j := k + 1;
      forall i: nat | i < j
        ensures !Tiles(m, Halved(r, i), lanes)
      {
        assert i > 0 ==> Halved(r, i) == Halved(r / 2, i - 1);
      }
    }
  }

  lemma HalveStep(r: nat, m: nat, lanes: nat)
    requires r > 0 && lanes > 0 && m % lanes == 0
    ensures Tiles(m, r, lanes) ==> Halve(r, m, lanes) == r
    ensures !Tiles(m, r, lanes) ==> r > 1 && Halve(r, m, lanes) == Halve(r / 2, m, lanes)
  {
    TimesAtLeast(r, lanes);
    assert 1 * lanes == lanes;
  }

  /** What the loop of the segmented planner chooses: of min(m / lanes, 64) and its halvings, the first number of
      rows whose segments tile m, hence at most 64; and 64 whenever segments of 64 rows tile m. */
  lemma SegmentChoice(lanes: nat, m: nat) returns (j: nat)
    requires lanes > 0 && m > 0 && m % lanes == 0
    ensures var most := if m / lanes < 64 then m / lanes else 64;
            && 0 < Halved(most, j) <= 64 && BlockSize(Segments, lanes, m) == Halved(most, j) * lanes
            && Tiles(m, Halved(most, j), lanes)
            && forall i: nat | i < j :: !Tiles(m, Halved(most, i), lanes)
    ensures m % (64 * lanes) == 0 ==> BlockSize(Segments, lanes, m) == 64 * lanes
    ensures lanes == 8 && m % 512 == 0 ==> BlockSize(Segments, lanes, m) == 512
  {
    hide Halved, Tiles, Halve, BlockSize;
    var most := if m / lanes < 64 then m / lanes else 64;
    SegmentSize(lanes, m, most);
    j := HalveChain(most, m, lanes);
    if m % (64 * lanes) == 0 {
      WholeSegments(lanes, m);
    }
  }

  lemma WholeSegments(lanes: nat, m: nat)
    requires lanes > 0 && m > 0 && m % lanes == 0 && m % (64 * lanes) == 0
    ensures BlockSize(Segments, lanes, m) == 64 * lanes
  {
    hide Tiles, Halve, BlockSize;
    FullSegments(m, lanes);
    SegmentSize(lanes, m, 64);
    TilesWhole(m, lanes);
    HalveStep(64, m, lanes);
  }

  lemma SegmentSize(lanes: nat, m: nat, most: nat)
    requires lanes > 0 && m > 0 && m % lanes == 0 && most == if m / lanes < 64 then m / lanes else 64
    ensures most > 0 && BlockSize(Segments, lanes, m) == Halve(most, m, lanes) * lanes
  {
    hide Halve;
    DivPositive(m, lanes);
  }

  lemma TilesWhole(m: nat, lanes: nat)
    requires lanes > 0 && m % (64 * lanes) == 0
    ensures Tiles(m, 64, lanes)
  {
  }

  lemma FullSegments(m: nat, lanes: nat)
    requires lanes > 0 && m > 0 && m % (64 * lanes) == 0 && m % lanes == 0
    ensures m / lanes >= 64
  {
    Rounding.DivIdentity(m, 64 * lanes);
    var k := m / (64 * lanes);
    assert m == k * 64 * lanes;
    Rounding.DivMod(k * 64, 0, lanes);
  }

  /** One level of the plan, unfolded. */
  lemma LevelFacts(mode: Mode, lanes: nat, src: nat, m: nat, top: nat)
    requires lanes > 1 && m > 0 && m % Unit(mode, lanes) == 0
    ensures TotalsAt(m, top) == Align(Align(top) + m)
    ensures LevelTop(mode, lanes, m, top) == Align(TotalsAt(m, top) + TotalWords(mode, lanes, m)) + ParamWords(mode)
    ensures mode.Blocks? ==> BlockSize(mode, lanes, m) == 4 * lanes
    ensures var unit := if mode.Blocks? then 4 * lanes else lanes;
            (m / BlockSize(mode, lanes, m) + unit - 1) / unit * unit == TotalWords(mode, lanes, m)
    ensures var size, nbp := BlockSize(mode, lanes, m), TotalWords(mode, lanes, m);
            var p := Plan(mode, lanes, src, m, top);
            && size > 0 && nbp > 0 && nbp % Unit(mode, lanes) == 0
            && p.out == Align(top)
            && var scan := Scan(src, Align(top), TotalsAt(m, top), m, size);
               if m / size > 1 then
                 && nbp < m
                 && var sub := Plan(mode, lanes, TotalsAt(m, top), nbp, LevelTop(mode, lanes, m, top));
                    p.steps == [scan] + sub.steps + [Add(Align(top), sub.out, m, size)]
                    && p.top == Align(sub.top) + ParamWords(mode) - 1
               else p.steps == [scan] && p.top == LevelTop(mode, lanes, m, top)
  {
    hide Align, TotalWords, BlockSize, TotalsAt, LevelTop;
    TopFacts(mode, lanes, m, top);
    if m / BlockSize(mode, lanes, m) > 1 {
      LevelShrinks(mode, lanes, m);
    }
  }

  lemma TopFacts(mode: Mode, lanes: nat, m: nat, top: nat)
    requires lanes > 1 && m > 0 && m % Unit(mode, lanes) == 0
    ensures TotalsAt(m, top) == Align(Align(top) + m)
    ensures LevelTop(mode, lanes, m, top) == Align(TotalsAt(m, top) + TotalWords(mode, lanes, m)) + ParamWords(mode)
    ensures mode.Blocks? ==> BlockSize(mode, lanes, m) == 4 * lanes
    ensures var unit := if mode.Blocks? then 4 * lanes else lanes;
            (m / BlockSize(mode, lanes, m) + unit - 1) / unit * unit == TotalWords(mode, lanes, m)
  {
    hide Align, Halve;
  }

  // ----- one level, in the board's own numbers -----

  /** A level of the block planner for the 8-lane accelerator: blocks of 32, totals padded to 32 words, buffers aligned
      to 16 words, parameter blocks of 3 and 2 words; the add follows everything the totals need. */
  lemma BlockLevel(src: nat, m: nat, top: nat)
    requires m > 0 && m % 32 == 0
    ensures var nb := m / 32;
            var nbp := (nb + 31) / 32 * 32;
            var out := (top + 15) / 16 * 16;
            var bs := (out + m + 15) / 16 * 16;
            var next := (bs + nbp + 15) / 16 * 16 + 3;
            var p := Plan(Blocks, 8, src, m, top);
            && p.out == out
            && (nb <= 1 ==> p.steps == [Scan(src, out, bs, m, 32)] && p.top == next)
            && (nb > 1 ==>
                  && 0 < nbp < m && nbp % 32 == 0
                  && var sub := Plan(Blocks, 8, bs, nbp, next);
                     && p.steps == [Scan(src, out, bs, m, 32)] + sub.steps + [Add(out, sub.out, m, 32)]
                     && p.top == (sub.top + 15) / 16 * 16 + 2)
  {
    hide BlockSize, Plan, Align, TotalsAt, LevelTop, TotalWords;
    LevelFacts(Blocks, 8, src, m, top);
    BlockNumbers(m, top);
    if m / 32 > 1 {
      AlignIs(Plan(Blocks, 8, TotalsAt(m, top), TotalWords(Blocks, 8, m), LevelTop(Blocks, 8, m, top)).top);
    }
  }

  lemma BlockNumbers(m: nat, top: nat)
    requires m > 0 && m % 32 == 0
    ensures BlockSize(Blocks, 8, m) == 32
    ensures Align(top) == (top + 15) / 16 * 16 && TotalsAt(m, top) == (Align(top) + m + 15) / 16 * 16
    ensures TotalWords(Blocks, 8, m) == (m / 32 + 31) / 32 * 32
    ensures LevelTop(Blocks, 8, m, top) == (TotalsAt(m, top) + TotalWords(Blocks, 8, m) + 15) / 16 * 16 + 3
  {
    hide Align, BlockSize, TotalsAt, TotalWords;
    TopFacts(Blocks, 8, m, top);
    AlignIs(top);
    AlignIs(Align(top) + m);
    AlignIs(TotalsAt(m, top) + TotalWords(Blocks, 8, m));
  }

  /** A level of the segmented planner: segments of r * 8 words with r as chosen, totals padded to 8 words, parameter
      blocks of 4 and 3 words. */
  lemma SegmentLevel(src: nat, m: nat, top: nat, r: nat)
    requires m > 0 && m % 8 == 0 && BlockSize(Segments, 8, m) == r * 8
    ensures var ns := m / (r * 8);
            var nsp := (ns + 7) / 8 * 8;
            var out := (top + 15) / 16 * 16;
            var tot := (out + m + 15) / 16 * 16;
            var next := (tot + nsp + 15) / 16 * 16 + 4;
            var p := Plan(Segments, 8, src, m, top);
            && p.out == out
            && (ns <= 1 ==> p.steps == [Scan(src, out, tot, m, r * 8)] && p.top == next)
            && (ns > 1 ==>
                  && 0 < nsp < m && nsp % 8 == 0
                  && var sub := Plan(Segments, 8, tot, nsp, next);
                     && p.steps == [Scan(src, out, tot, m, r * 8)] + sub.steps + [Add(out, sub.out, m, r * 8)]
                     && p.top == (sub.top + 15) / 16 * 16 + 3)
  {
    hide BlockSize, Plan, Align, TotalsAt, LevelTop, TotalWords;
    LevelFacts(Segments, 8, src, m, top);
    SegmentNumbers(m, top, r);
    if m / (r * 8) > 1 {
      AlignIs(Plan(Segments, 8, TotalsAt(m, top), TotalWords(Segments, 8, m), LevelTop(Segments, 8, m, top)).top);
    }
  }

  lemma SegmentNumbers(m: nat, top: nat, r: nat)
    requires m > 0 && m % 8 == 0 && BlockSize(Segments, 8, m) == r * 8
    ensures Align(top) == (top + 15) / 16 * 16 && TotalsAt(m, top) == (Align(top) + m + 15) / 16 * 16
    ensures TotalWords(Segments, 8, m) == (m / (r * 8) + 7) / 8 * 8
    ensures LevelTop(Segments, 8, m, top) == (TotalsAt(m, top) + TotalWords(Segments, 8, m) + 15) / 16 * 16 + 4
  {
    hide Align, BlockSize, TotalsAt, TotalWords;
    TopFacts(Segments, 8, m, top);
    AlignIs(top);
    AlignIs(Align(top) + m);
    AlignIs(TotalsAt(m, top) + TotalWords(Segments, 8, m));
  }

  lemma AlignIs(a: nat)
    ensures Align(a) == (a + 15) / 16 * 16
  {
  }

  /** The result buffer is the first one allocated. */
  lemma PlanOut(mode: Mode, lanes: nat, src: nat, m: nat, top: nat)
    requires lanes > 1 && m > 0 && m % Unit(mode, lanes) == 0
    ensures Plan(mode, lanes, src, m, top).out == (top + 15) / 16 * 16
  {
  }
}
