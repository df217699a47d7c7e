/** Sums of words, over the integers; 32-bit prefix sums are these modulo 2^32. */
module Sums {
  import opened Words

  function Sum(xs: seq<word>): int {
    if xs == [] then 0 else Sum(xs[..|xs| - 1]) + xs[|xs| - 1]
  }

  /** xs[lo] + ... + xs[hi - 1]. */
  function Range(xs: seq<word>, lo: nat, hi: nat): int
    requires lo <= hi <= |xs|
  {
    Sum(xs[lo..hi])
  }

  lemma RangeEmpty(xs: seq<word>, i: nat)
    requires i <= |xs|
    ensures Range(xs, i, i) == 0
  {
  }

  lemma RangeStep(xs: seq<word>, lo: nat, hi: nat)
    requires lo <= hi < |xs|
    ensures Range(xs, lo, hi + 1) == Range(xs, lo, hi) + xs[hi]
  {
    assert xs[lo..hi + 1][..hi - lo] == xs[lo..hi];
  }

  lemma {:induction false} RangeSplit(xs: seq<word>, lo: nat, mid: nat, hi: nat)
    requires lo <= mid <= hi <= |xs|
    ensures Range(xs, lo, hi) == Range(xs, lo, mid) + Range(xs, mid, hi)
    decreases hi
  {
    if mid < hi {
      RangeSplit(xs, lo, mid, hi - 1);
      RangeStep(xs, lo, hi - 1);
      RangeStep(xs, mid, hi - 1);
    } else {
      RangeEmpty(xs, mid);
    }
  }

  /** Adding modulo 2^32 in any grouping. */
  lemma WrapSum(a: int, b: int)
    ensures AddW(Wrap(a), Wrap(b)) == Wrap(a + b)
  {
  }

  lemma WrapWord(x: word)
    ensures Wrap(x) == x
  {
  }
}
