/** C = A * B in the three loop orders of the sources, over an arbitrary fused multiply-add: nothing is assumed about
    it, so the agreement is about the order of operations alone. */
module Gemm {
  import opened Words
  import opened Powers
  import opened Packing
  import F = Finite

  type FusedMultiplyAdd = (word, word, word) -> word

  /** A is m x k, B is k x n, both row-major. */
  datatype Operands = Operands(a: seq<word>, b: seq<word>, m: nat, k: nat, n: nat) {
    predicate Valid() {
      |a| == m * k && |b| == k * n
    }
  }

  lemma Indices(p: Operands, r: nat, c: nat, kk: nat)
    requires p.Valid() && r < p.m && c < p.n && kk < p.k
    ensures r * p.k + kk < |p.a| && kk * p.n + c < |p.b|
  {
    InsideMatrix(r, kk, p.m, p.k);
    InsideMatrix(kk, c, p.k, p.n);
  }

  /** Element (r, c) accumulated over the first `terms` products, in index order from +0. */
  function Element(fma: FusedMultiplyAdd, p: Operands, r: nat, c: nat, terms: nat): word
    requires p.Valid() && r < p.m && c < p.n && terms <= p.k
  {
    if terms == 0 then 0
    else
      Indices(p, r, c, terms - 1);
      fma(p.a[r * p.k + (terms - 1)], p.b[(terms - 1) * p.n + c], Element(fma, p, r, c, terms - 1))
  }

  function Product(fma: FusedMultiplyAdd, p: Operands): seq<word>
    requires p.Valid()
  {
    seq(p.m * p.n, t requires 0 <= t < p.m * p.n =>
      RowOf(t, p.m, p.n);
      Element(fma, p, t / p.n, t % p.n, p.k))
  }

  ghost predicate ProductAt(fma: FusedMultiplyAdd, p: Operands, t: nat, v: word)
    requires p.Valid()
  {
    t < p.m * p.n && v == Product(fma, p)[t]
  }

  /** An element is done when all its products are in. */
  lemma ElementDone(fma: FusedMultiplyAdd, p: Operands, r: nat, c: nat)
    requires p.Valid() && r < p.m && c < p.n
    ensures ProductAt(fma, p, r * p.n + c, Element(fma, p, r, c, p.k))
  {
    InsideMatrix(r, c, p.m, p.n);
    RowMajor(r, c, p.n);
  }

  /** The golden loop: one element at a time, appended in row-major order. */
  method GoldenGemm(fma: FusedMultiplyAdd, p: Operands) returns (out: seq<word>)
    requires p.Valid()
    ensures out == Product(fma, p)
  {
    hide Product, Element;
    out := [];
    for r := 0 to p.m
      invariant |out| == r * p.n
      invariant forall t | 0 <= t < |out| :: ProductAt(fma, p, t, out[t])
    {
      for c := 0 to p.n
        invariant |out| == r * p.n + c
        invariant forall t | 0 <= t < |out| :: ProductAt(fma, p, t, out[t])
      {
        var acc: word := 0;
        ElementStart(fma, p, r, c);
        for kk := 0 to p.k
          invariant acc == Element(fma, p, r, c, kk)
        {
          ElementStep(fma, p, r, c, kk);
          acc := fma(p.a[r * p.k + kk], p.b[kk * p.n + c], acc);
        }
        ElementDone(fma, p, r, c);
        out := out + [acc];
      }
      assert r * p.n + p.n == (r + 1) * p.n;
    }
    AllDone(fma, p, out);
  }

  lemma ElementStart(fma: FusedMultiplyAdd, p: Operands, r: nat, c: nat)
    requires p.Valid() && r < p.m && c < p.n
    ensures Element(fma, p, r, c, 0) == 0
  {
  }

  lemma ElementStep(fma: FusedMultiplyAdd, p: Operands, r: nat, c: nat, kk: nat)
    requires p.Valid() && r < p.m && c < p.n && kk < p.k
    ensures r * p.k + kk < |p.a| && kk * p.n + c < |p.b|
    ensures Element(fma, p, r, c, kk + 1) == fma(p.a[r * p.k + kk], p.b[kk * p.n + c], Element(fma, p, r, c, kk))
  {
    Indices(p, r, c, kk);
  }

  lemma AllDone(fma: FusedMultiplyAdd, p: Operands, out: seq<word>)
    requires p.Valid() && |out| == p.m * p.n && forall t | 0 <= t < |out| :: ProductAt(fma, p, t, out[t])
    ensures out == Product(fma, p)
  {
  }

  lemma InsideRow(r: nat, m: nat, n: nat)
    requires r < m
    ensures r * n + n == (r + 1) * n <= m * n
  {
  }

  /** Row i in the middle of step k: the first j columns already have product k, the others do not. */
  ghost predicate RowState(fma: FusedMultiplyAdd, p: Operands, i: nat, k: nat, j: nat, ref: seq<word>)
    requires p.Valid() && i < p.m && k <= p.k && (j > 0 ==> k < p.k)
  {
    forall t | i * p.n <= t < i * p.n + p.n && t < |ref| :: CellState(fma, p, i, k, j, t - i * p.n, ref[t])
  }

  ghost predicate CellState(fma: FusedMultiplyAdd, p: Operands, i: nat, k: nat, j: nat, c: nat, v: word)
    requires p.Valid() && i < p.m && k <= p.k && (j > 0 ==> k < p.k) && c < p.n
  {
    v == Element(fma, p, i, c, if c < j then k + 1 else k)
  }

  /** The row with one more product in column j. */
  function RowUpdate(fma: FusedMultiplyAdd, p: Operands, i: nat, k: nat, j: nat, ref: seq<word>): (r: seq<word>)
    requires p.Valid() && i < p.m && j < p.n && k < p.k && |ref| == p.m * p.n
    ensures |r| == |ref|
  {
    InsideMatrix(i, j, p.m, p.n);
    Indices(p, i, j, k);
    ref[i * p.n + j := fma(p.a[i * p.k + k], p.b[k * p.n + j], ref[i * p.n + j])]
  }

  lemma RowStep(fma: FusedMultiplyAdd, p: Operands, i: nat, k: nat, j: nat, ref: seq<word>)
    requires p.Valid() && i < p.m && j < p.n && k < p.k && |ref| == p.m * p.n && RowState(fma, p, i, k, j, ref)
    ensures RowState(fma, p, i, k, j + 1, RowUpdate(fma, p, i, k, j, ref))
  {
    hide Element;
    InsideMatrix(i, j, p.m, p.n);
    ElementStep(fma, p, i, j, k);
    var r := RowUpdate(fma, p, i, k, j, ref);
    forall t | i * p.n <= t < i * p.n + p.n && t < |r|
      ensures CellState(fma, p, i, k, j + 1, t - i * p.n, r[t])
    {
      assert CellState(fma, p, i, k, j, t - i * p.n, ref[t]);
    }
  }

  /** All columns have product k: step k is over. */
  lemma RowNext(fma: FusedMultiplyAdd, p: Operands, i: nat, k: nat, ref: seq<word>)
    requires p.Valid() && i < p.m && k < p.k && RowState(fma, p, i, k, p.n, ref)
    ensures RowState(fma, p, i, k + 1, 0, ref)
  {
  }

  lemma RowFirst(fma: FusedMultiplyAdd, p: Operands, i: nat, ref: seq<word>)
    requires p.Valid() && i < p.m && forall t | i * p.n <= t < i * p.n + p.n && t < |ref| :: ref[t] == 0
    ensures RowState(fma, p, i, 0, 0, ref)
  {
  }

  lemma RowFinished(fma: FusedMultiplyAdd, p: Operands, i: nat, was: seq<word>, ref: seq<word>)
    requires p.Valid() && i < p.m && |was| == |ref| == p.m * p.n && i * p.n <= |ref| && ref[..i * p.n] == was[..i * p.n]
    requires forall t: nat | t < i * p.n :: ProductAt(fma, p, t, was[t])
    requires RowState(fma, p, i, p.k, 0, ref)
    ensures forall t: nat | t < (i + 1) * p.n :: t < |ref| && ProductAt(fma, p, t, ref[t])
  {
    hide Product, Element;
    InsideRow(i, p.m, p.n);
    forall t: nat | t < (i + 1) * p.n
      ensures t < |ref| && ProductAt(fma, p, t, ref[t])
    {
      if t < i * p.n {
        assert ProductAt(fma, p, t, was[t]);
        assert ref[..i * p.n][t] == was[..i * p.n][t];
      } else {
        assert CellState(fma, p, i, p.k, 0, t - i * p.n, ref[t]);
        ElementDone(fma, p, i, t - i * p.n);
      }
    }
  }

  /** The host's i-k-j loop: whole rows of C accumulate in place, one scaled row of B after another. */
  method HostGemm(fma: FusedMultiplyAdd, p: Operands, ref: array<word>)
    requires p.Valid() && ref.Length == p.m * p.n
    modifies ref
    ensures ref[..] == Product(fma, p)
  {
    hide Product, Element, RowState, ProductAt;
    for i := 0 to p.m
      invariant forall t: nat | t < i * p.n :: t < ref.Length && ProductAt(fma, p, t, ref[t])
    {
      InsideRow(i, p.m, p.n);
      ghost var was := ref[..];
      ClearRow(ref, i * p.n, p.n);
      RowFirst(fma, p, i, ref[..]);
      for k := 0 to p.k
        invariant ref[..i * p.n] == was[..i * p.n]
        invariant RowState(fma, p, i, k, 0, ref[..])
      {
        HostRow(fma, p, i, k, ref);
      }
      RowFinished(fma, p, i, was, ref[..]);
    }
    AllDone(fma, p, ref[..]);
  }

  /** for j: cr[j] = 0.0f */
  method ClearRow(ref: array<word>, at: nat, n: nat)
    requires at + n <= ref.Length
    modifies ref
    ensures ref[..at] == old(ref[..at])
    ensures forall t | at <= t < at + n :: ref[t] == 0
  {
    for j := 0 to n
      invariant ref[..at] == old(ref[..at])
      invariant forall t | at <= t < at + j :: ref[t] == 0
    {
      ref[at + j] := 0;
    }
  }

  /** for j: cr[j] = fmaf(av, br[j], cr[j]) */
  method HostRow(fma: FusedMultiplyAdd, p: Operands, i: nat, k: nat, ref: array<word>)
    requires p.Valid() && i < p.m && k < p.k && ref.Length == p.m * p.n && i * p.n <= ref.Length
    requires RowState(fma, p, i, k, 0, ref[..])
    modifies ref
    ensures ref[..i * p.n] == old(ref[..i * p.n])
    ensures RowState(fma, p, i, k + 1, 0, ref[..])
  {
    hide Element, RowState;
    for j := 0 to p.n
      invariant ref[..i * p.n] == old(ref[..i * p.n])
      invariant RowState(fma, p, i, k, j, ref[..])
    {
      InsideMatrix(i, j, p.m, p.n);
      Indices(p, i, j, k);
      ghost var before := ref[..];
      RowStep(fma, p, i, k, j, before);
      ref[i * p.n + j] := fma(p.a[i * p.k + k], p.b[k * p.n + j], ref[i * p.n + j]);
      assert ref[..] == RowUpdate(fma, p, i, k, j, before);
    }
    RowNext(fma, p, i, k, ref[..]);
  }

  /** One kernel thread: pointers a and b walk a row of A and a column of B; n is 1 << l2n. */
  method KernelThread(fma: FusedMultiplyAdd, p: Operands, l2n: nat, t: nat) returns (acc: word)
    requires p.Valid() && p.n == Pow2(l2n) && t < p.m * p.n
    ensures ProductAt(fma, p, t, acc)
  {
    hide Product, Element, Pow2;
    var n := Pow2(l2n);
    RowOf(t, p.m, n);
    var row, col := t / n, t % n;
    var a, b := row * p.k, col;
    var e := a + p.k;
    acc := 0;
    ElementStart(fma, p, row, col);
    ghost var kk := 0;
    while a != e
      invariant kk <= p.k && a == row * p.k + kk && b == kk * n + col
      invariant acc == Element(fma, p, row, col, kk)
      decreases e - a
    {
      ElementStep(fma, p, row, col, kk);
      acc := fma(p.a[a], p.b[b], acc);
      assert kk * n + col + n == (kk + 1) * n + col;
      a, b, kk := a + 1, b + n, kk + 1;
    }
    ElementDone(fma, p, row, col);
  }

  /** The launch of m * n threads, in any order. */
  method KernelGemm(fma: FusedMultiplyAdd, p: Operands, l2n: nat, c: array<word>)
    requires p.Valid() && p.n == Pow2(l2n) && c.Length == p.m * p.n
    modifies c
    ensures c[..] == Product(fma, p)
  {
    hide Product, Pow2, ProductAt;
    var todo: set<nat> := F.Below(c.Length);
    while todo != {}
      invariant todo <= F.Below(c.Length)
      invariant forall t: nat | t < c.Length && t !in todo :: ProductAt(fma, p, t, c[t])
      decreases |todo|
    {
      var t: nat :| t in todo;
      c[t] := KernelThread(fma, p, l2n, t);
      todo := todo - {t};
    }
    AllDone(fma, p, c[..]);
  }
}
