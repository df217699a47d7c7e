/** The INT8 multi-layer perceptron: the packed dot-product kernel, the host's byte loops and the golden model,
    layer by layer and through the whole network. Activations are row-major, one row of k bytes per image. */
module Mlp {
  import opened Words
  import F = Finite
  import opened Powers
  import opened Rounding
  import opened Binary32Proofs
  import opened Packing
  import opened Requant

  // ----- exact arithmetic -----

  ghost predicate Int8s(x: seq<int>) {
    forall i | 0 <= i < |x| :: IsInt8(x[i])
  }

  /** x[0] * w[0][c] + ... + x[m - 1] * w[m - 1][c] over the integers. */
  function Dot(x: seq<int>, w: seq<seq<int>>, c: nat, m: nat): int
    requires m <= |x| && m <= |w| && forall r | 0 <= r < |w| :: c < |w[r]|
  {
    if m == 0 then 0 else Dot(x, w, c, m - 1) + x[m - 1] * w[m - 1][c]
  }

  lemma ProductBound(a: int, b: int)
    requires IsInt8(a) && IsInt8(b)
    ensures -0x4000 <= a * b <= 0x4000
  {
    SignedBound(a, b, 0x80, 0x80);
  }

  lemma {:induction false} DotBound(x: seq<int>, w: seq<seq<int>>, c: nat, m: nat, n: nat)
    requires m <= |x| && m <= |w| && Int8s(x) && IsMatrix(w, |w|, n) && c < n
    ensures -0x4000 * m <= Dot(x, w, c, m) <= 0x4000 * m
  {
    if m > 0 {
      DotBound(x, w, c, m - 1, n);
      ProductBound(x[m - 1], w[m - 1][c]);
    }
  }

  /** The deepest layer whose accumulator cannot leave int32_t, whatever the INT8 data. */
  const MAX_DEPTH: nat := 0x1_ffff

  predicate IsInt32(x: int) {
    -0x8000_0000 <= x < 0x8000_0000
  }

  /** The int32_t a 32-bit accumulator holds. */
  function ToInt32(x: int): int {
    Signed(Wrap(x))
  }

  lemma ToInt32Exact(x: int)
    requires IsInt32(x)
    ensures ToInt32(x) == x
  {
  }

  /** One product more and the accumulator can wrap: the bound on the depth is tight. */
  lemma {:induction false} DepthIsTight(x: seq<int>, w: seq<seq<int>>, m: nat)
    requires m <= |x| && m <= |w|
    requires (forall i | 0 <= i < |x| :: x[i] == -0x80) && forall r | 0 <= r < |w| :: w[r] == [-0x80]
    ensures Dot(x, w, 0, m) == 0x4000 * m
    ensures m == MAX_DEPTH + 1 ==> !IsInt32(Dot(x, w, 0, m)) && ToInt32(Dot(x, w, 0, m)) == -0x8000_0000
  {
    if m > 0 {
      DepthIsTight(x, w, m - 1);
    }
  }

  // ----- the golden network -----

  /** k inputs, 2^l2 output columns (at least 8), weights with the padding columns included. */
  datatype Layer = Layer(w: seq<seq<int>>, k: nat, l2: nat) {
    function Columns(): nat {
      Pow2(l2)
    }

    ghost predicate Valid() {
      IsMatrix(w, k, Columns()) && k % 4 == 0 && k <= MAX_DEPTH && l2 >= 3
    }
  }

  /** Scale and zero point for which requantization cannot overflow. */
  ghost predicate ScalesOk(scale: word, zp: word) {
    && Finite(scale) && Finite(zp)
    && Value(24, scale % 0x8000_0000) <= Pow2(209) && Value(24, zp % 0x8000_0000) <= Pow2(209)
  }

  ghost function Quantized(acc: int, scale: word, zp: word): (r: int)
    requires IsInt32(acc) && ScalesOk(scale, zp)
    ensures GoldenRequant(acc, scale, zp).Some? && r == GoldenRequant(acc, scale, zp).value
    ensures 0 <= r <= 127 && IsRequantized(acc, scale, zp, r)
  {
    RequantDefined(acc, scale, zp);
    RequantAgree(acc, scale, zp);
    GoldenRequant(acc, scale, zp).value
  }

  lemma Agreed(acc: int, scale: word, zp: word)
    requires IsInt32(acc) && ScalesOk(scale, zp)
    ensures var r := Quantized(acc, scale, zp);
            && HostRequant(acc, scale, zp).Some? && HostRequant(acc, scale, zp).value == r
            && KernelRequant(acc, scale, zp).Some? && KernelRequant(acc, scale, zp).value == r
  {
    hide ScalesOk, GoldenRequant, KernelRequant, HostRequant, IsRequantized;
    var r := Quantized(acc, scale, zp);
    RequantAgree(acc, scale, zp);
  }

  ghost predicate IsInput(x: seq<int>, l: Layer, batch: nat) {
    l.Valid() && |x| == batch * l.k && Int8s(x)
  }

  function Row(x: seq<int>, b: nat, k: nat): seq<int>
    requires (b + 1) * k <= |x|
  {
    assert b * k <= (b + 1) * k;
    x[b * k..(b + 1) * k]
  }

  /** Row and column of output t. */
  lemma CellInRange(x: seq<int>, l: Layer, batch: nat, t: nat)
    requires IsInput(x, l, batch) && t < batch * l.Columns()
    ensures t / l.Columns() < batch && t % l.Columns() < l.Columns()
    ensures (t / l.Columns() + 1) * l.k <= |x|
  {
  }

  lemma RowInt8(x: seq<int>, l: Layer, batch: nat, b: nat)
    requires IsInput(x, l, batch) && (b + 1) * l.k <= |x|
    ensures |Row(x, b, l.k)| == l.k && Int8s(Row(x, b, l.k))
  {
    hide Pow2, Layer.Columns;
    assert (b + 1) * l.k == b * l.k + l.k;
  }

  lemma DotStart(row: seq<int>, l: Layer, c: nat)
    requires l.Valid() && c < l.Columns() && |row| == l.k
    ensures |l.w| == l.k && forall r | 0 <= r < |l.w| :: c < |l.w[r]|
    ensures Dot(row, l.w, c, 0) == 0
  {
  }

  lemma RowAt(src: seq<int>, l: Layer, batch: nat, b: nat, kk: nat)
    requires IsInput(src, l, batch) && b < batch && kk < l.k
    ensures (b + 1) * l.k <= |src| && b * l.k + kk < |src| && src[b * l.k + kk] == Row(src, b, l.k)[kk]
  {
    hide Pow2, Layer.Columns;
    MulLe(b + 1, batch, l.k, l.k);
    assert (b + 1) * l.k == b * l.k + l.k;
  }

  /** The exact accumulator of output t. */
  ghost function Accumulator(x: seq<int>, l: Layer, batch: nat, t: nat): (acc: int)
    requires IsInput(x, l, batch) && t < batch * l.Columns()
    ensures IsInt32(acc)
  {
    hide Pow2, Layer.Columns, Dot;
    CellInRange(x, l, batch, t);
    var row := Row(x, t / l.Columns(), l.k);
    RowInt8(x, l, batch, t / l.Columns());
    DotStart(row, l, t % l.Columns());
    DotBound(row, l.w, t % l.Columns(), l.k, l.Columns());
    Dot(row, l.w, t % l.Columns(), l.k)
  }

  ghost function Logits(x: seq<int>, l: Layer, batch: nat): seq<int>
    requires IsInput(x, l, batch)
  {
    seq(batch * l.Columns(), t requires 0 <= t < batch * l.Columns() => Accumulator(x, l, batch, t))
  }

  ghost function Hidden(x: seq<int>, l: Layer, batch: nat, scale: word, zp: word): (y: seq<int>)
    requires IsInput(x, l, batch) && ScalesOk(scale, zp)
    ensures |y| == batch * l.Columns() && Int8s(y)
  {
    seq(batch * l.Columns(), t requires 0 <= t < batch * l.Columns() =>
      Quantized(Accumulator(x, l, batch, t), scale, zp))
  }

  /** Output t of a layer: acc itself, or its requantized byte. */
  ghost predicate Outputs(x: seq<int>, l: Layer, batch: nat, scale: word, zp: word, t: nat, acc: int)
    requires IsInput(x, l, batch) && ScalesOk(scale, zp)
  {
    t < batch * l.Columns() && Logits(x, l, batch)[t] == acc
    && IsRequantized(acc, scale, zp, Hidden(x, l, batch, scale, zp)[t])
  }

  lemma OutputsCell(x: seq<int>, l: Layer, batch: nat, scale: word, zp: word, t: nat)
    requires IsInput(x, l, batch) && ScalesOk(scale, zp) && t < batch * l.Columns()
    ensures Outputs(x, l, batch, scale, zp, t, Accumulator(x, l, batch, t))
  {
    hide Pow2, Layer.Columns, ScalesOk, IsRequantized, Accumulator, Quantized, IsInput;
    var acc := Quantized(Accumulator(x, l, batch, t), scale, zp);
  }

  /** acc is the dot product of row b of the input with column n of the weights. */
  ghost predicate IsDot(x: seq<int>, l: Layer, b: nat, n: nat, acc: int) {
    && (b + 1) * l.k <= |x| && |l.w| == l.k && (forall r | 0 <= r < |l.w| :: n < |l.w[r]|)
    && acc == Dot(Row(x, b, l.k), l.w, n, l.k)
  }

  /** Output (b, n) of a layer, in plain terms: that dot product, or its requantized byte. */
  lemma LayerMeaning(x: seq<int>, l: Layer, batch: nat, scale: word, zp: word, b: nat, n: nat) returns (acc: int)
    requires IsInput(x, l, batch) && ScalesOk(scale, zp) && b < batch && n < l.Columns()
    ensures IsDot(x, l, b, n, acc) && Outputs(x, l, batch, scale, zp, b * l.Columns() + n, acc)
  {
    hide Pow2, Layer.Columns, ScalesOk, Accumulator, IsInput, Outputs, IsDot;
    var np := l.Columns();
    InsideMatrix(b, n, batch, np);
    RowMajor(b, n, np);
    var t: nat := b * np + n;
    acc := Accumulator(x, l, batch, t);
    AccumulatorAt(x, l, batch, b, n, t);
    OutputsCell(x, l, batch, scale, zp, t);
  }

  lemma AccumulatorAt(x: seq<int>, l: Layer, batch: nat, b: nat, n: nat, t: nat)
    requires IsInput(x, l, batch) && b < batch && n < l.Columns() && t < batch * l.Columns()
    requires t / l.Columns() == b && t % l.Columns() == n
    ensures IsDot(x, l, b, n, Accumulator(x, l, batch, t))
  {
    hide Pow2, Layer.Columns, Dot;
    CellInRange(x, l, batch, t);
    RowInt8(x, l, batch, b);
    DotStart(Row(x, b, l.k), l, n);
  }

  /** Consecutive layers fit: the next layer reads the columns of this one. */
  ghost predicate Chained(layers: seq<Layer>, k: nat) {
    layers != [] ==> layers[0].Valid() && layers[0].k == k && Chained(layers[1..], layers[0].Columns())
  }

  /** The golden model: ReLU-requantized hidden layers, INT32 logits. */
  ghost function Golden(x: seq<int>, layers: seq<Layer>, k: nat, batch: nat, scale: word, zp: word): seq<int>
    requires layers != [] && Chained(layers, k) && |x| == batch * k && Int8s(x) && ScalesOk(scale, zp)
    decreases |layers|
  {
    hide Pow2, IsMatrix, Hidden, Logits;
    if |layers| == 1 then Logits(x, layers[0], batch)
    else Golden(Hidden(x, layers[0], batch, scale, zp), layers[1..], layers[0].Columns(), batch, scale, zp)
  }

  // ----- the kernel -----

  /** Position of byte (row b, 4 * kk + i) in a packed row-major activation buffer. */
  lemma PackedPosition(b: nat, kk: nat, i: nat, k: nat, batch: nat)
    requires k % 4 == 0 && kk < k / 4 && i < 4 && b < batch
    ensures 4 * (b * (k / 4) + kk) + i == b * k + (4 * kk + i) < batch * k
    ensures (b + 1) * k <= batch * k
  {
    assert b * k == 4 * (b * (k / 4)) by {
      assert k == 4 * (k / 4);
    }
    MulLe(b + 1, batch, k, k);
    assert (b + 1) * k == b * k + k;
  }

  /** Multiplying one more pair of values extends the dot product, in 32 bits as in the integers. */
  lemma MacStep(row: seq<int>, l: Layer, c: nat, m: nat, a: int, b: int)
    requires l.Valid() && |row| == l.k && Int8s(row) && c < l.Columns() && m < l.k && a == row[m] && b == l.w[m][c]
    ensures ToInt32(Dot(row, l.w, c, m) + a * b) == Dot(row, l.w, c, m + 1)
  {
    hide Pow2, Wrap, Signed, Layer.Columns;
    DotBound(row, l.w, c, m + 1, l.Columns());
    ToInt32Exact(Dot(row, l.w, c, m + 1));
  }

  /** Lane i of word kk of a packed row is the row's value 4 * kk + i. */
  lemma ActivationLane(x: seq<int>, l: Layer, batch: nat, b: nat, kk: nat, i: nat)
    requires IsInput(x, l, batch) && |x| % 4 == 0 && b < batch && kk < l.k / 4 && i < 4
    ensures (b + 1) * l.k <= |x| && |Row(x, b, l.k)| == l.k
    ensures b * (l.k / 4) + kk < |Pack8(x)|
    ensures Lane(Pack8(x)[b * (l.k / 4) + kk], i) == Row(x, b, l.k)[4 * kk + i]
  {
    hide Pow2, Lane, Pack8, Layer.Columns, Row, IsMatrix;
    PackedPosition(b, kk, i, l.k, batch);
    RowAt(x, l, batch, b, 4 * kk + i);
    LaneOfPack8(x, b * (l.k / 4) + kk, i);
    RowInt8(x, l, batch, b);
  }

  /** Thread t's accumulator: x at (t >> l2) * Kp, w walking down column t & (np - 1), four lanes a word. */
  method PackedDot(xw: seq<word>, ww: seq<word>, l: Layer, t: nat, ghost x: seq<int>, batch: nat) returns (acc: int)
    requires IsInput(x, l, batch) && t < batch * l.Columns() && |x| % 4 == 0
    requires xw == Pack8(x) && IsPacked(l.w, l.k, l.Columns(), ww)
    ensures acc == Accumulator(x, l, batch, t)
  {
    hide Lane, Pack8, ToInt32, Pow2, IsPacked, Layer.Columns, Dot, IsMatrix, Row;
    CellInRange(x, l, batch, t);
    var np, kp := l.Columns(), l.k / 4;
    var b, c := t / np, t % np;
    ghost var row := Row(x, b, l.k);
    RowInt8(x, l, batch, b);
    acc := 0;
    DotStart(row, l, c);
    for kk := 0 to kp
      invariant acc == Dot(row, l.w, c, 4 * kk)
    {
      for i := 0 to 4
        invariant acc == Dot(row, l.w, c, 4 * kk + i)
      {
        ActivationLane(x, l, batch, b, kk, i);
        LaneOfWeights(l, ww, kk, c, i);
        var p, q := Lane(xw[b * kp + kk], i), Lane(ww[kk * np + c], i);
        MacStep(row, l, c, 4 * kk + i, p, q);
        acc := ToInt32(acc + p * q);
      }
    }
    assert 4 * kp == l.k;
  }

  lemma LaneOfWeights(l: Layer, ww: seq<word>, kk: nat, c: nat, i: nat)
    requires l.Valid() && IsPacked(l.w, l.k, l.Columns(), ww) && kk < l.k / 4 && c < l.Columns() && i < 4
    ensures kk * l.Columns() + c < |ww| && Lane(ww[kk * l.Columns() + c], i) == l.w[4 * kk + i][c]
  {
    assert PackedAt(l.w, l.k, l.Columns(), ww, kk, c, i);
  }

  /** One launch of the layer kernel, its threads in any order. Mode 0 stores INT32 words, mode 1 bytes. */
  method LayerLaunch(xw: seq<word>, ww: seq<word>, l: Layer, batch: nat, scale: word, zp: word, mode: nat,
                     out: array<int>, ghost x: seq<int>)
    requires IsInput(x, l, batch) && |x| % 4 == 0 && ScalesOk(scale, zp)
    requires xw == Pack8(x) && IsPacked(l.w, l.k, l.Columns(), ww) && out.Length == batch * l.Columns()
    modifies out
    ensures out[..] == if mode == 0 then Logits(x, l, batch) else Hidden(x, l, batch, scale, zp)
  {
    hide Accumulator, Pack8, IsPacked, ScalesOk, GoldenRequant, KernelRequant, HostRequant, IsInput;
    var todo: set<nat> := F.Below(out.Length);
    while todo != {}
      invariant todo <= F.Below(out.Length)
      invariant forall t: nat | t < out.Length && t !in todo :: CellDone(x, l, batch, scale, zp, mode, t, out[t])
      decreases |todo|
    {
      var t: nat :| t in todo;
      var acc := PackedDot(xw, ww, l, t, x, batch);
      if mode == 0 {
        out[t] := acc;
      } else {
        Agreed(acc, scale, zp);
        out[t] := KernelRequant(acc, scale, zp).value;
      }
      todo := todo - {t};
    }
    assert forall t: nat | t < out.Length :: CellDone(x, l, batch, scale, zp, mode, t, out[t]);
  }

  ghost predicate CellDone(x: seq<int>, l: Layer, batch: nat, scale: word, zp: word, mode: nat, t: nat, v: int)
    requires IsInput(x, l, batch) && ScalesOk(scale, zp)
  {
    t < batch * l.Columns() && v == if mode == 0 then Accumulator(x, l, batch, t)
                                    else Quantized(Accumulator(x, l, batch, t), scale, zp)
  }

  /** Hidden activations are bytes in rows of np, a multiple of 4: the words of the output buffer are already the
      next layer's packed input. */
  lemma HiddenIsInput(x: seq<int>, l: Layer, next: Layer, batch: nat, scale: word, zp: word)
    requires IsInput(x, l, batch) && ScalesOk(scale, zp) && next.Valid() && next.k == l.Columns()
    ensures IsInput(Hidden(x, l, batch, scale, zp), next, batch)
    ensures |Hidden(x, l, batch, scale, zp)| % 4 == 0
  {
    hide Pow2, IsMatrix, ScalesOk;
    TimesFour(batch, next.k);
  }

  lemma TimesFour(b: nat, k: nat)
    requires k % 4 == 0
    ensures b * k % 4 == 0
  {
    assert b * k == b * (k / 4) * 4;
  }

  /** What the golden network still has to compute after its first hidden layer. */
  lemma GoldenStep(x: seq<int>, layers: seq<Layer>, k: nat, batch: nat, scale: word, zp: word)
    requires |layers| > 1 && Chained(layers, k) && |x| == batch * k && Int8s(x) && ScalesOk(scale, zp)
    ensures IsInput(x, layers[0], batch) && layers[0].Columns() % 4 == 0
    ensures var y := Hidden(x, layers[0], batch, scale, zp);
            && Chained(layers[1..], layers[0].Columns()) && |y| == batch * layers[0].Columns() && |y| % 4 == 0
            && Golden(y, layers[1..], layers[0].Columns(), batch, scale, zp) == Golden(x, layers, k, batch, scale, zp)
  {
    hide Pow2, ScalesOk, Hidden, Logits, Int8s, IsMatrix;
    assert Chained(layers[1..], layers[0].Columns());
    HiddenIsInput(x, layers[0], layers[1], batch, scale, zp);
  }

  /** All launches of a network, each reading the words its predecessor left, leave the golden logits. */
  method RunNetwork(xw: seq<word>, ww: seq<seq<word>>, layers: seq<Layer>, k: nat, batch: nat, scale: word, zp: word,
                    ghost x: seq<int>)
    returns (logits: array<int>)
    requires layers != [] && Chained(layers, k) && |x| == batch * k && Int8s(x) && ScalesOk(scale, zp)
    requires |x| % 4 == 0 && xw == Pack8(x) && |ww| == |layers|
    requires forall i | 0 <= i < |layers| :: WeightsReady(layers[i], ww[i])
    ensures logits[..] == Golden(x, layers, k, batch, scale, zp)
  {
    hide Pack8, IsPacked, ScalesOk, Hidden, Logits, Pow2, Int8s, IsMatrix, Layer.Columns, Golden;
    var words, width := xw, k;
    ghost var y := x;
    var i := 0;
    while i + 1 < |layers|
      invariant i < |layers| && Chained(layers[i..], width)
      invariant |y| == batch * width && |y| % 4 == 0 && Int8s(y) && words == Pack8(y)
      invariant Golden(y, layers[i..], width, batch, scale, zp) == Golden(x, layers, k, batch, scale, zp)
    {
      var l := layers[i];
      assert layers[i..][0] == l && layers[i..][1..] == layers[i + 1..] && WeightsReady(layers[i], ww[i]);
      GoldenStep(y, layers[i..], width, batch, scale, zp);
      var out := new int[batch * l.Columns()];
      LayerLaunch(words, ww[i], l, batch, scale, zp, 1, out, y);
      words, width, y := Pack8(out[..]), l.Columns(), Hidden(y, l, batch, scale, zp);
      i := i + 1;
    }
    var l := layers[i];
    assert layers[i..][0] == l && WeightsReady(layers[i], ww[i]);
    logits := new int[batch * l.Columns()];
    GoldenLast(y, layers[i..], width, batch, scale, zp);
    LayerLaunch(words, ww[i], l, batch, scale, zp, 0, logits, y);
  }

  ghost predicate WeightsReady(l: Layer, ww: seq<word>) {
    l.Valid() && IsPacked(l.w, l.k, l.Columns(), ww)
  }

  lemma GoldenLast(x: seq<int>, layers: seq<Layer>, k: nat, batch: nat, scale: word, zp: word)
    requires |layers| == 1 && Chained(layers, k) && |x| == batch * k && Int8s(x) && ScalesOk(scale, zp)
    ensures IsInput(x, layers[0], batch)
    ensures Golden(x, layers, k, batch, scale, zp) == Logits(x, layers[0], batch)
  {
    hide Pow2, ScalesOk, Logits, IsMatrix;
  }

  // ----- the host reference -----

  /** One layer on the host: bytes, nested loops, rne_u8. */
  method HostLayer(src: seq<int>, w: seq<int>, l: Layer, batch: nat, scale: word, zp: word, last: bool,
                   out: array<int>)
    requires IsInput(src, l, batch) && ScalesOk(scale, zp) && out.Length == batch * l.Columns()
    requires |w| % 4 == 0 && Pack8(w) == GoldenWeights(l.w, l.k, l.Columns()) && Int8s(w)
    modifies out
    ensures out[..] == if last then Logits(src, l, batch) else Hidden(src, l, batch, scale, zp)
  {
    hide Accumulator, Pack8, ScalesOk, GoldenRequant, KernelRequant, HostRequant, GoldenWeights, Pow2;
    hide IsMatrix, Int8s, Layer.Columns, Layer.Valid, IsInput, Quantized;
    var np := l.Columns();
    ghost var mode := if last then 0 else 1;
    for b := 0 to batch
      invariant forall t: nat | t < b * np :: t < out.Length && CellDone(src, l, batch, scale, zp, mode, t, out[t])
    {
      for n := 0 to np
        invariant forall t: nat | t < b * np + n :: t < out.Length && CellDone(src, l, batch, scale, zp, mode, t, out[t])
      {
        InsideMatrix(b, n, batch, np);
        ghost var t := b * np + n;
        var acc := HostDot(src, w, l, batch, b, n);
        if last {
          out[b * np + n] := acc;
        } else {
          Agreed(acc, scale, zp);
          out[b * np + n] := HostRequant(acc, scale, zp).value;
        }
        assert CellDone(src, l, batch, scale, zp, mode, t, out[t]);
      }
      assert b * np + np == (b + 1) * np;
    }
  }

  ghost predicate BytesReady(l: Layer, w: seq<int>) {
    l.Valid() && |w| % 4 == 0 && Pack8(w) == GoldenWeights(l.w, l.k, l.Columns()) && Int8s(w)
  }

  /** The host's network: each hidden layer's bytes become the next source. */
  method HostNetwork(x0: seq<int>, w: seq<seq<int>>, layers: seq<Layer>, k: nat, batch: nat, scale: word, zp: word)
    returns (logits: array<int>)
    requires layers != [] && Chained(layers, k) && |x0| == batch * k && Int8s(x0) && ScalesOk(scale, zp)
    requires |w| == |layers| && forall i | 0 <= i < |layers| :: BytesReady(layers[i], w[i])
    ensures logits[..] == Golden(x0, layers, k, batch, scale, zp)
  {
    hide Pack8, ScalesOk, Hidden, Logits, Pow2, Int8s, IsMatrix, Layer.Columns, Golden, GoldenWeights;
    var src, width := x0, k;
    var i := 0;
    while i + 1 < |layers|
      invariant i < |layers| && Chained(layers[i..], width)
      invariant |src| == batch * width && Int8s(src)
      invariant Golden(src, layers[i..], width, batch, scale, zp) == Golden(x0, layers, k, batch, scale, zp)
    {
      var l := layers[i];
      assert layers[i..][0] == l && layers[i..][1..] == layers[i + 1..] && BytesReady(layers[i], w[i]);
      GoldenStep(src, layers[i..], width, batch, scale, zp);
      var nxt := new int[batch * l.Columns()];
      HostLayer(src, w[i], l, batch, scale, zp, false, nxt);
      src, width := nxt[..], l.Columns();
      i := i + 1;
    }
    var l := layers[i];
    assert layers[i..][0] == l && BytesReady(layers[i], w[i]);
    logits := new int[batch * l.Columns()];
    GoldenLast(src, layers[i..], width, batch, scale, zp);
    HostLayer(src, w[i], l, batch, scale, zp, true, logits);
  }

  /** The host's inner loop: src[b * k + kk] * w[((kk / 4) * npad + n) * 4 + kk % 4]. */
  method HostDot(src: seq<int>, w: seq<int>, l: Layer, batch: nat, b: nat, n: nat) returns (acc: int)
    requires IsInput(src, l, batch) && b < batch && n < l.Columns() && b * l.Columns() + n < batch * l.Columns()
    requires |w| % 4 == 0 && Pack8(w) == GoldenWeights(l.w, l.k, l.Columns()) && Int8s(w)
    ensures acc == Accumulator(src, l, batch, b * l.Columns() + n)
  {
    hide Lane, Pack8, ToInt32, Pow2, GoldenWeights, Layer.Columns, Layer.Valid, Dot, IsMatrix, Row, Int8s;
    var np := l.Columns();
    CellInRange(src, l, batch, b * np + n);
    RowMajor(b, n, np);
    ghost var row := Row(src, b, l.k);
    RowInt8(src, l, batch, b);
    acc := 0;
    DotStart(row, l, n);
    for kk := 0 to l.k
      invariant acc == Dot(row, l.w, n, kk)
    {
      HostByte(l, w, n, kk);
      RowAt(src, l, batch, b, kk);
      var p, q := src[b * l.k + kk], w[(kk / 4 * np + n) * 4 + kk % 4];
      MacStep(row, l, n, kk, p, q);
      acc := ToInt32(acc + p * q);
    }
  }

  /** The weight byte the host reads is w[kk][n]. */
  lemma HostByte(l: Layer, w: seq<int>, n: nat, kk: nat)
    requires l.Valid() && kk < l.k && n < l.Columns() && |w| % 4 == 0 && Int8s(w)
    requires Pack8(w) == GoldenWeights(l.w, l.k, l.Columns())
    ensures (kk / 4 * l.Columns() + n) * 4 + kk % 4 < |w|
    ensures w[(kk / 4 * l.Columns() + n) * 4 + kk % 4] == l.w[kk][n]
  {
    hide Lane, PackWord, Layer.Columns, Pow2, GoldenWeights;
    var np := l.Columns();
    GoldenIsPacked(l.w, l.k, np);
    assert PackedAt(l.w, l.k, np, GoldenWeights(l.w, l.k, np), kk / 4, n, kk % 4);
    var j := kk / 4 * np + n;
    Byte4(w, j, kk % 4);
  }

  lemma Byte4(w: seq<int>, j: nat, i: nat)
    requires |w| % 4 == 0 && Int8s(w) && i < 4 && j < |Pack8(w)|
    ensures j * 4 + i < |w| && Lane(Pack8(w)[j], i) == w[j * 4 + i]
  {
    hide Lane, PackWord;
    assert j * 4 + i < |w|;
    LaneOfPack8(w, j, i);
  }
}
