/** INT8 values packed four to a little-endian word, and the transposed packed layout of a weight matrix, as the
    three sources build it. */
module Packing {
  import opened Words
  import opened Powers
  import opened Rounding

  // ----- one word -----

  /** v & 0xFF, also numpy's astype(uint8). */
  function Byte(v: int): nat {
    v % 0x100
  }

  /** Reading a byte as int8_t. */
  function Int8(b: nat): int {
    if b < 0x80 then b else b - 0x100
  }

  predicate IsInt8(v: int) {
    -0x80 <= v < 0x80
  }

  function Weight(i: nat): nat
    requires i < 4
  {
    if i == 0 then 1 else if i == 1 then 0x100 else if i == 2 then 0x1_0000 else 0x100_0000
  }

  /** (int8_t)(w >> 8 * i) */
  function Lane(w: word, i: nat): int
    requires i < 4
  {
    Int8(w / Weight(i) % 0x100)
  }

  /** One step of pack8: the sum of four shifted bytes. */
  function PackWord(v: seq<int>): (w: word)
    requires |v| == 4
  {
    Byte(v[0]) + 0x100 * Byte(v[1]) + 0x1_0000 * Byte(v[2]) + 0x100_0000 * Byte(v[3])
  }

  /** Packing loses nothing: every lane of the word is the value put there. */
  lemma LaneOfPack(v: seq<int>, i: nat)
    requires |v| == 4 && i < 4 && IsInt8(v[i])
    ensures Lane(PackWord(v), i) == v[i]
  {
    hide Byte;
    ByteRange(v[0]);
    ByteRange(v[1]);
    ByteRange(v[2]);
    ByteRange(v[3]);
    Digit(Byte(v[0]), Byte(v[1]), Byte(v[2]), Byte(v[3]));
    Int8Byte(v[i]);
  }

  lemma ByteRange(v: int)
    ensures Byte(v) < 0x100
  {
  }

  lemma Int8Byte(v: int)
    requires IsInt8(v)
    ensures Int8(Byte(v)) == v
  {
  }

  lemma Digit(b0: nat, b1: nat, b2: nat, b3: nat)
    requires b0 < 0x100 && b1 < 0x100 && b2 < 0x100 && b3 < 0x100
    ensures var w := b0 + 0x100 * b1 + 0x1_0000 * b2 + 0x100_0000 * b3;
            && w / 1 % 0x100 == b0 && w / 0x100 % 0x100 == b1
            && w / 0x1_0000 % 0x100 == b2 && w / 0x100_0000 % 0x100 == b3
  {
    var w := b0 + 0x100 * b1 + 0x1_0000 * b2 + 0x100_0000 * b3;
    assert w / 0x100 == b1 + 0x100 * b2 + 0x1_0000 * b3;
    assert w / 0x1_0000 == b2 + 0x100 * b3;
    assert w / 0x100_0000 == b3;
  }

  /** And every word is the packing of its lanes. */
  lemma PackOfLanes(w: word)
    ensures PackWord([Lane(w, 0), Lane(w, 1), Lane(w, 2), Lane(w, 3)]) == w
  {
    hide Byte, Int8;
    ByteInt8(w % 0x100);
    ByteInt8(w / 0x100 % 0x100);
    ByteInt8(w / 0x1_0000 % 0x100);
    ByteInt8(w / 0x100_0000 % 0x100);
    Digits(w);
  }

  lemma ByteInt8(b: nat)
    requires b < 0x100
    ensures Byte(Int8(b)) == b
  {
  }

  lemma Digits(w: word)
    ensures w == w % 0x100 + 0x100 * (w / 0x100 % 0x100) + 0x1_0000 * (w / 0x1_0000 % 0x100)
                 + 0x100_0000 * (w / 0x100_0000 % 0x100)
  {
    var a := w / 0x100;
    var b := a / 0x100;
    assert b == w / 0x1_0000 && b / 0x100 == w / 0x100_0000;
  }

  /** numpy packs with shifts and bitwise OR. */
  function OrWord(v: seq<int>): nat
    requires |v| == 4
  {
    BitOr(BitOr(BitOr(Byte(v[0]), Byte(v[1]) * Pow2(8), 32), Byte(v[2]) * Pow2(16), 32), Byte(v[3]) * Pow2(24), 32)
  }

  /** ORing onto clear bits is adding. */
  lemma {:induction false} OrClearBits(a: nat, b: nat, k: nat, bits: nat)
    requires k <= bits && a < Pow2(k) && b < Pow2(bits - k)
    ensures BitOr(a, b * Pow2(k), bits) == a + b * Pow2(k)
  {
    if bits == 0 {
    } else if k == 0 {
      BitOrComm(a, b, bits);
      BitOrZero(b, bits);
      assert b * Pow2(0) == b;
    } else {
      var p := Pow2(k - 1);
      assert b * Pow2(k) == 2 * (b * p);
      OrClearBits(a / 2, b, k - 1, bits - 1);
    }
  }

  lemma {:induction false} BitOrComm(a: nat, b: nat, bits: nat)
    ensures BitOr(a, b, bits) == BitOr(b, a, bits)
  {
    if bits > 0 {
      BitOrComm(a / 2, b / 2, bits - 1);
    }
  }

  lemma OrIsSum(v: seq<int>)
    requires |v| == 4
    ensures OrWord(v) == PackWord(v)
  {
    hide Pow2;
    Pow2Word();
    Pow2Add(16, 8);
    assert Pow2(24) == 0x100_0000;
    OrClearBits(Byte(v[0]), Byte(v[1]), 8, 32);
    OrClearBits(Byte(v[0]) + Byte(v[1]) * 0x100, Byte(v[2]), 16, 32);
    OrClearBits(Byte(v[0]) + Byte(v[1]) * 0x100 + Byte(v[2]) * 0x1_0000, Byte(v[3]), 24, 32);
  }

  // ----- a run of values -----

  /** pack8: four values to a word, in order. It is also the word view of a byte array. */
  function Pack8(v: seq<int>): (w: seq<word>)
    requires |v| % 4 == 0
  {
    seq(|v| / 4, j requires 0 <= j < |v| / 4 => PackWord(v[4 * j..4 * j + 4]))
  }

  lemma LaneOfPack8(v: seq<int>, j: nat, i: nat)
    requires |v| % 4 == 0 && 4 * j + i < |v| && i < 4 && IsInt8(v[4 * j + i])
    ensures j < |Pack8(v)| && Lane(Pack8(v)[j], i) == v[4 * j + i]
  {
    LaneOfPack(v[4 * j..4 * j + 4], i);
  }

  // ----- matrices -----

  /** k rows of n columns of INT8. */
  ghost predicate IsMatrix(w: seq<seq<int>>, k: nat, n: nat) {
    |w| == k && forall r | 0 <= r < k :: |w[r]| == n && forall c | 0 <= c < n :: IsInt8(w[r][c])
  }

  lemma RowMajor(r: nat, c: nat, n: nat)
    requires c < n
    ensures (r * n + c) / n == r && (r * n + c) % n == c
  {
    DivMod(r, c, n);
  }

  lemma InsideMatrix(r: nat, c: nat, k: nat, n: nat)
    requires r < k && c < n
    ensures r * n + c < k * n
  {
    assert (r + 1) * n <= k * n;
  }

  lemma RowOf(p: nat, k: nat, n: nat)
    requires p < k * n && n > 0
    ensures p / n < k && p % n < n && p == p / n * n + p % n
  {
  }

  /** The four weights that share a word. */
  function Column(w: seq<seq<int>>, kk: nat, n: nat): seq<int>
    requires 4 * kk + 4 <= |w| && forall r | 0 <= r < |w| :: n < |w[r]|
  {
    [w[4 * kk][n], w[4 * kk + 1][n], w[4 * kk + 2][n], w[4 * kk + 3][n]]
  }

  /** The layout the kernel expects: byte i of word kk * n + c is w[4 * kk + i][c]. */
  ghost predicate IsPacked(w: seq<seq<int>>, k: nat, n: nat, words: seq<word>)
    requires IsMatrix(w, k, n) && k % 4 == 0
  {
    && |words| == k / 4 * n
    && forall kk: nat, c: nat, i: nat | kk < k / 4 && c < n && i < 4 ::
         PackedAt(w, k, n, words, kk, c, i)
  }

  ghost predicate PackedAt(w: seq<seq<int>>, k: nat, n: nat, words: seq<word>, kk: nat, c: nat, i: nat)
    requires IsMatrix(w, k, n) && k % 4 == 0 && kk < k / 4 && c < n && i < 4
  {
    && kk * n + c < |words|
    && Lane(words[kk * n + c], i) == w[4 * kk + i][c]
  }

  /** The golden model's comprehension: for kk, for col. */
  function GoldenWeights(w: seq<seq<int>>, k: nat, n: nat): seq<word>
    requires IsMatrix(w, k, n) && k % 4 == 0
  {
    seq(k / 4 * n, p requires 0 <= p < k / 4 * n => RowOf(p, k / 4, n); PackWord(Column(w, p / n, p % n)))
  }

  lemma GoldenIsPacked(w: seq<seq<int>>, k: nat, n: nat)
    requires IsMatrix(w, k, n) && k % 4 == 0
    ensures IsPacked(w, k, n, GoldenWeights(w, k, n))
  {
    var words := GoldenWeights(w, k, n);
    forall kk: nat, c: nat, i: nat | kk < k / 4 && c < n && i < 4
      ensures PackedAt(w, k, n, words, kk, c, i)
    {
      InsideMatrix(kk, c, k / 4, n);
      RowMajor(kk, c, n);
      LaneOfPack(Column(w, kk, c), i);
    }
  }

  /** The layout determines the words. */
  lemma PackedUnique(w: seq<seq<int>>, k: nat, n: nat, a: seq<word>, b: seq<word>)
    requires IsMatrix(w, k, n) && k % 4 == 0 && IsPacked(w, k, n, a) && IsPacked(w, k, n, b)
    ensures a == b
  {
    forall p | 0 <= p < |a|
      ensures a[p] == b[p]
    {
      RowOf(p, k / 4, n);
      var kk, c := p / n, p % n;
      assert PackedAt(w, k, n, a, kk, c, 0) && PackedAt(w, k, n, a, kk, c, 1);
      assert PackedAt(w, k, n, a, kk, c, 2) && PackedAt(w, k, n, a, kk, c, 3);
      assert PackedAt(w, k, n, b, kk, c, 0) && PackedAt(w, k, n, b, kk, c, 1);
      assert PackedAt(w, k, n, b, kk, c, 2) && PackedAt(w, k, n, b, kk, c, 3);
      PackOfLanes(a[p]);
      PackOfLanes(b[p]);
    }
  }

  // ----- numpy: transpose, reshape, OR, transpose, flatten -----

  /** Element (n, r) of w.T, flattened in row-major order and reshaped to [n][k / 4][4]. */
  function Reshaped(w: seq<seq<int>>, k: nat, n: nat, c: nat, kk: nat, i: nat): int
    requires IsMatrix(w, k, n) && k % 4 == 0 && c < n && kk < k / 4 && i < 4
  {
    var p := (c * (k / 4) + kk) * 4 + i;
    ReshapeIndex(k, c, kk, i);
    w[p % k][p / k]
  }

  lemma ReshapeIndex(k: nat, c: nat, kk: nat, i: nat)
    requires k % 4 == 0 && kk < k / 4 && i < 4
    ensures var p := (c * (k / 4) + kk) * 4 + i; p % k == 4 * kk + i && p / k == c
  {
    assert c * (k / 4) * 4 == c * k;
    RowMajor(c, 4 * kk + i, k);
  }

  function NumpyWeights(w: seq<seq<int>>, k: nat, n: nat): seq<nat>
    requires IsMatrix(w, k, n) && k % 4 == 0
  {
    seq(k / 4 * n, p requires 0 <= p < k / 4 * n =>
      RowOf(p, k / 4, n);
      OrWord([Reshaped(w, k, n, p % n, p / n, 0), Reshaped(w, k, n, p % n, p / n, 1),
              Reshaped(w, k, n, p % n, p / n, 2), Reshaped(w, k, n, p % n, p / n, 3)]))
  }

  /** Two transposes and a reshape give the golden order. */
  lemma NumpyAgrees(w: seq<seq<int>>, k: nat, n: nat)
    requires IsMatrix(w, k, n) && k % 4 == 0
    ensures NumpyWeights(w, k, n) == GoldenWeights(w, k, n)
  {
    hide OrWord, PackWord, IsMatrix, Reshaped, Column;
    forall p | 0 <= p < k / 4 * n
      ensures NumpyWeights(w, k, n)[p] == GoldenWeights(w, k, n)[p]
    {
      RowOf(p, k / 4, n);
      ReshapedColumn(w, k, n, p % n, p / n);
      OrIsSum([Reshaped(w, k, n, p % n, p / n, 0), Reshaped(w, k, n, p % n, p / n, 1),
               Reshaped(w, k, n, p % n, p / n, 2), Reshaped(w, k, n, p % n, p / n, 3)]);
    }
  }

  lemma ReshapedColumn(w: seq<seq<int>>, k: nat, n: nat, c: nat, kk: nat)
    requires IsMatrix(w, k, n) && k % 4 == 0 && c < n && kk < k / 4
    ensures [Reshaped(w, k, n, c, kk, 0), Reshaped(w, k, n, c, kk, 1),
             Reshaped(w, k, n, c, kk, 2), Reshaped(w, k, n, c, kk, 3)] == Column(w, kk, c)
  {
    forall i: nat | i < 4
      ensures Reshaped(w, k, n, c, kk, i) == w[4 * kk + i][c]
    {
      ReshapeIndex(k, c, kk, i);
    }
  }

  // ----- host: byte stores -----

  /** Byte (kk * n + c) * 4 + i is written last by its own iteration. */
  ghost predicate ByteAt(w: seq<seq<int>>, n: nat, bytes: seq<int>, p: nat)
    requires n > 0 && |w| % 4 == 0 && forall r | 0 <= r < |w| :: |w[r]| == n
  {
    p < |bytes| && p < |w| / 4 * n * 4 &&
    (RowOf(p / 4, |w| / 4, n); bytes[p] == w[p / 4 / n * 4 + p % 4][p / 4 % n])
  }

  ghost predicate BytesUpTo(w: seq<seq<int>>, n: nat, bytes: seq<int>, m: nat)
    requires n > 0 && |w| % 4 == 0 && forall r | 0 <= r < |w| :: |w[r]| == n
  {
    forall p: nat | p < m :: ByteAt(w, n, bytes, p)
  }

  /** The triple loop of the board host over an int8_t array. */
  method FillWeights(w: seq<seq<int>>, k: nat, n: nat, bytes: array<int>)
    requires IsMatrix(w, k, n) && k % 4 == 0 && n > 0 && bytes.Length == k * n
    modifies bytes
    ensures bytes.Length % 4 == 0 && Pack8(bytes[..]) == GoldenWeights(w, k, n)
  {
    hide ByteAt, BytesUpTo, Pack8, GoldenWeights;
    BytesNone(w, n, bytes[..]);
    QuarterTotal(k, n);
    for kk := 0 to k / 4
      invariant BytesUpTo(w, n, bytes[..], kk * n * 4)
    {
      for c := 0 to n
        invariant BytesUpTo(w, n, bytes[..], (kk * n + c) * 4)
      {
        InsideMatrix(kk, c, k / 4, n);
        for i := 0 to 4
          invariant BytesUpTo(w, n, bytes[..], (kk * n + c) * 4 + i)
        {
          ghost var was := bytes[..];
          bytes[(kk * n + c) * 4 + i] := w[4 * kk + i][c];
          ByteStored(w, n, was, kk, c, i);
          assert bytes[..] == was[(kk * n + c) * 4 + i := w[4 * kk + i][c]];
        }
      }
      assert (kk * n + n) * 4 == (kk + 1) * n * 4;
    }
    BytesAreWords(w, k, n, bytes[..]);
  }

  lemma BytesNone(w: seq<seq<int>>, n: nat, bytes: seq<int>)
    requires n > 0 && |w| % 4 == 0 && forall r | 0 <= r < |w| :: |w[r]| == n
    ensures BytesUpTo(w, n, bytes, 0)
  {
  }

  lemma QuarterTotal(k: nat, n: nat)
    requires k % 4 == 0
    ensures k / 4 * n * 4 == k * n
  {
  }

  lemma ByteStored(w: seq<seq<int>>, n: nat, bytes: seq<int>, kk: nat, c: nat, i: nat)
    requires n > 0 && |w| % 4 == 0 && forall r | 0 <= r < |w| :: |w[r]| == n
    requires |bytes| == |w| / 4 * n * 4 && kk < |w| / 4 && c < n && i < 4
    requires BytesUpTo(w, n, bytes, (kk * n + c) * 4 + i)
    ensures (kk * n + c) * 4 + i < |bytes|
    ensures var b := bytes[(kk * n + c) * 4 + i := w[4 * kk + i][c]];
            BytesUpTo(w, n, b, (kk * n + c) * 4 + i + 1)
  {
    InsideMatrix(kk, c, |w| / 4, n);
    RowMajor(kk, c, n);
    var q := (kk * n + c) * 4 + i;
    var b := bytes[q := w[4 * kk + i][c]];
    forall p: nat | p < q + 1
      ensures ByteAt(w, n, b, p)
    {
      if p < q {
        assert ByteAt(w, n, bytes, p);
      } else {
        assert p / 4 == kk * n + c && p % 4 == i;
      }
    }
  }

  lemma BytesAreWords(w: seq<seq<int>>, k: nat, n: nat, bytes: seq<int>)
    requires IsMatrix(w, k, n) && k % 4 == 0 && n > 0 && |bytes| == k / 4 * n * 4
    requires BytesUpTo(w, n, bytes, k / 4 * n * 4)
    ensures |bytes| % 4 == 0 && Pack8(bytes) == GoldenWeights(w, k, n)
  {
    hide ByteAt, PackWord, Column, IsMatrix;
    assert |bytes| / 4 == k / 4 * n;
    forall j | 0 <= j < k / 4 * n
      ensures Pack8(bytes)[j] == GoldenWeights(w, k, n)[j]
    {
      RowOf(j, k / 4, n);
      WordOfBytes(w, k, n, bytes, j);
    }
  }

  lemma WordOfBytes(w: seq<seq<int>>, k: nat, n: nat, bytes: seq<int>, j: nat)
    requires IsMatrix(w, k, n) && k % 4 == 0 && n > 0 && |bytes| == k / 4 * n * 4 && j < k / 4 * n
    requires BytesUpTo(w, n, bytes, k / 4 * n * 4)
    requires j / n < k / 4 && j % n < n
    ensures 4 * j + 4 <= |bytes| && bytes[4 * j..4 * j + 4] == Column(w, j / n, j % n)
  {
    assert 4 * j + 4 <= |bytes|;
    var four, column := bytes[4 * j..4 * j + 4], Column(w, j / n, j % n);
    forall i: nat | i < 4
      ensures four[i] == column[i]
    {
      assert ByteAt(w, n, bytes, 4 * j + i);
      assert (4 * j + i) / 4 == j && (4 * j + i) % 4 == i;
    }
  }
}
