/** The 5-point Jacobi stencil, ping-ponged between two padded buffers, over arbitrary float operations. */
module Stencil {
  import opened Words
  import opened Powers
  import opened Packing
  import Rounding
  import F = Finite

  /** The three float operations a point needs; nothing is assumed about them. */
  datatype Floats = Floats(add: (word, word) -> word, mul: (word, word) -> word, fma: (word, word, word) -> word)

  /** Words of padding on each side of a row. */
  const PAD: nat := 8
  /** Sweeps the board host prepares parameter blocks for. */
  const MAX_SWEEPS: nat := 16

  /** h rows of w points; rows of s = w + 16 words, with one row of halo above and below. */
  datatype Shape = Shape(h: nat, w: nat, c0: word, c1: word) {
    function Stride(): nat {
      w + 2 * PAD
    }

    function Size(): nat {
      (h + 2) * Stride()
    }

    /** Word (i + 1) * s + 8 + j, the place of point (i, j). */
    function At(i: nat, j: nat): nat {
      (i + 1) * Stride() + PAD + j
    }

    predicate Interior(q: nat) {
      1 <= q / Stride() <= h && PAD <= q % Stride() < PAD + w
    }
  }

  lemma AtIsInterior(d: Shape, i: nat, j: nat)
    requires i < d.h && j < d.w
    ensures d.Interior(d.At(i, j)) && d.At(i, j) / d.Stride() == i + 1 && d.At(i, j) % d.Stride() == PAD + j
  {
    RowMajor(i + 1, PAD + j, d.Stride());
  }

  /** An interior point's four neighbours lie in the buffer. */
  lemma NeighboursInside(d: Shape, q: nat)
    requires d.Interior(q)
    ensures d.Stride() <= q && q + d.Stride() < d.Size() && 1 <= q
  {
  }

  /** fmadd(c1, (up + down) + (left + right), c0 * centre) */
  function Point(f: Floats, d: Shape, g: seq<word>, q: nat): word
    requires |g| == d.Size() && d.Interior(q)
  {
    NeighboursInside(d, q);
    var s := d.Stride();
    f.fma(d.c1, f.add(f.add(g[q - s], g[q + s]), f.add(g[q - 1], g[q + 1])), f.mul(d.c0, g[q]))
  }

  /** Row i, column j of the new grid, with all five words written out: rows i, i + 1, i + 2 of the padded buffer are
      above, at and below the point. */
  ghost predicate PointStored(f: Floats, d: Shape, g: seq<word>, r: seq<word>, i: nat, j: nat)
    requires i < d.h && j < d.w
  {
    var s := d.w + 16;
    var up, at, down := i * s + 8 + j, (i + 1) * s + 8 + j, (i + 2) * s + 8 + j;
    && down < |g| == |r|
    && r[at] == f.fma(d.c1, f.add(f.add(g[up], g[down]), f.add(g[at - 1], g[at + 1])), f.mul(d.c0, g[at]))
  }

  /** Every point of a sweep. */
  lemma SweepPoint(f: Floats, d: Shape, g: seq<word>, i: nat, j: nat)
    requires |g| == d.Size() && i < d.h && j < d.w
    ensures PointStored(f, d, g, Sweep(f, d, g), i, j)
  {
    hide Shape.Interior, Shape.Size;
    AtIsInterior(d, i, j);
    NeighboursInside(d, d.At(i, j));
    var s := d.Stride();
    assert (i + 1) * s == i * s + s && (i + 2) * s == i * s + 2 * s;
  }

  lemma SweepPoints(f: Floats, d: Shape, g: seq<word>)
    requires |g| == d.Size()
    ensures forall i: nat, j: nat {:trigger PointStored(f, d, g, Sweep(f, d, g), i, j)} | i < d.h && j < d.w ::
              PointStored(f, d, g, Sweep(f, d, g), i, j)
  {
    hide PointStored, Sweep, Shape.Size;
    forall i: nat, j: nat | i < d.h && j < d.w
      ensures PointStored(f, d, g, Sweep(f, d, g), i, j)
    {
      SweepPoint(f, d, g, i, j);
    }
  }

  /** One whole sweep, as a function from grid to grid: the halo is copied. */
  function Sweep(f: Floats, d: Shape, g: seq<word>): (r: seq<word>)
    requires |g| == d.Size()
    ensures |r| == |g|
  {
    seq(|g|, q requires 0 <= q < |g| => if d.Interior(q) then Point(f, d, g, q) else g[q])
  }

  function Iterate(f: Floats, d: Shape, g: seq<word>, n: nat): (r: seq<word>)
    requires |g| == d.Size()
    ensures |r| == |g|
  {
    if n == 0 then g else Sweep(f, d, Iterate(f, d, g, n - 1))
  }

  /** No number of sweeps touches the halo. */
  lemma {:induction false} HaloFixed(f: Floats, d: Shape, g: seq<word>, n: nat, q: nat)
    requires |g| == d.Size() && q < |g| && !d.Interior(q)
    ensures Iterate(f, d, g, n)[q] == g[q]
  {
    if n > 0 {
      HaloFixed(f, d, g, n - 1, q);
    }
  }

  ghost predicate SameHalo(d: Shape, a: seq<word>, b: seq<word>) {
    |a| == |b| == d.Size() && forall q: nat | q < |a| && !d.Interior(q) :: a[q] == b[q]
  }

  // ----- symmetry -----

  ghost predicate Commutative(f: Floats) {
    forall x, y :: f.add(x, y) == f.add(y, x)
  }

  /** The grid with every row reversed. */
  function MirrorRows(d: Shape, g: seq<word>): (r: seq<word>)
    requires |g| == d.Size()
    ensures |r| == |g|
  {
    var s := d.Stride();
    seq(|g|, q requires 0 <= q < |g| => RowOf(q, d.h + 2, s); Reversed(q, d.h + 2, s); g[q / s * s + (s - 1 - q % s)])
  }

  lemma Reversed(q: nat, rows: nat, s: nat)
    requires q < rows * s && s > 0
    ensures 0 <= q / s * s + (s - 1 - q % s) < rows * s
  {
    RowOf(q, rows, s);
    InsideMatrix(q / s, s - 1 - q % s, rows, s);
  }

  /** The grid upside down. */
  function FlipColumns(d: Shape, g: seq<word>): (r: seq<word>)
    requires |g| == d.Size()
    ensures |r| == |g|
  {
    var s := d.Stride();
    seq(|g|, q requires 0 <= q < |g| => RowOf(q, d.h + 2, s); Flipped(q, d.h + 2, s); g[(d.h + 1 - q / s) * s + q % s])
  }

  lemma Flipped(q: nat, rows: nat, s: nat)
    requires q < rows * s && s > 0
    ensures q / s < rows && 0 <= (rows - 1 - q / s) * s + q % s < rows * s
  {
    RowOf(q, rows, s);
    InsideMatrix(rows - 1 - q / s, q % s, rows, s);
  }

  /** The word of row r and column c of a mirrored or flipped grid. */
  lemma MirrorAt(d: Shape, g: seq<word>, r: nat, c: nat)
    requires |g| == d.Size() && r < d.h + 2 && c < d.Stride()
    ensures r * d.Stride() + c < |g| && r * d.Stride() + (d.Stride() - 1 - c) < |g|
    ensures MirrorRows(d, g)[r * d.Stride() + c] == g[r * d.Stride() + (d.Stride() - 1 - c)]
  {
    InsideMatrix(r, c, d.h + 2, d.Stride());
    InsideMatrix(r, d.Stride() - 1 - c, d.h + 2, d.Stride());
    RowMajor(r, c, d.Stride());
  }

  lemma FlipAt(d: Shape, g: seq<word>, r: nat, c: nat)
    requires |g| == d.Size() && r < d.h + 2 && c < d.Stride()
    ensures FlippedFrom(d, FlipColumns(d, g), g, r, c)
  {
    hide Shape.Size, Shape.Stride, FlipColumns, FlippedFrom;
    SizeIs(d);
    var q, p := FlipPlace(r, c, d.h, d.Stride());
    FlipWord(d, g, q, r, c, p);
    FlipFold(d, FlipColumns(d, g), g, r, c, q, p);
  }

  ghost predicate FlippedFrom(d: Shape, f: seq<word>, g: seq<word>, r: nat, c: nat)
    requires r < d.h + 2
  {
    var s := d.Stride();
    var q, p := r * s + c, (d.h + 1 - r) * s + c;
    0 <= q < |f| && 0 <= p < |g| && f[q] == g[p]
  }

  lemma FlipFold(d: Shape, f: seq<word>, g: seq<word>, r: nat, c: nat, q: nat, p: nat)
    requires r < d.h + 2 && q < |f| && p < |g| && f[q] == g[p]
    requires q == r * d.Stride() + c && p == (d.h + 1 - r) * d.Stride() + c
    ensures FlippedFrom(d, f, g, r, c)
  {
  }

  lemma FlipPlace(r: nat, c: nat, h: nat, s: nat) returns (q: nat, p: nat)
    requires r < h + 2 && c < s
    ensures q == r * s + c && p == (h + 1 - r) * s + c
    ensures q < (h + 2) * s && p < (h + 2) * s
    ensures q / s == r && q % s == c
  {
    InsideMatrix(r, c, h + 2, s);
    InsideMatrix(h + 1 - r, c, h + 2, s);
    RowMajor(r, c, s);
    q, p := r * s + c, (h + 1 - r) * s + c;
  }

  lemma FlipWord(d: Shape, g: seq<word>, q: nat, r: nat, c: nat, p: nat)
    requires |g| == d.Size() && q < |g| && p < |g|
    requires var s := d.Stride(); s > 0 && r == q / s && c == q % s && p == (d.h + 1 - r) * s + c
    ensures FlipColumns(d, g)[q] == g[p]
  {
    hide Shape.Size, Shape.Stride;
  }

  /** The swept word at row r, column c. */
  lemma SweepAt(f: Floats, d: Shape, g: seq<word>, r: nat, c: nat)
    requires |g| == d.Size() && r < d.h + 2 && c < d.Stride()
    ensures var s := d.Stride();
            var q := r * s + c;
            && q < |g|
            && if 1 <= r <= d.h && PAD <= c < PAD + d.w then
                 && s <= q && q + s < |g| && 1 <= q
                 && Sweep(f, d, g)[q]
                    == f.fma(d.c1, f.add(f.add(g[q - s], g[q + s]), f.add(g[q - 1], g[q + 1])), f.mul(d.c0, g[q]))
               else Sweep(f, d, g)[q] == g[q]
  {
    hide Shape.Size;
    InsideMatrix(r, c, d.h + 2, d.Stride());
    assert d.Size() == (d.h + 2) * d.Stride() by {
      SizeIs(d);
    }
    RowMajor(r, c, d.Stride());
    if d.Interior(r * d.Stride() + c) {
      NeighboursInside(d, r * d.Stride() + c);
    }
  }

  lemma SizeIs(d: Shape)
    ensures d.Size() == (d.h + 2) * d.Stride()
  {
  }

  /** If addition commutes, sweeping a mirrored grid is mirroring the swept grid. */
  lemma SweepMirrors(f: Floats, d: Shape, g: seq<word>)
    requires |g| == d.Size() && Commutative(f)
    ensures Sweep(f, d, MirrorRows(d, g)) == MirrorRows(d, Sweep(f, d, g))
  {
    hide Sweep, MirrorRows, Shape.Size, Shape.Stride;
    SizeIs(d);
    MirrorSize(d, g);
    MirrorSize(d, Sweep(f, d, g));
    forall q: nat | q < |g|
      ensures Sweep(f, d, MirrorRows(d, g))[q] == MirrorRows(d, Sweep(f, d, g))[q]
    {
      RowOf(q, d.h + 2, d.Stride());
      MirrorPoint(f, d, g, q / d.Stride(), q % d.Stride());
    }
  }

  lemma MirrorSize(d: Shape, g: seq<word>)
    requires |g| == d.Size()
    ensures |MirrorRows(d, g)| == |FlipColumns(d, g)| == |g| && d.Stride() > 0
  {
  }

  lemma MirrorPoint(f: Floats, d: Shape, g: seq<word>, r: nat, c: nat)
    requires |g| == d.Size() && Commutative(f) && r < d.h + 2 && c < d.Stride()
    ensures r * d.Stride() + c < |Sweep(f, d, MirrorRows(d, g))| == |MirrorRows(d, Sweep(f, d, g))|
    ensures Sweep(f, d, MirrorRows(d, g))[r * d.Stride() + c] == MirrorRows(d, Sweep(f, d, g))[r * d.Stride() + c]
  {
    hide Sweep, MirrorRows, Shape.Size;
    var s := d.Stride();
    var m := MirrorRows(d, g);
    MirrorSize(d, g);
    MirrorSize(d, Sweep(f, d, g));
    MirrorAt(d, Sweep(f, d, g), r, c);
    SweepAt(f, d, m, r, c);
    SweepAt(f, d, g, r, s - 1 - c);
    MirrorAt(d, g, r, c);
    if 1 <= r <= d.h && PAD <= c < PAD + d.w {
      MirrorAt(d, g, r - 1, c);
      MirrorAt(d, g, r + 1, c);
      MirrorAt(d, g, r, c - 1);
      MirrorAt(d, g, r, c + 1);
      Rows(r, s);
      var p := r * s + (s - 1 - c);
      assert f.add(g[p - 1], g[p + 1]) == f.add(g[p + 1], g[p - 1]);
    }
  }

  lemma Rows(r: nat, s: nat)
    requires r > 0
    ensures (r - 1) * s == r * s - s && (r + 1) * s == r * s + s
  {
  }

  /** And sweeping a flipped grid is flipping the swept grid. */
  lemma SweepFlips(f: Floats, d: Shape, g: seq<word>)
    requires |g| == d.Size() && Commutative(f)
    ensures Sweep(f, d, FlipColumns(d, g)) == FlipColumns(d, Sweep(f, d, g))
  {
    hide Sweep, FlipColumns, Shape.Size, Shape.Stride;
    SizeIs(d);
    MirrorSize(d, g);
    MirrorSize(d, Sweep(f, d, g));
    forall q: nat | q < |g|
      ensures Sweep(f, d, FlipColumns(d, g))[q] == FlipColumns(d, Sweep(f, d, g))[q]
    {
      RowOf(q, d.h + 2, d.Stride());
      FlipPoint(f, d, g, q / d.Stride(), q % d.Stride());
    }
  }

  lemma FlipPoint(f: Floats, d: Shape, g: seq<word>, r: nat, c: nat)
    requires |g| == d.Size() && Commutative(f) && r < d.h + 2 && c < d.Stride()
    ensures r * d.Stride() + c < |Sweep(f, d, FlipColumns(d, g))| == |FlipColumns(d, Sweep(f, d, g))|
    ensures Sweep(f, d, FlipColumns(d, g))[r * d.Stride() + c] == FlipColumns(d, Sweep(f, d, g))[r * d.Stride() + c]
  {
    hide Sweep, FlipColumns, Shape.Size, Shape.Stride;
    var s, u := d.Stride(), d.h + 1 - r;
    FlipAt(d, Sweep(f, d, g), r, c);
    SweepAt(f, d, FlipColumns(d, g), r, c);
    SweepAt(f, d, g, u, c);
    FlipAt(d, g, r, c);
    if 1 <= r <= d.h && PAD <= c < PAD + d.w {
      FlipNeighbours(d, g, r, c, r * s + c, u * s + c);
      var p := u * s + c;
      assert f.add(g[p - s], g[p + s]) == f.add(g[p + s], g[p - s]);
    }
  }

  lemma FlipNeighbours(d: Shape, g: seq<word>, r: nat, c: nat, q: nat, p: nat)
    requires |g| == d.Size() && 1 <= r <= d.h && PAD <= c < PAD + d.w
    requires q == r * d.Stride() + c && p == (d.h + 1 - r) * d.Stride() + c
    requires d.Stride() <= q && q + d.Stride() < |g| && d.Stride() <= p && p + d.Stride() < |g|
    ensures var s, m := d.Stride(), FlipColumns(d, g);
            m[q - s] == g[p + s] && m[q + s] == g[p - s] && m[q - 1] == g[p - 1] && m[q + 1] == g[p + 1]
  {
    hide FlipColumns, Shape.Size;
    FlipAt(d, g, r - 1, c);
    FlipAt(d, g, r + 1, c);
    FlipAt(d, g, r, c - 1);
    FlipAt(d, g, r, c + 1);
    Rows(r, d.Stride());
    Rows(d.h + 1 - r, d.Stride());
  }

  // ----- one launch -----

  /** Word q of the output, when the points in `todo` are still to come. */
  ghost predicate Swept(f: Floats, d: Shape, g: seq<word>, was: seq<word>, out: seq<word>, q: nat, done: bool)
    requires |g| == |was| == |out| == d.Size() && q < d.Size()
  {
    out[q] == if d.Interior(q) && done then Point(f, d, g, q) else was[q]
  }

  /** Thread t's point: (t >> l2w) and t & (w - 1). */
  lemma ThreadPoint(d: Shape, t: nat)
    requires t < d.h * d.w
    ensures t / d.w < d.h && t % d.w < d.w && t == t / d.w * d.w + t % d.w
    ensures d.Interior(d.At(t / d.w, t % d.w)) && d.At(t / d.w, t % d.w) < d.Size()
  {
    RowOf(t, d.h, d.w);
    AtIsInterior(d, t / d.w, t % d.w);
    NeighboursInside(d, d.At(t / d.w, t % d.w));
  }

  /** The thread that owns an interior word. */
  function Owner(d: Shape, q: nat): (t: nat)
    requires d.Interior(q)
    ensures t < d.h * d.w && d.At(t / d.w, t % d.w) == q
  {
    var i, j := q / d.Stride() - 1, q % d.Stride() - PAD;
    InsideMatrix(i, j, d.h, d.w);
    RowMajor(i, j, d.w);
    Rounding.DivIdentity(q, d.Stride());
    i * d.w + j
  }

  lemma OwnerUnique(d: Shape, t: nat)
    requires t < d.h * d.w && d.Interior(d.At(t / d.w, t % d.w))
    ensures Owner(d, d.At(t / d.w, t % d.w)) == t
  {
    RowOf(t, d.h, d.w);
    AtIsInterior(d, t / d.w, t % d.w);
  }

  /** Everything is as it was except the points of the threads in `ran`. */
  ghost predicate SweptBy(f: Floats, d: Shape, g: seq<word>, was: seq<word>, out: seq<word>, ran: set<nat>)
    requires |g| == |was| == |out| == d.Size()
  {
    forall q: nat | q < d.Size() :: Swept(f, d, g, was, out, q, d.Interior(q) && Owner(d, q) in ran)
  }

  /** One more thread has run. */
  lemma SweptStep(f: Floats, d: Shape, g: seq<word>, was: seq<word>, out: seq<word>, ran: set<nat>, t: nat)
    requires |g| == |was| == |out| == d.Size() && t < d.h * d.w && SweptBy(f, d, g, was, out, ran)
    ensures t / d.w < d.h && t % d.w < d.w
    ensures var q := d.At(t / d.w, t % d.w);
            && q < d.Size() && d.Interior(q)
            && SweptBy(f, d, g, was, out[q := Point(f, d, g, q)], ran + {t})
  {
    hide Point, Shape.Interior, Shape.Size, Owner;
    ThreadPoint(d, t);
    OwnerUnique(d, t);
    var q := d.At(t / d.w, t % d.w);
    forall p: nat | p < d.Size()
      ensures Swept(f, d, g, was, out[q := Point(f, d, g, q)], p, d.Interior(p) && Owner(d, p) in ran + {t})
    {
      assert Swept(f, d, g, was, out, p, d.Interior(p) && Owner(d, p) in ran);
      OwnerAt(d, p, t);
    }
  }

  lemma OwnerAt(d: Shape, p: nat, t: nat)
    requires t < d.h * d.w
    ensures d.Interior(p) && Owner(d, p) == t ==> p == d.At(t / d.w, t % d.w)
  {
  }

  lemma SweptNone(f: Floats, d: Shape, g: seq<word>, was: seq<word>)
    requires |g| == |was| == d.Size()
    ensures SweptBy(f, d, g, was, was, {})
  {
  }

  /** One kernel thread: (t >> l2w) and t & (w - 1) pick the point. */
  method KernelThread(f: Floats, d: Shape, l2w: nat, t: nat, src: array<word>, dst: array<word>,
                      ghost was: seq<word>, ghost ran: set<nat>)
    requires d.w == Pow2(l2w) && src.Length == dst.Length == |was| == d.Size() && src != dst && t < d.h * d.w
    requires SweptBy(f, d, src[..], was, dst[..], ran)
    modifies dst
    ensures SweptBy(f, d, src[..], was, dst[..], ran + {t})
  {
    hide Pow2, Shape.Interior, Owner, Shape.Size, SweptBy;
    SweptStep(f, d, src[..], was, dst[..], ran, t);
    var w, s := Pow2(l2w), d.Stride();
    var q := (t / w + 1) * s + 8 + t % w;
    NeighboursInside(d, q);
    var sum := f.add(f.add(src[q - s], src[q + s]), f.add(src[q - 1], src[q + 1]));
    var centre := f.mul(d.c0, src[q]);
    ghost var before := dst[..];
    dst[q] := f.fma(d.c1, sum, centre);
    assert dst[..] == before[q := Point(f, d, src[..], q)];
  }

  /** A kernel launch: every thread reads only `src` and writes only its own word of `dst`, in any order. */
  method KernelSweep(f: Floats, d: Shape, l2w: nat, src: array<word>, dst: array<word>)
    requires d.w == Pow2(l2w) && src.Length == dst.Length == d.Size() && src != dst
    requires SameHalo(d, src[..], dst[..])
    modifies dst
    ensures dst[..] == Sweep(f, d, src[..])
    ensures forall i: nat, j: nat {:trigger PointStored(f, d, src[..], dst[..], i, j)} | i < d.h && j < d.w ::
              PointStored(f, d, src[..], dst[..], i, j)
  {
    hide Pow2, Point, Shape.Interior, Owner, Shape.Size, SweptBy, Sweep, Shape.At, PointStored;
    ghost var was := dst[..];
    SweptNone(f, d, src[..], was);
    var todo: set<nat> := F.Below(d.h * d.w);
    ghost var ran: set<nat> := {};
    while todo != {}
      invariant todo <= F.Below(d.h * d.w) <= todo + ran
      invariant SweptBy(f, d, src[..], was, dst[..], ran)
      decreases |todo|
    {
      var t: nat :| t in todo;
      KernelThread(f, d, l2w, t, src, dst, was, ran);
      todo, ran := todo - {t}, ran + {t};
    }
    SweptAll(f, d, src[..], was, dst[..], ran);
    SweepPoints(f, d, src[..]);
  }

  lemma SweptAll(f: Floats, d: Shape, g: seq<word>, was: seq<word>, out: seq<word>, ran: set<nat>)
    requires |out| == d.Size() && SameHalo(d, g, was) && SweptBy(f, d, g, was, out, ran)
    requires forall t: nat | t < d.h * d.w :: t in ran
    ensures out == Sweep(f, d, g)
  {
  }

  /** The inner loop of stencil_ref. */
  method HostRow(f: Floats, d: Shape, i: nat, src: array<word>, dst: array<word>, ghost was: seq<word>)
    requires src.Length == dst.Length == |was| == d.Size() && src != dst && i < d.h
    requires SweptBy(f, d, src[..], was, dst[..], F.Below(i * d.w))
    modifies dst
    ensures SweptBy(f, d, src[..], was, dst[..], F.Below((i + 1) * d.w))
  {
    hide Shape.Interior, Owner, Shape.Size, SweptBy, F.Below;
    var s := d.Stride();
    for j := 0 to d.w
      invariant SweptBy(f, d, src[..], was, dst[..], F.Below(i * d.w + j))
    {
      PointStep(f, d, src[..], was, dst[..], i, j);
      var q := (i + 1) * s + 8 + j;
      NeighboursInside(d, q);
      ghost var before := dst[..];
      var sm := f.add(f.add(src[q - s], src[q + s]), f.add(src[q - 1], src[q + 1]));
      dst[q] := f.fma(d.c1, sm, f.mul(d.c0, src[q]));
      assert dst[..] == before[q := Point(f, d, src[..], q)];
    }
    assert i * d.w + d.w == (i + 1) * d.w;
  }

  /** The host's stencil_ref: nested loops over rows and columns. */
  method HostSweep(f: Floats, d: Shape, src: array<word>, dst: array<word>)
    requires src.Length == dst.Length == d.Size() && src != dst
    requires SameHalo(d, src[..], dst[..])
    modifies dst
    ensures dst[..] == Sweep(f, d, src[..])
    ensures forall i: nat, j: nat {:trigger PointStored(f, d, src[..], dst[..], i, j)} | i < d.h && j < d.w ::
              PointStored(f, d, src[..], dst[..], i, j)
  {
    hide Point, Shape.Interior, Owner, Shape.Size, SweptBy, Sweep, Shape.At, PointStored;
    ghost var was := dst[..];
    SweptNone(f, d, src[..], was);
    for i := 0 to d.h
      invariant SweptBy(f, d, src[..], was, dst[..], F.Below(i * d.w))
    {
      HostRow(f, d, i, src, dst, was);
    }
    SweptAll(f, d, src[..], was, dst[..], F.Below(d.h * d.w));
    SweepPoints(f, d, src[..]);
  }

  lemma PointStep(f: Floats, d: Shape, g: seq<word>, was: seq<word>, out: seq<word>, i: nat, j: nat)
    requires |g| == |was| == |out| == d.Size() && i < d.h && j < d.w
    requires SweptBy(f, d, g, was, out, F.Below(i * d.w + j))
    ensures d.At(i, j) < d.Size() && d.Interior(d.At(i, j))
    ensures SweptBy(f, d, g, was, out[d.At(i, j) := Point(f, d, g, d.At(i, j))], F.Below(i * d.w + (j + 1)))
  {
    hide Point, Shape.Interior, Owner, Shape.Size, SweptBy, Shape.At;
    InsideMatrix(i, j, d.h, d.w);
    RowMajor(i, j, d.w);
    SweptStep(f, d, g, was, out, F.Below(i * d.w + j), i * d.w + j);
  }

  // ----- ping-pong -----

  /** Launches alternate between the two buffers. Only the halos have to agree at the start: whatever the second
      buffer's interior holds is overwritten before it is read. */
  method PingPong(f: Floats, d: Shape, l2w: nat, g0: array<word>, g1: array<word>, sweeps: nat, ghost g: seq<word>)
    requires d.w == Pow2(l2w) && g0.Length == g1.Length == d.Size() && g0 != g1
    requires g0[..] == g && SameHalo(d, g, g1[..])
    modifies g0, g1
    ensures (if sweeps % 2 == 0 then g0 else g1)[..] == Iterate(f, d, g, sweeps)
    ensures sweeps > 0 ==> (if sweeps % 2 == 0 then g1 else g0)[..] == Iterate(f, d, g, sweeps - 1)
    ensures SameHalo(d, g0[..], g1[..]) && SameHalo(d, g, g0[..])
  {
    hide Pow2, Sweep, Shape.Interior, Shape.Size;
    for t := 0 to sweeps
      invariant (if t % 2 == 0 then g0 else g1)[..] == Iterate(f, d, g, t)
      invariant t > 0 ==> (if t % 2 == 0 then g1 else g0)[..] == Iterate(f, d, g, t - 1)
      invariant SameHalo(d, g0[..], g1[..]) && SameHalo(d, g, g0[..])
    {
      var src, dst := if t % 2 == 0 then g0 else g1, if t % 2 == 0 then g1 else g0;
      KernelSweep(f, d, l2w, src, dst);
      SweepHalo(f, d, src[..]);
    }
  }

  lemma SweepHalo(f: Floats, d: Shape, g: seq<word>)
    requires |g| == d.Size()
    ensures SameHalo(d, g, Sweep(f, d, g))
  {
  }

  /** The board host prepares at most 16 launches, then looks in buffer sweeps % 2: which iterate that is. */
  function BoardIterate(sweeps: nat): nat {
    if sweeps <= MAX_SWEEPS then sweeps else MAX_SWEEPS - sweeps % 2
  }

  /** app_stencil: kernel launches on g, stencil_ref on r, both capped; the compared buffers always agree. */
  method BoardStencil(f: Floats, d: Shape, l2w: nat, g0: array<word>, g1: array<word>, r0: array<word>, r1: array<word>,
                      sweeps: nat, ghost g: seq<word>)
    requires d.w == Pow2(l2w) && g0.Length == g1.Length == r0.Length == r1.Length == d.Size()
    requires g0 != g1 && g0 != r0 && g0 != r1 && g1 != r0 && g1 != r1 && r0 != r1
    requires g0[..] == g1[..] == r0[..] == r1[..] == g
    modifies g0, g1, r0, r1
    ensures (if sweeps % 2 == 0 then g0 else g1)[..]
         == Iterate(f, d, g, if sweeps <= 16 then sweeps else 16 - sweeps % 2)
    ensures (if sweeps % 2 == 0 then r0 else r1)[..]
         == Iterate(f, d, g, if sweeps <= 16 then sweeps else 16 - sweeps % 2)
  {
    hide Pow2, Sweep, Shape.Interior, Shape.Size;
    var n := if sweeps < MAX_SWEEPS then sweeps else MAX_SWEEPS;
    PingPong(f, d, l2w, g0, g1, n, g);
    for t := 0 to n
      invariant (if n % 2 == 0 then g0 else g1)[..] == Iterate(f, d, g, n)
      invariant n > 0 ==> (if n % 2 == 0 then g1 else g0)[..] == Iterate(f, d, g, n - 1)
      invariant (if t % 2 == 0 then r0 else r1)[..] == Iterate(f, d, g, t)
      invariant t > 0 ==> (if t % 2 == 0 then r1 else r0)[..] == Iterate(f, d, g, t - 1)
      invariant SameHalo(d, r0[..], r1[..])
    {
      var src, dst := if t % 2 == 0 then r0 else r1, if t % 2 == 0 then r1 else r0;
      HostSweep(f, d, src, dst);
      SweepHalo(f, d, src[..]);
    }
  }
}
