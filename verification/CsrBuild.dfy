/** The adjacency structure built from an edge list by counting sort, in place. */
module CsrBuild {
  import opened Words
  import opened Graphs

  /** Targets of the edges among the first n whose source is v, in order. */
  function Row(eu: seq<nat>, ev: seq<nat>, n: nat, v: nat): seq<nat>
    requires n <= |eu| == |ev|
  {
    if n == 0 then []
    else Row(eu, ev, n - 1, v) + if eu[n - 1] == v then [ev[n - 1]] else []
  }

  /** Number of the first n edges whose source is below v. */
  function Start(eu: seq<nat>, ev: seq<nat>, n: nat, v: nat): nat
    requires n <= |eu| == |ev|
  {
    if v == 0 then 0 else Start(eu, ev, n, v - 1) + |Row(eu, ev, n, v - 1)|
  }

  lemma {:induction false} RowPrefix(eu: seq<nat>, ev: seq<nat>, i: nat, n: nat, v: nat)
    requires i <= n <= |eu| == |ev|
    ensures |Row(eu, ev, i, v)| <= |Row(eu, ev, n, v)| && Row(eu, ev, i, v) == Row(eu, ev, n, v)[..|Row(eu, ev, i, v)|]
    ensures i < n && eu[i] == v ==> |Row(eu, ev, i, v)| < |Row(eu, ev, n, v)|
    decreases n
  {
    if i < n {
      RowPrefix(eu, ev, i, n - 1, v);
    }
  }

  lemma {:induction false} StartMono(eu: seq<nat>, ev: seq<nat>, n: nat, v: nat, w: nat)
    requires n <= |eu| == |ev| && v <= w
    ensures Start(eu, ev, n, v) <= Start(eu, ev, n, w)
    decreases w
  {
    if v < w {
      StartMono(eu, ev, n, v, w - 1);
    }
  }

  lemma {:induction false} StartStep(eu: seq<nat>, ev: seq<nat>, n: nat, v: nat)
    requires n < |eu| == |ev|
    ensures Start(eu, ev, n + 1, v) == Start(eu, ev, n, v) + if eu[n] < v then 1 else 0
    decreases v
  {
    if v > 0 {
      StartStep(eu, ev, n, v - 1);
    }
  }

  /** Every edge is in some row. */
  lemma {:induction false} StartTotal(eu: seq<nat>, ev: seq<nat>, n: nat, nv: nat)
    requires n <= |eu| == |ev| && forall i | 0 <= i < n :: eu[i] < nv
    ensures Start(eu, ev, n, nv) == n
    decreases n
  {
    if n == 0 {
      StartZero(eu, ev, nv);
    } else {
      StartTotal(eu, ev, n - 1, nv);
      StartStep(eu, ev, n - 1, nv);
    }
  }

  lemma {:induction false} StartZero(eu: seq<nat>, ev: seq<nat>, v: nat)
    requires |eu| == |ev|
    ensures Start(eu, ev, 0, v) == 0
    decreases v
  {
    if v > 0 {
      StartZero(eu, ev, v - 1);
    }
  }

  /** The first i edges of row v fit in its slice, with room to spare if edge i belongs to the row. */
  lemma RowFits(eu: seq<nat>, ev: seq<nat>, i: nat, m: nat, nv: nat, v: nat)
    requires i <= m <= |eu| == |ev| && v < nv && forall k | 0 <= k < m :: eu[k] < nv
    ensures Start(eu, ev, m, v) + |Row(eu, ev, i, v)| <= Start(eu, ev, m, v + 1) <= m
    ensures i < m && eu[i] == v ==> Start(eu, ev, m, v) + |Row(eu, ev, i, v)| < Start(eu, ev, m, v + 1)
  {
    RowPrefix(eu, ev, i, m, v);
    StartMono(eu, ev, m, v + 1, nv);
    StartTotal(eu, ev, m, nv);
  }

  /** The rows hold exactly the edges with that source, in the order of the edge list. */
  lemma {:induction false} RowMembers(eu: seq<nat>, ev: seq<nat>, n: nat, v: nat, u: nat)
    requires n <= |eu| == |ev|
    ensures u in Row(eu, ev, n, v) <==> exists i :: 0 <= i < n && eu[i] == v && ev[i] == u
    decreases n
  {
    if n > 0 {
      RowMembers(eu, ev, n - 1, v, u);
    }
  }

  /** The slice of v holds its first i edges' targets. */
  ghost predicate RowPlaced(eu: seq<nat>, ev: seq<nat>, i: nat, v: nat, col: seq<nat>)
    requires i <= |eu| == |ev|
  {
    var at, row := Start(eu, ev, |eu|, v), Row(eu, ev, i, v);
    at + |row| <= |col| && col[at..at + |row|] == row
  }

  /** The structure for an edge list. */
  ghost predicate IsCsr(nv: nat, eu: seq<nat>, ev: seq<nat>, rowptr: seq<nat>, col: seq<nat>)
    requires |eu| == |ev|
  {
    && |rowptr| == nv + 1 && |col| == |eu|
    && (forall v | 0 <= v <= nv :: rowptr[v] == Start(eu, ev, |eu|, v))
    && forall v: nat | v < nv :: RowPlaced(eu, ev, |eu|, v, col)
  }

  // ----- the passes -----

  /** Passes one and two: count the sources into rowptr[u + 1]. */
  method CountSources(nv: nat, eu: seq<nat>, ghost ev: seq<nat>, rowptr: array<nat>)
    requires |eu| == |ev| && (forall i | 0 <= i < |eu| :: eu[i] < nv) && rowptr.Length == nv + 1
    modifies rowptr
    ensures rowptr[0] == 0
    ensures forall w | 1 <= w <= nv :: rowptr[w] == |Row(eu, ev, |eu|, w - 1)|
  {
    for v := 0 to nv + 1
      invariant forall w | 0 <= w < v :: rowptr[w] == 0
    {
      rowptr[v] := 0;
    }
    for i := 0 to |eu|
      invariant rowptr[0] == 0
      invariant forall w | 1 <= w <= nv :: rowptr[w] == |Row(eu, ev, i, w - 1)|
    {
      rowptr[eu[i] + 1] := rowptr[eu[i] + 1] + 1;
    }
  }

  lemma StartNext(eu: seq<nat>, ev: seq<nat>, v: nat)
    requires |eu| == |ev|
    ensures Start(eu, ev, |eu|, v + 1) == Start(eu, ev, |eu|, v) + |Row(eu, ev, |eu|, v)|
    ensures Start(eu, ev, |eu|, 0) == 0
  {
  }

  /** Pass three: running totals. */
  method Accumulate(nv: nat, eu: seq<nat>, ghost ev: seq<nat>, rowptr: array<nat>)
    requires |eu| == |ev| && rowptr.Length == nv + 1 && rowptr[0] == 0
    requires forall w | 1 <= w <= nv :: rowptr[w] == |Row(eu, ev, |eu|, w - 1)|
    modifies rowptr
    ensures forall v | 0 <= v <= nv :: rowptr[v] == Start(eu, ev, |eu|, v)
  {
    hide Row, Start;
    StartNext(eu, ev, 0);
    ghost var counts := rowptr[..];
    for v := 0 to nv
      invariant forall w | 0 <= w <= v :: rowptr[w] == Start(eu, ev, |eu|, w)
      invariant rowptr[v + 1..] == counts[v + 1..]
    {
      StartNext(eu, ev, v);
      assert rowptr[v + 1] == counts[v + 1];
      rowptr[v + 1] := rowptr[v + 1] + rowptr[v];
    }
  }

  ghost predicate CursorAt(eu: seq<nat>, ev: seq<nat>, i: nat, v: nat, c: nat)
    requires i <= |eu| == |ev|
  {
    c == Start(eu, ev, |eu|, v) + |Row(eu, ev, i, v)|
  }

  /** After i edges every cursor has moved past the row entries placed so far. */
  ghost predicate Placed(nv: nat, eu: seq<nat>, ev: seq<nat>, i: nat, cursor: seq<nat>, col: seq<nat>)
    requires i <= |eu| == |ev| && nv <= |cursor|
  {
    forall v: nat | v < nv :: CursorAt(eu, ev, i, v, cursor[v]) && RowPlaced(eu, ev, i, v, col)
  }

  /** The cursor of edge i's source is inside its own row. */
  lemma CursorInside(nv: nat, eu: seq<nat>, ev: seq<nat>, i: nat, cursor: seq<nat>, col: seq<nat>)
    requires i < |eu| == |ev| == |col| && nv <= |cursor| && (forall j | 0 <= j < |eu| :: eu[j] < nv)
    requires Placed(nv, eu, ev, i, cursor, col)
    ensures Start(eu, ev, |eu|, eu[i]) <= cursor[eu[i]] < Start(eu, ev, |eu|, eu[i] + 1) <= |col|
  {
    hide Start, Row, RowPlaced, CursorAt;
    assert CursorAt(eu, ev, i, eu[i], cursor[eu[i]]);
    CursorBounds(nv, eu, ev, i, cursor[eu[i]]);
  }

  lemma CursorBounds(nv: nat, eu: seq<nat>, ev: seq<nat>, i: nat, c: nat)
    requires i < |eu| == |ev| && (forall j | 0 <= j < |eu| :: eu[j] < nv)
    requires CursorAt(eu, ev, i, eu[i], c)
    ensures Start(eu, ev, |eu|, eu[i]) <= c < Start(eu, ev, |eu|, eu[i] + 1) <= |eu|
  {
    hide Start, Row;
    RowFits(eu, ev, i, |eu|, nv, eu[i]);
  }

  /** Storing edge i at its row's cursor moves no placed entry. */
  lemma PlaceStep(nv: nat, eu: seq<nat>, ev: seq<nat>, i: nat, cursor: seq<nat>, col: seq<nat>)
    requires i < |eu| == |ev| == |col| && nv <= |cursor| && (forall j | 0 <= j < |eu| :: eu[j] < nv)
    requires Placed(nv, eu, ev, i, cursor, col) && cursor[eu[i]] < |col|
    ensures Placed(nv, eu, ev, i + 1, cursor[eu[i] := cursor[eu[i]] + 1], col[cursor[eu[i]] := ev[i]])
  {
    hide CursorAt, RowPlaced;
    var u := eu[i];
    var cursor', col' := cursor[u := cursor[u] + 1], col[cursor[u] := ev[i]];
    forall v: nat | v < nv
      ensures CursorAt(eu, ev, i + 1, v, cursor'[v]) && RowPlaced(eu, ev, i + 1, v, col')
    {
      assert CursorAt(eu, ev, i, v, cursor[v]) && CursorAt(eu, ev, i, u, cursor[u]);
      PlaceVertex(nv, eu, ev, i, v, cursor[v], cursor[u], col);
    }
  }

  lemma PlaceVertex(nv: nat, eu: seq<nat>, ev: seq<nat>, i: nat, v: nat, c: nat, p: nat, col: seq<nat>)
    requires i < |eu| == |ev| == |col| && v < nv && (forall j | 0 <= j < |eu| :: eu[j] < nv)
    requires RowPlaced(eu, ev, i, v, col) && CursorAt(eu, ev, i, v, c) && CursorAt(eu, ev, i, eu[i], p) && p < |col|
    ensures CursorAt(eu, ev, i + 1, v, if v == eu[i] then p + 1 else c) && RowPlaced(eu, ev, i + 1, v, col[p := ev[i]])
  {
    hide Start, Row, RowPlaced;
    PlaceRow(nv, eu, ev, i, v, col);
  }

  /** One row, when edge i is stored behind the placed entries of its own row. */
  lemma PlaceRow(nv: nat, eu: seq<nat>, ev: seq<nat>, i: nat, v: nat, col: seq<nat>)
    requires i < |eu| == |ev| == |col| && v < nv && (forall j | 0 <= j < |eu| :: eu[j] < nv)
    requires RowPlaced(eu, ev, i, v, col)
    ensures var p := Start(eu, ev, |eu|, eu[i]) + |Row(eu, ev, i, eu[i])|;
            && p < |col| && RowPlaced(eu, ev, i + 1, v, col[p := ev[i]])
            && |Row(eu, ev, i + 1, v)| == |Row(eu, ev, i, v)| + if eu[i] == v then 1 else 0
  {
    hide Start, Row;
    var m, u := |eu|, eu[i];
    RowFits(eu, ev, i, m, nv, u);
    RowFits(eu, ev, i, m, nv, v);
    RowStep(eu, ev, i, v);
    if v < u {
      StartMono(eu, ev, m, v + 1, u);
    } else if u < v {
      StartMono(eu, ev, m, u + 1, v);
    }
  }

  lemma RowStep(eu: seq<nat>, ev: seq<nat>, i: nat, v: nat)
    requires i < |eu| == |ev|
    ensures Row(eu, ev, i + 1, v) == Row(eu, ev, i, v) + if eu[i] == v then [ev[i]] else []
  {
  }

  /** Passes four and five: cursors, then the stable placement. */
  method PlaceTargets(nv: nat, eu: seq<nat>, ev: seq<nat>, rowptr: array<nat>, queue: array<nat>, col: array<nat>)
    requires |eu| == |ev| == col.Length && (forall i | 0 <= i < |eu| :: eu[i] < nv)
    requires rowptr.Length == nv + 1 && queue.Length == nv && rowptr != queue && rowptr != col && queue != col
    requires forall v | 0 <= v <= nv :: rowptr[v] == Start(eu, ev, |eu|, v)
    modifies queue, col
    ensures IsCsr(nv, eu, ev, rowptr[..], col[..])
  {
    for v := 0 to nv
      invariant forall w | 0 <= w < v :: queue[w] == rowptr[w]
      invariant forall w | 0 <= w <= nv :: rowptr[w] == old(rowptr[w])
    {
      queue[v] := rowptr[v];
    }
    PlacedStart(nv, eu, ev, queue[..], col[..]);
    StoreTargets(nv, eu, ev, queue, col);
  }

  lemma PlacedStart(nv: nat, eu: seq<nat>, ev: seq<nat>, cursor: seq<nat>, col: seq<nat>)
    requires |eu| == |ev| == |col| && |cursor| == nv && (forall i | 0 <= i < |eu| :: eu[i] < nv)
    requires forall v | 0 <= v < nv :: cursor[v] == Start(eu, ev, |eu|, v)
    ensures Placed(nv, eu, ev, 0, cursor, col)
  {
    forall v: nat | v < nv
      ensures RowPlaced(eu, ev, 0, v, col)
    {
      RowFits(eu, ev, 0, |eu|, nv, v);
    }
  }

  /** The placement loop: each target goes to its row's cursor, which stays inside the row. */
  method StoreTargets(nv: nat, eu: seq<nat>, ev: seq<nat>, queue: array<nat>, col: array<nat>)
    requires |eu| == |ev| == col.Length && (forall i | 0 <= i < |eu| :: eu[i] < nv)
    requires queue.Length == nv && queue != col && Placed(nv, eu, ev, 0, queue[..], col[..])
    modifies queue, col
    ensures Placed(nv, eu, ev, |eu|, queue[..], col[..])
  {
    hide Placed, Row, Start;
    for i := 0 to |eu|
      invariant Placed(nv, eu, ev, i, queue[..], col[..])
    {
      ghost var cursor, cols := queue[..], col[..];
      CursorInside(nv, eu, ev, i, cursor, cols);
      PlaceStep(nv, eu, ev, i, cursor, cols);
      var p := queue[eu[i]];
      col[p] := ev[i];
      queue[eu[i]] := p + 1;
      assert queue[..] == cursor[eu[i] := cursor[eu[i]] + 1] && col[..] == cols[cursor[eu[i]] := ev[i]];
    }
  }

  /** The five passes of the host: rows sorted by source, stable, for every edge list. */
  method BuildCsr(nv: nat, eu: seq<nat>, ev: seq<nat>, rowptr: array<nat>, queue: array<nat>, col: array<nat>)
    requires |eu| == |ev| == col.Length && (forall i | 0 <= i < |eu| :: eu[i] < nv)
    requires rowptr.Length == nv + 1 && queue.Length == nv && rowptr != queue && rowptr != col && queue != col
    modifies rowptr, queue, col
    ensures IsCsr(nv, eu, ev, rowptr[..], col[..])
  {
    CountSources(nv, eu, ev, rowptr);
    Accumulate(nv, eu, ev, rowptr);
    PlaceTargets(nv, eu, ev, rowptr, queue, col);
  }

  /** What the structure means: row pointers rise from 0 to m, slice v of col is the targets of v's edges in
      edge-list order, and the graph the searches see has exactly the listed edges. */
  lemma CsrMeaning(nv: nat, eu: seq<nat>, ev: seq<nat>, rowptr: seq<nat>, col: seq<nat>)
    requires |eu| == |ev| && IsCsr(nv, eu, ev, rowptr, col)
    requires 0 < nv && 4 * nv < MOD32 && forall i | 0 <= i < |eu| :: eu[i] < nv && ev[i] < nv
    ensures rowptr[0] == 0 && rowptr[nv] == |eu|
    ensures forall v: nat, w: nat | v <= w <= nv :: rowptr[v] <= rowptr[w] <= |col|
    ensures forall v: nat | v < nv :: col[rowptr[v]..rowptr[v + 1]] == Row(eu, ev, |eu|, v)
    ensures Csr(nv, rowptr, col).Valid()
    ensures forall u: nat, v: nat | u < nv :: Csr(nv, rowptr, col).Edge(u, v) <==> exists i :: 0 <= i < |eu| && eu[i] == u && ev[i] == v
  {
    var m, g := |eu|, Csr(nv, rowptr, col);
    StartTotal(eu, ev, m, nv);
    forall v: nat, w: nat | v <= w <= nv
      ensures rowptr[v] <= rowptr[w] <= |col|
    {
      StartMono(eu, ev, m, v, w);
      StartMono(eu, ev, m, w, nv);
    }
    forall v: nat | v < nv
      ensures col[rowptr[v]..rowptr[v + 1]] == Row(eu, ev, m, v)
    {
      assert RowPlaced(eu, ev, m, v, col);
    }
    TargetsInRange(nv, eu, ev, rowptr, col);
    forall u: nat, v: nat | u < nv
      ensures g.Edge(u, v) <==> exists i :: 0 <= i < m && eu[i] == u && ev[i] == v
    {
      EdgeIsRowMember(g, u, v, Row(eu, ev, m, u));
      RowMembers(eu, ev, m, u, v);
    }
  }

  lemma TargetsInRange(nv: nat, eu: seq<nat>, ev: seq<nat>, rowptr: seq<nat>, col: seq<nat>)
    requires |eu| == |ev| && IsCsr(nv, eu, ev, rowptr, col)
    requires forall i | 0 <= i < |eu| :: eu[i] < nv && ev[i] < nv
    ensures forall j | 0 <= j < |col| :: col[j] < nv
  {
    var m := |eu|;
    StartTotal(eu, ev, m, nv);
    forall j | 0 <= j < |col|
      ensures col[j] < nv
    {
      var v := RowOf(eu, ev, m, nv, j);
      assert RowPlaced(eu, ev, m, v, col);
      var at, row := Start(eu, ev, m, v), Row(eu, ev, m, v);
      assert col[at..at + |row|][j - at] == row[j - at];
      RowMembers(eu, ev, m, v, row[j - at]);
    }
  }

  lemma EdgeIsRowMember(g: Csr, u: nat, v: nat, row: seq<nat>)
    requires g.Valid() && u < g.nv && g.rowptr[u] <= g.rowptr[u + 1]
    requires g.col[g.rowptr[u]..g.rowptr[u + 1]] == row
    ensures g.Edge(u, v) <==> v in row
  {
  }

  /** The row a position of col belongs to. */
  lemma {:induction false} RowOf(eu: seq<nat>, ev: seq<nat>, m: nat, nv: nat, j: nat) returns (v: nat)
    requires m <= |eu| == |ev| && j < Start(eu, ev, m, nv)
    ensures v < nv && Start(eu, ev, m, v) <= j < Start(eu, ev, m, v) + |Row(eu, ev, m, v)|
    decreases nv
  {
    if j >= Start(eu, ev, m, nv - 1) {
      v := nv - 1;
    } else {
      v := RowOf(eu, ev, m, nv - 1, j);
    }
  }
}
