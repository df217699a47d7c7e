/** CSR graphs, walks from vertex 0 and shortest-path distances. */
module Graphs {
  import opened Words
  import opened Finite

  /** The targets of vertex v are col[rowptr[v]..rowptr[v + 1]]. */
  datatype Csr = Csr(nv: nat, rowptr: seq<nat>, col: seq<nat>)
  {
    /** What the kernels and the hosts rely on: in-range indices, and a vertex array that fits a 32-bit
        address space. Row pointers need not be monotone; an inverted row is an empty one. */
    ghost predicate Valid() {
      && 0 < nv && 4 * nv < MOD32
      && |rowptr| == nv + 1
      && (forall v | 0 <= v <= nv :: rowptr[v] <= |col|)
      && (forall j | 0 <= j < |col| :: col[j] < nv)
    }

    ghost predicate Edge(u: nat, v: nat)
      requires Valid()
    {
      u < nv && exists j :: rowptr[u] <= j < rowptr[u + 1] && col[j] == v
    }

    /** Some walk of exactly n edges leads from vertex 0 to v. */
    ghost predicate Walk(n: nat, v: nat)
      requires Valid()
    {
      if n == 0 then v == 0 else exists u: nat :: Walk(n - 1, u) && Edge(u, v)
    }

    /** d is the length of a shortest walk from vertex 0 to v. */
    ghost predicate IsDist(d: nat, v: nat)
      requires Valid()
    {
      Walk(d, v) && forall k: nat :: k < d ==> !Walk(k, v)
    }

    /** The level array when every vertex within n edges of vertex 0 carries its distance. */
    ghost function Label(n: nat, v: nat): word
      requires Valid()
    {
      if exists d: nat :: d <= n && d < UNSEEN && IsDist(d, v)
      then var d: nat :| d <= n && d < UNSEEN && IsDist(d, v); d
      else UNSEEN
    }

    ghost function Labels(n: nat): (r: seq<word>)
      requires Valid()
      ensures |r| == nv && forall v | 0 <= v < nv :: r[v] == Label(n, v)
    {
      seq(nv, v requires 0 <= v < nv => Label(n, v))
    }

    /** The full answer: every reachable vertex carries its distance, the others UNSEEN. */
    ghost predicate AreDistances(lev: seq<word>)
      requires Valid()
    {
      |lev| == nv &&
      forall v: nat | v < nv ::
        if exists d: nat :: IsDist(d, v) then IsDist(lev[v], v) else lev[v] == UNSEEN
    }

    /** The greatest distance of any reachable vertex. */
    ghost predicate IsEccentricity(k: nat)
      requires Valid()
    {
      (exists v: nat :: v < nv && IsDist(k, v)) && forall v: nat, d: nat :: IsDist(d, v) ==> d <= k
    }
  }

  /** Every walk can be shortened to a shortest one. */
  lemma {:induction false} WalkHasDist(g: Csr, n: nat, v: nat) returns (d: nat)
    requires g.Valid() && g.Walk(n, v)
    ensures d <= n && g.IsDist(d, v)
  {
    if k: nat :| k < n && g.Walk(k, v) {
      d := WalkHasDist(g, k, v);
    } else {
      d := n;
    }
  }

  /** The vertex before the last edge of a shortest walk is one closer. */
  lemma DistPred(g: Csr, d: nat, v: nat) returns (u: nat)
    requires g.Valid() && d > 0 && g.IsDist(d, v)
    ensures g.IsDist(d - 1, u) && g.Edge(u, v)
  {
    u :| g.Walk(d - 1, u) && g.Edge(u, v);
    forall k: nat | k < d - 1
      ensures !g.Walk(k, u)
    {
      if g.Walk(k, u) {
        assert g.Walk(k + 1, v);
      }
    }
  }

  /** An edge from distance d leads to a vertex at distance at most d + 1. */
  lemma DistSucc(g: Csr, d: nat, u: nat, v: nat) returns (e: nat)
    requires g.Valid() && g.IsDist(d, u) && g.Edge(u, v)
    ensures e <= d + 1 && g.IsDist(e, v)
  {
    assert g.Walk(d + 1, v);
    e := WalkHasDist(g, d + 1, v);
  }

  /** A vertex at distance d has d + 1 distinct vertices on the way to it. */
  lemma {:induction false} DistChain(g: Csr, d: nat, v: nat) returns (s: set<nat>)
    requires g.Valid() && g.IsDist(d, v)
    ensures |s| == d + 1
    ensures forall x | x in s :: x < g.nv && exists k: nat :: k <= d && g.IsDist(k, x)
  {
    if d == 0 {
      s := {v};
    } else {
      var u := DistPred(g, d, v);
      var t := DistChain(g, d - 1, u);
      s := t + {v};
    }
  }

  /** Distances stay below the number of vertices, hence below UNSEEN. */
  lemma DistBound(g: Csr, d: nat, v: nat)
    requires g.Valid() && g.IsDist(d, v)
    ensures d < g.nv < UNSEEN && v < g.nv
  {
    var s := DistChain(g, d, v);
    assert s <= Below(g.nv);
    SubsetSize(s, Below(g.nv));
  }

  lemma LabelIsDist(g: Csr, n: nat, v: nat)
    requires g.Valid()
    ensures forall d: nat :: d <= n && g.IsDist(d, v) ==> g.Label(n, v) == d
    ensures g.Label(n, v) != UNSEEN ==> g.Label(n, v) <= n && g.IsDist(g.Label(n, v), v)
  {
    forall d: nat | d <= n && g.IsDist(d, v)
      ensures g.Label(n, v) == d
    {
      DistBound(g, d, v);
    }
  }

  /** One breadth-first level: exactly the unseen vertices next to level n get n + 1. */
  lemma LabelStep(g: Csr, n: nat, v: nat)
    requires g.Valid() && n + 1 < UNSEEN
    ensures g.Label(n + 1, v) ==
            if g.Label(n, v) != UNSEEN then g.Label(n, v)
            else if exists u: nat :: g.Label(n, u) == n && g.Edge(u, v) then n + 1
            else UNSEEN
  {
    LabelIsDist(g, n, v);
    LabelIsDist(g, n + 1, v);
    if g.Label(n, v) == UNSEEN {
      if u: nat :| g.Label(n, u) == n && g.Edge(u, v) {
        LabelIsDist(g, n, u);
        var e := DistSucc(g, n, u, v);
      } else if g.Label(n + 1, v) != UNSEEN {
        var u := DistPred(g, n + 1, v);
        LabelIsDist(g, n, u);
      }
    }
  }

  lemma LabelStart(g: Csr)
    requires g.Valid()
    ensures forall v: nat | v < g.nv :: g.Label(0, v) == if v == 0 then 0 else UNSEEN
  {
    forall v: nat | v < g.nv
      ensures g.Label(0, v) == if v == 0 then 0 else UNSEEN
    {
      LabelIsDist(g, 0, v);
      assert v == 0 ==> g.IsDist(0, v);
    }
  }

  lemma {:induction false} EccentricityFrom(g: Csr, k: nat, v: nat) returns (e: nat)
    requires g.Valid() && g.IsDist(k, v)
    ensures g.IsEccentricity(e)
    decreases g.nv - k
  {
    DistBound(g, k, v);
    if w: nat, d: nat :| g.IsDist(d, w) && d > k {
      DistBound(g, d, w);
      e := EccentricityFrom(g, d, w);
    } else {
      e := k;
    }
  }

  /** Every graph has an eccentricity, smaller than its number of vertices. */
  lemma EccentricityExists(g: Csr) returns (e: nat)
    requires g.Valid()
    ensures g.IsEccentricity(e) && e < g.nv
  {
    assert g.IsDist(0, 0);
    e := EccentricityFrom(g, 0, 0);
    var v: nat :| v < g.nv && g.IsDist(e, v);
    DistBound(g, e, v);
  }

  /** Any eccentricity is smaller than the number of vertices. */
  lemma EccentricityBound(g: Csr, e: nat)
    requires g.Valid() && g.IsEccentricity(e)
    ensures e < g.nv
  {
    var v: nat :| v < g.nv && g.IsDist(e, v);
    DistBound(g, e, v);
  }

  /** There are no gaps: every distance up to the eccentricity is taken by some vertex. */
  lemma {:induction false} NoGaps(g: Csr, d: nat, v: nat, k: nat) returns (w: nat)
    requires g.Valid() && g.IsDist(d, v) && k <= d
    ensures w < g.nv && g.IsDist(k, w)
  {
    DistBound(g, d, v);
    if k == d {
      w := v;
    } else {
      var u := DistPred(g, d, v);
      w := NoGaps(g, d - 1, u, k);
    }
  }

  /** Labels up to n are the whole answer exactly when no vertex lies farther away. */
  lemma LabelsComplete(g: Csr, n: nat, e: nat)
    requires g.Valid() && g.IsEccentricity(e)
    ensures g.AreDistances(g.Labels(n)) <==> e <= n
  {
    var lev := g.Labels(n);
    if e <= n {
      forall v: nat | v < g.nv
        ensures if exists d: nat :: g.IsDist(d, v) then g.IsDist(lev[v], v) else lev[v] == UNSEEN
      {
        LabelIsDist(g, n, v);
      }
    } else {
      var v: nat :| v < g.nv && g.IsDist(e, v);
      LabelIsDist(g, n, v);
      DistBound(g, e, v);
      assert !g.IsDist(lev[v], v);
    }
  }

  /** The answer is unique, so any two algorithms that meet it agree bit for bit. */
  lemma DistancesUnique(g: Csr, a: seq<word>, b: seq<word>)
    requires g.Valid() && g.AreDistances(a) && g.AreDistances(b)
    ensures a == b
  {
  }
}
