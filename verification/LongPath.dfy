/** A graph on which the board's launch cap shows: the path 0 - 1 - ... - (n - 1), a tree the host's edge generator
    can draw (it joins every vertex v > 0 to some vertex below it). */
module LongPath {
  import opened Words
  import opened Graphs
  import opened CsrBuild
  import opened BfsHost

  /** The edges in the order the generator lists them: v - 1 to v, then v to v - 1. */
  function Sources(n: nat): (s: seq<nat>)
    ensures |s| == if n <= 1 then 0 else 2 * (n - 1)
  {
    if n <= 1 then [] else Sources(n - 1) + [n - 2, n - 1]
  }

  function Targets(n: nat): (s: seq<nat>)
    ensures |s| == if n <= 1 then 0 else 2 * (n - 1)
  {
    if n <= 1 then [] else Targets(n - 1) + [n - 1, n - 2]
  }

  predicate Adjacent(u: nat, v: nat) {
    u + 1 == v || v + 1 == u
  }

  ghost predicate Listed(n: nat, u: nat, v: nat) {
    exists i :: 0 <= i < |Sources(n)| && Sources(n)[i] == u && Targets(n)[i] == v
  }

  lemma {:induction false} ListedIff(n: nat, u: nat, v: nat)
    ensures Listed(n, u, v) <==> u < n && v < n && Adjacent(u, v)
  {
    if n > 1 {
      ListedIff(n - 1, u, v);
      var k := |Sources(n - 1)|;
      assert Sources(n)[k] == n - 2 && Targets(n)[k] == n - 1;
      assert Sources(n)[k + 1] == n - 1 && Targets(n)[k + 1] == n - 2;
      if Listed(n - 1, u, v) {
        var i :| 0 <= i < k && Sources(n - 1)[i] == u && Targets(n - 1)[i] == v;
        assert Sources(n)[i] == u && Targets(n)[i] == v;
      }
      if Listed(n, u, v) {
        var i :| 0 <= i < k + 2 && Sources(n)[i] == u && Targets(n)[i] == v;
        if i < k {
          assert Sources(n - 1)[i] == u && Targets(n - 1)[i] == v;
        }
      }
    }
  }

  lemma EdgesInRange(n: nat)
    ensures forall i | 0 <= i < |Sources(n)| :: Sources(n)[i] < n && Targets(n)[i] < n
  {
    forall i | 0 <= i < |Sources(n)|
      ensures Sources(n)[i] < n && Targets(n)[i] < n
    {
      ListedIff(n, Sources(n)[i], Targets(n)[i]);
    }
  }

  ghost predicate IsPath(g: Csr) {
    g.Valid() && forall u: nat, v: nat | u < g.nv :: g.Edge(u, v) <==> v < g.nv && Adjacent(u, v)
  }

  /** A walk of n edges gets no further than vertex n. */
  lemma {:induction false} WalkReach(g: Csr, n: nat, v: nat)
    requires IsPath(g) && g.Walk(n, v)
    ensures v <= n
  {
    if n > 0 {
      var u: nat :| g.Walk(n - 1, u) && g.Edge(u, v);
      WalkReach(g, n - 1, u);
    }
  }

  lemma {:induction false} WalkAlong(g: Csr, v: nat)
    requires IsPath(g) && v < g.nv
    ensures g.Walk(v, v)
  {
    if v > 0 {
      WalkAlong(g, v - 1);
      assert g.Edge(v - 1, v);
    }
  }

  /** Vertex v is at distance v, so the eccentricity of the path is one less than its number of vertices. */
  lemma PathEccentricity(g: Csr)
    requires IsPath(g)
    ensures g.IsEccentricity(g.nv - 1)
  {
    forall v: nat | v < g.nv
      ensures g.IsDist(v, v)
    {
      WalkAlong(g, v);
      forall k: nat | k < v
        ensures !g.Walk(k, v)
      {
        if g.Walk(k, v) {
          WalkReach(g, k, v);
        }
      }
    }
    forall v: nat, d: nat | g.IsDist(d, v)
      ensures d <= g.nv - 1
    {
      DistBound(g, d, v);
    }
    assert g.IsDist(g.nv - 1, g.nv - 1);
  }

  /** The host's counting sort on the path's edge list. */
  method BuildPath(n: nat) returns (g: Csr)
    requires 0 < n && 4 * n < MOD32
    ensures g.nv == n && IsPath(g) && g.IsEccentricity(n - 1)
  {
    var eu, ev := Sources(n), Targets(n);
    EdgesInRange(n);
    var rowptr, queue, col := new nat[n + 1], new nat[n], new nat[|eu|];
    BuildCsr(n, eu, ev, rowptr, queue, col);
    g := Csr(n, rowptr[..], col[..]);
    CsrMeaning(n, eu, ev, rowptr[..], col[..]);
    forall u: nat, v: nat | u < n
      ensures g.Edge(u, v) <==> v < n && Adjacent(u, v)
    {
      ListedIff(n, u, v);
    }
    PathEccentricity(g);
  }

  /** The board's comparison on the path: it fails from 66 vertices on. */
  method ComparePath(n: nat) returns (same: bool)
    requires 0 < n && 4 * n < MOD32
    ensures same <==> n <= 65
  {
    var g := BuildPath(n);
    var lev, rlev, queue := new word[n], new word[n], new nat[n];
    same := CompareOnBoard(g, lev, rlev, queue, n - 1);
  }
}
