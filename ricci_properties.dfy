/**
 Properties of the curvature helpers of experiments/ricci_calculators.py that
 relate several calls or hold over all inputs: `_fix_graph` is all or nothing
 and idempotent, a graph without weights gets the combinatorial Forman
 curvature 4 - deg(v1) - deg(v2), the Forman curvature does not depend on the
 orientation of the edge, and `_create_mu` builds a probability vector.
 */
module RicciProperties {
  import opened Graphs
  import opened RicciCalculators

  // ---------------------------------------------------------------------
  // _fix_graph
  // ---------------------------------------------------------------------

  /** Either no edge had a weight and now every edge, and nothing else, has
      weight 1, or the weights are returned untouched. */
  lemma {:induction false} FixEdgeWeightsAllOrNothing(adj: Adjacency, ew: EdgeWeights)
    ensures ew != map[] ==> FixEdgeWeights(adj, ew) == ew
    ensures ew == map[] ==> forall e :: e in FixEdgeWeights(adj, ew) <==> IsEdgeKey(adj, e)
    ensures ew == map[] ==> forall e :: e in FixEdgeWeights(adj, ew) ==> FixEdgeWeights(adj, ew)[e] == 1.0
  {
  }

  /** Either no vertex had a weight and now every vertex, and nothing else,
      has weight 1, or the weights are returned untouched. */
  lemma {:induction false} FixNodeWeightsAllOrNothing(n: nat, nw: NodeWeights)
    ensures nw != map[] ==> FixNodeWeights(n, nw) == nw
    ensures nw == map[] ==> forall v: nat :: v in FixNodeWeights(n, nw) <==> v < n
    ensures nw == map[] ==> forall v :: v in FixNodeWeights(n, nw) ==> FixNodeWeights(n, nw)[v] == 1.0
  {
    if nw == map[] {
      assert FixNodeWeights(n, nw).Keys == Vertices(n);
    }
  }

  /** Fixing the edge weights twice is fixing them once. */
  lemma {:induction false} FixEdgeWeightsIdempotent(adj: Adjacency, ew: EdgeWeights)
    ensures FixEdgeWeights(adj, FixEdgeWeights(adj, ew)) == FixEdgeWeights(adj, ew)
  {
    var fixed := FixEdgeWeights(adj, ew);
    if ew == map[] {
      assert fixed.Keys == EdgeKeys(adj);
    }
  }

  /** Fixing the node weights twice is fixing them once. */
  lemma {:induction false} FixNodeWeightsIdempotent(n: nat, nw: NodeWeights)
    ensures FixNodeWeights(n, FixNodeWeights(n, nw)) == FixNodeWeights(n, nw)
  {
    var fixed := FixNodeWeights(n, nw);
    if nw == map[] {
      assert fixed.Keys == Vertices(n);
    }
  }

  /** The path 0 - 1 - 2. */
  function PathGraph(): Adjacency {
    [[1], [0, 2], [1]]
  }

  lemma {:induction false} PathGraphWellFormed()
    ensures WellFormed(PathGraph())
    ensures EdgeKeys(PathGraph()) == {(0, 1), (1, 2)}
  {
    var adj := PathGraph();
    forall u: nat, v: nat | Adjacent(adj, u, v)
      ensures v < |adj| && v != u && Adjacent(adj, v, u)
    {
      if u == 0 {
        assert adj[0] == [1];
      } else if u == 1 {
        assert adj[1] == [0, 2];
      } else {
        assert adj[2] == [1];
      }
    }
    forall e | IsEdgeKey(adj, e)
      ensures e == (0, 1) || e == (1, 2)
    {
      assert Adjacent(adj, e.0, e.1);
      if e.0 == 0 {
        assert adj[0] == [1];
      } else {
        assert adj[1] == [0, 2];
      }
    }
    assert Adjacent(adj, 0, 1) && Adjacent(adj, 1, 2) by {
      assert adj[0] == [1] && adj[1] == [0, 2];
    }
  }

  lemma {:induction false} PathGraphDegrees()
    ensures |PathGraph()| == 3
    ensures Degree(PathGraph(), 0) == 1 && Degree(PathGraph(), 1) == 2 && Degree(PathGraph(), 2) == 1
  {
  }

  /** The fix does not fill gaps: on the path 0 - 1 - 2 with only edge (0, 1)
      weighted, edge (1, 2) stays without a weight, so the Forman loop cannot
      get through every edge. */
  lemma {:induction false} FixLeavesPartialWeights()
    ensures var ew := map[(0, 1) := 2.0];
            && FixEdgeWeights(PathGraph(), ew) == ew
            && (1, 2) in EdgeKeys(PathGraph()) && (1, 2) !in FixEdgeWeights(PathGraph(), ew)
            && !AllFormanReady(PathGraph(), FixEdgeWeights(PathGraph(), ew), FixNodeWeights(3, map[]))
  {
    PathGraphWellFormed();
    var ew := map[(0, 1) := 2.0];
    assert !FormanReady(PathGraph(), ew, FixNodeWeights(3, map[]), 1, 2);
  }

  // ---------------------------------------------------------------------
  // _forman_edge on a graph without weights
  // ---------------------------------------------------------------------

  /** The number of neighbours among the first `k` of `nbrs` other than
      `other`. */
  function Others(nbrs: seq<nat>, other: nat, k: nat): (count: nat)
    requires k <= |nbrs|
    ensures count <= k
  {
    if k == 0 then 0 else Others(nbrs, other, k - 1) + if nbrs[k - 1] == other then 0 else 1
  }

  /** With unit weights every penalty term is 1: the penalty counts the
      neighbours other than `other`. */
  lemma {:induction false} PenaltyUnit(adj: Adjacency, ew: EdgeWeights, sqrt: real -> real, v: nat, other: nat, k: nat)
    requires IsSqrt(sqrt) && PositiveWeights(ew)
    requires v < |adj| && k <= |adj[v]|
    requires forall j :: 0 <= j < |adj[v]| ==> Key(v, adj[v][j]) in ew && ew[Key(v, adj[v][j])] == 1.0
    ensures Penalty(ew, sqrt, 1.0, 1.0, v, other, adj[v], k) == Others(adj[v], other, k) as real
  {
    if k > 0 {
      PenaltyUnit(adj, ew, sqrt, v, other, k - 1);
      if adj[v][k - 1] != other {
        assert PenaltyTerm(ew, sqrt, 1.0, 1.0, v, adj[v][k - 1]) == 1.0 / sqrt(1.0 * 1.0);
      }
    }
  }

  /** In a list without repeats that contains `other`, all neighbours but
      one are other than `other`. */
  lemma {:induction false} OthersOfDistinct(nbrs: seq<nat>, other: nat, k: nat)
    requires k <= |nbrs|
    requires forall i, j :: 0 <= i < j < |nbrs| ==> nbrs[i] != nbrs[j]
    ensures other in nbrs[..k] ==> Others(nbrs, other, k) == k - 1
    ensures other !in nbrs[..k] ==> Others(nbrs, other, k) == k
  {
    if k > 0 {
      OthersOfDistinct(nbrs, other, k - 1);
      assert nbrs[..k] == nbrs[..k - 1] + [nbrs[k - 1]];
      if nbrs[k - 1] == other {
        assert other !in nbrs[..k - 1];
      }
    }
  }

  /** With unit weights, the penalty of endpoint `v` of edge {v, other}
      is deg(v) - 1. */
  lemma {:induction false} UnitPenalty(adj: Adjacency, sqrt: real -> real, v: nat, other: nat)
    requires WellFormed(adj) && IsSqrt(sqrt)
    requires v < |adj| && other in adj[v]
    ensures PositiveWeights(FixEdgeWeights(adj, map[]))
    ensures forall j :: 0 <= j < |adj[v]| && adj[v][j] != other ==> Key(v, adj[v][j]) in FixEdgeWeights(adj, map[])
    ensures Penalty(FixEdgeWeights(adj, map[]), sqrt, 1.0, 1.0, v, other, adj[v], |adj[v]|) == (|adj[v]| - 1) as real
  {
    var ew := FixEdgeWeights(adj, map[]);
    UnitNeighbourEdges(adj, v);
    PenaltyUnit(adj, ew, sqrt, v, other, |adj[v]|);
    assert adj[v][..|adj[v]|] == adj[v];
    OthersOfDistinct(adj[v], other, |adj[v]|);
  }

  /** On a graph whose edges and vertices all have weight 1 (what `_fix_graph`
      produces from a graph without weights), the Forman curvature of an edge
      is 4 - deg(v1) - deg(v2). */
  lemma {:induction false} FormanUnitWeights(adj: Adjacency, sqrt: real -> real, v1: nat, v2: nat)
    requires WellFormed(adj) && IsSqrt(sqrt)
    requires IsEdgeKey(adj, Key(v1, v2))
    ensures v1 < |adj| && v2 < |adj|
    ensures PositiveWeights(FixEdgeWeights(adj, map[]))
    ensures FormanReady(adj, FixEdgeWeights(adj, map[]), FixNodeWeights(|adj|, map[]), v1, v2)
    ensures FormanValue(adj, FixEdgeWeights(adj, map[]), FixNodeWeights(|adj|, map[]), sqrt, v1, v2)
            == 4.0 - Degree(adj, v1) as real - Degree(adj, v2) as real
  {
    var ew := FixEdgeWeights(adj, map[]);
    var nw := FixNodeWeights(|adj|, map[]);
    EdgeKeyEndpoints(adj, v1, v2);
    UnitPenalty(adj, sqrt, v1, v2);
    UnitPenalty(adj, sqrt, v2, v1);
    assert ew[Key(v1, v2)] == 1.0 && nw[v1] == 1.0 && nw[v2] == 1.0;
    var d1 := |adj[v1]| as real;
    var d2 := |adj[v2]| as real;
    FormanValueOf(adj, ew, nw, sqrt, v1, v2, 1.0, 2.0, 2.0 - (d1 - 1.0), 2.0 - (d1 - 1.0) - (d2 - 1.0));
  }

  /** With unit weights, every edge at `v` has weight 1, and the neighbours
      of `v` are listed without repeats. */
  lemma {:induction false} UnitNeighbourEdges(adj: Adjacency, v: nat)
    requires WellFormed(adj) && v < |adj|
    ensures forall j :: 0 <= j < |adj[v]| ==>
              Key(v, adj[v][j]) in FixEdgeWeights(adj, map[]) && FixEdgeWeights(adj, map[])[Key(v, adj[v][j])] == 1.0
    ensures forall i, j :: 0 <= i < j < |adj[v]| ==> adj[v][i] != adj[v][j]
  {
    forall j | 0 <= j < |adj[v]|
      ensures Key(v, adj[v][j]) in FixEdgeWeights(adj, map[])
    {
      AdjacentHasKey(adj, v, adj[v][j]);
    }
    forall i, j | 0 <= i < j < |adj[v]|
      ensures adj[v][i] != adj[v][j]
    {
      assert Neighbour(adj, v, i) != Neighbour(adj, v, j);
    }
  }

  /** `forman` with `fix` on a graph without weights: every edge is ready and
      gets 4 - deg(v1) - deg(v2). */
  lemma {:induction false} FormanOnUnweightedGraph(adj: Adjacency, sqrt: real -> real)
    requires WellFormed(adj) && IsSqrt(sqrt)
    ensures PositiveWeights(FixEdgeWeights(adj, map[]))
    ensures AllFormanReady(adj, FixEdgeWeights(adj, map[]), FixNodeWeights(|adj|, map[]))
    ensures forall e :: e in EdgeKeys(adj) ==>
              && e.0 < |adj| && e.1 < |adj|
              && FormanOn(adj, FixEdgeWeights(adj, map[]), FixNodeWeights(|adj|, map[]), sqrt, EdgeKeys(adj))[e]
                 == 4.0 - Degree(adj, e.0) as real - Degree(adj, e.1) as real
  {
    forall e | e in EdgeKeys(adj)
      ensures && e.0 < |adj| && e.1 < |adj|
              && FormanReady(adj, FixEdgeWeights(adj, map[]), FixNodeWeights(|adj|, map[]), e.0, e.1)
              && FormanValue(adj, FixEdgeWeights(adj, map[]), FixNodeWeights(|adj|, map[]), sqrt, e.0, e.1)
                 == 4.0 - Degree(adj, e.0) as real - Degree(adj, e.1) as real
    {
      assert Key(e.0, e.1) == e;
      FormanUnitWeights(adj, sqrt, e.0, e.1);
    }
  }

  /** On the path 0 - 1 - 2 without weights, the `forman` attributes sit on
      the two edges and are both 4 - 1 - 2 = 1. */
  lemma {:induction false} FormanPathValues(sqrt: real -> real)
    requires IsSqrt(sqrt)
    ensures PositiveWeights(FixEdgeWeights(PathGraph(), map[]))
    ensures AllFormanReady(PathGraph(), FixEdgeWeights(PathGraph(), map[]), FixNodeWeights(3, map[]))
    ensures var m := FormanOn(PathGraph(), FixEdgeWeights(PathGraph(), map[]), FixNodeWeights(3, map[]), sqrt, EdgeKeys(PathGraph()));
            && m.Keys == {(0, 1), (1, 2)}
            && m[(0, 1)] == 1.0 && m[(1, 2)] == 1.0
  {
    var adj := PathGraph();
    PathGraphWellFormed();
    FormanOnUnweightedGraph(adj, sqrt);
    PathGraphDegrees();
  }

  /** On the path 0 - 1 - 2 without weights both edges get Forman curvature
      4 - 1 - 2 = 1. */
  lemma {:induction false} FormanPathExample(sqrt: real -> real)
    requires IsSqrt(sqrt)
    ensures PositiveWeights(FixEdgeWeights(PathGraph(), map[]))
    ensures AllFormanReady(PathGraph(), FixEdgeWeights(PathGraph(), map[]), FixNodeWeights(3, map[]))
    ensures FormanOn(PathGraph(), FixEdgeWeights(PathGraph(), map[]), FixNodeWeights(3, map[]), sqrt, EdgeKeys(PathGraph()))
            == map[(0, 1) := 1.0, (1, 2) := 1.0]
  {
    FormanPathValues(sqrt);
    TwoEntries(FormanOn(PathGraph(), FixEdgeWeights(PathGraph(), map[]), FixNodeWeights(3, map[]), sqrt, EdgeKeys(PathGraph())), (0, 1), (1, 2));
  }

  /** A map with exactly two keys is the display of its two entries. */
  lemma {:induction false} TwoEntries(m: map<EdgeKey, real>, a: EdgeKey, b: EdgeKey)
    requires m.Keys == {a, b}
    ensures m == map[a := m[a], b := m[b]]
  {
    var d := map[a := m[a], b := m[b]];
    assert d.Keys == m.Keys;
    forall k | k in m.Keys
      ensures d[k] == m[k]
    {
    }
  }

  /** The Forman curvature does not depend on which endpoint comes first. */
  lemma {:induction false} FormanSymmetric(adj: Adjacency, ew: EdgeWeights, nw: NodeWeights, sqrt: real -> real, v1: nat, v2: nat)
    requires IsSqrt(sqrt) && PositiveWeights(ew)
    requires FormanReady(adj, ew, nw, v1, v2)
    ensures FormanReady(adj, ew, nw, v2, v1)
    ensures FormanValue(adj, ew, nw, sqrt, v1, v2) == FormanValue(adj, ew, nw, sqrt, v2, v1)
  {
    assert Key(v1, v2) == Key(v2, v1);
  }

  // ---------------------------------------------------------------------
  // _forman_edge does not depend on the order of the neighbour lists
  // ---------------------------------------------------------------------

  /** Every neighbour in `nbrs` other than `other` has a weighted edge to `v`. */
  ghost predicate PenaltyDefined(ew: EdgeWeights, v: nat, other: nat, nbrs: seq<nat>) {
    forall n :: n in nbrs && n != other ==> Key(v, n) in ew
  }

  /** The amount the neighbour loop subtracts for neighbour `n`. */
  function PenaltyStep(ew: EdgeWeights, sqrt: real -> real, we: real, wv: real, v: nat, other: nat, n: nat): real
    requires IsSqrt(sqrt) && PositiveWeights(ew) && 0.0 < we
    requires n != other ==> Key(v, n) in ew
  {
    if n == other then 0.0 else PenaltyTerm(ew, sqrt, we, wv, v, n)
  }

  /** The penalty over the first `k` neighbours reads only those `k`. */
  lemma {:induction false} PenaltyPrefix(ew: EdgeWeights, sqrt: real -> real, we: real, wv: real, v: nat, other: nat,
                                         s: seq<nat>, t: seq<nat>, k: nat)
    requires IsSqrt(sqrt) && PositiveWeights(ew) && 0.0 < we
    requires PenaltyDefined(ew, v, other, s) && PenaltyDefined(ew, v, other, t)
    requires k <= |s| && k <= |t| && s[..k] == t[..k]
    ensures Penalty(ew, sqrt, we, wv, v, other, s, k) == Penalty(ew, sqrt, we, wv, v, other, t, k)
  {
    if k > 0 {
      assert s[k - 1] == s[..k][k - 1] == t[..k][k - 1] == t[k - 1];
      assert s[..k - 1] == s[..k][..k - 1] == t[..k][..k - 1] == t[..k - 1];
      PenaltyPrefix(ew, sqrt, we, wv, v, other, s, t, k - 1);
    }
  }

  /** The list `s` without its entry at `i`. */
  function Without(s: seq<nat>, i: nat): (r: seq<nat>)
    requires i < |s|
    ensures |r| == |s| - 1
    ensures forall n :: n in r ==> n in s
    ensures multiset(r) == multiset(s) - multiset{s[i]}
  {
    assert s == s[..i] + [s[i]] + s[i + 1..];
    s[..i] + s[i + 1..]
  }

  /** Taking out an entry before the last one keeps the last one last. */
  lemma {:induction false} WithoutFront(s: seq<nat>, i: nat)
    requires i < |s| - 1
    ensures Without(s, i) == Without(s[..|s| - 1], i) + [s[|s| - 1]]
  {
  }

  /** The weights needed for `s` cover every list of its members. */
  lemma {:induction false} DefinedSub(ew: EdgeWeights, v: nat, other: nat, s: seq<nat>, t: seq<nat>)
    requires PenaltyDefined(ew, v, other, s)
    requires forall n :: n in t ==> n in s
    ensures PenaltyDefined(ew, v, other, t)
  {
  }

  /** The penalty over a whole list is that over all but its last entry, plus
      the last entry's term. */
  lemma {:induction false} PenaltyLast(ew: EdgeWeights, sqrt: real -> real, we: real, wv: real, v: nat, other: nat, s: seq<nat>)
    requires IsSqrt(sqrt) && PositiveWeights(ew) && 0.0 < we
    requires PenaltyDefined(ew, v, other, s) && s != []
    ensures PenaltyDefined(ew, v, other, s[..|s| - 1])
    ensures Penalty(ew, sqrt, we, wv, v, other, s, |s|)
            == Penalty(ew, sqrt, we, wv, v, other, s[..|s| - 1], |s| - 1) + PenaltyStep(ew, sqrt, we, wv, v, other, s[|s| - 1])
  {
    assert forall n :: n in s[..|s| - 1] ==> n in s;
    PenaltyPrefix(ew, sqrt, we, wv, v, other, s, s[..|s| - 1], |s| - 1);
  }

  /** Taking neighbour `i` out of the list takes its term out of the penalty. */
  lemma {:induction false} PenaltyRemove(ew: EdgeWeights, sqrt: real -> real, we: real, wv: real, v: nat, other: nat,
                                         s: seq<nat>, i: nat)
    requires IsSqrt(sqrt) && PositiveWeights(ew) && 0.0 < we
    requires PenaltyDefined(ew, v, other, s) && i < |s|
    ensures PenaltyDefined(ew, v, other, Without(s, i))
    ensures Penalty(ew, sqrt, we, wv, v, other, s, |s|)
            == Penalty(ew, sqrt, we, wv, v, other, Without(s, i), |s| - 1) + PenaltyStep(ew, sqrt, we, wv, v, other, s[i])
    decreases |s|
  {
    DefinedSub(ew, v, other, s, Without(s, i));
    PenaltyLast(ew, sqrt, we, wv, v, other, s);
    if i < |s| - 1 {
      PenaltyRemove(ew, sqrt, we, wv, v, other, s[..|s| - 1], i);
      PenaltyRemoveBefore(ew, sqrt, we, wv, v, other, s, i);
    } else {
      assert Without(s, i) == s[..|s| - 1];
    }
  }

  /** The step of `PenaltyRemove` for an entry before the last: the last
      entry's term comes off both sides alike. */
  lemma {:induction false} PenaltyRemoveBefore(ew: EdgeWeights, sqrt: real -> real, we: real, wv: real, v: nat, other: nat,
                                               s: seq<nat>, i: nat)
    requires IsSqrt(sqrt) && PositiveWeights(ew) && 0.0 < we
    requires PenaltyDefined(ew, v, other, s) && i < |s| - 1
    requires PenaltyDefined(ew, v, other, s[..|s| - 1]) && PenaltyDefined(ew, v, other, Without(s[..|s| - 1], i))
    requires Penalty(ew, sqrt, we, wv, v, other, s, |s|)
             == Penalty(ew, sqrt, we, wv, v, other, s[..|s| - 1], |s| - 1) + PenaltyStep(ew, sqrt, we, wv, v, other, s[|s| - 1])
    requires Penalty(ew, sqrt, we, wv, v, other, s[..|s| - 1], |s| - 1)
             == Penalty(ew, sqrt, we, wv, v, other, Without(s[..|s| - 1], i), |s| - 2)
                + PenaltyStep(ew, sqrt, we, wv, v, other, s[..|s| - 1][i])
    ensures PenaltyDefined(ew, v, other, Without(s, i))
    ensures Penalty(ew, sqrt, we, wv, v, other, s, |s|)
            == Penalty(ew, sqrt, we, wv, v, other, Without(s, i), |s| - 1) + PenaltyStep(ew, sqrt, we, wv, v, other, s[i])
  {
    var r := Without(s, i);
    DefinedSub(ew, v, other, s, r);
    WithoutFront(s, i);
    assert r[..|r| - 1] == Without(s[..|s| - 1], i) && r[|r| - 1] == s[|s| - 1];
    PenaltyLast(ew, sqrt, we, wv, v, other, r);
  }

  /** The penalty depends only on which neighbours are listed, with their
      multiplicities, not on the order they were added in. */
  lemma {:induction false} PenaltyPermutation(ew: EdgeWeights, sqrt: real -> real, we: real, wv: real, v: nat, other: nat,
                                              s: seq<nat>, t: seq<nat>)
    requires IsSqrt(sqrt) && PositiveWeights(ew) && 0.0 < we
    requires PenaltyDefined(ew, v, other, s) && multiset(s) == multiset(t)
    ensures PenaltyDefined(ew, v, other, t)
    ensures Penalty(ew, sqrt, we, wv, v, other, s, |s|) == Penalty(ew, sqrt, we, wv, v, other, t, |t|)
    decreases |t|
  {
    MultisetMembers(s, t);
    DefinedSub(ew, v, other, s, t);
    if t == [] {
      assert |s| == |multiset(s)| == 0;
    } else {
      var i := MatchLast(s, t);
      PenaltyRemove(ew, sqrt, we, wv, v, other, s, i);
      PenaltyPermutation(ew, sqrt, we, wv, v, other, Without(s, i), t[..|t| - 1]);
      PenaltyPermutationLast(ew, sqrt, we, wv, v, other, s, t, i);
    }
  }

  /** Lists with the same multiset have the same members. */
  lemma {:induction false} MultisetMembers(s: seq<nat>, t: seq<nat>)
    requires multiset(s) == multiset(t)
    ensures forall n :: n in t ==> n in s
  {
    forall n | n in t
      ensures n in s
    {
      assert n in multiset(t);
    }
  }

  /** The last entry of a permutation `t` of `s` sits at some index `i` of
      `s`, and the rest of `t` is a permutation of `s` without it. */
  lemma {:induction false} MatchLast(s: seq<nat>, t: seq<nat>) returns (i: nat)
    requires multiset(s) == multiset(t) && t != []
    ensures i < |s| && s[i] == t[|t| - 1]
    ensures multiset(Without(s, i)) == multiset(t[..|t| - 1])
  {
    var y := t[|t| - 1];
    assert y in multiset(s);
    i :| 0 <= i < |s| && s[i] == y;
    assert t == t[..|t| - 1] + [y];
  }

  /** The step of `PenaltyPermutation`: entry `i` of `s` is the last entry of
      `t`, and the rest of both lists have equal penalties. */
  lemma {:induction false} PenaltyPermutationLast(ew: EdgeWeights, sqrt: real -> real, we: real, wv: real, v: nat, other: nat,
                                                  s: seq<nat>, t: seq<nat>, i: nat)
    requires IsSqrt(sqrt) && PositiveWeights(ew) && 0.0 < we
    requires t != [] && i < |s| && s[i] == t[|t| - 1]
    requires PenaltyDefined(ew, v, other, s) && PenaltyDefined(ew, v, other, t)
    requires PenaltyDefined(ew, v, other, Without(s, i)) && PenaltyDefined(ew, v, other, t[..|t| - 1])
    requires Penalty(ew, sqrt, we, wv, v, other, s, |s|)
             == Penalty(ew, sqrt, we, wv, v, other, Without(s, i), |s| - 1) + PenaltyStep(ew, sqrt, we, wv, v, other, s[i])
    requires Penalty(ew, sqrt, we, wv, v, other, Without(s, i), |s| - 1)
             == Penalty(ew, sqrt, we, wv, v, other, t[..|t| - 1], |t| - 1)
    ensures Penalty(ew, sqrt, we, wv, v, other, s, |s|) == Penalty(ew, sqrt, we, wv, v, other, t, |t|)
  {
    PenaltyLast(ew, sqrt, we, wv, v, other, t);
  }

  /** The Forman curvature of an edge is the same whatever the order of its
      endpoints' neighbour lists. */
  lemma {:induction false} FormanNeighbourOrder(adj: Adjacency, adj': Adjacency, ew: EdgeWeights, nw: NodeWeights,
                                                sqrt: real -> real, v1: nat, v2: nat)
    requires IsSqrt(sqrt) && PositiveWeights(ew)
    requires FormanReady(adj, ew, nw, v1, v2)
    requires v1 < |adj'| && v2 < |adj'|
    requires multiset(adj'[v1]) == multiset(adj[v1]) && multiset(adj'[v2]) == multiset(adj[v2])
    ensures FormanReady(adj', ew, nw, v1, v2)
    ensures FormanValue(adj', ew, nw, sqrt, v1, v2) == FormanValue(adj, ew, nw, sqrt, v1, v2)
  {
    var we := ew[Key(v1, v2)];
    ReadyDefined(adj, ew, nw, v1, v2);
    PenaltyPermutation(ew, sqrt, we, nw[v1], v1, v2, adj[v1], adj'[v1]);
    PenaltyPermutation(ew, sqrt, we, nw[v2], v2, v1, adj[v2], adj'[v2]);
    DefinedReady(adj', ew, nw, v1, v2);
  }

  /** Listing every vertex's neighbours in another order (adding the same
      edges in another order) changes neither the edges nor the `forman`
      attribute `forman` writes on them. */
  lemma {:induction false} FormanOnNeighbourOrder(adj: Adjacency, adj': Adjacency, ew: EdgeWeights, nw: NodeWeights,
                                                  sqrt: real -> real)
    requires IsSqrt(sqrt) && PositiveWeights(ew)
    requires |adj'| == |adj| && forall v :: 0 <= v < |adj| ==> multiset(adj'[v]) == multiset(adj[v])
    requires AllFormanReady(adj, ew, nw)
    ensures EdgeKeys(adj') == EdgeKeys(adj)
    ensures AllFormanReady(adj', ew, nw)
    ensures FormanOn(adj', ew, nw, sqrt, EdgeKeys(adj')) == FormanOn(adj, ew, nw, sqrt, EdgeKeys(adj))
  {
    forall e: EdgeKey
      ensures IsEdgeKey(adj', e) <==> IsEdgeKey(adj, e)
    {
      if e.0 < |adj| {
        assert e.1 in adj'[e.0] <==> e.1 in multiset(adj'[e.0]);
        assert e.1 in adj[e.0] <==> e.1 in multiset(adj[e.0]);
      }
    }
    assert EdgeKeys(adj') == EdgeKeys(adj);
    forall e | e in EdgeKeys(adj)
      ensures FormanReady(adj', ew, nw, e.0, e.1)
      ensures FormanValue(adj', ew, nw, sqrt, e.0, e.1) == FormanValue(adj, ew, nw, sqrt, e.0, e.1)
    {
      FormanNeighbourOrder(adj, adj', ew, nw, sqrt, e.0, e.1);
    }
  }

  /** Readiness, stated over the neighbours rather than their positions. */
  lemma {:induction false} ReadyDefined(adj: Adjacency, ew: EdgeWeights, nw: NodeWeights, v1: nat, v2: nat)
    requires FormanReady(adj, ew, nw, v1, v2)
    ensures PenaltyDefined(ew, v1, v2, adj[v1]) && PenaltyDefined(ew, v2, v1, adj[v2])
  {
    forall n | n in adj[v1] && n != v2
      ensures Key(v1, n) in ew
    {
      var j :| 0 <= j < |adj[v1]| && adj[v1][j] == n;
    }
    forall n | n in adj[v2] && n != v1
      ensures Key(v2, n) in ew
    {
      var j :| 0 <= j < |adj[v2]| && adj[v2][j] == n;
    }
  }

  /** The converse of `ReadyDefined`, given the weights of the edge and its
      endpoints. */
  lemma {:induction false} DefinedReady(adj: Adjacency, ew: EdgeWeights, nw: NodeWeights, v1: nat, v2: nat)
    requires Key(v1, v2) in ew && v1 in nw && v2 in nw && v1 < |adj| && v2 < |adj|
    requires PenaltyDefined(ew, v1, v2, adj[v1]) && PenaltyDefined(ew, v2, v1, adj[v2])
    ensures FormanReady(adj, ew, nw, v1, v2)
  {
    assert forall j :: 0 <= j < |adj[v1]| ==> adj[v1][j] in adj[v1];
    assert forall j :: 0 <= j < |adj[v2]| ==> adj[v2][j] in adj[v2];
  }

  // ---------------------------------------------------------------------
  // _create_mu
  // ---------------------------------------------------------------------

  /** The sum of the first `k` entries of `s`. */
  function SumTo(s: seq<real>, k: nat): real
    requires k <= |s|
  {
    if k == 0 then 0.0 else SumTo(s, k - 1) + s[k - 1]
  }

  /** The sum of the entries of `s`. */
  function Sum(s: seq<real>): real {
    SumTo(s, |s|)
  }

  /** The labels of `labels` below `k`. */
  function Below(labels: set<nat>, k: nat): (bs: set<nat>)
    ensures forall u :: u in bs <==> u in labels && u < k
  {
    set u | u in labels && u < k
  }

  /** The number of labels of `labels` below `k`, counted one by one. */
  function CountBelow(labels: set<nat>, k: nat): nat {
    if k == 0 then 0 else CountBelow(labels, k - 1) + if k - 1 in labels then 1 else 0
  }

  /** Counting labels below `k` one by one counts the set of them. */
  lemma {:induction false} CountBelowIsCard(labels: set<nat>, k: nat)
    ensures CountBelow(labels, k) == |Below(labels, k)|
  {
    if k == 0 {
      assert Below(labels, k) == {};
    } else {
      CountBelowIsCard(labels, k - 1);
      if k - 1 in labels {
        assert Below(labels, k) == Below(labels, k - 1) + {k - 1};
      } else {
        assert Below(labels, k) == Below(labels, k - 1);
      }
    }
  }

  /** A list without repeats has as many distinct elements as entries. */
  lemma {:induction false} DistinctCount(s: seq<nat>)
    requires forall i, j :: 0 <= i < j < |s| ==> s[i] != s[j]
    ensures |Members<nat>(s)| == |s|
  {
    if s != [] {
      var front := s[..|s| - 1];
      var last := s[|s| - 1];
      DistinctCount(front);
      assert s == front + [last];
      assert last !in Members<nat>(front);
      assert Members<nat>(s) == Members<nat>(front) + {last};
    }
  }

  /** A vector with mass `a` at `vertex`, `share` at each label of `shared`
      and 0 elsewhere: its first `k` entries add up to `a`, if `vertex` is
      among them, plus one share per label of `shared` among them. */
  lemma {:induction false} MassPrefixSum(mu: seq<real>, vertex: nat, shared: set<nat>, a: real, share: real, k: nat)
    requires k <= |mu| && vertex !in shared
    requires forall v :: 0 <= v < |mu| ==> mu[v] == if v == vertex then a else if v in shared then share else 0.0
    ensures SumTo(mu, k) == (if vertex < k then a else 0.0) + (CountBelow(shared, k) as real) * share
  {
    if k > 0 {
      MassPrefixSum(mu, vertex, shared, a, share, k - 1);
      var c := CountBelow(shared, k - 1);
      if k - 1 in shared {
        assert ((c + 1) as real) * share == (c as real) * share + share;
      }
    }
  }

  /** The neighbours of `vertex` are vertices other than `vertex`, without
      repeats, so there are deg(vertex) of them below |adj|. */
  lemma {:induction false} NeighbourCount(adj: Adjacency, vertex: nat)
    requires WellFormed(adj) && vertex < |adj|
    ensures vertex !in Members<nat>(adj[vertex])
    ensures CountBelow(Members<nat>(adj[vertex]), |adj|) == |adj[vertex]|
  {
    var nbrs := adj[vertex];
    var shared := Members<nat>(nbrs);
    assert !Adjacent(adj, vertex, vertex);
    CountBelowIsCard(shared, |adj|);
    assert Below(shared, |adj|) == shared by {
      forall u | u in nbrs
        ensures u < |adj|
      {
        assert Adjacent(adj, vertex, u);
      }
    }
    UnitNeighbourEdges(adj, vertex);
    DistinctCount(nbrs);
  }

  /** The mass vector of `vertex` has `idleness` at the vertex, one share of
      1 - idleness per neighbour, and 0 elsewhere. */
  lemma {:induction false} MuShape(adj: Adjacency, vertex: nat, idleness: real)
    requires WellFormed(adj) && vertex < |adj| && |adj[vertex]| > 0
    ensures CreateMu(vertex, adj, idleness).Some?
    ensures var mu := CreateMu(vertex, adj, idleness).value;
            && |mu| == |adj|
            && forall v :: 0 <= v < |mu| ==>
                 mu[v] == if v == vertex then idleness
                          else if v in Members<nat>(adj[vertex]) then (1.0 - idleness) / (|adj[vertex]| as real)
                          else 0.0
  {
  }

  /** `_create_mu` builds a probability vector: its entries add up to 1. */
  lemma {:induction false} MuSumsToOne(adj: Adjacency, vertex: nat, idleness: real)
    requires WellFormed(adj) && vertex < |adj| && |adj[vertex]| > 0
    ensures CreateMu(vertex, adj, idleness).Some?
    ensures Sum(CreateMu(vertex, adj, idleness).value) == 1.0
  {
    var mu := CreateMu(vertex, adj, idleness).value;
    var d := |adj[vertex]| as real;
    var share := (1.0 - idleness) / d;
    MuShape(adj, vertex, idleness);
    NeighbourCount(adj, vertex);
    MassPrefixSum(mu, vertex, Members<nat>(adj[vertex]), idleness, share, |mu|);
    SharesAddUp(d, 1.0 - idleness);
  }

  /** `d` shares of `m / d` make up `m`. */
  lemma SharesAddUp(d: real, m: real)
    requires d != 0.0
    ensures d * (m / d) == m
  {
  }

  /** For an idleness between 0 and 1, every entry of the mass vector is
      between 0 and 1. */
  lemma {:induction false} MuEntriesBounded(adj: Adjacency, vertex: nat, idleness: real)
    requires vertex < |adj| && |adj[vertex]| > 0
    requires 0.0 <= idleness <= 1.0
    ensures CreateMu(vertex, adj, idleness).Some?
    ensures forall v :: 0 <= v < |adj| ==> 0.0 <= CreateMu(vertex, adj, idleness).value[v] <= 1.0
  {
    var d := |adj[vertex]| as real;
    assert 1.0 <= d;
    assert 0.0 <= (1.0 - idleness) / d <= 1.0 - idleness;
  }
}
