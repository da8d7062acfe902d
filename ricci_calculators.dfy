/**
 Forman-Ricci and Ollivier-Ricci curvature of the edges of a weighted
 undirected graph (experiments/ricci_calculators.py).

 The graph's attribute maps become typed maps: `weight` on edges, `weight` on
 vertices, and the two curvature attributes `forman` and `ollivier` on edges.
 A lookup of a missing attribute, which raises KeyError in the source, is
 modelled as a failed outcome. Library calls whose code is not part of this
 model (np.sqrt, networkx's floyd_warshall_numpy, POT's emd2) are passed in as
 functions.
 */
module RicciCalculators {
  import opened Graphs

  datatype Option<T> = None | Some(value: T)

  type EdgeWeights = map<EdgeKey, real>
  type NodeWeights = map<nat, real>

  /** The distance matrix produced from the graph's structure and edge weights
      (floyd_warshall_numpy). */
  type ShortestPaths = (Adjacency, EdgeWeights) -> seq<seq<real>>

  /** The minimal transport cost between two mass vectors under a cost matrix
      (ot.emd2). */
  type Transport = (seq<real>, seq<real>, seq<seq<real>>) -> real

  /** What the model relies on about np.sqrt: it is positive on positive
      arguments (so the Forman terms never divide by zero) and maps 1 to 1. */
  ghost predicate IsSqrt(sqrt: real -> real) {
    && (forall x :: 0.0 < x ==> 0.0 < sqrt(x))
    && sqrt(1.0) == 1.0
  }

  /** Every edge weight present is strictly positive: the calculators divide
      by edge weights, and the caller guarantees this. */
  ghost predicate PositiveWeights(ew: EdgeWeights) {
    forall k :: k in ew ==> ew[k] > 0.0
  }

  // ---------------------------------------------------------------------
  // _fix_graph (lines 7-17)
  // ---------------------------------------------------------------------

  /** The edge weights after `_fix_graph`: every edge gets weight 1 when no
      edge has a weight; otherwise the map is left as it is. */
  function FixEdgeWeights(adj: Adjacency, ew: EdgeWeights): (fixed: EdgeWeights)
    ensures forall k :: k in ew ==> k in fixed && fixed[k] == ew[k]
    ensures fixed.Keys <= ew.Keys + EdgeKeys(adj)
  {
    if ew == map[] then map e | e in EdgeKeys(adj) :: 1.0 else ew
  }

  /** The node weights after `_fix_graph`, by the same all-or-nothing rule
      over the vertices 0 .. n-1. */
  function FixNodeWeights(n: nat, nw: NodeWeights): (fixed: NodeWeights)
    ensures forall v :: v in nw ==> v in fixed && fixed[v] == nw[v]
    ensures forall v :: v in fixed ==> v in nw || v < n
  {
    if nw == map[] then map v | v in Vertices(n) :: 1.0 else nw
  }

  // ---------------------------------------------------------------------
  // _forman_edge (lines 20-36)
  // ---------------------------------------------------------------------

  /** Every attribute `_forman_edge` reads for edge (v1, v2) is present: the
      edge's weight, both endpoint weights, and the weight of every other edge
      at either endpoint. Otherwise the source raises KeyError. */
  predicate FormanReady(adj: Adjacency, ew: EdgeWeights, nw: NodeWeights, v1: nat, v2: nat) {
    && Key(v1, v2) in ew && v1 in nw && v2 in nw
    && v1 < |adj| && v2 < |adj|
    && (forall j :: 0 <= j < |adj[v1]| && adj[v1][j] != v2 ==> Key(v1, adj[v1][j]) in ew)
    && (forall j :: 0 <= j < |adj[v2]| && adj[v2][j] != v1 ==> Key(v2, adj[v2][j]) in ew)
  }

  /** The sum subtracted for one endpoint `v` (weight `wv`) of an edge of
      weight `we`: wv / sqrt(we * w(v, n)) over the first `k` neighbours n of
      v, skipping the edge's far endpoint `other`. */
  function Penalty(ew: EdgeWeights, sqrt: real -> real, we: real, wv: real, v: nat, other: nat, nbrs: seq<nat>, k: nat): real
    requires IsSqrt(sqrt) && PositiveWeights(ew) && 0.0 < we
    requires k <= |nbrs|
    requires forall j :: 0 <= j < k && nbrs[j] != other ==> Key(v, nbrs[j]) in ew
  {
    if k == 0 then 0.0
    else
      Penalty(ew, sqrt, we, wv, v, other, nbrs, k - 1)
      + if nbrs[k - 1] == other then 0.0 else PenaltyTerm(ew, sqrt, we, wv, v, nbrs[k - 1])
  }

  /** The term wv / sqrt(we * w(v, n)) for one neighbour n of v. */
  function PenaltyTerm(ew: EdgeWeights, sqrt: real -> real, we: real, wv: real, v: nat, n: nat): real
    requires IsSqrt(sqrt) && PositiveWeights(ew) && 0.0 < we
    requires Key(v, n) in ew
  {
    assert 0.0 < we * ew[Key(v, n)];
    wv / sqrt(we * ew[Key(v, n)])
  }

  /** The Forman-Ricci formula once the two penalties are known:
      ((wv1 + wv2) / we - p1 - p2) * we. */
  function FormanCombine(wv1: real, wv2: real, we: real, p1: real, p2: real): real
    requires we != 0.0
  {
    ((wv1 + wv2) / we - p1 - p2) * we
  }

  /** Subtracting the penalties one after the other from the start value and
      then scaling by we gives the formula. */
  lemma {:induction false} FormanCombineSteps(wv1: real, wv2: real, we: real, f: real, g: real, h: real)
    requires we != 0.0
    requires f == (wv1 + wv2) / we
    ensures FormanCombine(wv1, wv2, we, f - g, g - h) == h * we
  {
  }

  /** Forman-Ricci curvature of edge (v1, v2), with the penalties of both
      endpoints. */
  function FormanValue(adj: Adjacency, ew: EdgeWeights, nw: NodeWeights, sqrt: real -> real, v1: nat, v2: nat): real
    requires IsSqrt(sqrt) && PositiveWeights(ew)
    requires FormanReady(adj, ew, nw, v1, v2)
  {
    var we := ew[Key(v1, v2)];
    FormanCombine(nw[v1], nw[v2], we,
                  Penalty(ew, sqrt, we, nw[v1], v1, v2, adj[v1], |adj[v1]|),
                  Penalty(ew, sqrt, we, nw[v2], v2, v1, adj[v2], |adj[v2]|))
  }

  /** The curvature is what `_forman_edge` computes step by step: the start
      value `f`, less the penalty at v1 (giving `g`), less the penalty at v2
      (giving `h`), times the edge weight. */
  lemma {:induction false} FormanValueOf(adj: Adjacency, ew: EdgeWeights, nw: NodeWeights, sqrt: real -> real, v1: nat, v2: nat,
                                         we: real, f: real, g: real, h: real)
    requires IsSqrt(sqrt) && PositiveWeights(ew)
    requires FormanReady(adj, ew, nw, v1, v2)
    requires we == ew[Key(v1, v2)]
    requires f == (nw[v1] + nw[v2]) / we
    requires g == f - Penalty(ew, sqrt, we, nw[v1], v1, v2, adj[v1], |adj[v1]|)
    requires h == g - Penalty(ew, sqrt, we, nw[v2], v2, v1, adj[v2], |adj[v2]|)
    ensures FormanValue(adj, ew, nw, sqrt, v1, v2) == h * we
  {
    FormanCombineSteps(nw[v1], nw[v2], we, f, g, h);
  }

  ghost predicate AllFormanReady(adj: Adjacency, ew: EdgeWeights, nw: NodeWeights) {
    forall e :: e in EdgeKeys(adj) ==> FormanReady(adj, ew, nw, e.0, e.1)
  }

  /** Writing one entry over a merge writes it into the right operand. */
  lemma MergeUpdate(start: map<EdgeKey, real>, m: map<EdgeKey, real>, e: EdgeKey, x: real)
    ensures (start + m)[e := x] == start + m[e := x]
  {
  }

  /** The `forman` attribute of every edge in `es`. */
  ghost function FormanOn(adj: Adjacency, ew: EdgeWeights, nw: NodeWeights, sqrt: real -> real, es: set<EdgeKey>): map<EdgeKey, real>
    requires IsSqrt(sqrt) && PositiveWeights(ew)
    requires forall e :: e in es ==> FormanReady(adj, ew, nw, e.0, e.1)
  {
    map e | e in es :: FormanValue(adj, ew, nw, sqrt, e.0, e.1)
  }

  /** Writing the `forman` attribute of one more edge. */
  lemma {:induction false} FormanOnAdd(adj: Adjacency, ew: EdgeWeights, nw: NodeWeights, sqrt: real -> real, es: set<EdgeKey>, e: EdgeKey)
    requires IsSqrt(sqrt) && PositiveWeights(ew)
    requires forall x :: x in es ==> FormanReady(adj, ew, nw, x.0, x.1)
    requires FormanReady(adj, ew, nw, e.0, e.1)
    ensures FormanOn(adj, ew, nw, sqrt, es + {e})
            == FormanOn(adj, ew, nw, sqrt, es)[e := FormanValue(adj, ew, nw, sqrt, e.0, e.1)]
  {
  }

  /** Every edge of `es` has all the attributes `_forman_edge` reads. */
  ghost predicate ReadyAlong(adj: Adjacency, ew: EdgeWeights, nw: NodeWeights, es: seq<EdgeKey>) {
    forall j :: 0 <= j < |es| ==> FormanReady(adj, ew, nw, es[j].0, es[j].1)
  }

  /** Every edge visited along `es` is ready. */
  lemma {:induction false} ReadyMembers(adj: Adjacency, ew: EdgeWeights, nw: NodeWeights, es: seq<EdgeKey>)
    requires ReadyAlong(adj, ew, nw, es)
    ensures forall e :: e in Members(es) ==> FormanReady(adj, ew, nw, e.0, e.1)
  {
    forall e | e in Members(es)
      ensures FormanReady(adj, ew, nw, e.0, e.1)
    {
      var j :| 0 <= j < |es| && es[j] == e;
    }
  }

  /** The `forman` attributes written by visiting the edges `es` in order,
      each assignment overriding any earlier one for the same edge. */
  ghost function FormanAlong(adj: Adjacency, ew: EdgeWeights, nw: NodeWeights, sqrt: real -> real,
                             start: map<EdgeKey, real>, es: seq<EdgeKey>): map<EdgeKey, real>
    requires IsSqrt(sqrt) && PositiveWeights(ew)
    requires ReadyAlong(adj, ew, nw, es)
  {
    if es == [] then start
    else
      var e := es[|es| - 1];
      FormanAlong(adj, ew, nw, sqrt, start, es[..|es| - 1])[e := FormanValue(adj, ew, nw, sqrt, e.0, e.1)]
  }

  /** The order of the visit does not matter: the attributes written are
      those of the set of visited edges. */
  lemma {:induction false} FormanAlongIsFormanOn(adj: Adjacency, ew: EdgeWeights, nw: NodeWeights, sqrt: real -> real, start: map<EdgeKey, real>, es: seq<EdgeKey>)
    requires IsSqrt(sqrt) && PositiveWeights(ew)
    requires ReadyAlong(adj, ew, nw, es)
    ensures forall e :: e in Members(es) ==> FormanReady(adj, ew, nw, e.0, e.1)
    ensures FormanAlong(adj, ew, nw, sqrt, start, es) == start + FormanOn(adj, ew, nw, sqrt, Members(es))
  {
    ReadyMembers(adj, ew, nw, es);
    if es != [] {
      var front := es[..|es| - 1];
      var e := es[|es| - 1];
      assert ReadyAlong(adj, ew, nw, front);
      FormanAlongIsFormanOn(adj, ew, nw, sqrt, start, front);
      assert Members(es) == Members(front) + {e};
      FormanOnAdd(adj, ew, nw, sqrt, Members(front), e);
      MergeUpdate(start, FormanOn(adj, ew, nw, sqrt, Members(front)), e, FormanValue(adj, ew, nw, sqrt, e.0, e.1));
    }
  }

  // ---------------------------------------------------------------------
  // _create_mu (lines 39-45)
  // ---------------------------------------------------------------------

  /** The lazy-random-walk mass vector of `vertex`, indexed by vertex label:
      `idleness` at the vertex itself, (1 - idleness) / deg shared by its
      neighbours, 0 elsewhere. None where the source fails: a label that is not
      a vertex, or an isolated vertex (division by zero). */
  function CreateMu(vertex: nat, adj: Adjacency, idleness: real): (mu: Option<seq<real>>)
    ensures mu.Some? <==> vertex < |adj| && |adj[vertex]| > 0
    ensures mu.Some? ==> |mu.value| == |adj| && mu.value[vertex] == idleness
    ensures mu.Some? ==> forall v :: 0 <= v < |adj| && v != vertex && v in adj[vertex] ==>
                           mu.value[v] == (1.0 - idleness) / (|adj[vertex]| as real)
    ensures mu.Some? ==> forall v :: 0 <= v < |adj| && v != vertex && v !in adj[vertex] ==>
                           mu.value[v] == 0.0
  {
    if vertex < |adj| && |adj[vertex]| > 0 then
      var nbrs := adj[vertex];
      var spread := (1.0 - idleness) / (|nbrs| as real);
      var mu := seq(|adj|, v requires 0 <= v < |adj| => if v in nbrs then spread else 0.0);
      Some(mu[vertex := idleness])
    else
      None
  }

  // ---------------------------------------------------------------------
  // ollivier, per-edge value (lines 76-80)
  // ---------------------------------------------------------------------

  /** Ollivier-Ricci curvature of edge e: 1 - wd / weight(e), where wd is the
      transport cost between the mass vectors of e's endpoints. */
  function OllivierValue(adj: Adjacency, ew: EdgeWeights, idleness: real, dist: seq<seq<real>>, emd: Transport, e: EdgeKey): real
    requires WellFormed(adj) && PositiveWeights(ew)
    requires IsEdgeKey(adj, e) && e in ew
  {
    assert Key(e.0, e.1) == e;
    EdgeKeyEndpoints(adj, e.0, e.1);
    var mu1 := CreateMu(e.0, adj, idleness).value;
    var mu2 := CreateMu(e.1, adj, idleness).value;
    1.0 - emd(mu1, mu2, dist) / ew[e]
  }

  /** The `ollivier` attribute of every edge in `es`. */
  ghost function OllivierOn(adj: Adjacency, ew: EdgeWeights, idleness: real, dist: seq<seq<real>>, emd: Transport, es: set<EdgeKey>): map<EdgeKey, real>
    requires WellFormed(adj) && PositiveWeights(ew)
    requires forall e :: e in es ==> IsEdgeKey(adj, e) && e in ew
  {
    map e | e in es :: OllivierValue(adj, ew, idleness, dist, emd, e)
  }

  /** Writing the `ollivier` attribute of one more edge. */
  lemma {:induction false} OllivierOnAdd(adj: Adjacency, ew: EdgeWeights, idleness: real, dist: seq<seq<real>>, emd: Transport, es: set<EdgeKey>, e: EdgeKey)
    requires WellFormed(adj) && PositiveWeights(ew)
    requires forall x :: x in es ==> IsEdgeKey(adj, x) && x in ew
    requires IsEdgeKey(adj, e) && e in ew
    ensures OllivierOn(adj, ew, idleness, dist, emd, es + {e})
            == OllivierOn(adj, ew, idleness, dist, emd, es)[e := OllivierValue(adj, ew, idleness, dist, emd, e)]
  {
  }

  /** Every edge of `es` is an edge of the graph with a weight. */
  ghost predicate WeightedAlong(adj: Adjacency, ew: EdgeWeights, es: seq<EdgeKey>) {
    forall j :: 0 <= j < |es| ==> IsEdgeKey(adj, es[j]) && es[j] in ew
  }

  /** Every edge visited along `es` is a weighted edge of the graph. */
  lemma {:induction false} WeightedMembers(adj: Adjacency, ew: EdgeWeights, es: seq<EdgeKey>)
    requires WeightedAlong(adj, ew, es)
    ensures forall e :: e in Members(es) ==> IsEdgeKey(adj, e) && e in ew
  {
    forall e | e in Members(es)
      ensures IsEdgeKey(adj, e) && e in ew
    {
      var j :| 0 <= j < |es| && es[j] == e;
    }
  }

  /** The `ollivier` attributes written by visiting the edges `es` in order. */
  ghost function OllivierAlong(adj: Adjacency, ew: EdgeWeights, idleness: real, dist: seq<seq<real>>, emd: Transport,
                               start: map<EdgeKey, real>, es: seq<EdgeKey>): map<EdgeKey, real>
    requires WellFormed(adj) && PositiveWeights(ew)
    requires WeightedAlong(adj, ew, es)
  {
    if es == [] then start
    else
      var e := es[|es| - 1];
      OllivierAlong(adj, ew, idleness, dist, emd, start, es[..|es| - 1])[e := OllivierValue(adj, ew, idleness, dist, emd, e)]
  }

  /** The order of the visit does not matter for `ollivier` either. */
  lemma {:induction false} OllivierAlongIsOllivierOn(adj: Adjacency, ew: EdgeWeights, idleness: real, dist: seq<seq<real>>, emd: Transport, start: map<EdgeKey, real>, es: seq<EdgeKey>)
    requires WellFormed(adj) && PositiveWeights(ew)
    requires WeightedAlong(adj, ew, es)
    ensures forall e :: e in Members(es) ==> IsEdgeKey(adj, e) && e in ew
    ensures OllivierAlong(adj, ew, idleness, dist, emd, start, es) == start + OllivierOn(adj, ew, idleness, dist, emd, Members(es))
  {
    WeightedMembers(adj, ew, es);
    if es != [] {
      var front := es[..|es| - 1];
      var e := es[|es| - 1];
      assert WeightedAlong(adj, ew, front);
      OllivierAlongIsOllivierOn(adj, ew, idleness, dist, emd, start, front);
      assert Members(es) == Members(front) + {e};
      OllivierOnAdd(adj, ew, idleness, dist, emd, Members(front), e);
      MergeUpdate(start, OllivierOn(adj, ew, idleness, dist, emd, Members(front)), e, OllivierValue(adj, ew, idleness, dist, emd, e));
    }
  }

  /** The `forman` fold writes only the edges it visits. */
  lemma {:induction false} FormanAlongKeys(adj: Adjacency, ew: EdgeWeights, nw: NodeWeights, sqrt: real -> real, start: map<EdgeKey, real>, es: seq<EdgeKey>)
    requires IsSqrt(sqrt) && PositiveWeights(ew)
    requires ReadyAlong(adj, ew, nw, es)
    ensures forall e :: e in FormanAlong(adj, ew, nw, sqrt, start, es) ==> e in start || e in es
  {
    if es != [] {
      var front := es[..|es| - 1];
      assert ReadyAlong(adj, ew, nw, front);
      FormanAlongKeys(adj, ew, nw, sqrt, start, front);
      assert es == front + [es[|es| - 1]];
    }
  }

  /** The `ollivier` fold writes only the edges it visits. */
  lemma {:induction false} OllivierAlongKeys(adj: Adjacency, ew: EdgeWeights, idleness: real, dist: seq<seq<real>>,
                                            emd: Transport, start: map<EdgeKey, real>, es: seq<EdgeKey>)
    requires WellFormed(adj) && PositiveWeights(ew)
    requires WeightedAlong(adj, ew, es)
    ensures forall e :: e in OllivierAlong(adj, ew, idleness, dist, emd, start, es) ==> e in start || e in es
  {
    if es != [] {
      var front := es[..|es| - 1];
      assert WeightedAlong(adj, ew, front);
      OllivierAlongKeys(adj, ew, idleness, dist, emd, start, front);
      assert es == front + [es[|es| - 1]];
    }
  }

  /** Visiting one more ready edge extends the `forman` fold by that edge. */
  lemma {:induction false} ReadyAlongSnoc(adj: Adjacency, ew: EdgeWeights, nw: NodeWeights, sqrt: real -> real,
                                          start: map<EdgeKey, real>, es: seq<EdgeKey>, e: EdgeKey)
    requires IsSqrt(sqrt) && PositiveWeights(ew)
    requires ReadyAlong(adj, ew, nw, es) && FormanReady(adj, ew, nw, e.0, e.1)
    ensures ReadyAlong(adj, ew, nw, es + [e])
    ensures FormanAlong(adj, ew, nw, sqrt, start, es + [e])
              == FormanAlong(adj, ew, nw, sqrt, start, es)[e := FormanValue(adj, ew, nw, sqrt, e.0, e.1)]
  {
    assert (es + [e])[..|es|] == es;
  }

  /** Visiting one more weighted edge extends the `ollivier` fold by that edge. */
  lemma {:induction false} WeightedAlongSnoc(adj: Adjacency, ew: EdgeWeights, idleness: real, dist: seq<seq<real>>,
                                            emd: Transport, start: map<EdgeKey, real>, es: seq<EdgeKey>, e: EdgeKey)
    requires WellFormed(adj) && PositiveWeights(ew)
    requires WeightedAlong(adj, ew, es) && IsEdgeKey(adj, e) && e in ew
    ensures WeightedAlong(adj, ew, es + [e])
    ensures OllivierAlong(adj, ew, idleness, dist, emd, start, es + [e])
              == OllivierAlong(adj, ew, idleness, dist, emd, start, es)[e := OllivierValue(adj, ew, idleness, dist, emd, e)]
  {
    assert (es + [e])[..|es|] == es;
  }

  /** `written` is what the `forman` loop leaves after writing the first
      `visited` edges of `gr.edges` over `start`; if it stopped early, the
      edge it stopped at is not ready. */
  ghost predicate FormanPrefix(adj: Adjacency, ew: EdgeWeights, nw: NodeWeights, sqrt: real -> real,
                               start: map<EdgeKey, real>, written: map<EdgeKey, real>, visited: nat)
  {
    var es := Edges(adj);
    && IsSqrt(sqrt) && PositiveWeights(ew)
    && visited <= |es|
    && ReadyAlong(adj, ew, nw, es[..visited])
    && (visited < |es| ==> !FormanReady(adj, ew, nw, es[visited].0, es[visited].1))
    && written == FormanAlong(adj, ew, nw, sqrt, start, es[..visited])
  }

  /** The loop gets through every edge exactly when every edge is ready, and
      then it has written the Forman curvature of every edge, whatever the
      order of `gr.edges`. */
  lemma {:induction false} FormanComplete(adj: Adjacency, ew: EdgeWeights, nw: NodeWeights, sqrt: real -> real,
                                          start: map<EdgeKey, real>, written: map<EdgeKey, real>, visited: nat)
    requires FormanPrefix(adj, ew, nw, sqrt, start, written, visited)
    ensures visited == |Edges(adj)| <==> AllFormanReady(adj, ew, nw)
    ensures visited == |Edges(adj)| ==> written == start + FormanOn(adj, ew, nw, sqrt, EdgeKeys(adj))
  {
    var es := Edges(adj);
    ReadyAlongEdges(adj, ew, nw);
    if visited == |es| {
      assert es[..visited] == es;
      FormanAlongIsFormanOn(adj, ew, nw, sqrt, start, es);
      assert Members(es) == EdgeKeys(adj);
    } else {
      assert !ReadyAlong(adj, ew, nw, es);
    }
  }

  /** `written` is what the `ollivier` loop leaves after writing the first
      `visited` edges of `gr.edges` over `start`; if it stopped early, the
      edge it stopped at has no weight. */
  ghost predicate OllivierPrefix(adj: Adjacency, ew: EdgeWeights, idleness: real, dist: seq<seq<real>>, emd: Transport,
                                 start: map<EdgeKey, real>, written: map<EdgeKey, real>, visited: nat)
  {
    var es := Edges(adj);
    && WellFormed(adj) && PositiveWeights(ew)
    && visited <= |es|
    && WeightedAlong(adj, ew, es[..visited])
    && (visited < |es| ==> es[visited] !in ew)
    && written == OllivierAlong(adj, ew, idleness, dist, emd, start, es[..visited])
  }

  /** The loop gets through every edge exactly when every edge has a weight,
      and then it has written the Ollivier-Ricci curvature of every edge,
      whatever the order of `gr.edges`. */
  lemma {:induction false} OllivierComplete(adj: Adjacency, ew: EdgeWeights, idleness: real, dist: seq<seq<real>>, emd: Transport,
                                            start: map<EdgeKey, real>, written: map<EdgeKey, real>, visited: nat)
    requires OllivierPrefix(adj, ew, idleness, dist, emd, start, written, visited)
    ensures visited == |Edges(adj)| <==> EdgeKeys(adj) <= ew.Keys
    ensures visited == |Edges(adj)| ==> written == start + OllivierOn(adj, ew, idleness, dist, emd, EdgeKeys(adj))
  {
    var es := Edges(adj);
    WeightedAlongEdges(adj, ew);
    if visited == |es| {
      assert es[..visited] == es;
      OllivierAlongIsOllivierOn(adj, ew, idleness, dist, emd, start, es);
      assert Members(es) == EdgeKeys(adj);
    } else {
      assert !WeightedAlong(adj, ew, es);
    }
  }

  /** The edge loop of `forman` over `gr.edges`, starting from the attribute
      map `start`. `visited` counts the edges whose attribute was written: the
      loop stops at the first edge that is not ready (KeyError), and `ok`
      says whether it got through all of them. */
  method FormanEdges(adj: Adjacency, ew: EdgeWeights, nw: NodeWeights, sqrt: real -> real,
                     start: map<EdgeKey, real>)
    returns (ok: bool, written: map<EdgeKey, real>, ghost visited: nat)
    requires WeightsOnGraph(adj, ew, nw) && IsSqrt(sqrt) && PositiveWeights(ew)
    ensures ok <==> AllFormanReady(adj, ew, nw)
    ensures ok ==> written == start + FormanOn(adj, ew, nw, sqrt, EdgeKeys(adj))
    ensures FormanPrefix(adj, ew, nw, sqrt, start, written, visited)
    ensures ok <==> visited == |Edges(adj)|
  {
    var edges := Edges(adj);
    written := start;
    for i := 0 to |edges|
      invariant ReadyAlong(adj, ew, nw, edges[..i])
      invariant written == FormanAlong(adj, ew, nw, sqrt, start, edges[..i])
    {
      var e := edges[i];
      var r := FormanEdge(adj, ew, nw, e.0, e.1, sqrt);
      if r.None? {
        FormanComplete(adj, ew, nw, sqrt, start, written, i);
        return false, written, i;
      }
      assert edges[..i + 1] == edges[..i] + [e];
      ReadyAlongSnoc(adj, ew, nw, sqrt, start, edges[..i], e);
      written := written[e := r.value];
    }
    FormanComplete(adj, ew, nw, sqrt, start, written, |edges|);
    return true, written, |edges|;
  }

  /** The body of the `ollivier` loop for edge `e` of the graph: the mass
      vectors of both endpoints, their transport cost `wd`, and the curvature
      1 - wd / weight(e); None when `e` has no weight (KeyError). */
  method OllivierEdge(adj: Adjacency, ew: EdgeWeights, idleness: real, dist: seq<seq<real>>,
                      emd: Transport, e: EdgeKey)
    returns (r: Option<real>)
    requires WellFormed(adj) && PositiveWeights(ew)
    requires IsEdgeKey(adj, e)
    ensures r.Some? <==> e in ew
    ensures r.Some? ==> r.value == OllivierValue(adj, ew, idleness, dist, emd, e)
  {
    assert Key(e.0, e.1) == e;
    EdgeKeyEndpoints(adj, e.0, e.1);
    var mu1 := CreateMu(e.0, adj, idleness).value;
    var mu2 := CreateMu(e.1, adj, idleness).value;
    var wd := emd(mu1, mu2, dist);
    if e !in ew {
      return None;
    }
    return Some(1.0 - wd / ew[e]);
  }

  /** The edge loop of `ollivier` over `gr.edges`, starting from the
      attribute map `start`; it stops at the first edge without a weight. */
  method OllivierEdges(adj: Adjacency, ew: EdgeWeights, idleness: real, dist: seq<seq<real>>,
                       emd: Transport, start: map<EdgeKey, real>)
    returns (ok: bool, written: map<EdgeKey, real>, ghost visited: nat)
    requires WellFormed(adj) && PositiveWeights(ew)
    ensures ok <==> EdgeKeys(adj) <= ew.Keys
    ensures ok ==> written == start + OllivierOn(adj, ew, idleness, dist, emd, EdgeKeys(adj))
    ensures OllivierPrefix(adj, ew, idleness, dist, emd, start, written, visited)
    ensures ok <==> visited == |Edges(adj)|
  {
    var edges := Edges(adj);
    written := start;
    for i := 0 to |edges|
      invariant WeightedAlong(adj, ew, edges[..i])
      invariant written == OllivierAlong(adj, ew, idleness, dist, emd, start, edges[..i])
    {
      var e := edges[i];
      var r := OllivierEdge(adj, ew, idleness, dist, emd, e);
      if r.None? {
        OllivierComplete(adj, ew, idleness, dist, emd, start, written, i);
        return false, written, i;
      }
      assert edges[..i + 1] == edges[..i] + [e];
      WeightedAlongSnoc(adj, ew, idleness, dist, emd, start, edges[..i], e);
      written := written[e := r.value];
    }
    OllivierComplete(adj, ew, idleness, dist, emd, start, written, |edges|);
    return true, written, |edges|;
  }

  /** Visiting `gr.edges` finds every edge ready exactly when all edges are. */
  lemma {:induction false} ReadyAlongEdges(adj: Adjacency, ew: EdgeWeights, nw: NodeWeights)
    ensures ReadyAlong(adj, ew, nw, Edges(adj)) <==> AllFormanReady(adj, ew, nw)
  {
    var es := Edges(adj);
    if ReadyAlong(adj, ew, nw, es) {
      forall e | e in EdgeKeys(adj)
        ensures FormanReady(adj, ew, nw, e.0, e.1)
      {
        var j :| 0 <= j < |es| && es[j] == e;
      }
    }
    if AllFormanReady(adj, ew, nw) {
      forall j | 0 <= j < |es|
        ensures FormanReady(adj, ew, nw, es[j].0, es[j].1)
      {
        assert es[j] in es;
      }
    }
  }

  /** Visiting `gr.edges` finds every edge weighted exactly when all edges are. */
  lemma {:induction false} WeightedAlongEdges(adj: Adjacency, ew: EdgeWeights)
    ensures WeightedAlong(adj, ew, Edges(adj)) <==> EdgeKeys(adj) <= ew.Keys
  {
    var es := Edges(adj);
    if WeightedAlong(adj, ew, es) {
      forall e | e in EdgeKeys(adj)
        ensures e in ew
      {
        var j :| 0 <= j < |es| && es[j] == e;
      }
    }
    if EdgeKeys(adj) <= ew.Keys {
      forall j | 0 <= j < |es|
        ensures IsEdgeKey(adj, es[j]) && es[j] in ew
      {
        assert es[j] in es;
      }
    }
  }

  /** A simple graph whose weights sit on existing edges and vertices. */
  ghost predicate WeightsOnGraph(adj: Adjacency, ew: EdgeWeights, nw: NodeWeights) {
    && WellFormed(adj)
    && ew.Keys <= EdgeKeys(adj)
    && (forall v :: v in nw ==> v < |adj|)
  }

  /** One neighbour loop of `_forman_edge`: subtracts from `f` the penalty
      of every neighbour of `v` other than `other`, or returns None at the
      first such neighbour whose edge has no weight (KeyError). */
  method SubtractPenalties(ew: EdgeWeights, sqrt: real -> real, we: real, wv: real, v: nat, other: nat,
                           nbrs: seq<nat>, f: real)
    returns (r: Option<real>)
    requires IsSqrt(sqrt) && PositiveWeights(ew) && 0.0 < we
    ensures r.Some? <==> forall j :: 0 <= j < |nbrs| && nbrs[j] != other ==> Key(v, nbrs[j]) in ew
    ensures r.Some? ==> r.value == f - Penalty(ew, sqrt, we, wv, v, other, nbrs, |nbrs|)
  {
    var g := f;
    for i := 0 to |nbrs|
      invariant forall j :: 0 <= j < i && nbrs[j] != other ==> Key(v, nbrs[j]) in ew
      invariant g == f - Penalty(ew, sqrt, we, wv, v, other, nbrs, i)
    {
      if nbrs[i] != other {
        if Key(v, nbrs[i]) !in ew {
          return None;
        }
        g := g - PenaltyTerm(ew, sqrt, we, wv, v, nbrs[i]);
      }
    }
    return Some(g);
  }

  /** The last step of `_forman_edge`, `f *= we`: after both neighbour loops
      have run to completion from `f`, the product is the curvature. */
  method ScaleByEdgeWeight(adj: Adjacency, ew: EdgeWeights, nw: NodeWeights, sqrt: real -> real, v1: nat, v2: nat,
                           we: real, f: real, g: real, h: real)
    returns (curvature: real)
    requires IsSqrt(sqrt) && PositiveWeights(ew)
    requires FormanReady(adj, ew, nw, v1, v2)
    requires we == ew[Key(v1, v2)]
    requires f == (nw[v1] + nw[v2]) / we
    requires g == f - Penalty(ew, sqrt, we, nw[v1], v1, v2, adj[v1], |adj[v1]|)
    requires h == g - Penalty(ew, sqrt, we, nw[v2], v2, v1, adj[v2], |adj[v2]|)
    ensures curvature == FormanValue(adj, ew, nw, sqrt, v1, v2)
  {
    FormanValueOf(adj, ew, nw, sqrt, v1, v2, we, f, g, h);
    curvature := h * we;
  }

  /** `_forman_edge`: the Forman-Ricci curvature of edge (v1, v2) of the
      graph with adjacency `adj` and weights `ew`, `nw`, or None where the
      source raises KeyError for a missing weight. */
  method FormanEdge(adj: Adjacency, ew: EdgeWeights, nw: NodeWeights, v1: nat, v2: nat, sqrt: real -> real)
    returns (r: Option<real>)
    requires WeightsOnGraph(adj, ew, nw) && IsSqrt(sqrt) && PositiveWeights(ew)
    ensures r.Some? <==> FormanReady(adj, ew, nw, v1, v2)
    ensures r.Some? ==> r.value == FormanValue(adj, ew, nw, sqrt, v1, v2)
  {
    if Key(v1, v2) !in ew || v1 !in nw || v2 !in nw {
      return None;
    }
    EdgeKeyEndpoints(adj, v1, v2);
    var we := ew[Key(v1, v2)];
    var wv1 := nw[v1];
    var wv2 := nw[v2];
    var f := (wv1 + wv2) / we;
    var g := SubtractPenalties(ew, sqrt, we, wv1, v1, v2, adj[v1], f);
    if g.None? {
      return None;
    }
    var h := SubtractPenalties(ew, sqrt, we, wv2, v2, v1, adj[v2], g.value);
    if h.None? {
      return None;
    }
    var curvature := ScaleByEdgeWeight(adj, ew, nw, sqrt, v1, v2, we, f, g.value, h.value);
    return Some(curvature);
  }


  // ---------------------------------------------------------------------
  // The graph object the functions update in place
  // ---------------------------------------------------------------------

  class Graph {
    var adj: Adjacency
    var edgeWeight: EdgeWeights
    var nodeWeight: NodeWeights
    var forman: map<EdgeKey, real>
    var ollivier: map<EdgeKey, real>

    /** Attributes sit only on existing vertices and edges. */
    ghost predicate Valid()
      reads this
    {
      && WeightsOnGraph(adj, edgeWeight, nodeWeight)
      && forman.Keys <= EdgeKeys(adj)
      && ollivier.Keys <= EdgeKeys(adj)
    }

    constructor (adj: Adjacency, edgeWeight: EdgeWeights, nodeWeight: NodeWeights)
      requires WellFormed(adj)
      requires edgeWeight.Keys <= EdgeKeys(adj)
      requires forall v :: v in nodeWeight ==> v < |adj|
      ensures Valid()
      ensures this.adj == adj && this.edgeWeight == edgeWeight && this.nodeWeight == nodeWeight
      ensures forman == map[] && ollivier == map[]
    {
      this.adj := adj;
      this.edgeWeight := edgeWeight;
      this.nodeWeight := nodeWeight;
      forman := map[];
      ollivier := map[];
    }

    /** `_fix_graph`: fills in unit weights, all or nothing, separately for
        edges and for vertices. */
    method FixGraph()
      requires Valid()
      modifies this`edgeWeight, this`nodeWeight
      ensures Valid()
      ensures edgeWeight == FixEdgeWeights(adj, old(edgeWeight))
      ensures nodeWeight == FixNodeWeights(|adj|, old(nodeWeight))
      ensures adj == old(adj) && forman == old(forman) && ollivier == old(ollivier)
    {
      FillEdgeWeights();
      FillNodeWeights();
    }

    /** The edge half of `_fix_graph`: when no edge has a weight, every edge
        gets weight 1, in `gr.edges` order. */
    method FillEdgeWeights()
      requires Valid()
      modifies this`edgeWeight
      ensures Valid()
      ensures edgeWeight == FixEdgeWeights(adj, old(edgeWeight))
    {
      if edgeWeight == map[] {
        var edges := Edges(adj);
        for i := 0 to |edges|
          modifies this`edgeWeight
          invariant edgeWeight == map e | e in edges[..i] :: 1.0
        {
          assert edges[..i + 1] == edges[..i] + [edges[i]];
          edgeWeight := edgeWeight[edges[i] := 1.0];
        }
        assert edges[..|edges|] == edges;
      }
    }

    /** The vertex half of `_fix_graph`: when no vertex has a weight, every
        vertex gets weight 1. */
    method FillNodeWeights()
      requires Valid()
      modifies this`nodeWeight
      ensures Valid()
      ensures nodeWeight == FixNodeWeights(|adj|, old(nodeWeight))
    {
      if nodeWeight == map[] {
        for v := 0 to |adj|
          modifies this`nodeWeight
          invariant nodeWeight == map u | u in Vertices(v) :: 1.0
        {
          nodeWeight := nodeWeight[v := 1.0];
        }
      }
    }

    /** The loop of `forman`: writes the `forman` attribute of the edges in
        `gr.edges` order; `visited` counts those written before the first
        edge that is not ready, where the loop stops (KeyError). */
    method WriteForman(sqrt: real -> real) returns (ok: bool, ghost visited: nat)
      requires Valid() && IsSqrt(sqrt) && PositiveWeights(edgeWeight)
      modifies this`forman
      ensures Valid()
      ensures FormanPrefix(adj, edgeWeight, nodeWeight, sqrt, old(forman), forman, visited)
      ensures ok <==> visited == |Edges(adj)|
    {
      var written;
      ok, written, visited := FormanEdges(adj, edgeWeight, nodeWeight, sqrt, forman);
      FormanAlongKeys(adj, edgeWeight, nodeWeight, sqrt, forman, Edges(adj)[..visited]);
      assert forall e :: e in Edges(adj)[..visited] ==> e in Edges(adj);
      forman := written;
    }

    /** `forman`: optionally fixes the weights, then writes the `forman`
        attribute of every edge. If every edge is ready, each gets its Forman
        curvature, whatever the order of the visit; otherwise the loop stops
        at the first edge that is not, keeping the attributes of the
        `visited` edges before it. */
    method Forman(fix: bool, sqrt: real -> real) returns (ok: bool, ghost visited: nat)
      requires Valid() && IsSqrt(sqrt) && PositiveWeights(edgeWeight)
      modifies this`edgeWeight, this`nodeWeight, this`forman
      ensures Valid() && PositiveWeights(edgeWeight)
      ensures edgeWeight == if fix then FixEdgeWeights(adj, old(edgeWeight)) else old(edgeWeight)
      ensures nodeWeight == if fix then FixNodeWeights(|adj|, old(nodeWeight)) else old(nodeWeight)
      ensures adj == old(adj) && ollivier == old(ollivier)
      ensures ok <==> AllFormanReady(adj, edgeWeight, nodeWeight)
      ensures ok ==> forman == old(forman) + FormanOn(adj, edgeWeight, nodeWeight, sqrt, EdgeKeys(adj))
      ensures FormanPrefix(adj, edgeWeight, nodeWeight, sqrt, old(forman), forman, visited)
      ensures ok <==> visited == |Edges(adj)|
    {
      if fix {
        FixGraph();
      }
      ok, visited := WriteForman(sqrt);
      FormanComplete(adj, edgeWeight, nodeWeight, sqrt, old(forman), forman, visited);
    }

    /** The loop of `ollivier`: writes the `ollivier` attribute of the edges
        in `gr.edges` order from the distance matrix `dist`; `visited`
        counts those written before the first edge without a weight, where
        the loop stops (KeyError). */
    method WriteOllivier(idleness: real, dist: seq<seq<real>>, emd: Transport) returns (ok: bool, ghost visited: nat)
      requires Valid() && PositiveWeights(edgeWeight)
      modifies this`ollivier
      ensures Valid()
      ensures OllivierPrefix(adj, edgeWeight, idleness, dist, emd, old(ollivier), ollivier, visited)
      ensures ok <==> visited == |Edges(adj)|
    {
      var written;
      ok, written, visited := OllivierEdges(adj, edgeWeight, idleness, dist, emd, ollivier);
      OllivierAlongKeys(adj, edgeWeight, idleness, dist, emd, ollivier, Edges(adj)[..visited]);
      assert forall e :: e in Edges(adj)[..visited] ==> e in Edges(adj);
      ollivier := written;
    }

    /** `ollivier`: optionally fixes the weights, computes the distance matrix
        once, then writes the `ollivier` attribute of every edge. If every
        edge has a weight, each gets its Ollivier-Ricci curvature, whatever
        the order of the visit; otherwise the loop stops at the first edge
        without one, keeping the attributes of the `visited` edges before it. */
    method Ollivier(idleness: real, fix: bool, shortestPaths: ShortestPaths, emd: Transport)
      returns (ok: bool, ghost visited: nat)
      requires Valid() && PositiveWeights(edgeWeight)
      modifies this`edgeWeight, this`nodeWeight, this`ollivier
      ensures Valid() && PositiveWeights(edgeWeight)
      ensures edgeWeight == if fix then FixEdgeWeights(adj, old(edgeWeight)) else old(edgeWeight)
      ensures nodeWeight == if fix then FixNodeWeights(|adj|, old(nodeWeight)) else old(nodeWeight)
      ensures adj == old(adj) && forman == old(forman)
      ensures ok <==> EdgeKeys(adj) <= edgeWeight.Keys
      ensures ok ==> ollivier == old(ollivier)
                       + OllivierOn(adj, edgeWeight, idleness, shortestPaths(adj, edgeWeight), emd, EdgeKeys(adj))
      ensures OllivierPrefix(adj, edgeWeight, idleness, shortestPaths(adj, edgeWeight), emd, old(ollivier), ollivier, visited)
      ensures ok <==> visited == |Edges(adj)|
    {
      if fix {
        FixGraph();
      }
      var dist := shortestPaths(adj, edgeWeight);
      ok, visited := WriteOllivier(idleness, dist, emd);
      OllivierComplete(adj, edgeWeight, idleness, dist, emd, old(ollivier), ollivier, visited);
    }
  }
}
