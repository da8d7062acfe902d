/**
 The undirected simple graph the curvature helpers work on, as networkx
 presents it to them: vertices are the labels 0 .. n-1 in insertion order,
 `adj[u]` lists the neighbours of `u` in the order they were added, there are
 no self-loops and no parallel edges, and an edge is stored once under the key
 (smaller endpoint, larger endpoint).
 */
module Graphs {

  type Adjacency = seq<seq<nat>>

  /** An undirected edge, stored as (smaller endpoint, larger endpoint). */
  type EdgeKey = (nat, nat)

  /** The key under which networkx finds the attributes of edge {u, v}. */
  function Key(u: nat, v: nat): (k: EdgeKey)
    ensures k.0 <= k.1
    ensures (k.0 == u && k.1 == v) || (k.0 == v && k.1 == u)
  {
    if u <= v then (u, v) else (v, u)
  }

  /** `v` is listed among the neighbours of vertex `u`. */
  predicate Adjacent(adj: Adjacency, u: nat, v: nat) {
    u < |adj| && v in adj[u]
  }

  /** The `i`-th neighbour of `u`. */
  function Neighbour(adj: Adjacency, u: nat, i: nat): nat
    requires u < |adj| && i < |adj[u]|
  {
    adj[u][i]
  }

  /** A simple undirected graph: neighbours are vertices, no self-loops,
      adjacency is symmetric, and no neighbour is listed twice. */
  ghost predicate WellFormed(adj: Adjacency) {
    && (forall u: nat, v: nat :: Adjacent(adj, u, v) ==> v < |adj| && v != u && Adjacent(adj, v, u))
    && (forall u: nat, i: nat, j: nat :: u < |adj| && i < j < |adj[u]| ==> Neighbour(adj, u, i) != Neighbour(adj, u, j))
  }

  /** The vertex labels 0 .. n-1. */
  function Vertices(n: nat): (vs: set<nat>)
    ensures forall v: nat :: v in vs <==> v < n
  {
    if n == 0 then {}
    else
      var below := Vertices(n - 1);
      assert forall v :: v in below + {n - 1} <==> v in below || v == n - 1;
      below + {n - 1}
  }

  function Degree(adj: Adjacency, v: nat): nat
    requires v < |adj|
  {
    |adj[v]|
  }

  /** `e` is an edge stored under its key: its smaller endpoint first. */
  predicate IsEdgeKey(adj: Adjacency, e: EdgeKey) {
    Adjacent(adj, e.0, e.1) && e.0 < e.1
  }

  /** The edges that `gr.edges` yields while it visits vertex `u` whose
      neighbours are `nbrs`: a neighbour already visited (a smaller label) is
      skipped, since its edge was yielded from the other side. */
  function UpperNeighbours(u: nat, nbrs: seq<nat>): seq<EdgeKey> {
    if nbrs == [] then []
    else (if u < nbrs[0] then [(u, nbrs[0])] else []) + UpperNeighbours(u, nbrs[1..])
  }

  function EdgesFrom(adj: Adjacency, u: nat): seq<EdgeKey>
    decreases |adj| - u
  {
    if u >= |adj| then [] else UpperNeighbours(u, adj[u]) + EdgesFrom(adj, u + 1)
  }

  /** The edges in the order `gr.edges` iterates them; they are exactly the
      edges, each under its key. */
  function Edges(adj: Adjacency): (es: seq<EdgeKey>)
    ensures forall e :: e in es <==> IsEdgeKey(adj, e)
  {
    EdgesFromMembers(adj, 0);
    EdgesFrom(adj, 0)
  }

  /** On a simple graph `gr.edges` yields each edge once. */
  lemma {:induction false} EdgesDistinct(adj: Adjacency)
    requires WellFormed(adj)
    ensures Distinct(Edges(adj))
  {
    EdgesFromDistinct(adj, 0);
  }

  /** The edge set, each edge under its key. */
  function EdgeKeys(adj: Adjacency): (ks: set<EdgeKey>)
    ensures forall e :: e in ks <==> IsEdgeKey(adj, e)
  {
    set e | e in Edges(adj)
  }

  /** The elements of a sequence. */
  function Members<T(!new)>(s: seq<T>): (ms: set<T>)
    ensures forall x :: x in ms <==> x in s
  {
    set x | x in s
  }

  /** No element of `s` is listed twice. */
  predicate Distinct<T(==)>(s: seq<T>) {
    forall i, j :: 0 <= i < j < |s| ==> s[i] != s[j]
  }

  /** Two sequences without repeats and without common elements make one
      without repeats. */
  lemma {:induction false} DistinctConcat<T>(a: seq<T>, b: seq<T>)
    requires Distinct(a) && Distinct(b)
    requires forall x :: x in a ==> x !in b
    ensures Distinct(a + b)
  {
    forall i, j | 0 <= i < j < |a + b|
      ensures (a + b)[i] != (a + b)[j]
    {
      if j < |a| {
        assert (a + b)[i] == a[i] && (a + b)[j] == a[j];
      } else if i < |a| {
        assert (a + b)[i] == a[i] && (a + b)[j] == b[j - |a|];
        assert a[i] in a && b[j - |a|] in b;
      } else {
        assert (a + b)[i] == b[i - |a|] && (a + b)[j] == b[j - |a|];
      }
    }
  }

  lemma {:induction false} UpperNeighboursMembers(u: nat, nbrs: seq<nat>)
    ensures forall e :: e in UpperNeighbours(u, nbrs) <==> e.0 == u && e.1 in nbrs && u < e.1
  {
    if nbrs != [] {
      UpperNeighboursMembers(u, nbrs[1..]);
      assert forall x :: x in nbrs <==> x == nbrs[0] || x in nbrs[1..];
    }
  }

  lemma {:induction false} EdgesFromMembers(adj: Adjacency, u: nat)
    ensures forall e :: e in EdgesFrom(adj, u) <==> IsEdgeKey(adj, e) && u <= e.0
    decreases |adj| - u
  {
    if u < |adj| {
      UpperNeighboursMembers(u, adj[u]);
      EdgesFromMembers(adj, u + 1);
    }
  }

  /** A neighbour list without repeats yields each upper edge once. */
  lemma {:induction false} UpperNeighboursDistinct(u: nat, nbrs: seq<nat>)
    requires Distinct(nbrs)
    ensures Distinct(UpperNeighbours(u, nbrs))
  {
    if nbrs != [] {
      var rest := nbrs[1..];
      assert Distinct(rest) by {
        forall i, j | 0 <= i < j < |rest|
          ensures rest[i] != rest[j]
        {
          assert rest[i] == nbrs[i + 1] && rest[j] == nbrs[j + 1];
        }
      }
      UpperNeighboursDistinct(u, rest);
      UpperNeighboursMembers(u, rest);
      assert nbrs[0] !in rest by {
        forall j | 0 <= j < |rest|
          ensures rest[j] != nbrs[0]
        {
          assert rest[j] == nbrs[j + 1];
        }
      }
      DistinctConcat(if u < nbrs[0] then [(u, nbrs[0])] else [], UpperNeighbours(u, rest));
    }
  }

  /** On a simple graph, the edges yielded from vertex `u` onwards come once
      each: those of `u` start at `u`, the later ones at a larger label. */
  lemma {:induction false} EdgesFromDistinct(adj: Adjacency, u: nat)
    requires WellFormed(adj)
    ensures Distinct(EdgesFrom(adj, u))
    decreases |adj| - u
  {
    if u < |adj| {
      assert Distinct(adj[u]) by {
        forall i, j | 0 <= i < j < |adj[u]|
          ensures adj[u][i] != adj[u][j]
        {
          assert Neighbour(adj, u, i) != Neighbour(adj, u, j);
        }
      }
      UpperNeighboursDistinct(u, adj[u]);
      UpperNeighboursMembers(u, adj[u]);
      EdgesFromDistinct(adj, u + 1);
      EdgesFromMembers(adj, u + 1);
      DistinctConcat(UpperNeighbours(u, adj[u]), EdgesFrom(adj, u + 1));
    }
  }

  /** Both endpoints of a stored edge are adjacent vertices. */
  lemma {:induction false} EdgeKeyEndpoints(adj: Adjacency, u: nat, v: nat)
    requires WellFormed(adj)
    requires IsEdgeKey(adj, Key(u, v))
    ensures u < |adj| && v < |adj| && v in adj[u] && u in adj[v] && u != v
  {
    if u <= v {
      assert Adjacent(adj, u, v);
    } else {
      assert Adjacent(adj, v, u);
    }
  }

  /** Every pair of adjacent vertices is stored under its key. */
  lemma {:induction false} AdjacentHasKey(adj: Adjacency, u: nat, v: nat)
    requires WellFormed(adj)
    requires u < |adj| && v in adj[u]
    ensures IsEdgeKey(adj, Key(u, v))
  {
    assert Adjacent(adj, u, v);
  }
}
