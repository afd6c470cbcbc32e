/**
 * The grid graph the wall generator works on (WallGenerator.ts/.js): nodes
 * 0..15 are the tiles, node r * 4 + c for tile (r, c), and an edge joins two
 * orthogonally adjacent tiles. Reachability is stated through closed sets: a
 * node set is closed under an edge list when no edge has exactly one end in
 * it, and the component of a node is the least closed set containing it.
 */
module Graphs {
  import opened Grid

  datatype Edge = Edge(r1: int, c1: int, r2: int, c2: int)

  /** The node numbers generate computes for an edge's two ends. */
  function U(e: Edge): int {
    e.r1 * 4 + e.c1
  }

  function V(e: Edge): int {
    e.r2 * 4 + e.c2
  }

  const Nodes: set<int> := set n | 0 <= n < 16

  predicate NodeEdges(edges: seq<Edge>) {
    forall e | e in edges :: 0 <= U(e) < 16 && 0 <= V(e) < 16
  }

  predicate Distinct<T(==)>(s: seq<T>) {
    forall i, j | 0 <= i < j < |s| :: s[i] != s[j]
  }

  /** An edge between two orthogonally adjacent tiles, written from its upper / left end. */
  predicate IsInternalEdge(e: Edge) {
    || (e.r1 == e.r2 && e.c2 == e.c1 + 1 && 0 <= e.r1 < 4 && 0 <= e.c1 < 3)
    || (e.c1 == e.c2 && e.r2 == e.r1 + 1 && 0 <= e.r1 < 3 && 0 <= e.c1 < 4)
  }

  /** The edge list getAllInternalEdges builds: 12 row edges, row by row, then 12 column edges. */
  function InternalEdges(): seq<Edge> {
    RowEdges(12) + ColumnEdges(12)
  }

  function RowEdges(n: nat): seq<Edge> {
    seq(n, i => Edge(i / 3, i % 3, i / 3, i % 3 + 1))
  }

  function ColumnEdges(n: nat): seq<Edge> {
    seq(n, i => Edge(i / 4, i % 4, i / 4 + 1, i % 4))
  }

  /**
   * getAllInternalEdges yields 24 distinct edges, exactly the internal edges
   * of the 4x4 grid; the first 12 join (r, c) to (r, c + 1), the last 12 join
   * (r, c) to (r + 1, c).
   */
  lemma InternalEdgesAreGridEdges()
    ensures |InternalEdges()| == 24 && Distinct(InternalEdges())
    ensures forall e :: e in InternalEdges() <==> IsInternalEdge(e)
    ensures forall i | 0 <= i < 12 :: InternalEdges()[i].r1 == InternalEdges()[i].r2
    ensures forall i | 12 <= i < 24 :: InternalEdges()[i].c1 == InternalEdges()[i].c2
    ensures NodeEdges(InternalEdges())
  {
    var es := InternalEdges();
    forall e | IsInternalEdge(e)
      ensures e in es
    {
      if e.r1 == e.r2 {
        assert es[e.r1 * 3 + e.c1] == e;
      } else {
        assert es[12 + e.r1 * 4 + e.c1] == e;
      }
    }
    forall i, j | 0 <= i < j < 24
      ensures es[i] != es[j]
    {
      if j < 12 {
        assert i == es[i].r1 * 3 + es[i].c1 && j == es[j].r1 * 3 + es[j].c1;
      } else if 12 <= i {
        assert i == 12 + es[i].r1 * 4 + es[i].c1 && j == 12 + es[j].r1 * 4 + es[j].c1;
      }
    }
  }

  /** getAllInternalEdges: the two nested loops pushing row edges, then column edges. */
  method GetAllInternalEdges() returns (edges: seq<Edge>)
    ensures edges == InternalEdges()
  {
    edges := [];
    for r := 0 to 4
      invariant edges == RowEdges(r * 3)
    {
      for c := 0 to 3
        invariant edges == RowEdges(r * 3 + c)
      {
        edges := edges + [Edge(r, c, r, c + 1)];
      }
    }
    for r := 0 to 3
      invariant edges == RowEdges(12) + ColumnEdges(r * 4)
    {
      for c := 0 to 4
        invariant edges == RowEdges(12) + ColumnEdges(r * 4 + c)
      {
        edges := edges + [Edge(r, c, r + 1, c)];
      }
    }
  }

  /**
   * shuffle: Fisher-Yates, the swap partner of position i chosen among
   * 0..i. Whatever the choices, the array ends as a permutation of itself.
   */
  method Shuffle<T>(a: array<T>)
    modifies a
    ensures multiset(a[..]) == multiset(old(a[..]))
  {
    var i := a.Length - 1;
    while i > 0
      invariant i < a.Length
      invariant multiset(a[..]) == multiset(old(a[..]))
    {
      var j :| 0 <= j <= i;
      a[i], a[j] := a[j], a[i];
      i := i - 1;
    }
  }

  /** A sequence is duplicate-free exactly when its multiset has no element twice. */
  lemma {:induction false} DistinctMultiset<T>(s: seq<T>)
    ensures Distinct(s) <==> forall x :: multiset(s)[x] <= 1
  {
    if s != [] {
      var t := s[1..];
      assert s == [s[0]] + t;
      DistinctMultiset(t);
      if Distinct(s) {
        assert Distinct(t) by {
          forall i, j | 0 <= i < j < |t|
            ensures t[i] != t[j]
          {
            assert t[i] == s[i + 1] && t[j] == s[j + 1];
          }
        }
      } else {
        var i, j :| 0 <= i < j < |s| && s[i] == s[j];
        if i == 0 {
          assert s[j] in t by { assert t[j - 1] == s[j]; }
          assert multiset(s)[s[0]] == multiset(t)[s[0]] + 1;
        } else {
          assert t[i - 1] == t[j - 1];
          assert !Distinct(t);
          var x :| multiset(t)[x] > 1;
          assert multiset(s)[x] >= multiset(t)[x];
        }
      }
    }
  }

  /** A permutation keeps length, membership and duplicate-freedom. */
  lemma PermutationFacts<T>(s: seq<T>, t: seq<T>)
    requires multiset(s) == multiset(t)
    ensures |s| == |t|
    ensures forall x :: x in s <==> x in t
    ensures Distinct(s) ==> Distinct(t)
  {
    assert |s| == |multiset(s)| == |multiset(t)| == |t|;
    forall x
      ensures x in s <==> x in t
    {
      assert x in s <==> x in multiset(s);
      assert x in t <==> x in multiset(t);
    }
    DistinctMultiset(s);
    DistinctMultiset(t);
  }

  /** No edge of the list has exactly one end in t. */
  predicate Closed(edges: seq<Edge>, t: set<int>) {
    forall e | e in edges :: U(e) in t <==> V(e) in t
  }

  /** s is the component of start: the least closed node set containing it. */
  ghost predicate IsComponent(edges: seq<Edge>, start: int, s: set<int>) {
    && start in s && s <= Nodes && Closed(edges, s)
    && forall t :: start in t && Closed(edges, t) ==> s <= t
  }

  /** Every node is reachable from node 0. */
  ghost predicate ConnectsAll(edges: seq<Edge>) {
    forall t :: 0 in t && Closed(edges, t) ==> Nodes <= t
  }

  lemma ComponentUnique(edges: seq<Edge>, start: int, s: set<int>, s': set<int>)
    requires IsComponent(edges, start, s) && IsComponent(edges, start, s')
    ensures s == s'
  {
  }

  /** A component holds all 16 nodes exactly when the graph connects everything to its start. */
  lemma ComponentSize(edges: seq<Edge>, s: set<int>)
    requires IsComponent(edges, 0, s)
    ensures |s| == 16 <==> ConnectsAll(edges)
    ensures |s| == 16 <==> s == Nodes
  {
    NodesCount();
    if s == Nodes {
      assert ConnectsAll(edges);
    } else {
      var x :| x in Nodes && x !in s;
      assert s <= Nodes - {x};
      assert |s| < 16 by {
        SubsetCount(s, Nodes - {x});
      }
      assert !(Nodes <= s);
    }
  }

  lemma SubsetCount(a: set<int>, b: set<int>)
    requires a <= b
    ensures |a| <= |b|
  {
    assert b == a + (b - a);
    assert a * (b - a) == {};
  }

  lemma NodesCount()
    ensures |Nodes| == 16
  {
    var k := 0;
    var r: set<int> := {};
    while k < 16
      invariant 0 <= k <= 16 && |r| == k
      invariant r == set n | n in Nodes && n < k
    {
      assert (set n | n in Nodes && n < k + 1) == r + {k};
      r := r + {k};
      k := k + 1;
    }
    assert r == Nodes;
  }

  /** The neighbour list getComponent builds for node x, in push order. */
  function AdjList(edges: seq<Edge>, x: int): seq<int> {
    if edges == [] then []
    else
      var e := edges[|edges| - 1];
      AdjList(edges[..|edges| - 1], x)
      + (if U(e) == x then [V(e)] else [])
      + (if V(e) == x then [U(e)] else [])
  }

  lemma {:induction false} AdjSound(edges: seq<Edge>, x: int, t: set<int>)
    requires Closed(edges, t) && x in t
    ensures forall y :: y in AdjList(edges, x) ==> y in t
  {
    if edges != [] {
      AdjSound(edges[..|edges| - 1], x, t);
      assert edges[|edges| - 1] in edges;
    }
  }

  lemma {:induction false} AdjComplete(edges: seq<Edge>, e: Edge)
    requires e in edges
    ensures V(e) in AdjList(edges, U(e)) && U(e) in AdjList(edges, V(e))
  {
    var last := edges[|edges| - 1];
    if e != last {
      var k :| 0 <= k < |edges| && edges[k] == e;
      assert edges[..|edges| - 1][k] == e;
      AdjComplete(edges[..|edges| - 1], e);
    }
  }

  lemma {:induction false} AdjNodes(edges: seq<Edge>, x: int)
    requires NodeEdges(edges)
    ensures forall y :: y in AdjList(edges, x) ==> 0 <= y < 16
  {
    if edges != [] {
      assert NodeEdges(edges[..|edges| - 1]) by {
        forall e | e in edges[..|edges| - 1] ensures e in edges { }
      }
      AdjNodes(edges[..|edges| - 1], x);
      assert edges[|edges| - 1] in edges;
    }
  }

  /** The adjacency-list loop of getComponent. */
  method Adjacency(edges: seq<Edge>) returns (adj: array<seq<int>>)
    requires NodeEdges(edges)
    ensures fresh(adj) && adj.Length == 16
    ensures forall x | 0 <= x < 16 :: adj[x] == AdjList(edges, x)
  {
    adj := new seq<int>[16](_ => []);
    for k := 0 to |edges|
      invariant forall x | 0 <= x < 16 :: adj[x] == AdjList(edges[..k], x)
    {
      var e := edges[k];
      assert edges[..k + 1][..k] == edges[..k];
      var u, v := U(e), V(e);
      adj[u] := adj[u] + [v];
      adj[v] := adj[v] + [u];
    }
    assert edges[..|edges|] == edges;
  }

  /**
   * The inner loop of the search: mark every unvisited neighbour and queue
   * it, in neighbour order.
   */
  method VisitNeighbours(nbrs: seq<int>, visited: set<int>, q: seq<int>) returns (visited': set<int>, q': seq<int>)
    requires forall x :: x in q ==> x in visited
    requires Distinct(q)
    ensures visited' == visited + (set y | y in nbrs)
    ensures forall x :: x in q' <==> x in q || (x in nbrs && x !in visited)
    ensures Distinct(q')
    ensures visited' == visited ==> q' == q
  {
    visited', q' := visited, q;
    for j := 0 to |nbrs|
      invariant visited' == visited + (set y | y in nbrs[..j])
      invariant forall x :: x in q' <==> x in q || (x in nbrs[..j] && x !in visited)
      invariant forall x :: x in q' ==> x in visited'
      invariant Distinct(q')
      invariant visited' == visited ==> q' == q
    {
      assert nbrs[..j + 1] == nbrs[..j] + [nbrs[j]];
      var n := nbrs[j];
      if n !in visited' {
        visited' := visited' + {n};
        q' := q' + [n];
      }
    }
    assert nbrs[..|nbrs|] == nbrs;
  }

  /**
   * getComponent: build the adjacency lists, then breadth-first search from
   * start. The result is exactly the set of nodes reachable from start.
   */
  method GetComponent(edges: seq<Edge>, start: int) returns (visited: set<int>)
    requires NodeEdges(edges) && 0 <= start < 16
    ensures IsComponent(edges, start, visited)
  {
    var adj := Adjacency(edges);
    forall x | 0 <= x < 16
      ensures forall y :: y in adj[x] ==> 0 <= y < 16
    {
      AdjNodes(edges, x);
    }
    visited := {start};
    var q := [start];
    while q != []
      invariant forall x | 0 <= x < 16 :: adj[x] == AdjList(edges, x)
      invariant visited <= Nodes && start in visited
      invariant forall x :: x in q ==> x in visited
      invariant Distinct(q)
      invariant forall x :: x in visited && x !in q ==> forall y :: y in adj[x] ==> y in visited
      invariant forall t :: start in t && Closed(edges, t) ==> visited <= t
      decreases Nodes - visited, |q|
    {
      var curr := q[0];
      assert 0 <= curr < 16 by { assert curr in Nodes; }
      q := q[1..];
      forall t | start in t && Closed(edges, t)
        ensures forall y :: y in adj[curr] ==> y in t
      {
        AdjSound(edges, curr, t);
      }
      visited, q := VisitNeighbours(adj[curr], visited, q);
    }
    forall e | e in edges
      ensures U(e) in visited <==> V(e) in visited
    {
      AdjComplete(edges, e);
    }
  }

  /** An internal edge into node n from a smaller node: from the left, or from above in column 0. */
  function EdgeInto(n: int): (e: Edge)
    requires 1 <= n < 16
    ensures IsInternalEdge(e) && V(e) == n && 0 <= U(e) < n
  {
    var r, c := n / 4, n % 4;
    assert n == 4 * r + c;
    if c > 0 then Edge(r, c - 1, r, c) else Edge(r - 1, c, r, c)
  }

  /** The grid graph is connected: any edge list holding every internal edge connects all 16 nodes. */
  lemma GridConnected(edges: seq<Edge>)
    requires forall e :: IsInternalEdge(e) ==> e in edges
    ensures ConnectsAll(edges)
  {
    forall t | 0 in t && Closed(edges, t)
      ensures Nodes <= t
    {
      var n := 1;
      while n < 16
        invariant 1 <= n <= 16
        invariant forall m | 0 <= m < n :: m in t
      {
        var e := EdgeInto(n);
        assert U(e) in t;
        n := n + 1;
      }
    }
  }
}
