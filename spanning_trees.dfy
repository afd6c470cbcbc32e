/**
 * buildSpanningTree (WallGenerator.ts/.js): Kruskal's algorithm with a
 * union-find over the 16 nodes, path compression in find, and union linking
 * the first root under the second.
 *
 * The specification is the loop run on labels instead of a parent array:
 * every node carries the label of its class, and accepting an edge whose ends
 * carry different labels a and b renames class a to b.
 */
module SpanningTrees {
  import opened Graphs

  function Identity(): seq<int> {
    seq(16, k => k)
  }

  /** Rename every label a to b. */
  function Relabel(l: seq<int>, a: int, b: int): seq<int> {
    seq(|l|, k requires 0 <= k < |l| => if l[k] == a then b else l[k])
  }

  predicate LabelsOk(l: seq<int>) {
    |l| == 16 && forall k | 0 <= k < 16 :: 0 <= l[k] < 16
  }

  /** The labels in use: one per class. */
  function LabelSet(l: seq<int>): set<int>
    requires |l| == 16
  {
    set k | 0 <= k < 16 :: l[k]
  }

  /** The state of Kruskal's loop: the accepted edges, the labels, and which edges were accepted. */
  datatype Forest = Forest(tree: seq<Edge>, labels: seq<int>, accepted: seq<bool>)

  /** Kruskal's loop after the first n edges. */
  function Kruskal(edges: seq<Edge>, n: nat): (f: Forest)
    requires NodeEdges(edges) && n <= |edges|
    ensures LabelsOk(f.labels) && |f.accepted| == n
  {
    if n == 0 then Forest([], Identity(), [])
    else
      var f := Kruskal(edges, n - 1);
      var e := edges[n - 1];
      assert e in edges;
      if f.labels[U(e)] != f.labels[V(e)] then
        Forest(f.tree + [e], Relabel(f.labels, f.labels[U(e)], f.labels[V(e)]), f.accepted + [true])
      else
        Forest(f.tree, f.labels, f.accepted + [false])
  }

  /** The elements of s whose mask bit is set, in order. */
  function Select<T>(s: seq<T>, mask: seq<bool>): seq<T>
    requires |mask| == |s|
  {
    if s == [] then []
    else Select(s[..|s| - 1], mask[..|s| - 1]) + (if mask[|s| - 1] then [s[|s| - 1]] else [])
  }

  ghost predicate IsSubsequence<T>(t: seq<T>, s: seq<T>) {
    exists mask: seq<bool> | |mask| == |s| :: Select(s, mask) == t
  }

  lemma {:induction false} SelectMembers<T>(s: seq<T>, mask: seq<bool>)
    requires |mask| == |s|
    ensures forall x :: x in Select(s, mask) ==> x in s
  {
    if s != [] {
      SelectMembers(s[..|s| - 1], mask[..|s| - 1]);
    }
  }

  /** Every tree edge closes no edge of the classes: all processed edges stay inside one class. */
  ghost predicate EdgesInsideClasses(edges: seq<Edge>, n: nat, l: seq<int>)
    requires NodeEdges(edges) && n <= |edges| && |l| == 16
  {
    forall i | 0 <= i < n :: l[U(edges[i])] == l[V(edges[i])]
  }

  /** Every closed set of the tree is a union of classes. */
  ghost predicate ClassesConnected(tree: seq<Edge>, l: seq<int>)
    requires |l| == 16
  {
    forall t :: Closed(tree, t) ==>
      forall x, y | 0 <= x < 16 && 0 <= y < 16 && l[x] == l[y] :: x in t <==> y in t
  }

  lemma RelabelLabelSet(l: seq<int>, a: int, b: int)
    requires LabelsOk(l) && a in LabelSet(l) && b in LabelSet(l) && a != b
    ensures LabelsOk(Relabel(l, a, b))
    ensures LabelSet(Relabel(l, a, b)) == LabelSet(l) - {a}
  {
    var l' := Relabel(l, a, b);
    forall x | x in LabelSet(l) - {a}
      ensures x in LabelSet(l')
    {
      var k :| 0 <= k < 16 && l[k] == x;
      assert l'[k] == x;
    }
  }

  /** The accepted edges are the input edges selected by the accepted flags. */
  lemma {:induction false} KruskalSelects(edges: seq<Edge>, n: nat)
    requires NodeEdges(edges) && n <= |edges|
    ensures Kruskal(edges, n).tree == Select(edges[..n], Kruskal(edges, n).accepted)
  {
    if n > 0 {
      KruskalSelects(edges, n - 1);
      assert edges[..n][..n - 1] == edges[..n - 1];
      var f := Kruskal(edges, n);
      assert f.accepted[..n - 1] == Kruskal(edges, n - 1).accepted;
    }
  }

  /** Each accepted edge removes exactly one label. */
  lemma {:induction false} KruskalCount(edges: seq<Edge>, n: nat)
    requires NodeEdges(edges) && n <= |edges|
    ensures |Kruskal(edges, n).tree| + |LabelSet(Kruskal(edges, n).labels)| == 16
  {
    if n == 0 {
      assert LabelSet(Identity()) == Nodes by {
        forall x | x in Nodes
          ensures x in LabelSet(Identity())
        {
          assert Identity()[x] == x;
        }
      }
      NodesCount();
    } else {
      KruskalCount(edges, n - 1);
      var g := Kruskal(edges, n - 1);
      var e := edges[n - 1];
      assert e in edges;
      if g.labels[U(e)] != g.labels[V(e)] {
        RelabelLabelSet(g.labels, g.labels[U(e)], g.labels[V(e)]);
      }
    }
  }

  /** Every processed edge has both ends in one class. */
  lemma {:induction false} KruskalInside(edges: seq<Edge>, n: nat)
    requires NodeEdges(edges) && n <= |edges|
    ensures EdgesInsideClasses(edges, n, Kruskal(edges, n).labels)
  {
    if n > 0 {
      KruskalInside(edges, n - 1);
      assert edges[n - 1] in edges;
    }
  }

  /** Every class is connected by tree edges. */
  lemma {:induction false} KruskalConnected(edges: seq<Edge>, n: nat)
    requires NodeEdges(edges) && n <= |edges|
    ensures ClassesConnected(Kruskal(edges, n).tree, Kruskal(edges, n).labels)
  {
    if n > 0 {
      KruskalConnected(edges, n - 1);
      var f := Kruskal(edges, n);
      var g := Kruskal(edges, n - 1);
      var e := edges[n - 1];
      assert e in edges;
      if g.labels[U(e)] != g.labels[V(e)] {
        forall t | Closed(f.tree, t)
          ensures forall x, y | 0 <= x < 16 && 0 <= y < 16 && f.labels[x] == f.labels[y] :: x in t <==> y in t
        {
          assert Closed(g.tree, t);
          assert e in f.tree;
          assert U(e) in t <==> V(e) in t;
        }
      }
    }
  }

  /** The class of a node is closed under the whole input. */
  lemma ClassClosed(edges: seq<Edge>, x: int)
    requires NodeEdges(edges) && 0 <= x < 16
    ensures var l := Kruskal(edges, |edges|).labels;
      Closed(edges, set y | 0 <= y < 16 && l[y] == l[x])
  {
    var l := Kruskal(edges, |edges|).labels;
    KruskalInside(edges, |edges|);
    forall e | e in edges
      ensures U(e) in (set y | 0 <= y < 16 && l[y] == l[x]) <==> V(e) in (set y | 0 <= y < 16 && l[y] == l[x])
    {
      var i :| 0 <= i < |edges| && edges[i] == e;
    }
  }

  /**
   * The result of buildSpanningTree is an acyclic spanning forest of its
   * input: a subsequence of it, whose closed sets (hence whose components)
   * are exactly those of the input, and whose edge count plus component
   * count is 16 (so no edge closes a cycle). Two nodes carry the same label
   * exactly when they are connected by tree edges.
   */
  lemma SpanningForest(edges: seq<Edge>)
    requires NodeEdges(edges)
    ensures var f := Kruskal(edges, |edges|);
      && IsSubsequence(f.tree, edges)
      && (forall t :: Closed(f.tree, t) <==> Closed(edges, t))
      && |f.tree| + |LabelSet(f.labels)| == 16
      && (forall x, s | 0 <= x < 16 && IsComponent(f.tree, x, s) ::
            forall y | 0 <= y < 16 :: y in s <==> f.labels[y] == f.labels[x])
  {
    var f := Kruskal(edges, |edges|);
    KruskalSelects(edges, |edges|);
    KruskalCount(edges, |edges|);
    KruskalInside(edges, |edges|);
    KruskalConnected(edges, |edges|);
    assert edges[..|edges|] == edges;
    SelectMembers(edges, f.accepted);
    forall t
      ensures Closed(f.tree, t) <==> Closed(edges, t)
    {
      if Closed(f.tree, t) {
        forall e | e in edges
          ensures U(e) in t <==> V(e) in t
        {
          var i :| 0 <= i < |edges| && edges[i] == e;
        }
      }
    }
    forall x, s | 0 <= x < 16 && IsComponent(f.tree, x, s)
      ensures forall y | 0 <= y < 16 :: y in s <==> f.labels[y] == f.labels[x]
    {
      var cls := set y | 0 <= y < 16 && f.labels[y] == f.labels[x];
      ClassClosed(edges, x);
      assert s <= cls;
    }
  }

  /**
   * On a shuffled list of the 24 internal edges the tree has exactly 15
   * edges and connects all 16 nodes.
   */
  lemma SpanningTreeOfGrid(edges: seq<Edge>)
    requires multiset(edges) == multiset(InternalEdges())
    ensures NodeEdges(edges)
    ensures |Kruskal(edges, |edges|).tree| == 15
    ensures ConnectsAll(Kruskal(edges, |edges|).tree)
  {
    InternalEdgesAreGridEdges();
    PermutationFacts(InternalEdges(), edges);
    GridConnected(edges);
    SpanningForest(edges);
    OneClass(edges);
  }

  /** On a connected input every node ends with the label of node 0. */
  lemma OneClass(edges: seq<Edge>)
    requires NodeEdges(edges) && ConnectsAll(edges)
    ensures LabelSet(Kruskal(edges, |edges|).labels) == {Kruskal(edges, |edges|).labels[0]}
  {
    var l := Kruskal(edges, |edges|).labels;
    var cls := set y | 0 <= y < 16 && l[y] == l[0];
    ClassClosed(edges, 0);
    assert Nodes <= cls;
    forall z | z in LabelSet(l)
      ensures z == l[0]
    {
      var k :| 0 <= k < 16 && l[k] == z;
      assert k in cls;
    }
  }

  /** The union-find invariant: parent pointers climb strictly in height towards the label, a root. */
  ghost predicate UnionFind(parent: array<int>, lab: seq<int>, h: seq<nat>, bound: nat)
    reads parent
  {
    && parent.Length == 16 && LabelsOk(lab) && |h| == 16
    && forall k | 0 <= k < 16 ::
      && 0 <= parent[k] < 16 && h[k] <= bound
      && (parent[k] != k ==> h[parent[k]] > h[k])
      && (parent[k] == k ==> lab[k] == k)
      && lab[parent[k]] == lab[k]
      && parent[lab[k]] == lab[k]
      && h[lab[k]] >= h[k]
  }

  /** find, with path compression: returns the root of i, which is its label. */
  method Find(parent: array<int>, i: int, ghost lab: seq<int>, ghost h: seq<nat>, ghost bound: nat) returns (r: int)
    requires UnionFind(parent, lab, h, bound) && 0 <= i < 16
    modifies parent
    ensures UnionFind(parent, lab, h, bound) && r == lab[i]
    decreases bound - h[i]
  {
    if parent[i] == i {
      return i;
    }
    assert h[lab[i]] > h[i] by {
      assert h[lab[parent[i]]] >= h[parent[i]];
    }
    r := Find(parent, parent[i], lab, h, bound);
    parent[i] := r;
  }

  /** union: links the root of i under the root of j when they differ. */
  method Union(parent: array<int>, i: int, j: int, ghost lab: seq<int>, ghost h: seq<nat>, ghost bound: nat)
    returns (merged: bool, ghost lab': seq<int>, ghost h': seq<nat>, ghost bound': nat)
    requires UnionFind(parent, lab, h, bound) && 0 <= i < 16 && 0 <= j < 16
    modifies parent
    ensures UnionFind(parent, lab', h', bound')
    ensures merged <==> lab[i] != lab[j]
    ensures lab' == if merged then Relabel(lab, lab[i], lab[j]) else lab
  {
    var rootI := Find(parent, i, lab, h, bound);
    var rootJ := Find(parent, j, lab, h, bound);
    if rootI != rootJ {
      parent[rootI] := rootJ;
      lab' := Relabel(lab, rootI, rootJ);
      h' := h[rootJ := if h[rootJ] > h[rootI] then h[rootJ] else h[rootI] + 1];
      bound' := if bound > h[rootI] then bound + 1 else h[rootI] + 1;
      return true, lab', h', bound';
    }
    return false, lab, h, bound;
  }

  /** buildSpanningTree: run union over the edges in order, keeping the edges that merged two classes. */
  method BuildSpanningTree(edges: seq<Edge>) returns (tree: seq<Edge>)
    requires NodeEdges(edges)
    ensures tree == Kruskal(edges, |edges|).tree
  {
    tree := [];
    var parent := new int[16](k => k);
    ghost var lab, h, bound := Identity(), seq(16, k => 0), 0;
    for n := 0 to |edges|
      invariant UnionFind(parent, lab, h, bound)
      invariant tree == Kruskal(edges, n).tree && lab == Kruskal(edges, n).labels
    {
      var e := edges[n];
      assert e in edges;
      var merged;
      merged, lab, h, bound := Union(parent, U(e), V(e), lab, h, bound);
      if merged {
        tree := tree + [e];
      }
    }
  }
}
