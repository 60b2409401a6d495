/** The undirected multigraph that the polynomial engine and the graph
    transforms work on: a set of nodes and a sequence of edges.  A graph
    built by `add_edge` lists its edges in insertion order, each as it was
    added; networkx's edge views list them by adjacency instead, and that
    order is not modelled.  An edge is identified by its position in the
    sequence, which stands in for a MultiGraph edge key, so parallel edges
    stay distinct.  Also defines the two edge classes the
    deletion-contraction recursion tests for: loops and cut edges. */
module Graphs {

  type Edge<V> = (V, V)

  datatype Graph<V> = Graph(vertices: set<V>, edges: seq<Edge<V>>)

  /** The set of all endpoints of the edges. */
  function Ends<V>(es: seq<Edge<V>>): (r: set<V>)
    ensures forall k :: 0 <= k < |es| ==> es[k].0 in r && es[k].1 in r
  {
    (set k | 0 <= k < |es| :: es[k].0) + (set k | 0 <= k < |es| :: es[k].1)
  }

  /** Every endpoint comes from some edge. */
  lemma EndsFrom<V>(es: seq<Edge<V>>, x: V) returns (k: nat)
    requires x in Ends(es)
    ensures k < |es| && (es[k].0 == x || es[k].1 == x)
  {
    k :| 0 <= k < |es| && (es[k].0 == x || es[k].1 == x);
  }

  lemma EndsConcat<V>(a: seq<Edge<V>>, b: seq<Edge<V>>)
    ensures Ends(a + b) == Ends(a) + Ends(b)
  {
    var l := Ends(a + b);
    forall x | x in l ensures x in Ends(a) + Ends(b) {
      var k := EndsFrom(a + b, x);
      if k < |a| { assert a[k] == (a + b)[k]; } else { assert b[k - |a|] == (a + b)[k]; }
    }
    forall x | x in Ends(a) + Ends(b) ensures x in l {
      if x in Ends(a) {
        var k := EndsFrom(a, x);
        assert a[k] == (a + b)[k];
      } else {
        var k := EndsFrom(b, x);
        assert b[k] == (a + b)[|a| + k];
      }
    }
  }

  lemma EndsAppend<V>(es: seq<Edge<V>>, e: Edge<V>)
    ensures Ends(es + [e]) == Ends(es) + {e.0, e.1}
  {
    var l, r := Ends(es + [e]), Ends(es) + {e.0, e.1};
    forall x | x in l ensures x in r {
      var k := EndsFrom(es + [e], x);
      if k < |es| { assert es[k] == (es + [e])[k]; }
    }
    forall x | x in r ensures x in l {
      if x !in {e.0, e.1} {
        var k := EndsFrom(es, x);
        assert es[k] == (es + [e])[k];
      } else {
        assert (es + [e])[|es|] == e;
      }
    }
  }

  /** Every endpoint of every edge is a node, as networkx guarantees. */
  predicate WellFormed<V>(g: Graph<V>)
  {
    Ends(g.edges) <= g.vertices
  }

  /** A fresh networkx graph: no nodes, no edges. */
  function Empty<V>(): Graph<V>
  {
    Graph({}, [])
  }

  /** `H.add_edge(a, b)`: both endpoints become nodes and the edge is appended
      (a MultiGraph never merges it with an existing parallel edge). */
  function AddEdge<V>(h: Graph<V>, a: V, b: V): Graph<V>
  {
    Graph(h.vertices + {a, b}, h.edges + [(a, b)])
  }

  /** The graph a fresh networkx graph becomes after `add_edge` on each edge
      of `es` in turn: its nodes are exactly the endpoints. */
  function FromEdges<V>(es: seq<Edge<V>>): Graph<V>
  {
    Graph(Ends(es), es)
  }

  lemma FromEdgesAppend<V>(es: seq<Edge<V>>, a: V, b: V)
    ensures FromEdges(es + [(a, b)]) == AddEdge(FromEdges(es), a, b)
  {
    EndsAppend(es, (a, b));
  }

  /** `H.add_edge(a, b)` on a simple networkx Graph: both endpoints become
      nodes, but an edge already joining them, in either direction, is not
      added a second time. */
  function AddSimpleEdge<V(==)>(h: Graph<V>, a: V, b: V): Graph<V>
  {
    Graph(h.vertices + {a, b}, if (a, b) in h.edges || (b, a) in h.edges then h.edges else h.edges + [(a, b)])
  }

  /** The edge list of a fresh simple graph after `add_edge` on each edge of
      `es` in turn. */
  function SimpleEdges<V(==)>(es: seq<Edge<V>>): seq<Edge<V>>
  {
    if es == [] then []
    else
      var rest, f := SimpleEdges(es[..|es| - 1]), es[|es| - 1];
      if f in rest || (f.1, f.0) in rest then rest else rest + [f]
  }

  /** The simple graph a fresh networkx Graph becomes after `add_edge` on
      each edge of `es` in turn. */
  function SimpleFromEdges<V(==)>(es: seq<Edge<V>>): Graph<V>
  {
    Graph(Ends(es), SimpleEdges(es))
  }

  lemma SimpleEdgesAppend<V>(es: seq<Edge<V>>, a: V, b: V)
    ensures SimpleFromEdges(es + [(a, b)]) == AddSimpleEdge(SimpleFromEdges(es), a, b)
  {
    EndsAppend(es, (a, b));
    assert (es + [(a, b)])[..|es|] == es;
  }

  /** Two edges that are equal or reversed: the same edge of a simple graph. */
  predicate SameSimpleEdge<V(==)>(f: Edge<V>, f': Edge<V>)
  {
    f == f' || f == (f'.1, f'.0)
  }

  /** Adding edges none of which repeats an earlier one, even reversed, to a
      simple graph keeps all of them. */
  lemma {:induction false} SimpleEdgesKeepsAll<V>(es: seq<Edge<V>>)
    requires forall i, j :: 0 <= i < j < |es| ==> !SameSimpleEdge(es[i], es[j])
    ensures SimpleEdges(es) == es
  {
    if es != [] {
      var n := |es| - 1;
      var pre, f := es[..n], es[n];
      assert forall i, j :: 0 <= i < j < |pre| ==> !SameSimpleEdge(pre[i], pre[j]) by {
        forall i, j | 0 <= i < j < |pre| ensures !SameSimpleEdge(pre[i], pre[j]) {
          assert pre[i] == es[i] && pre[j] == es[j];
        }
      }
      SimpleEdgesKeepsAll(pre);
      assert f !in pre && (f.1, f.0) !in pre by {
        forall i | 0 <= i < |pre| ensures pre[i] != f && pre[i] != (f.1, f.0) {
          assert pre[i] == es[i] && !SameSimpleEdge(es[i], es[n]);
        }
      }
      assert pre + [f] == es;
    }
  }

  /** The edges of `es`, in order, that touch no vertex of `s`. */
  function Away<V>(es: seq<Edge<V>>, s: set<V>): (r: seq<Edge<V>>)
    ensures |r| <= |es|
    ensures forall f :: f in r ==> f in es && f.0 !in s && f.1 !in s
  {
    if es == [] then []
    else
      var f := es[|es| - 1];
      Away(es[..|es| - 1], s) + (if f.0 in s || f.1 in s then [] else [f])
  }

  /** `H.remove_nodes_from(s)`: the nodes go, and every edge touching one of
      them goes with them. */
  function RemoveNodes<V>(h: Graph<V>, s: set<V>): Graph<V>
  {
    Graph(h.vertices - s, Away(h.edges, s))
  }

  /** The edge sequence with the edge at position `k` removed
      (`remove_edge` on one specific edge). */
  function Without<V>(es: seq<Edge<V>>, k: nat): (r: seq<Edge<V>>)
    requires k < |es|
    ensures |r| == |es| - 1
    ensures forall j :: 0 <= j < k ==> r[j] == es[j]
    ensures forall j :: k <= j < |r| ==> r[j] == es[j + 1]
  {
    es[..k] + es[k + 1..]
  }

  // ---------------------------------------------------------------------
  // Reachability
  // ---------------------------------------------------------------------

  /** `s` together with every vertex one edge away from it. */
  function Neighbours<V>(es: seq<Edge<V>>, s: set<V>): set<V>
  {
    s + (set k | 0 <= k < |es| && es[k].0 in s :: es[k].1)
      + (set k | 0 <= k < |es| && es[k].1 in s :: es[k].0)
  }

  lemma {:induction false} SubsetSize<V>(a: set<V>, b: set<V>)
    requires a <= b
    ensures |a| <= |b|
    decreases a
  {
    if a != {} {
      var y :| y in a;
      SubsetSize(a - {y}, b - {y});
    }
  }

  /** Each round of the closure that adds something adds an edge endpoint,
      so the endpoints not yet reached become fewer. */
  lemma NeighboursGrow<V>(es: seq<Edge<V>>, s: set<V>)
    requires !(Neighbours(es, s) <= s)
    ensures |Ends(es) - Neighbours(es, s)| < |Ends(es) - s|
  {
    var n := Neighbours(es, s);
    var x :| x in n && x !in s;
    assert x in Ends(es) - s;
    assert Ends(es) - n <= (Ends(es) - s) - {x};
    SubsetSize(Ends(es) - n, (Ends(es) - s) - {x});
  }

  /** The vertices reachable from `s`, computed by adding neighbours until
      nothing new appears. */
  function Closure<V>(es: seq<Edge<V>>, s: set<V>): set<V>
    decreases |Ends(es) - s|
  {
    var n := Neighbours(es, s);
    if n <= s then s
    else
      NeighboursGrow(es, s);
      Closure(es, n)
  }

  /** Two vertices joined directly by some edge, in either direction. */
  ghost predicate Adjacent<V>(es: seq<Edge<V>>, a: V, b: V)
  {
    exists k :: 0 <= k < |es| && ((es[k].0 == a && es[k].1 == b) || (es[k].0 == b && es[k].1 == a))
  }

  /** A walk: a non-empty vertex sequence whose consecutive vertices are adjacent. */
  ghost predicate IsWalk<V>(es: seq<Edge<V>>, p: seq<V>)
  {
    |p| >= 1 && forall j :: 0 <= j < |p| - 1 ==> Adjacent(es, p[j], p[j + 1])
  }

  /** The reference definition of reachability: some walk leads from `a` to `b`. */
  ghost predicate Reachable<V(!new)>(es: seq<Edge<V>>, a: V, b: V)
  {
    exists p :: IsWalk(es, p) && p[0] == a && p[|p| - 1] == b
  }

  lemma {:induction false} ClosureClosed<V>(es: seq<Edge<V>>, s: set<V>)
    ensures s <= Closure(es, s)
    ensures Neighbours(es, Closure(es, s)) <= Closure(es, s)
    decreases |Ends(es) - s|
  {
    var n := Neighbours(es, s);
    if !(n <= s) {
      NeighboursGrow(es, s);
      ClosureClosed(es, n);
    }
  }

  lemma {:induction false} ClosureSound<V(!new)>(es: seq<Edge<V>>, a: V, s: set<V>)
    requires forall x :: x in s ==> Reachable(es, a, x)
    ensures forall x :: x in Closure(es, s) ==> Reachable(es, a, x)
    decreases |Ends(es) - s|
  {
    var n := Neighbours(es, s);
    if !(n <= s) {
      forall x | x in n ensures Reachable(es, a, x) {
        if x !in s {
          var k :| 0 <= k < |es| && ((es[k].0 in s && es[k].1 == x) || (es[k].1 in s && es[k].0 == x));
          var y := if es[k].0 in s && es[k].1 == x then es[k].0 else es[k].1;
          assert Adjacent(es, y, x);
          var p :| IsWalk(es, p) && p[0] == a && p[|p| - 1] == y;
          var q := p + [x];
          assert forall j :: 0 <= j < |q| - 1 ==> Adjacent(es, q[j], q[j + 1]) by {
            forall j | 0 <= j < |q| - 1 ensures Adjacent(es, q[j], q[j + 1]) {
              if j < |p| - 1 {
                assert q[j] == p[j] && q[j + 1] == p[j + 1];
              }
            }
          }
          assert IsWalk(es, q) && q[0] == a && q[|q| - 1] == x;
        }
      }
      NeighboursGrow(es, s);
      ClosureSound(es, a, n);
    }
  }

  lemma {:induction false} WalkStaysInClosed<V>(es: seq<Edge<V>>, c: set<V>, p: seq<V>)
    requires IsWalk(es, p) && p[0] in c
    requires Neighbours(es, c) <= c
    ensures p[|p| - 1] in c
  {
    if |p| > 1 {
      var k :| 0 <= k < |es| && ((es[k].0 == p[0] && es[k].1 == p[1]) || (es[k].0 == p[1] && es[k].1 == p[0]));
      assert p[1] in Neighbours(es, c);
      assert IsWalk(es, p[1..]) by {
        forall j | 0 <= j < |p[1..]| - 1 ensures Adjacent(es, p[1..][j], p[1..][j + 1]) {
          assert p[1..][j] == p[j + 1] && p[1..][j + 1] == p[j + 2];
        }
      }
      WalkStaysInClosed(es, c, p[1..]);
    }
  }

  /** The computed closure agrees with the walk-based definition. */
  lemma ClosureIsReachability<V(!new)>(es: seq<Edge<V>>, a: V, b: V)
    ensures b in Closure(es, {a}) <==> Reachable(es, a, b)
  {
    assert IsWalk(es, [a]);
    ClosureSound(es, a, {a});
    if Reachable(es, a, b) {
      var p :| IsWalk(es, p) && p[0] == a && p[|p| - 1] == b;
      ClosureClosed(es, {a});
      WalkStaysInClosed(es, Closure(es, {a}), p);
    }
  }

  // ---------------------------------------------------------------------
  // Loops and cut edges
  // ---------------------------------------------------------------------

  /** A loop: both endpoints are the same vertex. */
  predicate IsLoop<V(==)>(e: Edge<V>)
  {
    e.0 == e.1
  }

  /** A cut edge (bridge): once the edge at position `k` is removed, its
      second endpoint is no longer reachable from its first. */
  predicate IsCutEdge<V(==)>(es: seq<Edge<V>>, k: nat)
    requires k < |es|
  {
    es[k].1 !in Closure(Without(es, k), {es[k].0})
  }

  lemma CutEdgeMeansDisconnected<V(!new)>(es: seq<Edge<V>>, k: nat)
    requires k < |es|
    ensures IsCutEdge(es, k) <==> !Reachable(Without(es, k), es[k].0, es[k].1)
  {
    ClosureIsReachability(Without(es, k), es[k].0, es[k].1);
  }

  /** No loop is a cut edge, so the two classes never overlap. */
  lemma LoopIsNotCutEdge<V>(es: seq<Edge<V>>, k: nat)
    requires k < |es| && IsLoop(es[k])
    ensures !IsCutEdge(es, k)
  {
    ClosureClosed(Without(es, k), {es[k].0});
  }

  /** The closure is the least set that contains `s` and all neighbours of
      its own members. */
  lemma {:induction false} ClosureLeast<V>(es: seq<Edge<V>>, s: set<V>, c: set<V>)
    requires s <= c && Neighbours(es, c) <= c
    ensures Closure(es, s) <= c
    decreases |Ends(es) - s|
  {
    var n := Neighbours(es, s);
    if !(n <= s) {
      assert n <= Neighbours(es, c);
      NeighboursGrow(es, s);
      ClosureLeast(es, n, c);
    }
  }

  /** An edge touching the closure has both ends in it. */
  lemma ClosureAcross<V>(es: seq<Edge<V>>, s: set<V>, j: nat)
    requires j < |es| && (es[j].0 in Closure(es, s) || es[j].1 in Closure(es, s))
    ensures es[j].0 in Closure(es, s) && es[j].1 in Closure(es, s)
  {
    ClosureClosed(es, s);
    var c := Closure(es, s);
    if es[j].0 in c {
      assert es[j].1 in Neighbours(es, c);
    }
  }

  /** A vertex set that holds the first end of the edge at position `k` but
      not its second, and that no other edge leaves, shows that the edge is
      a cut edge. */
  lemma CutBySides<V>(es: seq<Edge<V>>, k: nat, c: set<V>)
    requires k < |es| && es[k].0 in c && es[k].1 !in c
    requires forall j :: 0 <= j < |es| && j != k ==> (es[j].0 in c <==> es[j].1 in c)
    ensures IsCutEdge(es, k)
  {
    var rest := Without(es, k);
    assert Neighbours(rest, c) <= c;
    ClosureLeast(rest, {es[k].0}, c);
  }
}
