/** The graph transforms of `manipulation.py`: edge contraction, which the
    deletion-contraction recursion relies on, and the two experiment tools
    that multiply every edge and subdivide every edge into a path. */
module Manipulation {
  import opened Graphs

  // ---------------------------------------------------------------------
  // contract_edge
  // ---------------------------------------------------------------------

  /** The smallest label at or above `w` that `vs` does not use. */
  function FreshFrom(vs: set<int>, w: int): (r: int)
    ensures w <= r && r !in vs
    ensures forall z :: w <= z < r ==> z in vs
    decreases |vs|
  {
    if w in vs then
      var r := FreshFrom(vs - {w}, w + 1);
      assert forall z :: w <= z < r ==> z in vs by {
        forall z | w <= z < r ensures z in vs {
          if z != w { assert z in vs - {w}; }
        }
      }
      r
    else w
  }

  /** The label contract_edge gives the merged vertex: `len(G) + 1`. */
  function MergedLabelAsWritten(g: Graph<int>): int
  {
    |g.vertices| + 1
  }

  /** The merged vertex label with the collision removed: `len(G) + 1` when G
      does not use it yet, otherwise the next label above it that G does not use. */
  function MergedLabel(g: Graph<int>): (w: int)
    ensures w !in g.vertices
    ensures MergedLabelAsWritten(g) !in g.vertices ==> w == MergedLabelAsWritten(g)
    ensures forall z :: MergedLabelAsWritten(g) <= z < w ==> z in g.vertices
  {
    FreshFrom(g.vertices, |g.vertices| + 1)
  }

  predicate Touches<V(==)>(f: Edge<V>, x: V)
  {
    f.0 == x || f.1 == x
  }

  /** `edge[(edge.index(x) + 1) % 2]`: the endpoint after the first occurrence
      of `x`, wrapping round; for a loop on `x` that is `x` again. */
  function Other<V(==)>(f: Edge<V>, x: V): V
  {
    if f.0 == x then f.1 else f.0
  }

  /** The edge the loop of contract_edge adds to H for the edge `f` of G, when
      the edge (u, v) is contracted into `w`; `isE` says whether `f` is that
      very edge (the source's `edge != e`). */
  function Reattached(f: Edge<int>, u: int, v: int, w: int, isE: bool): Edge<int>
  {
    if Touches(f, u) && !Touches(f, v) then (Other(f, u), w)
    else if Touches(f, v) && !Touches(f, u) then (Other(f, v), w)
    else if Touches(f, v) && Touches(f, u) && !isE then (w, w)
    else f
  }

  /** Everything the loop of contract_edge adds to H, in order. */
  function Added(g: Graph<int>, i: nat, w: int): (r: seq<Edge<int>>)
    requires i < |g.edges|
    ensures |r| == |g.edges|
  {
    var e := g.edges[i];
    seq(|g.edges|, k requires 0 <= k < |g.edges| => Reattached(g.edges[k], e.0, e.1, w, k == i))
  }

  /** contract_edge with the merged vertex labelled `w`: add one edge to a
      fresh multigraph per edge of G, then remove u and v. */
  function ContractWith(g: Graph<int>, i: nat, w: int): Graph<int>
    requires i < |g.edges|
  {
    RemoveNodes(FromEdges(Added(g, i, w)), {g.edges[i].0, g.edges[i].1})
  }

  /** contract_edge as written, merged vertex `len(G) + 1`, over edges
      without keys in insertion order. */
  function ContractAsWritten(g: Graph<int>, i: nat): Graph<int>
    requires i < |g.edges|
  {
    ContractWith(g, i, MergedLabelAsWritten(g))
  }

  /** The corrected step for one edge: as written, except that a loop on u
      or v becomes a loop on the merged vertex instead of being dropped. */
  function Rejoined(f: Edge<int>, u: int, v: int, w: int, isE: bool): Edge<int>
  {
    if !isE && IsLoop(f) && (Touches(f, u) || Touches(f, v)) then (w, w)
    else Reattached(f, u, v, w, isE)
  }

  /** Everything the corrected loop adds to H, in order. */
  function AddedKeepingLoops(g: Graph<int>, i: nat, w: int): (r: seq<Edge<int>>)
    requires i < |g.edges|
    ensures |r| == |g.edges|
  {
    var e := g.edges[i];
    seq(|g.edges|, k requires 0 <= k < |g.edges| => Rejoined(g.edges[k], e.0, e.1, w, k == i))
  }

  /** Contraction as the deletion-contraction recursion needs it: the merged
      vertex gets a label G does not use, and loops on u or v are kept as
      loops on it. */
  function Contract(g: Graph<int>, i: nat): Graph<int>
    requires i < |g.edges|
  {
    var e := g.edges[i];
    RemoveNodes(FromEdges(AddedKeepingLoops(g, i, MergedLabel(g))), {e.0, e.1})
  }

  /** The loop of contract_edge over `G.edges`, calling `add_edge` on a fresh
      multigraph, followed by `remove_nodes_from([u, v])`. */
  method ContractEdge(g: Graph<int>, i: nat) returns (h: Graph<int>)
    requires i < |g.edges|
    ensures h == ContractAsWritten(g, i)
  {
    var added := AddReattached(g, i, MergedLabelAsWritten(g));
    h := RemoveNodes(added, {g.edges[i].0, g.edges[i].1});
  }

  /** The loop of contract_edge: `add_edge` on a fresh multigraph for every
      edge of G in turn, each reattached to the merged vertex `w`. */
  method AddReattached(g: Graph<int>, i: nat, w: int) returns (h: Graph<int>)
    requires i < |g.edges|
    ensures h == FromEdges(Added(g, i, w))
    ensures RemoveNodes(h, {g.edges[i].0, g.edges[i].1}) == ContractWith(g, i, w)
  {
    var u, v := g.edges[i].0, g.edges[i].1;
    h := Empty();
    ghost var done: seq<Edge<int>> := [];
    var k := 0;
    assert Added(g, i, w)[..0] == [];
    while k < |g.edges|
      invariant 0 <= k <= |g.edges|
      invariant done == Added(g, i, w)[..k]
      invariant h == FromEdges(done)
    {
      var a, b := ReattachEdge(g.edges[k], u, v, w, k == i);
      AddedGrows(g, i, w, k);
      FromEdgesAppend(done, a, b);
      h := AddEdge(h, a, b);
      done := done + [(a, b)];
      k := k + 1;
    }
    assert Added(g, i, w)[..k] == Added(g, i, w);
  }

  /** The branches of contract_edge for one edge `f` of G. */
  method ReattachEdge(f: Edge<int>, u: int, v: int, w: int, isE: bool) returns (a: int, b: int)
    ensures (a, b) == Reattached(f, u, v, w, isE)
    ensures a in {f.0, f.1, w} && b in {f.0, f.1, w}
    ensures u != v && w != u && w != v && w != f.0 && w != f.1 && (isE ==> f == (u, v)) ==>
      && ((Touches((a, b), u) || Touches((a, b), v)) <==> (isE || (IsLoop(f) && (Touches(f, u) || Touches(f, v)))))
      && (!(Touches((a, b), u) || Touches((a, b), v)) ==> (a, b) == Image(f, u, v, w))
  {
    ReattachedEnds(f, u, v, w, isE);
    if u != v && w != u && w != v && w != f.0 && w != f.1 && (isE ==> f == (u, v)) {
      ReattachedIsImage(f, u, v, w, isE);
    }
    if Touches(f, u) && !Touches(f, v) {
      a, b := Other(f, u), w;
    } else if Touches(f, v) && !Touches(f, u) {
      a, b := Other(f, v), w;
    } else if Touches(f, v) && Touches(f, u) && !isE {
      a, b := w, w;
    } else {
      a, b := f.0, f.1;
    }
  }

  lemma AddedGrows(g: Graph<int>, i: nat, w: int, k: nat)
    requires i < |g.edges| && k < |g.edges|
    ensures Added(g, i, w)[..k + 1]
         == Added(g, i, w)[..k] + [Reattached(g.edges[k], g.edges[i].0, g.edges[i].1, w, k == i)]
  {
  }


  // ---- what contraction does to each edge ----------------------------

  /** The edge of G at position `k` survives contraction of the edge at
      position `i`: it is neither that edge nor a loop on one of its ends. */
  predicate Survives(g: Graph<int>, i: nat, k: nat)
    requires i < |g.edges| && k < |g.edges|
  {
    var e, f := g.edges[i], g.edges[k];
    k != i && !(IsLoop(f) && (Touches(f, e.0) || Touches(f, e.1)))
  }

  /** Where a surviving edge ends up: an edge touching neither end of e is
      unchanged, an edge joining both ends becomes a loop on `w`, and an edge
      with one end in {u, v} now runs from its other end to `w`. */
  function Image(f: Edge<int>, u: int, v: int, w: int): Edge<int>
  {
    if !Touches(f, u) && !Touches(f, v) then f
    else if (Touches(f, u) && Touches(f, v)) || IsLoop(f) then (w, w)
    else if f.0 == u || f.0 == v then (f.1, w)
    else (f.0, w)
  }

  /** The images of the surviving edges among the first `n` edges of G, in order. */
  function Survivors(g: Graph<int>, i: nat, w: int, n: nat): seq<Edge<int>>
    requires i < |g.edges| && n <= |g.edges|
  {
    if n == 0 then []
    else
      var e := g.edges[i];
      Survivors(g, i, w, n - 1)
        + (if Survives(g, i, n - 1) then [Image(g.edges[n - 1], e.0, e.1, w)] else [])
  }

  /** Loops of G on u or v among its first `n` edges, e itself aside. */
  function LoopsOnEnds(g: Graph<int>, i: nat, n: nat): nat
    requires i < |g.edges| && n <= |g.edges|
  {
    if n == 0 then 0
    else
      var e, f := g.edges[i], g.edges[n - 1];
      LoopsOnEnds(g, i, n - 1) + (if n - 1 != i && IsLoop(f) && (Touches(f, e.0) || Touches(f, e.1)) then 1 else 0)
  }

  lemma {:induction false} SurvivorsSize(g: Graph<int>, i: nat, w: int, n: nat)
    requires i < |g.edges| && n <= |g.edges|
    ensures |Survivors(g, i, w, n)| + LoopsOnEnds(g, i, n) + (if i < n then 1 else 0) == n
  {
    if n > 0 {
      SurvivorsSize(g, i, w, n - 1);
    }
  }

  /** One step of contraction with a merged label `w` distinct from every
      endpoint: the edge H gets for `f` touches u or v exactly when `f` is e
      itself or a loop on u or v, and otherwise it is the image of `f`. */
  lemma ReattachedIsImage(f: Edge<int>, u: int, v: int, w: int, isE: bool)
    requires u != v && w != u && w != v && w != f.0 && w != f.1
    requires isE ==> f == (u, v)
    ensures var r := Reattached(f, u, v, w, isE);
      && ((Touches(r, u) || Touches(r, v)) <==> (isE || (IsLoop(f) && (Touches(f, u) || Touches(f, v)))))
      && (!(Touches(r, u) || Touches(r, v)) ==> r == Image(f, u, v, w))
  {
  }

  lemma ReattachedEnds(f: Edge<int>, u: int, v: int, w: int, isE: bool)
    ensures var r := Reattached(f, u, v, w, isE);
      r.0 in {f.0, f.1, w} && r.1 in {f.0, f.1, w}
  {
  }

  /** With a merged label that G does not use, `remove_nodes_from` keeps
      exactly the images of the surviving edges. */
  lemma {:induction false} ContractPrefix(g: Graph<int>, i: nat, w: int, n: nat)
    requires WellFormed(g) && i < |g.edges| && n <= |g.edges| && w !in g.vertices
    requires !IsLoop(g.edges[i])
    ensures Away(Added(g, i, w)[..n], {g.edges[i].0, g.edges[i].1}) == Survivors(g, i, w, n)
  {
    if n > 0 {
      var added := Added(g, i, w);
      var e, f := g.edges[i], g.edges[n - 1];
      var ends := {e.0, e.1};
      ContractPrefix(g, i, w, n - 1);
      assert f.0 in Ends(g.edges) && f.1 in Ends(g.edges);
      assert e.0 in Ends(g.edges) && e.1 in Ends(g.edges);
      ReattachedIsImage(f, e.0, e.1, w, n - 1 == i);
      AddedStep(g, i, w, n);
    }
  }

  /** Removing u and v from one more added edge. */
  lemma AddedStep(g: Graph<int>, i: nat, w: int, n: nat)
    requires i < |g.edges| && 0 < n <= |g.edges|
    ensures var e, r := g.edges[i], Reattached(g.edges[n - 1], g.edges[i].0, g.edges[i].1, w, n - 1 == i);
      Away(Added(g, i, w)[..n], {e.0, e.1})
        == Away(Added(g, i, w)[..n - 1], {e.0, e.1}) + (if r.0 in {e.0, e.1} || r.1 in {e.0, e.1} then [] else [r])
  {
    var added := Added(g, i, w);
    assert added[..n] == added[..n - 1] + [added[n - 1]];
    AwayAppend(added[..n - 1], added[n - 1], {g.edges[i].0, g.edges[i].1});
  }

  lemma AwayAppend<V>(es: seq<Edge<V>>, f: Edge<V>, s: set<V>)
    ensures Away(es + [f], s) == Away(es, s) + (if f.0 in s || f.1 in s then [] else [f])
  {
    assert (es + [f])[..|es|] == es;
  }


  /** contract_edge with a merged label `w` that G does not use: its edges
      are exactly the images of the surviving edges, in order, so it has one
      edge fewer than G for e and one fewer for each loop on u or v.  The
      merged vertex is new, u and v are gone, and the other vertices are
      those of G that lie on some edge: isolated vertices of G are not
      carried over. */
  lemma ContractEdges(g: Graph<int>, i: nat, w: int)
    requires WellFormed(g) && i < |g.edges| && !IsLoop(g.edges[i]) && w !in g.vertices
    ensures var h, e := ContractWith(g, i, w), g.edges[i];
      && h.edges == Survivors(g, i, w, |g.edges|)
      && |h.edges| == |g.edges| - 1 - LoopsOnEnds(g, i, |g.edges|)
      && e.0 !in h.vertices && e.1 !in h.vertices
      && h.vertices <= (Ends(g.edges) - {e.0, e.1}) + {w}
      && WellFormed(h)
  {
    var added := Added(g, i, w);
    var e := g.edges[i];
    assert added[..|g.edges|] == added;
    ContractPrefix(g, i, w, |g.edges|);
    SurvivorsSize(g, i, w, |g.edges|);
    var h := ContractWith(g, i, w);
    forall x | x in h.vertices ensures x in (Ends(g.edges) - {e.0, e.1}) + {w} {
      var k := EndsFrom(added, x);
      var f := g.edges[k];
      assert f.0 in Ends(g.edges) && f.1 in Ends(g.edges);
      assert added[k] == Reattached(f, e.0, e.1, w, k == i);
      ReattachedEnds(f, e.0, e.1, w, k == i);
    }
    forall x | x in Ends(h.edges) ensures x in h.vertices {
      var k := EndsFrom(h.edges, x);
      assert h.edges[k] in added;
    }
  }

  /** Contraction always leaves fewer edges than G had. */
  lemma ContractShrinks(g: Graph<int>, i: nat)
    requires i < |g.edges|
    ensures |Contract(g, i).edges| < |g.edges|
  {
    var added := AddedKeepingLoops(g, i, MergedLabel(g));
    var e := g.edges[i];
    AwayDrops(added, {e.0, e.1}, i);
  }

  /** An edge that touches a removed vertex makes the result strictly shorter. */
  lemma {:induction false} AwayDrops<V>(es: seq<Edge<V>>, s: set<V>, k: nat)
    requires k < |es| && (es[k].0 in s || es[k].1 in s)
    ensures |Away(es, s)| < |es|
  {
    var n := |es| - 1;
    if k < n {
      assert es[..n][k] == es[k];
      AwayDrops(es[..n], s, k);
    } else {
      assert |Away(es[..n], s)| <= n;
    }
  }

  /** Where `len(G) + 1` is unused and no loop sits on u or v, the corrected
      contraction is contract_edge as written. */
  lemma ContractAgreesWhenLabelFree(g: Graph<int>, i: nat)
    requires i < |g.edges| && |g.vertices| + 1 !in g.vertices
    requires forall k :: 0 <= k < |g.edges| && k != i && IsLoop(g.edges[k]) ==>
      !Touches(g.edges[k], g.edges[i].0) && !Touches(g.edges[k], g.edges[i].1)
    ensures Contract(g, i) == ContractAsWritten(g, i)
  {
    var w := MergedLabel(g);
    assert w == MergedLabelAsWritten(g);
    var e := g.edges[i];
    forall k | 0 <= k < |g.edges|
      ensures AddedKeepingLoops(g, i, w)[k] == Added(g, i, w)[k]
    {
      RejoinedAgrees(g.edges[k], e.0, e.1, w, k == i);
    }
    assert AddedKeepingLoops(g, i, w) == Added(g, i, w);
  }

  lemma RejoinedAgrees(f: Edge<int>, u: int, v: int, w: int, isE: bool)
    requires isE || !IsLoop(f) || (!Touches(f, u) && !Touches(f, v))
    ensures Rejoined(f, u, v, w, isE) == Reattached(f, u, v, w, isE)
  {
  }

  /** A loop of contract_edge with an unused merged label is a loop G already
      had or the merged image of an edge parallel to e: no other edge
      collapses. */
  lemma {:induction false} SurvivorLoops(g: Graph<int>, i: nat, w: int, n: nat)
    requires WellFormed(g) && i < |g.edges| && n <= |g.edges| && w !in g.vertices
    ensures var e := g.edges[i];
      forall f :: f in Survivors(g, i, w, n) && IsLoop(f) ==>
        f in g.edges || exists k :: 0 <= k < n && k != i && Touches(g.edges[k], e.0) && Touches(g.edges[k], e.1)
  {
    if n > 0 {
      SurvivorLoops(g, i, w, n - 1);
      var e, f := g.edges[i], g.edges[n - 1];
      var pre := Survivors(g, i, w, n - 1);
      assert f.0 in Ends(g.edges) && f.1 in Ends(g.edges);
      ImageLoop(f, e.0, e.1, w);
      forall f' | f' in Survivors(g, i, w, n) && IsLoop(f')
        ensures f' in g.edges || exists k :: 0 <= k < n && k != i && Touches(g.edges[k], e.0) && Touches(g.edges[k], e.1)
      {
        if f' !in pre {
          assert Survives(g, i, n - 1) && f' == Image(f, e.0, e.1, w);
          if !(Touches(f, e.0) && Touches(f, e.1)) {
            assert f' == f && f == g.edges[n - 1];
          }
        }
      }
    }
  }

  lemma ContractLoops(g: Graph<int>, i: nat, w: int)
    requires WellFormed(g) && i < |g.edges| && !IsLoop(g.edges[i]) && w !in g.vertices
    ensures var e := g.edges[i];
      forall f :: f in ContractWith(g, i, w).edges && IsLoop(f) ==>
        f in g.edges || exists k :: 0 <= k < |g.edges| && k != i && Touches(g.edges[k], e.0) && Touches(g.edges[k], e.1)
  {
    ContractEdges(g, i, w);
    SurvivorLoops(g, i, w, |g.edges|);
  }

  // ---- the corrected contraction --------------------------------------

  /** The images of the first `n` edges of G other than e, in order. */
  function Kept(g: Graph<int>, i: nat, w: int, n: nat): seq<Edge<int>>
    requires i < |g.edges| && n <= |g.edges|
  {
    if n == 0 then []
    else
      var e := g.edges[i];
      Kept(g, i, w, n - 1) + (if n - 1 != i then [Image(g.edges[n - 1], e.0, e.1, w)] else [])
  }

  /** The `j`-th kept edge is the image of the `j`-th edge of G once e is
      skipped. */
  lemma {:induction false} KeptAt(g: Graph<int>, i: nat, w: int, n: nat)
    requires i < |g.edges| && n <= |g.edges|
    ensures |Kept(g, i, w, n)| == n - (if i < n then 1 else 0)
    ensures var e := g.edges[i];
      forall j :: 0 <= j < |Kept(g, i, w, n)| ==>
        Kept(g, i, w, n)[j] == Image(g.edges[if j < i then j else j + 1], e.0, e.1, w)
  {
    if n > 0 {
      KeptAt(g, i, w, n - 1);
    }
  }

  /** With a merged label distinct from every endpoint, the corrected step
      leaves u or v on an edge only for e itself; every other edge becomes
      its image. */
  lemma RejoinedIsImage(f: Edge<int>, u: int, v: int, w: int, isE: bool)
    requires u != v && w != u && w != v && w != f.0 && w != f.1
    requires isE ==> f == (u, v)
    ensures var r := Rejoined(f, u, v, w, isE);
      && ((Touches(r, u) || Touches(r, v)) <==> isE)
      && (!isE ==> r == Image(f, u, v, w))
  {
  }

  lemma {:induction false} KeptPrefix(g: Graph<int>, i: nat, w: int, n: nat)
    requires WellFormed(g) && i < |g.edges| && n <= |g.edges| && w !in g.vertices
    requires !IsLoop(g.edges[i])
    ensures Away(AddedKeepingLoops(g, i, w)[..n], {g.edges[i].0, g.edges[i].1}) == Kept(g, i, w, n)
  {
    if n > 0 {
      var e, f := g.edges[i], g.edges[n - 1];
      KeptPrefix(g, i, w, n - 1);
      assert f.0 in Ends(g.edges) && f.1 in Ends(g.edges);
      assert e.0 in Ends(g.edges) && e.1 in Ends(g.edges);
      RejoinedIsImage(f, e.0, e.1, w, n - 1 == i);
      KeptStep(g, i, w, n);
    }
  }

  /** Removing u and v from one more edge of the corrected loop. */
  lemma KeptStep(g: Graph<int>, i: nat, w: int, n: nat)
    requires i < |g.edges| && 0 < n <= |g.edges|
    ensures var e, r := g.edges[i], Rejoined(g.edges[n - 1], g.edges[i].0, g.edges[i].1, w, n - 1 == i);
      Away(AddedKeepingLoops(g, i, w)[..n], {e.0, e.1})
        == Away(AddedKeepingLoops(g, i, w)[..n - 1], {e.0, e.1}) + (if r.0 in {e.0, e.1} || r.1 in {e.0, e.1} then [] else [r])
  {
    var added := AddedKeepingLoops(g, i, w);
    assert added[..n] == added[..n - 1] + [added[n - 1]];
    AwayAppend(added[..n - 1], added[n - 1], {g.edges[i].0, g.edges[i].1});
  }

  /** The corrected contraction loses no edge but e: the j-th edge of the
      result is the image of the j-th edge of G with e removed, so it has
      exactly one edge fewer than G.  The merged vertex is new, u and v are
      gone, and the other vertices are those of G that lie on some edge. */
  lemma ContractKeepsEdges(g: Graph<int>, i: nat)
    requires WellFormed(g) && i < |g.edges| && !IsLoop(g.edges[i])
    ensures var h, e, w := Contract(g, i), g.edges[i], MergedLabel(g);
      && |h.edges| == |g.edges| - 1
      && (forall j :: 0 <= j < |h.edges| ==> h.edges[j] == Image(Without(g.edges, i)[j], e.0, e.1, w))
      && e.0 !in h.vertices && e.1 !in h.vertices
      && h.vertices <= (Ends(g.edges) - {e.0, e.1}) + {w}
      && WellFormed(h)
  {
    var w := MergedLabel(g);
    var added := AddedKeepingLoops(g, i, w);
    var e := g.edges[i];
    assert added[..|g.edges|] == added;
    KeptPrefix(g, i, MergedLabel(g), |g.edges|);
    KeptAt(g, i, w, |g.edges|);
    var h := Contract(g, i);
    forall x | x in h.vertices ensures x in (Ends(g.edges) - {e.0, e.1}) + {w} {
      var k := EndsFrom(added, x);
      var f := g.edges[k];
      assert f.0 in Ends(g.edges) && f.1 in Ends(g.edges);
      assert added[k] == Rejoined(f, e.0, e.1, w, k == i);
      ReattachedEnds(f, e.0, e.1, w, k == i);
    }
    forall x | x in Ends(h.edges) ensures x in h.vertices {
      var k := EndsFrom(h.edges, x);
      assert h.edges[k] in added;
    }
  }

  /** With a merged label distinct from the edge's ends, an edge becomes a
      loop exactly when it was one or it joined u and v. */
  lemma ImageLoop(f: Edge<int>, u: int, v: int, w: int)
    requires w != f.0 && w != f.1
    ensures IsLoop(Image(f, u, v, w)) <==> IsLoop(f) || (Touches(f, u) && Touches(f, v))
  {
  }

  lemma AwayOfThree(a: Edge<int>, b: Edge<int>, s: set<int>)
    requires a.0 in s && b.0 !in s && b.1 !in s
    ensures Away([a, b, b], s) == [b, b]
  {
    assert [a, b, b][..2] == [a, b];
    assert [a, b][..1] == [a];
    assert [a][..0] == [];
    assert Away([a], s) == [];
    assert Away([a, b], s) == [b];
  }

  /** contract_edge as written, on a triangle with vertices 0, 1 and 4:
      `len(G) + 1` is 4, which G already uses, so contracting (0, 1) turns
      (0, 4) and (1, 4) into two loops on 4.  They are neither loops of G nor
      edges parallel to (0, 1), so ContractLoops fails for the code as
      written; the corrected contraction yields two parallel edges (4, 5). */
  lemma ContractAsWrittenCollapsesTriangle()
    ensures var g := Graph({0, 1, 4}, [(0, 1), (0, 4), (1, 4)]);
      && ContractAsWritten(g, 0).edges == [(4, 4), (4, 4)]
      && Contract(g, 0).edges == [(4, 5), (4, 5)]
  {
    var g := Graph({0, 1, 4}, [(0, 1), (0, 4), (1, 4)]);
    assert |g.vertices| == 3;
    var s: set<int> := {0, 1};
    assert Added(g, 0, 4) == [(0, 1), (4, 4), (4, 4)];
    AwayOfThree((0, 1), (4, 4), s);
    assert MergedLabel(g) == 5;
    assert AddedKeepingLoops(g, 0, 5) == [(0, 1), (4, 5), (4, 5)];
    AwayOfThree((0, 1), (4, 5), s);
  }

  lemma AwayOfFour(a: Edge<int>, b: Edge<int>, c: Edge<int>, s: set<int>)
    requires b.0 in s && c.0 !in s && c.1 !in s
    ensures Away([a, b, c, c], s) == Away([a], s) + [c, c]
  {
    assert [a, b, c, c][..3] == [a, b, c];
    assert [a, b, c][..2] == [a, b];
    assert [a, b][..1] == [a];
    assert Away([a, b], s) == Away([a], s);
    assert Away([a, b, c], s) == Away([a], s) + [c];
  }

  /** contract_edge as written, on a triangle 0, 1, 2 with a loop on 0:
      contracting (0, 1) reattaches the loop as (0, 4) and then removes it
      with 0, so the result has two edges where the corrected contraction
      keeps three, the loop now on the merged vertex 4. */
  lemma ContractAsWrittenDropsLoop()
    ensures var g := Graph({0, 1, 2}, [(0, 0), (0, 1), (1, 2), (0, 2)]);
      && ContractAsWritten(g, 1).edges == [(2, 4), (2, 4)]
      && Contract(g, 1).edges == [(4, 4), (2, 4), (2, 4)]
  {
    var g := Graph({0, 1, 2}, [(0, 0), (0, 1), (1, 2), (0, 2)]);
    LoopTriangleAsWritten(g);
    LoopTriangleCorrected(g);
  }

  lemma LoopTriangleAsWritten(g: Graph<int>)
    requires g == Graph({0, 1, 2}, [(0, 0), (0, 1), (1, 2), (0, 2)])
    ensures ContractAsWritten(g, 1).edges == [(2, 4), (2, 4)]
  {
    LoopTriangleSteps(g);
    AwayOfFour((0, 4), (0, 1), (2, 4), {0, 1});
    assert [(0, 4)][..0] == [];
  }

  lemma LoopTriangleCorrected(g: Graph<int>)
    requires g == Graph({0, 1, 2}, [(0, 0), (0, 1), (1, 2), (0, 2)])
    ensures Contract(g, 1).edges == [(4, 4), (2, 4), (2, 4)]
  {
    LoopTriangleSteps(g);
    ContractUnfold(g, 1, 4);
    assert g.edges[1] == (0, 1);
    LoopTriangleRemoval(AddedKeepingLoops(g, 1, 4), {0, 1});
  }

  lemma LoopTriangleRemoval(es: seq<Edge<int>>, s: set<int>)
    requires es == [(4, 4), (0, 1), (2, 4), (2, 4)] && s == {0, 1}
    ensures Away(es, s) == [(4, 4), (2, 4), (2, 4)]
  {
    AwayOfFour((4, 4), (0, 1), (2, 4), s);
    AwayOfOne((4, 4), s);
  }

  lemma ContractUnfold(g: Graph<int>, i: nat, w: int)
    requires i < |g.edges| && w == MergedLabel(g)
    ensures Contract(g, i).edges == Away(AddedKeepingLoops(g, i, w), {g.edges[i].0, g.edges[i].1})
  {
  }


  /** Contraction when the corrected loop re-adds the contracted edge first
      and every other re-added edge avoids its ends: the result is the
      multigraph of those other edges. */
  lemma ContractFirst(g: Graph<int>, rest: seq<Edge<int>>)
    requires |g.edges| > 0
    requires AddedKeepingLoops(g, 0, MergedLabel(g)) == [g.edges[0]] + rest
    requires forall f :: f in rest ==> !Touches(f, g.edges[0].0) && !Touches(f, g.edges[0].1)
    ensures Contract(g, 0) == FromEdges(rest)
  {
    var e := g.edges[0];
    var s := {e.0, e.1};
    var added := [e] + rest;
    forall j | 1 <= j < |added| ensures added[j].0 !in s && added[j].1 !in s {
      assert added[j] == rest[j - 1] && rest[j - 1] in rest;
    }
    AwayAfterFirst(added, s);
    assert added[1..] == rest;
    EndsConcat([e], rest);
    var none: seq<Edge<int>> := [];
    assert none + [e] == [e];
    EndsAppend(none, e);
    assert Ends(none) == {};
    forall x | x in Ends(rest) ensures x !in s {
      var k := EndsFrom(rest, x);
      assert rest[k] in rest;
    }
  }

  /** Removing the nodes `s` when only the first edge touches them: every
      other edge stays, in order. */
  lemma {:induction false} AwayAfterFirst<V>(es: seq<Edge<V>>, s: set<V>)
    requires |es| >= 1 && (es[0].0 in s || es[0].1 in s)
    requires forall j :: 1 <= j < |es| ==> es[j].0 !in s && es[j].1 !in s
    ensures Away(es, s) == es[1..]
    decreases |es|
  {
    var n := |es| - 1;
    if n == 0 {
      assert es[..0] == [];
    } else {
      var pre := es[..n];
      assert forall j :: 1 <= j < |pre| ==> pre[j] == es[j];
      AwayAfterFirst(pre, s);
      AwayLastKept(es, s);
      TailSplit(es);
    }
  }

  lemma AwayLastKept<V>(es: seq<Edge<V>>, s: set<V>)
    requires es != [] && es[|es| - 1].0 !in s && es[|es| - 1].1 !in s
    ensures Away(es, s) == Away(es[..|es| - 1], s) + [es[|es| - 1]]
  {
  }

  lemma TailSplit<T>(es: seq<T>)
    requires |es| >= 2
    ensures es[1..] == es[..|es| - 1][1..] + [es[|es| - 1]]
  {
  }

  lemma AwayOfOne(a: Edge<int>, s: set<int>)
    requires a.0 !in s && a.1 !in s
    ensures Away([a], s) == [a]
  {
    assert [a][..0] == [];
  }


  lemma LoopTriangleSteps(g: Graph<int>)
    requires g == Graph({0, 1, 2}, [(0, 0), (0, 1), (1, 2), (0, 2)])
    ensures MergedLabelAsWritten(g) == 4 && MergedLabel(g) == 4
    ensures Added(g, 1, 4) == [(0, 4), (0, 1), (2, 4), (2, 4)]
    ensures AddedKeepingLoops(g, 1, 4) == [(4, 4), (0, 1), (2, 4), (2, 4)]
  {
    assert |g.vertices| == 3;
    var r := Added(g, 1, 4);
    assert r[0] == (0, 4) && r[1] == (0, 1) && r[2] == (2, 4) && r[3] == (2, 4);
    var q := AddedKeepingLoops(g, 1, 4);
    assert q[0] == (4, 4) && q[1] == (0, 1) && q[2] == (2, 4) && q[3] == (2, 4);
  }

  // ---------------------------------------------------------------------
  // multiply_edges
  // ---------------------------------------------------------------------

  /** The number of times `range(k)` runs: none at all when `k` is negative. */
  function Reps(k: int): nat
  {
    if k < 0 then 0 else k
  }

  /** `n` copies of one edge. */
  function Copies<V>(f: Edge<V>, n: nat): (r: seq<Edge<V>>)
    ensures |r| == n && forall c :: 0 <= c < n ==> r[c] == f
  {
    seq(n, _ => f)
  }

  /** The edges multiply_edges adds, in order: `n` copies of the first edge of
      G, then `n` copies of the second, and so on. */
  function Multiplied<V>(es: seq<Edge<V>>, n: nat): seq<Edge<V>>
  {
    if es == [] then [] else Multiplied(es[..|es| - 1], n) + Copies(es[|es| - 1], n)
  }

  /** The nested loops of multiply_edges: a fresh multigraph gets
      `add_edge(edge[0], edge[1])` `k` times for every edge of G. */
  method MultiplyEdges<V>(g: Graph<V>, k: int) returns (h: Graph<V>)
    ensures h == FromEdges(Multiplied(g.edges, Reps(k)))
  {
    h := Empty();
    assert g.edges[..0] == [];
    var p := 0;
    while p < |g.edges|
      invariant 0 <= p <= |g.edges|
      invariant h == FromEdges(Multiplied(g.edges[..p], Reps(k)))
    {
      var f := g.edges[p];
      ghost var done := Multiplied(g.edges[..p], Reps(k));
      var c := 0;
      assert done + Copies(f, 0) == done;
      while c < k
        invariant 0 <= c <= Reps(k)
        invariant h == FromEdges(done + Copies(f, c))
      {
        CopyStep(done, f, c);
        h := AddEdge(h, f.0, f.1);
        c := c + 1;
      }
      assert c == Reps(k);
      MultipliedPrefix(g.edges, Reps(k), p);
      assert done + Copies(f, c) == Multiplied(g.edges[..p + 1], Reps(k));
      p := p + 1;
    }
    assert g.edges[..p] == g.edges;
  }

  lemma CopyStep<V>(done: seq<Edge<V>>, f: Edge<V>, c: nat)
    ensures FromEdges(done + Copies(f, c + 1)) == AddEdge(FromEdges(done + Copies(f, c)), f.0, f.1)
  {
    assert done + Copies(f, c + 1) == (done + Copies(f, c)) + [f];
    FromEdgesAppend(done + Copies(f, c), f.0, f.1);
  }

  lemma MultipliedPrefix<V>(es: seq<Edge<V>>, n: nat, p: nat)
    requires p < |es|
    ensures Multiplied(es[..p + 1], n) == Multiplied(es[..p], n) + Copies(es[p], n)
  {
    assert es[..p + 1][..p] == es[..p];
  }

  lemma MulStep(a: nat, b: nat, n: nat)
    requires a < b
    ensures a * n + n <= b * n
  {
    assert (b - a) * n >= n by {
      if n > 0 { assert (b - a) * n == (b - a - 1) * n + n; }
    }
  }

  /** k copies of every edge: the result has `k * |E|` edges. */
  lemma {:induction false} MultipliedSize<V>(es: seq<Edge<V>>, n: nat)
    ensures |Multiplied(es, n)| == |es| * n
  {
    if es != [] {
      var m := |es| - 1;
      MultipliedSize(es[..m], n);
      assert |Multiplied(es, n)| == m * n + n;
      assert m * n + n == (m + 1) * n;
    }
  }

  /** The copies of the edge at position p fill positions `p * k` to
      `p * k + k - 1` of the result, all with the same endpoints as that edge. */
  lemma {:induction false} MultipliedAt<V>(es: seq<Edge<V>>, n: nat, p: nat, c: nat)
    requires p < |es| && c < n
    ensures p * n + c < |Multiplied(es, n)| && Multiplied(es, n)[p * n + c] == es[p]
  {
    var m := |es| - 1;
    var pre := es[..m];
    MultipliedSize(pre, n);
    MultipliedSize(es, n);
    var r := Multiplied(es, n);
    assert r == Multiplied(pre, n) + Copies(es[m], n);
    if p < m {
      MultipliedAt(pre, n, p, c);
      MulStep(p, m, n);
      assert pre[p] == es[p];
    } else {
      assert p * n + c == m * n + c;
    }
  }

  /** With at least one copy the nodes of the result are exactly the
      endpoints of G's edges (isolated vertices of G are dropped); with none
      the result is empty. */
  lemma {:induction false} MultipliedEnds<V>(es: seq<Edge<V>>, n: nat)
    ensures n == 0 ==> Multiplied(es, n) == []
    ensures n >= 1 ==> Ends(Multiplied(es, n)) == Ends(es)
  {
    if es != [] {
      var m := |es| - 1;
      MultipliedEnds(es[..m], n);
      MultipliedLast(es, n);
      if n >= 1 {
        CopiesAppendEnds(Multiplied(es[..m], n), es[m], n);
        EndsLast(es);
      }
    }
  }

  /** One unfolding of Multiplied: the copies of the last edge come last. */
  lemma MultipliedLast<V>(es: seq<Edge<V>>, n: nat)
    requires es != []
    ensures Multiplied(es, n) == Multiplied(es[..|es| - 1], n) + Copies(es[|es| - 1], n)
  {
  }

  /** The endpoint step of MultipliedEnds: appending copies of `f` adds
      exactly the endpoints of `f`. */
  lemma CopiesAppendEnds<V>(before: seq<Edge<V>>, f: Edge<V>, n: nat)
    requires n >= 1
    ensures Ends(before + Copies(f, n)) == Ends(before) + {f.0, f.1}
  {
    EndsConcat(before, Copies(f, n));
    CopiesEnds(f, n);
  }

  /** The endpoints of a non-empty edge list, its last edge split off. */
  lemma EndsLast<V>(es: seq<Edge<V>>)
    requires es != []
    ensures Ends(es) == Ends(es[..|es| - 1]) + {es[|es| - 1].0, es[|es| - 1].1}
  {
    assert es == es[..|es| - 1] + [es[|es| - 1]];
    EndsAppend(es[..|es| - 1], es[|es| - 1]);
  }

  lemma CopiesEnds<V>(f: Edge<V>, n: nat)
    requires n >= 1
    ensures Ends(Copies(f, n)) == {f.0, f.1}
  {
    var cs := Copies(f, n);
    forall x | x in Ends(cs) ensures x in {f.0, f.1} {
      var k := EndsFrom(cs, x);
    }
    assert cs[0] == f;
  }


  // ---------------------------------------------------------------------
  // pathify_edges
  // ---------------------------------------------------------------------

  /** A node of the subdivided graph: a vertex of G, or the new vertex
      `str(edge) + "_" + str(index)` on the edge at position `position`, whose
      endpoints are `source`. */
  datatype Label<V> = Original(v: V) | Subdivision(source: Edge<V>, position: nat, index: nat)

  /** The edge pathify_edges adds for the edge `f` at position `p` of G when
      its counter is `c`. */
  function PathStep<V>(f: Edge<V>, p: nat, k: int, c: nat): Edge<Label<V>>
  {
    if c == 0 then (Original(f.0), Subdivision(f, p, 0))
    else if c == k - 1 then (Subdivision(f, p, c - 1), Original(f.1))
    else (Subdivision(f, p, c - 1), Subdivision(f, p, c))
  }

  /** All the edges pathify_edges adds for the edge `f` at position `p`. */
  function PathOf<V>(f: Edge<V>, p: nat, k: int): (r: seq<Edge<Label<V>>>)
    ensures |r| == Reps(k)
  {
    seq(Reps(k), c requires 0 <= c < Reps(k) => PathStep(f, p, k, c))
  }

  /** All the edges pathify_edges adds, in order. */
  function Subdivided<V>(es: seq<Edge<V>>, k: int): seq<Edge<Label<V>>>
  {
    if es == [] then [] else Subdivided(es[..|es| - 1], k) + PathOf(es[|es| - 1], |es| - 1, k)
  }

  /** The nested loops of pathify_edges, adding into a fresh simple graph. */
  method PathifyEdges<V(==)>(g: Graph<V>, k: int) returns (h: Graph<Label<V>>)
    ensures h == SimpleFromEdges(Subdivided(g.edges, k))
  {
    h := Empty();
    ghost var added: seq<Edge<Label<V>>> := [];
    assert g.edges[..0] == [];
    var p := 0;
    while p < |g.edges|
      invariant 0 <= p <= |g.edges|
      invariant added == Subdivided(g.edges[..p], k)
      invariant h == SimpleFromEdges(added)
    {
      h := AddPath(h, added, g.edges[p], p, k);
      SubdividedPrefix(g.edges, k, p);
      added := added + PathOf(g.edges[p], p, k);
      p := p + 1;
    }
    assert g.edges[..p] == g.edges;
  }

  /** The inner loop of pathify_edges: the k edges of the path replacing the
      edge `f` at position `p`, added to the simple graph built so far from
      the edges `done`. */
  method AddPath<V(==)>(h0: Graph<Label<V>>, ghost done: seq<Edge<Label<V>>>, f: Edge<V>, p: nat, k: int)
    returns (h: Graph<Label<V>>)
    requires h0 == SimpleFromEdges(done)
    ensures h == SimpleFromEdges(done + PathOf(f, p, k))
  {
    h := h0;
    ghost var added := done;
    var c := 0;
    assert done + PathOf(f, p, k)[..0] == done;
    while c < k
      invariant 0 <= c <= Reps(k)
      invariant added == done + PathOf(f, p, k)[..c]
      invariant h == SimpleFromEdges(added)
    {
      var a, b;
      if c == 0 {
        a, b := Original(f.0), Subdivision(f, p, c);
      } else if c == k - 1 {
        a, b := Subdivision(f, p, c - 1), Original(f.1);
      } else {
        a, b := Subdivision(f, p, c - 1), Subdivision(f, p, c);
      }
      PathStepAdded(done, f, p, k, c, a, b);
      SimpleEdgesAppend(added, a, b);
      h := AddSimpleEdge(h, a, b);
      added := added + [(a, b)];
      c := c + 1;
    }
    assert PathOf(f, p, k)[..c] == PathOf(f, p, k);
  }

  lemma PathStepAdded<V>(done: seq<Edge<Label<V>>>, f: Edge<V>, p: nat, k: int, c: nat, a: Label<V>, b: Label<V>)
    requires c < Reps(k) && (a, b) == PathStep(f, p, k, c)
    ensures done + PathOf(f, p, k)[..c + 1] == (done + PathOf(f, p, k)[..c]) + [(a, b)]
  {
    assert PathOf(f, p, k)[..c + 1] == PathOf(f, p, k)[..c] + [(a, b)];
  }

  lemma SubdividedPrefix<V>(es: seq<Edge<V>>, k: int, p: nat)
    requires p < |es|
    ensures Subdivided(es[..p + 1], k) == Subdivided(es[..p], k) + PathOf(es[p], p, k)
  {
    assert es[..p + 1][..p] == es[..p];
  }

  /** For k >= 2 the edges added for one edge (a, b) form a path of k edges
      from a to b, whose k - 1 inner vertices are the new vertices with
      indices 0 to k - 2. */
  lemma PathOfIsPath<V>(f: Edge<V>, p: nat, k: int)
    requires k >= 2
    ensures var r := PathOf(f, p, k);
      && |r| == k
      && r[0].0 == Original(f.0)
      && r[k - 1].1 == Original(f.1)
      && forall c :: 0 <= c < k - 1 ==> r[c].1 == Subdivision(f, p, c) == r[c + 1].0
  {
  }

  /** For k = 1 the only edge added for (a, b) is (a, new vertex 0): b is
      never reached. */
  lemma PathOfOne<V>(f: Edge<V>, p: nat)
    ensures PathOf(f, p, 1) == [(Original(f.0), Subdivision(f, p, 0))]
    ensures f.0 != f.1 ==> Original(f.1) !in Ends(PathOf(f, p, 1))
  {
    var r := PathOf(f, p, 1);
    assert r == [(Original(f.0), Subdivision(f, p, 0))];
    if Original(f.1) in Ends(r) {
      var j := EndsFrom(r, Original(f.1));
    }
  }

  /** The edge pathify_edges evidently means to add for counter `c`: as
      written, except that for k = 1 the one edge runs from a to b, the path
      of length 1 through no new vertex. */
  function IntendedStep<V>(f: Edge<V>, p: nat, k: int, c: nat): Edge<Label<V>>
  {
    if k == 1 then (Original(f.0), Original(f.1)) else PathStep(f, p, k, c)
  }

  /** All the edges of the intended path for the edge `f` at position `p`. */
  function IntendedPath<V>(f: Edge<V>, p: nat, k: int): (r: seq<Edge<Label<V>>>)
    ensures |r| == Reps(k)
  {
    seq(Reps(k), c requires 0 <= c < Reps(k) => IntendedStep(f, p, k, c))
  }

  /** For every k >= 1 the intended edges form a path of k edges from a to b
      through the k - 1 new vertices, and for k != 1 they are exactly the
      edges pathify_edges adds. */
  lemma IntendedPathIsPath<V>(f: Edge<V>, p: nat, k: int)
    requires k >= 1
    ensures var r := IntendedPath(f, p, k);
      && |r| == k
      && r[0].0 == Original(f.0)
      && r[k - 1].1 == Original(f.1)
      && (forall c :: 0 <= c < k - 1 ==> r[c].1 == Subdivision(f, p, c) == r[c + 1].0)
      && (k >= 2 ==> r == PathOf(f, p, k))
  {
    if k >= 2 {
      PathOfIsPath(f, p, k);
    }
  }

  /** For k <= 0 nothing is added at all. */
  lemma {:induction false} SubdividedNothing<V>(es: seq<Edge<V>>, k: int)
    requires k <= 0
    ensures Subdivided(es, k) == []
  {
    if es != [] {
      SubdividedNothing(es[..|es| - 1], k);
    }
  }

  /** One edge of the subdivision carries a new vertex of position `p`. */
  predicate Mentions<V>(e: Edge<Label<V>>, p: nat)
  {
    (e.0.Subdivision? && e.0.position == p) || (e.1.Subdivision? && e.1.position == p)
  }

  /** All new vertices on an edge come from positions below `p`. */
  predicate Below<V>(e: Edge<Label<V>>, p: nat)
  {
    (e.0.Subdivision? ==> e.0.position < p) && (e.1.Subdivision? ==> e.1.position < p)
  }

  /** No edge added for one edge of G repeats another, unless the edge is a
      loop and k = 2: then (a, new 0) and (new 0, a) are the same edge. */
  lemma PathOfNoRepeats<V>(f: Edge<V>, p: nat, k: int)
    requires !(IsLoop(f) && k == 2)
    ensures var r := PathOf(f, p, k);
      forall i, j :: 0 <= i < j < |r| ==> !SameSimpleEdge(r[i], r[j])
  {
    var r := PathOf(f, p, k);
    forall i, j | 0 <= i < j < |r| ensures !SameSimpleEdge(r[i], r[j]) {
      assert r[i] == PathStep(f, p, k, i) && r[j] == PathStep(f, p, k, j);
    }
  }

  lemma {:induction false} SubdividedNoRepeats<V>(es: seq<Edge<V>>, k: int)
    requires k != 2 || forall q :: 0 <= q < |es| ==> !IsLoop(es[q])
    ensures var r := Subdivided(es, k);
      && (forall i, j :: 0 <= i < j < |r| ==> !SameSimpleEdge(r[i], r[j]))
      && (forall i :: 0 <= i < |r| ==> Below(r[i], |es|))
      && |r| == |es| * Reps(k)
  {
    if es != [] {
      var m := |es| - 1;
      var pre, f := es[..m], es[m];
      assert forall q :: 0 <= q < |pre| ==> pre[q] == es[q];
      SubdividedNoRepeats(pre, k);
      PathOfNoRepeats(f, m, k);
      PathOfMentions(f, m, k);
      assert Subdivided(es, k) == Subdivided(pre, k) + PathOf(f, m, k);
      JoinNoRepeats(Subdivided(pre, k), PathOf(f, m, k), m);
      assert m * Reps(k) + Reps(k) == (m + 1) * Reps(k);
    }
  }

  /** Every edge added for the edge at position `p` carries a new vertex of
      that position and none of a later one. */
  lemma PathOfMentions<V>(f: Edge<V>, p: nat, k: int)
    ensures var b := PathOf(f, p, k);
      forall i :: 0 <= i < |b| ==> Mentions(b[i], p) && Below(b[i], p + 1)
  {
    var b := PathOf(f, p, k);
    forall i | 0 <= i < |b| ensures Mentions(b[i], p) && Below(b[i], p + 1) {
      assert b[i] == PathStep(f, p, k, i);
    }
  }

  /** Edges for earlier positions never repeat an edge for position `m`. */
  lemma JoinNoRepeats<V>(a: seq<Edge<Label<V>>>, b: seq<Edge<Label<V>>>, m: nat)
    requires forall i, j :: 0 <= i < j < |a| ==> !SameSimpleEdge(a[i], a[j])
    requires forall i, j :: 0 <= i < j < |b| ==> !SameSimpleEdge(b[i], b[j])
    requires forall i :: 0 <= i < |a| ==> Below(a[i], m)
    requires forall i :: 0 <= i < |b| ==> Mentions(b[i], m) && Below(b[i], m + 1)
    ensures var r := a + b;
      && (forall i, j :: 0 <= i < j < |r| ==> !SameSimpleEdge(r[i], r[j]))
      && (forall i :: 0 <= i < |r| ==> Below(r[i], m + 1))
  {
    var r := a + b;
    forall i, j | 0 <= i < j < |r| ensures !SameSimpleEdge(r[i], r[j]) {
      if j < |a| {
        assert r[i] == a[i] && r[j] == a[j];
      } else if i < |a| {
        assert r[i] == a[i] && r[j] == b[j - |a|];
      } else {
        assert r[i] == b[i - |a|] && r[j] == b[j - |a|];
      }
    }
    forall i | 0 <= i < |r| ensures Below(r[i], m + 1) {
      if i < |a| { assert r[i] == a[i]; } else { assert r[i] == b[i - |a|]; }
    }
  }

  /** Unless G has a loop and k = 2, every edge added is kept: the result has
      k edges per edge of G, in order of addition. */
  lemma PathifyKeepsAll<V>(es: seq<Edge<V>>, k: int)
    requires k != 2 || forall q :: 0 <= q < |es| ==> !IsLoop(es[q])
    ensures SimpleEdges(Subdivided(es, k)) == Subdivided(es, k)
    ensures |SimpleEdges(Subdivided(es, k))| == |es| * Reps(k)
  {
    SubdividedNoRepeats(es, k);
    SimpleEdgesKeepsAll(Subdivided(es, k));
  }

  /** A loop (a, a) with k = 2: the second edge (new 0, a) is the first one
      reversed, and the simple graph keeps only one edge. */
  lemma PathifyLoopTwo<V>(a: V)
    ensures SimpleEdges(Subdivided([(a, a)], 2)) == [(Original(a), Subdivision((a, a), 0, 0))]
  {
    var r := Subdivided([(a, a)], 2);
    assert [(a, a)][..0] == [];
    assert Subdivided<V>([], 2) == [];
    assert r == Subdivided<V>([], 2) + PathOf((a, a), 0, 2);
    assert r == [(Original(a), Subdivision((a, a), 0, 0)), (Subdivision((a, a), 0, 0), Original(a))];
    assert r[..1] == [(Original(a), Subdivision((a, a), 0, 0))];
    assert r[..1][..0] == [];
    assert SimpleEdges(r[..1]) == [r[0]];
    assert r[1] == (r[0].1, r[0].0);
    assert r[..2] == r;
  }
}
