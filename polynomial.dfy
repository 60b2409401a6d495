/** The Tutte engine of `polynomial.py`: the deletion-contraction recursion
    that produces the raw polynomial, the `Tutte` object that holds the
    simplified polynomial of a graph, and its evaluation. */
module Polynomial {
  import opened Graphs
  import opened Manipulation
  import opened Monomials

  // ---------------------------------------------------------------------
  // Cut edges and loops
  // ---------------------------------------------------------------------

  /** The number of cut edges among the first `n` edges. */
  function CutEdgesBelow(es: seq<Edge<int>>, n: nat): nat
    requires n <= |es|
  {
    if n == 0 then 0 else CutEdgesBelow(es, n - 1) + (if IsCutEdge(es, n - 1) then 1 else 0)
  }

  /** The number of loops among the first `n` edges. */
  function LoopsBelow(es: seq<Edge<int>>, n: nat): nat
    requires n <= |es|
  {
    if n == 0 then 0 else LoopsBelow(es, n - 1) + (if IsLoop(es[n - 1]) then 1 else 0)
  }

  /** `len(get_cut_edges(G))`. */
  function CutEdgeCount(es: seq<Edge<int>>): nat
  {
    CutEdgesBelow(es, |es|)
  }

  /** `len(get_loops(G))`. */
  function LoopCount(es: seq<Edge<int>>): nat
  {
    LoopsBelow(es, |es|)
  }

  /** An edge deletion-contraction may branch on: neither a cut edge nor a loop. */
  predicate IsFree(es: seq<Edge<int>>, k: nat)
    requires k < |es|
  {
    !IsCutEdge(es, k) && !IsLoop(es[k])
  }

  /** The two counts add up to the number of edges exactly when no edge is
      free: an edge is never both a cut edge and a loop. */
  lemma {:induction false} CountsBelow(es: seq<Edge<int>>, n: nat)
    requires n <= |es|
    ensures CutEdgesBelow(es, n) + LoopsBelow(es, n) <= n
    ensures CutEdgesBelow(es, n) + LoopsBelow(es, n) == n <==> forall k :: 0 <= k < n ==> !IsFree(es, k)
  {
    if n > 0 {
      CountsBelow(es, n - 1);
      var cut, loop := IsCutEdge(es, n - 1), IsLoop(es[n - 1]);
      if loop {
        LoopIsNotCutEdge(es, n - 1);
      }
      var noneBefore := forall k :: 0 <= k < n - 1 ==> !IsFree(es, k);
      CountStep(CutEdgesBelow(es, n - 1), LoopsBelow(es, n - 1), n, cut, loop, noneBefore);
      assert (forall k :: 0 <= k < n ==> !IsFree(es, k)) <==> noneBefore && !IsFree(es, n - 1);
    }
  }

  /** One more edge, counted as a cut edge, a loop or neither. */
  lemma CountStep(c: nat, l: nat, n: nat, cut: bool, loop: bool, noneBefore: bool)
    requires n > 0 && c + l <= n - 1 && (c + l == n - 1 <==> noneBefore)
    requires !(cut && loop)
    ensures c + (if cut then 1 else 0) + l + (if loop then 1 else 0) <= n
    ensures c + (if cut then 1 else 0) + l + (if loop then 1 else 0) == n <==> noneBefore && (cut || loop)
  {
  }

  /** The first free edge at or after `from`, or `|es|` when there is none. */
  function FirstFree(es: seq<Edge<int>>, from: nat): (k: nat)
    requires from <= |es|
    ensures from <= k <= |es|
    ensures k < |es| ==> IsFree(es, k)
    ensures forall j :: from <= j < k ==> !IsFree(es, j)
    decreases |es| - from
  {
    if from == |es| then |es| else if IsFree(es, from) then from else FirstFree(es, from + 1)
  }

  /** `G.copy()` followed by `remove_edge(*e)`: the same vertices and every
      edge but the one at position `k`. */
  function Delete(g: Graph<int>, k: nat): Graph<int>
    requires k < |g.edges|
  {
    Graph(g.vertices, Without(g.edges, k))
  }

  /** Deletion removes exactly that edge: the other edges keep their
      multiplicities and the vertex set is unchanged. */
  lemma DeleteRemovesOne(g: Graph<int>, k: nat)
    requires k < |g.edges|
    ensures var h := Delete(g, k);
      && h.vertices == g.vertices
      && multiset(h.edges) + multiset{g.edges[k]} == multiset(g.edges)
      && (WellFormed(g) ==> WellFormed(h))
  {
    var es := g.edges;
    assert es == es[..k] + [es[k]] + es[k + 1..];
    var h := Delete(g, k);
    if WellFormed(g) {
      forall x | x in Ends(h.edges) ensures x in g.vertices {
        var j := EndsFrom(h.edges, x);
        assert h.edges[j] in es;
      }
    }
  }

  // ---------------------------------------------------------------------
  // _generate_polynomial
  // ---------------------------------------------------------------------

  /** The raw Tutte polynomial by deletion-contraction, one monomial per
      term of the string the source builds: when every edge is a cut edge
      or a loop, the single term `x^c y^l`; otherwise the terms for G with
      the first free edge deleted, then those for G with it contracted.
      Every term has total degree at most the number of edges. */
  function TutteRaw(g: Graph<int>): (r: seq<Monomial>)
    ensures |r| >= 1
    ensures forall i :: 0 <= i < |r| ==> r[i].x + r[i].y <= |g.edges|
    decreases |g.edges|
  {
    var es := g.edges;
    var c, l := CutEdgeCount(es), LoopCount(es);
    if c + l == |es| then [Monomial(c, l)]
    else
      CountsBelow(es, |es|);
      var k := FirstFree(es, 0);
      ContractShrinks(g, k);
      TutteRaw(Delete(g, k)) + TutteRaw(Contract(g, k))
  }

  /** The base case: a single term exactly when no edge is free, and then
      it is `x^c y^l` with c cut edges and l loops, c + l being the number
      of edges. */
  lemma TutteBase(g: Graph<int>)
    ensures (forall k :: 0 <= k < |g.edges| ==> !IsFree(g.edges, k)) <==> |TutteRaw(g)| == 1
    ensures |TutteRaw(g)| == 1 ==>
      TutteRaw(g) == [Monomial(CutEdgeCount(g.edges), LoopCount(g.edges))]
      && CutEdgeCount(g.edges) + LoopCount(g.edges) == |g.edges|
  {
    CountsBelow(g.edges, |g.edges|);
  }

  /** The recursive case: branch on the first free edge, in edge order; the
      raw terms are those of the deletion followed by those of the
      contraction. */
  lemma TutteBranch(g: Graph<int>)
    requires exists k :: 0 <= k < |g.edges| && IsFree(g.edges, k)
    ensures var k := FirstFree(g.edges, 0);
      && k < |g.edges| && IsFree(g.edges, k)
      && (forall j :: 0 <= j < k ==> !IsFree(g.edges, j))
      && TutteRaw(g) == TutteRaw(Delete(g, k)) + TutteRaw(Contract(g, k))
      && |TutteRaw(g)| == |TutteRaw(Delete(g, k))| + |TutteRaw(Contract(g, k))|
  {
    CountsBelow(g.edges, |g.edges|);
  }

  lemma {:induction false} PowAdd(b: int, m: nat, n: nat)
    ensures Pow(b, m) * Pow(b, n) == Pow(b, m + n)
    decreases m
  {
    if m > 0 {
      PowAdd(b, m - 1, n);
      assert Pow(b, m) * Pow(b, n) == b * (Pow(b, m - 1) * Pow(b, n));
    }
  }

  lemma {:induction false} RawValueAppend(a: seq<Monomial>, b: seq<Monomial>, x: int, y: int)
    ensures RawValue(a + b, x, y) == RawValue(a, x, y) + RawValue(b, x, y)
    decreases |b|
  {
    if b != [] {
      var n := |b| - 1;
      assert (a + b)[..|a + b| - 1] == a + b[..n];
      RawValueAppend(a, b[..n], x, y);
    } else {
      assert a + b == a;
    }
  }

  /** T(2, 2) = 2^|E|: each base term is worth 2^(c + l) = 2^|E| there, and
      deletion and contraction each leave one edge fewer.  This holds
      because the contraction keeps every edge but e; the contraction as
      written drops loops on u or v and loses it. */
  lemma {:induction false} TutteAtTwoTwo(g: Graph<int>)
    requires WellFormed(g)
    ensures RawValue(TutteRaw(g), 2, 2) == Pow(2, |g.edges|)
    decreases |g.edges|
  {
    var es := g.edges;
    if CutEdgeCount(es) + LoopCount(es) == |es| {
      BaseAtTwoTwo(g);
    } else {
      var k := BranchEdge(g);
      DeleteLeavesOneFewer(g, k);
      ContractLeavesOneFewer(g, k);
      TutteAtTwoTwo(Delete(g, k));
      TutteAtTwoTwo(Contract(g, k));
      HalvesAtTwoTwo(TutteRaw(Delete(g, k)), TutteRaw(Contract(g, k)), |es| - 1);
    }
  }

  /** The edge the recursion branches on when some edge is free. */
  lemma BranchEdge(g: Graph<int>) returns (k: nat)
    requires CutEdgeCount(g.edges) + LoopCount(g.edges) != |g.edges|
    ensures k < |g.edges| && !IsLoop(g.edges[k])
    ensures TutteRaw(g) == TutteRaw(Delete(g, k)) + TutteRaw(Contract(g, k))
  {
    CountsBelow(g.edges, |g.edges|);
    k := FirstFree(g.edges, 0);
  }

  /** Two halves each worth 2^n make a whole worth 2^(n + 1). */
  lemma HalvesAtTwoTwo(a: seq<Monomial>, b: seq<Monomial>, n: nat)
    requires RawValue(a, 2, 2) == Pow(2, n) && RawValue(b, 2, 2) == Pow(2, n)
    ensures RawValue(a + b, 2, 2) == Pow(2, n + 1)
  {
    RawValueAppend(a, b, 2, 2);
  }

  lemma DeleteLeavesOneFewer(g: Graph<int>, k: nat)
    requires WellFormed(g) && k < |g.edges|
    ensures WellFormed(Delete(g, k)) && |Delete(g, k).edges| == |g.edges| - 1
  {
    DeleteRemovesOne(g, k);
  }

  lemma BaseAtTwoTwo(g: Graph<int>)
    requires CutEdgeCount(g.edges) + LoopCount(g.edges) == |g.edges|
    ensures RawValue(TutteRaw(g), 2, 2) == Pow(2, |g.edges|)
  {
    var c, l := CutEdgeCount(g.edges), LoopCount(g.edges);
    PowAdd(2, c, l);
    assert TutteRaw(g) == [Monomial(c, l)];
    assert [Monomial(c, l)][..0] == [];
  }

  lemma ContractLeavesOneFewer(g: Graph<int>, k: nat)
    requires WellFormed(g) && k < |g.edges| && !IsLoop(g.edges[k])
    ensures WellFormed(Contract(g, k)) && |Contract(g, k).edges| == |g.edges| - 1
  {
    ContractKeepsEdges(g, k);
  }

  // ---------------------------------------------------------------------
  // The cycle on five vertices
  // ---------------------------------------------------------------------

  /** `nx.cycle_graph(5)`, its edges in the order its edge view lists them. */
  function CycleFive(): Graph<int>
  {
    Graph({0, 1, 2, 3, 4}, [(0, 1), (0, 4), (1, 2), (2, 3), (3, 4)])
  }

  /** The recursion on the cycle on five vertices: it branches four times,
      each deletion leaving a path of cut edges and the last contraction a
      single loop, so the raw polynomial is `x^4 y^0 + x^3 y^0 + x^2 y^0 +
      x^1 y^0 + x^0 y^1`. */
  lemma CycleFiveRaw()
    ensures TutteRaw(CycleFive()) == [Monomial(4, 0), Monomial(3, 0), Monomial(2, 0), Monomial(1, 0), Monomial(0, 1)]
  {
    var g := CycleFive();
    CycleFiveFree(g.edges);
    BranchOnFirst(g);
    var d, c := Delete(g, 0), Contract(g, 0);
    CutsOfPathFour(d.edges);
    AllCutBase(d);
    assert |d.edges| == 4;
    CycleFiveContract(g);
    CycleFourRaw(c);
    Prepend(Monomial(4, 0), TutteRaw(c));
  }

  lemma CycleFiveFree(es: seq<Edge<int>>)
    requires es == [(0, 1), (0, 4), (1, 2), (2, 3), (3, 4)]
    ensures IsFree(es, 0)
  {
    var rest := Without(es, 0);
    assert rest == [(0, 4), (1, 2), (2, 3), (3, 4)];
    ClosureClosed(rest, {0});
    ClosureAcross(rest, {0}, 0);
    ClosureAcross(rest, {0}, 3);
    ClosureAcross(rest, {0}, 2);
    ClosureAcross(rest, {0}, 1);
  }

  lemma CutsOfPathFour(es: seq<Edge<int>>)
    requires es == Without([(0, 1), (0, 4), (1, 2), (2, 3), (3, 4)], 0)
    ensures forall k :: 0 <= k < |es| ==> IsCutEdge(es, k)
  {
    assert es == [(0, 4), (1, 2), (2, 3), (3, 4)];
    PathFourEnds(es);
    PathFourMiddle(es);
  }

  lemma PathFourEnds(es: seq<Edge<int>>)
    requires es == [(0, 4), (1, 2), (2, 3), (3, 4)]
    ensures IsCutEdge(es, 0) && IsCutEdge(es, 3)
  {
    assert es[0] == (0, 4) && es[1] == (1, 2) && es[2] == (2, 3) && es[3] == (3, 4);
    CutBySides(es, 0, {0});
    CutBySides(es, 3, {1, 2, 3});
  }

  lemma PathFourMiddle(es: seq<Edge<int>>)
    requires es == [(0, 4), (1, 2), (2, 3), (3, 4)]
    ensures IsCutEdge(es, 1) && IsCutEdge(es, 2)
  {
    assert es[0] == (0, 4) && es[1] == (1, 2) && es[2] == (2, 3) && es[3] == (3, 4);
    CutBySides(es, 1, {1});
    CutBySides(es, 2, {1, 2});
  }

  /** Contracting (0, 1) merges its ends into 6 = len(G) + 1. */
  lemma CycleFiveContract(g: Graph<int>)
    requires g == CycleFive()
    ensures Contract(g, 0) == FromEdges([(4, 6), (2, 6), (2, 3), (3, 4)])
  {
    CycleFiveLabel(g);
    CycleFiveAdded(g);
    ContractFirst(g, [(4, 6), (2, 6), (2, 3), (3, 4)]);
  }

  lemma CycleFiveLabel(g: Graph<int>)
    requires g == CycleFive()
    ensures MergedLabel(g) == 6
  {
    SizeOfFour(0, 1, 2, 3);
    assert g.vertices == {0, 1, 2, 3} + {4};
  }

  lemma CycleFiveAdded(g: Graph<int>)
    requires g.edges == [(0, 1), (0, 4), (1, 2), (2, 3), (3, 4)]
    ensures AddedKeepingLoops(g, 0, 6) == [(0, 1)] + [(4, 6), (2, 6), (2, 3), (3, 4)]
  {
    var a := AddedKeepingLoops(g, 0, 6);
    assert a[0] == (0, 1);
    assert a[1] == Rejoined((0, 4), 0, 1, 6, false) == (4, 6);
    assert a[2] == Rejoined((1, 2), 0, 1, 6, false) == (2, 6);
    assert a[3] == Rejoined((2, 3), 0, 1, 6, false) == (2, 3);
    assert a[4] == Rejoined((3, 4), 0, 1, 6, false) == (3, 4);
  }

  /** The cycle 6, 4, 3, 2 left by the first contraction. */
  lemma CycleFourRaw(g: Graph<int>)
    requires g == FromEdges([(4, 6), (2, 6), (2, 3), (3, 4)])
    ensures TutteRaw(g) == [Monomial(3, 0), Monomial(2, 0), Monomial(1, 0), Monomial(0, 1)]
  {
    CycleFourFree(g.edges);
    BranchOnFirst(g);
    var d, c := Delete(g, 0), Contract(g, 0);
    CutsOfPathThree(d.edges);
    AllCutBase(d);
    assert |d.edges| == 3;
    CycleFourContract(g);
    CycleThreeRaw(c);
    Prepend(Monomial(3, 0), TutteRaw(c));
  }

  lemma CycleFourFree(es: seq<Edge<int>>)
    requires es == [(4, 6), (2, 6), (2, 3), (3, 4)]
    ensures IsFree(es, 0)
  {
    var rest := Without(es, 0);
    assert rest == [(2, 6), (2, 3), (3, 4)];
    ClosureClosed(rest, {4});
    ClosureAcross(rest, {4}, 2);
    ClosureAcross(rest, {4}, 1);
    ClosureAcross(rest, {4}, 0);
  }

  lemma CutsOfPathThree(es: seq<Edge<int>>)
    requires es == Without([(4, 6), (2, 6), (2, 3), (3, 4)], 0)
    ensures forall k :: 0 <= k < |es| ==> IsCutEdge(es, k)
  {
    assert es == [(2, 6), (2, 3), (3, 4)];
    assert es[0] == (2, 6) && es[1] == (2, 3) && es[2] == (3, 4);
    CutBySides(es, 0, {2, 3, 4});
    CutBySides(es, 1, {2, 6});
    CutBySides(es, 2, {2, 3, 6});
  }

  /** Contracting (4, 6) merges its ends into 5 = len(G) + 1. */
  lemma CycleFourContract(g: Graph<int>)
    requires g == FromEdges([(4, 6), (2, 6), (2, 3), (3, 4)])
    ensures Contract(g, 0) == FromEdges([(2, 5), (2, 3), (3, 5)])
  {
    CycleFourLabel(g);
    CycleFourAdded(g);
    ContractFirst(g, [(2, 5), (2, 3), (3, 5)]);
  }

  lemma CycleFourLabel(g: Graph<int>)
    requires g == FromEdges([(4, 6), (2, 6), (2, 3), (3, 4)])
    ensures MergedLabel(g) == 5
  {
    EndsOfCycleFour(g.edges);
    SizeOfFour(2, 3, 4, 6);
  }

  lemma CycleFourAdded(g: Graph<int>)
    requires g.edges == [(4, 6), (2, 6), (2, 3), (3, 4)]
    ensures AddedKeepingLoops(g, 0, 5) == [(4, 6)] + [(2, 5), (2, 3), (3, 5)]
  {
    var a := AddedKeepingLoops(g, 0, 5);
    assert a[0] == (4, 6);
    assert a[1] == Rejoined((2, 6), 4, 6, 5, false) == (2, 5);
    assert a[2] == Rejoined((2, 3), 4, 6, 5, false) == (2, 3);
    assert a[3] == Rejoined((3, 4), 4, 6, 5, false) == (3, 5);
  }

  lemma EndsOfCycleFour(es: seq<Edge<int>>)
    requires es == [(4, 6), (2, 6), (2, 3), (3, 4)]
    ensures Ends(es) == {2, 3, 4, 6}
  {
    forall x | x in Ends(es) ensures x in {2, 3, 4, 6} {
      var k := EndsFrom(es, x);
    }
    assert es[0].0 == 4 && es[0].1 == 6 && es[1].0 == 2 && es[2].1 == 3;
  }

  /** A term in front of the terms of the contraction. */
  lemma Prepend<T>(a: T, r: seq<T>)
    ensures |r| == 1 ==> [a] + r == [a, r[0]]
    ensures |r| == 2 ==> [a] + r == [a, r[0], r[1]]
    ensures |r| == 3 ==> [a] + r == [a, r[0], r[1], r[2]]
    ensures |r| == 4 ==> [a] + r == [a, r[0], r[1], r[2], r[3]]
  {
  }

  lemma SizeOfThree(a: int, b: int, c: int)
    requires a < b < c
    ensures |{a, b, c}| == 3
  {
    assert {a, b, c} == {a, b} + {c};
    assert {a, b} == {a} + {b};
  }

  lemma SizeOfFour(a: int, b: int, c: int, d: int)
    requires a < b < c < d
    ensures |{a, b, c, d}| == 4
  {
    SizeOfThree(a, b, c);
    assert {a, b, c, d} == {a, b, c} + {d};
  }

  /** The triangle 2, 3, 5. */
  lemma CycleThreeRaw(g: Graph<int>)
    requires g == FromEdges([(2, 5), (2, 3), (3, 5)])
    ensures TutteRaw(g) == [Monomial(2, 0), Monomial(1, 0), Monomial(0, 1)]
  {
    CycleThreeFree(g.edges);
    BranchOnFirst(g);
    var d, c := Delete(g, 0), Contract(g, 0);
    CutsOfPathTwo(d.edges);
    AllCutBase(d);
    assert |d.edges| == 2;
    CycleThreeContract(g);
    CycleTwoRaw(c);
    Prepend(Monomial(2, 0), TutteRaw(c));
  }

  lemma CycleThreeFree(es: seq<Edge<int>>)
    requires es == [(2, 5), (2, 3), (3, 5)]
    ensures IsFree(es, 0)
  {
    var rest := Without(es, 0);
    assert rest == [(2, 3), (3, 5)];
    ClosureClosed(rest, {2});
    ClosureAcross(rest, {2}, 0);
    ClosureAcross(rest, {2}, 1);
  }

  lemma CutsOfPathTwo(es: seq<Edge<int>>)
    requires es == Without([(2, 5), (2, 3), (3, 5)], 0)
    ensures forall k :: 0 <= k < |es| ==> IsCutEdge(es, k)
  {
    assert es == [(2, 3), (3, 5)];
    CutBySides(es, 0, {2});
    CutBySides(es, 1, {2, 3});
  }

  /** Contracting (2, 5) merges its ends into 4 = len(G) + 1, turning the
      other two edges into parallel edges (3, 4). */
  lemma CycleThreeContract(g: Graph<int>)
    requires g == FromEdges([(2, 5), (2, 3), (3, 5)])
    ensures Contract(g, 0) == FromEdges([(3, 4), (3, 4)])
  {
    CycleThreeLabel(g);
    CycleThreeAdded(g);
    ContractFirst(g, [(3, 4), (3, 4)]);
  }

  lemma CycleThreeLabel(g: Graph<int>)
    requires g == FromEdges([(2, 5), (2, 3), (3, 5)])
    ensures MergedLabel(g) == 4
  {
    EndsOfCycleThree(g.edges);
    SizeOfThree(2, 3, 5);
  }

  lemma CycleThreeAdded(g: Graph<int>)
    requires g.edges == [(2, 5), (2, 3), (3, 5)]
    ensures AddedKeepingLoops(g, 0, 4) == [(2, 5)] + [(3, 4), (3, 4)]
  {
    var a := AddedKeepingLoops(g, 0, 4);
    assert a[0] == (2, 5);
    assert a[1] == Rejoined((2, 3), 2, 5, 4, false) == (3, 4);
    assert a[2] == Rejoined((3, 5), 2, 5, 4, false) == (3, 4);
  }

  lemma EndsOfCycleThree(es: seq<Edge<int>>)
    requires es == [(2, 5), (2, 3), (3, 5)]
    ensures Ends(es) == {2, 3, 5}
  {
    forall x | x in Ends(es) ensures x in {2, 3, 5} {
      var k := EndsFrom(es, x);
    }
    assert es[0].0 == 2 && es[0].1 == 5 && es[1].1 == 3;
  }

  /** Two parallel edges between 3 and 4. */
  lemma CycleTwoRaw(g: Graph<int>)
    requires g == FromEdges([(3, 4), (3, 4)])
    ensures TutteRaw(g) == [Monomial(1, 0), Monomial(0, 1)]
  {
    CycleTwoFree(g.edges);
    BranchOnFirst(g);
    var d, c := Delete(g, 0), Contract(g, 0);
    CutsOfPathOne(d.edges);
    AllCutBase(d);
    assert |d.edges| == 1;
    CycleTwoContract(g);
    LoopRaw(c);
    Prepend(Monomial(1, 0), TutteRaw(c));
  }

  lemma CycleTwoFree(es: seq<Edge<int>>)
    requires es == [(3, 4), (3, 4)]
    ensures IsFree(es, 0)
  {
    var rest := Without(es, 0);
    assert rest == [(3, 4)];
    ClosureClosed(rest, {3});
    ClosureAcross(rest, {3}, 0);
  }

  lemma CutsOfPathOne(es: seq<Edge<int>>)
    requires es == Without([(3, 4), (3, 4)], 0)
    ensures forall k :: 0 <= k < |es| ==> IsCutEdge(es, k)
  {
    assert es == [(3, 4)];
    CutBySides(es, 0, {3});
  }

  /** Contracting (3, 4): `len(G) + 1` is 3, an end of the edge, so the
      merged vertex is the next free label, 5, and the parallel edge
      becomes a loop on it. */
  lemma CycleTwoContract(g: Graph<int>)
    requires g == FromEdges([(3, 4), (3, 4)])
    ensures Contract(g, 0) == FromEdges([(5, 5)])
  {
    CycleTwoLabel(g);
    CycleTwoAdded(g);
    ContractFirst(g, [(5, 5)]);
  }

  lemma CycleTwoLabel(g: Graph<int>)
    requires g == FromEdges([(3, 4), (3, 4)])
    ensures MergedLabel(g) == 5
  {
    assert g.edges[0] == (3, 4) && g.edges[1] == (3, 4);
    forall x | x in g.vertices ensures x in {3, 4} {
      var k := EndsFrom(g.edges, x);
    }
    assert g.vertices == {3, 4};
    assert {3, 4} - {3} == {4} && {4} - {4} == {};
    assert FreshFrom({}, 5) == 5;
    assert FreshFrom({4}, 4) == 5;
    assert FreshFrom({3, 4}, 3) == 5;
  }

  lemma CycleTwoAdded(g: Graph<int>)
    requires g.edges == [(3, 4), (3, 4)]
    ensures AddedKeepingLoops(g, 0, 5) == [(3, 4)] + [(5, 5)]
  {
    var a := AddedKeepingLoops(g, 0, 5);
    assert a[0] == (3, 4);
    assert a[1] == Rejoined((3, 4), 3, 4, 5, false) == (5, 5);
  }

  /** A single loop: no cut edge, one loop. */
  lemma LoopRaw(g: Graph<int>)
    requires g == FromEdges([(5, 5)])
    ensures TutteRaw(g) == [Monomial(0, 1)]
  {
    LoopIsNotCutEdge(g.edges, 0);
    TutteBase(g);
  }

  /** Branching on edge 0 when it is free. */
  lemma BranchOnFirst(g: Graph<int>)
    requires |g.edges| > 0 && IsFree(g.edges, 0)
    ensures TutteRaw(g) == TutteRaw(Delete(g, 0)) + TutteRaw(Contract(g, 0))
  {
    TutteBranch(g);
  }

  /** A graph whose every edge is a cut edge is a base case: `x^#E y^0`. */
  lemma AllCutBase(g: Graph<int>)
    requires forall k :: 0 <= k < |g.edges| ==> IsCutEdge(g.edges, k)
    ensures TutteRaw(g) == [Monomial(|g.edges|, 0)]
  {
    CutsBelow(g.edges, |g.edges|);
    TutteBase(g);
  }

  lemma {:induction false} CutsBelow(es: seq<Edge<int>>, n: nat)
    requires n <= |es| && forall k :: 0 <= k < |es| ==> IsCutEdge(es, k)
    ensures CutEdgesBelow(es, n) == n
  {
    if n > 0 {
      CutsBelow(es, n - 1);
    }
  }

  /** The class example: `Tutte(C5).polynomial` is `x^4 + x^3 + x^2 + x + y`
      and `evaluate(2, 0)`, the number of acyclic orientations of the
      cycle, is 30. */
  lemma CycleFiveTutte()
    ensures PolynomialOf(CycleFive()) == "x^4 + x^3 + x^2 + x + y"
    ensures RawValue(TutteRaw(CycleFive()), 2, 0) == 30
  {
    CycleFiveRaw();
    CycleFiveRendering();
    CombineValue(TutteRaw(CycleFive()), 2, 0);
  }

  // ---------------------------------------------------------------------
  // The Tutte object
  // ---------------------------------------------------------------------

  /** The simplified polynomial string of G. */
  ghost function PolynomialOf(g: Graph<int>): string
  {
    Render(Combine(TutteRaw(g)))
  }

  /** What constructing a `Tutte` object yields: the object, or the
      `NotImplementedError` raised for a directed graph. */
  datatype Outcome = Built(tutte: Tutte) | NotImplemented

  class Tutte {
    /** `self.G`. */
    var G: Graph<int>
    /** `self.polynomial`: the simplified polynomial string. */
    var polynomial: string

    /** The polynomial string is the simplified raw polynomial of G. */
    ghost predicate Valid()
      reads this
    {
      polynomial == PolynomialOf(G)
    }

    /** `__init__` for an undirected graph: store G and generate its
        polynomial. */
    constructor (g: Graph<int>)
      ensures G == g && Valid()
    {
      var p := GeneratePolynomial(g);
      G, polynomial := g, p;
    }

    /** `evaluate(x, y)`: split the polynomial string on `" + "` and add up
        the value of each term at (x, y), which is the value there of the
        raw polynomial the recursion produced. */
    method Evaluate(x: int, y: int) returns (s: int)
      requires Valid()
      ensures s == TermsValue(Combine(TutteRaw(G)), x, y)
      ensures s == RawValue(TutteRaw(G), x, y)
    {
      ghost var raw := TutteRaw(G);
      CombineSum(raw);
      CombineValue(raw, x, y);
      s := SumTerms(polynomial, Combine(raw), x, y);
    }
  }

  /** The loop of `evaluate`: split the polynomial string on `" + "` and add
      up the value of each term at (x, y). */
  method SumTerms(polynomial: string, ghost ts: seq<Term>, x: int, y: int) returns (s: int)
    requires ts != [] && polynomial == Render(ts)
    ensures s == TermsValue(ts, x, y)
  {
    RenderSplits(ts);
    var terms := Split(polynomial);
    s := 0;
    for i := 0 to |terms|
      invariant s == TermsValue(ts[..i], x, y)
    {
      var t := ParseTerm(terms[i]);
      SumStep(terms, ts, i, x, y);
      s := s + t.coef * MonoValue(t.mono, x, y);
    }
    assert ts[..|terms|] == ts;
  }

  /** Each term read back from the string is the term that was rendered. */
  lemma SumStep(terms: seq<string>, ts: seq<Term>, i: nat, x: int, y: int)
    requires terms == TermTexts(ts) && i < |ts|
    ensures var t := ParseTerm(terms[i]);
      TermsValue(ts[..i + 1], x, y) == TermsValue(ts[..i], x, y) + t.coef * MonoValue(t.mono, x, y)
  {
    TermTextRoundTrip(ts[i]);
    assert ts[..i + 1][..i] == ts[..i];
  }

  /** The class example run through the object: `Tutte(C5)` holds the
      polynomial `x^4 + x^3 + x^2 + x + y`, and `evaluate(2, 0)` returns 30. */
  method CycleFiveExample() returns (polynomial: string, orientations: int)
    ensures polynomial == "x^4 + x^3 + x^2 + x + y"
    ensures orientations == 30
  {
    var t := new Tutte(CycleFive());
    CycleFiveTutte();
    polynomial := t.polynomial;
    orientations := t.Evaluate(2, 0);
  }

  /** `generate_polynomial(G)`: simplify the raw polynomial of G. */
  method GeneratePolynomial(g: Graph<int>) returns (polynomial: string)
    ensures polynomial == PolynomialOf(g)
  {
    polynomial := SimplifyPolynomial(TutteRaw(g));
  }

  /** `Tutte(G)`: a directed graph raises `NotImplementedError` before
      anything is computed; otherwise the object holds G and its polynomial. */
  method NewTutte(g: Graph<int>, directed: bool) returns (r: Outcome)
    ensures directed <==> r.NotImplemented?
    ensures r.Built? ==> fresh(r.tutte) && r.tutte.G == g && r.tutte.Valid()
  {
    if directed {
      return NotImplemented;
    }
    var t := new Tutte(g);
    return Built(t);
  }
}
