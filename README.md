# Tutte polynomial engine: a verified Dafny model

This project models the Tutte-polynomial engine of the repository and the
graph transforms it relies on:

- `Tutte` (`src/graph/polynomial.py`):
  - **The deletion–contraction recursion.** When every edge is a cut edge or a loop, it emits the single term `x^c y^l`. Otherwise it branches on the first edge that is neither. It recurses on a copy of the graph with that edge deleted and on the graph with that edge contracted, and joins the two results with `" + "`.
  - **The simplifier.** It counts equal terms in an insertion-ordered dictionary, simplifies the exponents, and renders the polynomial string.
  - **The evaluator.** It adds up the values of the terms at (x, y).
  - **The constructor.** It rejects directed graphs, then stores the graph and its polynomial.
- `contract_edge`, `multiply_edges` and `pathify_edges` (`src/graph/manipulation.py`). The last two are duplicated in `graph/manipulation.py`; they are modelled once (graph/manipulation.py:20-24 and 43-61 repeat src/graph/manipulation.py:54-58 and 77-95 line for line), and the rows below cite either copy.

Modules:

- `Graphs` (graphs.dfy). A networkx graph is modelled as a value: a set of nodes and a sequence of edges.
  - An edge is identified by its position in the sequence. The position stands in for a MultiGraph key, so parallel edges stay distinct.
  - `add_edge` on a multigraph (`AddEdge`, `FromEdges`) and on a simple graph (`AddSimpleEdge`, `SimpleFromEdges`) are modelled, as is `remove_nodes_from` (`RemoveNodes`).
  - Loops and cut edges are defined as predicates. A cut edge is one whose endpoints are no longer connected once it is removed. Connectivity is computed as a neighbour closure, and is proved equal to walk-based reachability.
- `Manipulation` (manipulation.dfy). The three transforms:
  - each as an imperative method with loops;
  - each proved against a function that states its result;
  - with lemmas about those functions.
- `Monomials` (monomials.dfy).
  - Raw terms are modelled as `Monomial(x, y)`; the term dictionary is modelled as a sequence of `Term(coef, mono)`.
  - `_simplify_polynomial` is modelled as its two loops: the first counts the raw terms into that dictionary, the second renders the dictionary.
  - Term texts, and reading them back, are modelled.
  - So are the values of a polynomial at integer (x, y).
- `Polynomial` (polynomial.dfy).
  - The recursion `TutteRaw`.
  - The class `Tutte` with the fields `G` and `polynomial`, and its `Evaluate`.
  - The constructor's directed-graph error path (`NewTutte`).
  - The class example: the recursion on `nx.cycle_graph(5)` is followed node by node down to its five raw terms, and the object built for it holds `x^4 + x^3 + x^2 + x + y` and evaluates to 30 at (2, 0).

The raw polynomial string of `_generate_polynomial` is `" + ".join` of texts `x^c y^l`. It is modelled by the sequence of its monomials:

- `RawSplits`: splitting the string on `" + "` gives back the texts, and each text reads back as its monomial.
- `RawTextInjective`: the dictionary keyed by raw text is therefore keyed by monomial.

In the simplifier, `term.replace("^1", "")` discards its result, so it has no effect and is modelled as none.

The driver recurses on the corrected contraction `Manipulation.Contract` (see Findings). `Manipulation.ContractEdge` models `contract_edge` as written, for edge views without keys and in insertion order (see Left out).

## Model

| member | source | states |
|---|---|---|
| Graphs.ClosureIsReachability | src/graph/polynomial.py:57 | the neighbour closure from `a` contains `b` exactly when some walk leads from `a` to `b` |
| Graphs.CutEdgeMeansDisconnected | src/graph/polynomial.py:57 | an edge is a cut edge exactly when, once it is removed, its second endpoint is unreachable from its first |
| Graphs.CutBySides | src/graph/polynomial.py:57 | a vertex set that holds one end of an edge but not the other, and that no other edge leaves, makes that edge a cut edge |
| Graphs.LoopIsNotCutEdge | src/graph/polynomial.py:57-58 | a loop is never a cut edge, so the cut edges and the loops never overlap |
| Graphs.FromEdgesAppend | src/graph/manipulation.py:16-34 | `add_edge` on a multigraph built from `es` gives the multigraph built from `es` plus that edge; its nodes are exactly the endpoints |
| Graphs.SimpleEdgesAppend | src/graph/manipulation.py:77-94 | `add_edge` on a simple graph built from `es` gives the simple graph built from `es` plus that edge; an edge already present, in either direction, is not added again |
| Graphs.SimpleEdgesKeepsAll | src/graph/manipulation.py:77-94 | adding edges to a simple graph, no two of which are equal or reversed, keeps every one of them in order |
| Manipulation.MergedLabel | src/graph/manipulation.py:21 | the corrected merged label is not a vertex of G; it is `len(G)+1` whenever that is free, and every label between `len(G)+1` and it is in use |
| Manipulation.Added | src/graph/manipulation.py:17-34 | the loop of contract_edge adds exactly one edge per edge of G |
| Manipulation.ReattachEdge | src/graph/manipulation.py:18-34 | the four branches for one edge: an edge with one end u (or v) runs from its other end to the merged vertex; another edge joining u and v becomes a loop on it; any other edge is copied. Both new ends are ends of the edge or the merged vertex. When the merged vertex is fresh, the new edge touches u or v only if it is the contracted edge or a loop on u or v, and otherwise it is the edge's image under the merge |
| Manipulation.AddReattached | src/graph/manipulation.py:16-34 | the loop over `G.edges` builds the multigraph of the reattached edges, in order, and removing u and v from it is the contraction |
| Manipulation.ContractEdge | src/graph/manipulation.py:4-36 | the method returns contract_edge as written: the reattached edges with u and v removed, merged vertex `len(G)+1` |
| Manipulation.ReattachedIsImage | src/graph/manipulation.py:18-35 | with a merged label distinct from the endpoints, the edge added for `f` touches u or v exactly when `f` is e or a loop on u or v; otherwise it is the image of `f` (unchanged, a loop on the merged vertex, or reattached) |
| Manipulation.SurvivorsSize | src/graph/manipulation.py:16-35 | the surviving edges, the loops on u or v, and e itself account for every edge of G |
| Manipulation.ContractEdges | src/graph/manipulation.py:16-35 | with an unused merged label, the edges of the result are exactly the images of the surviving edges, in order, numbering #E − 1 − (loops on u or v); u and v are gone; every other node lies on an edge of G or is the merged vertex; the result is well formed |
| Manipulation.ContractLoops | src/graph/manipulation.py:28-32 | with an unused merged label, every loop of the result is a loop G had, or the image of an edge parallel to e |
| Manipulation.ImageLoop | src/graph/manipulation.py:28-32 | an edge becomes a loop exactly when it was one or it joined u and v |
| Manipulation.ContractShrinks | src/graph/polynomial.py:72-74 | the contracted graph has fewer edges than G, so the recursion terminates |
| Manipulation.KeptAt | src/graph/manipulation.py:17-34 | the j-th edge kept by the corrected contraction is the image of the j-th edge of G once e is skipped, and there are #E − 1 of them |
| Manipulation.RejoinedIsImage | src/graph/manipulation.py:18-34 | in the corrected step, only e itself still touches u or v; every other edge becomes its image, loops on u or v included |
| Manipulation.ContractKeepsEdges | src/graph/manipulation.py:16-35 | the corrected contraction keeps every edge but e: the j-th edge of the result is the image of the j-th edge of G without e, exactly #E − 1 edges; u and v are gone; the result is well formed |
| Manipulation.ContractFirst | src/graph/manipulation.py:16-35 | when the contracted edge is the only edge touching its ends, the corrected contraction is the multigraph of the other re-added edges, in order |
| Manipulation.ContractAgreesWhenLabelFree | src/graph/manipulation.py:4-36 | when `len(G)+1` is unused and no loop sits on u or v, the corrected contraction equals contract_edge as written |
| Manipulation.ContractAsWrittenCollapsesTriangle | src/graph/manipulation.py:20-31 | on the triangle 0, 1, 4, contracting (0, 1) as written yields two loops on 4, while the corrected contraction yields two edges (4, 5) |
| Manipulation.ContractAsWrittenDropsLoop | src/graph/manipulation.py:18-35 | on a triangle 0, 1, 2 with a loop on 0, contracting (0, 1) as written yields only [(2, 4), (2, 4)]; the corrected contraction keeps the loop as (4, 4) |
| Manipulation.MultiplyEdges | src/graph/manipulation.py:54-58 | the nested loops build the multigraph whose edges are k copies of each edge of G in turn (none when k ≤ 0) |
| Manipulation.MultipliedSize | graph/manipulation.py:21-23 | the result has k · #E edges |
| Manipulation.MultipliedAt | src/graph/manipulation.py:55-57 | positions p·k to p·k + k − 1 of the result are copies of the p-th edge of G, with the same endpoints |
| Manipulation.MultipliedEnds | graph/manipulation.py:20-24 | with k ≥ 1 the nodes of the result are exactly the endpoints of G's edges, so isolated vertices are dropped; with k = 0 the result is empty |
| Manipulation.PathifyEdges | src/graph/manipulation.py:77-95 | the nested loops build the simple graph obtained by adding, edge after edge of G, the edges of each edge's path |
| Manipulation.AddPath | src/graph/manipulation.py:79-94 | the inner loop adds the edges for counter 0, k − 1 and the ones in between, as the three branches say |
| Manipulation.PathOfIsPath | graph/manipulation.py:45-60 | for k ≥ 2 the edges added for (a, b) form a path of k edges from a to b whose inner vertices are the new vertices 0 to k − 2 |
| Manipulation.PathOfOne | graph/manipulation.py:46-50 | for k = 1 the only edge added is (a, new vertex 0), and b is not reached |
| Manipulation.SubdividedNothing | graph/manipulation.py:45 | for k ≤ 0 no edge is added |
| Manipulation.SubdividedNoRepeats | graph/manipulation.py:47-59 | the new vertices carry their edge's position, so paths of different edges share no edge; unless G has a loop and k = 2, no added edge repeats another; there are k · #E of them |
| Manipulation.PathifyKeepsAll | src/graph/manipulation.py:77-95 | unless G has a loop and k = 2, the simple graph keeps every added edge: k edges per edge of G, in order |
| Manipulation.PathifyLoopTwo | src/graph/manipulation.py:77-94 | a loop with k = 2 gives (a, new 0) and (new 0, a), which the simple graph stores as one edge |
| Manipulation.IntendedPathIsPath | src/graph/manipulation.py:62-63 | the corrected path is, for every k ≥ 1, a path of k edges from a to b through the k − 1 new vertices, and equals the path as written for k ≥ 2 |
| Monomials.NatToString | src/graph/polynomial.py:61-64 | `str(n)` is a non-empty string of decimal digits |
| Monomials.ParseNatToString | src/graph/polynomial.py:61-64 | the digits of `str(n)` read back as n |
| Monomials.RawTextRoundTrip | src/graph/polynomial.py:61-64 | the raw term text `x^c y^l` reads back as (c, l) |
| Monomials.RawTextInjective | src/graph/polynomial.py:88-93 | different monomials have different raw texts, so counting texts counts monomials |
| Monomials.SplitJoin | src/graph/polynomial.py:88 | splitting on `" + "` texts without a `+` that were joined by `" + "` gives them back |
| Monomials.RawSplits | src/graph/polynomial.py:70-75 | the raw polynomial string splits back into its term texts, each naming its monomial |
| Monomials.FactorMeaning | src/graph/polynomial.py:100-111 | in a simplified half term, exponent 0 drops the variable, exponent 1 leaves it bare, and a larger exponent is kept after `^` |
| Monomials.SimplifyTerm | src/graph/polynomial.py:97-112 | the exponent handling for one key: when a 0 or a 1 occurs, each half is simplified and the halves are joined with no space; otherwise the term is unchanged. The text parses back to the same monomial, holds `x` (or `y`) exactly when that exponent is non-zero, and holds `^` exactly when an exponent is at least 2 |
| Monomials.MonoTextRoundTrip | src/graph/polynomial.py:98-112 | every simplified monomial text reads back as its monomial |
| Monomials.MonoTextShape | src/graph/polynomial.py:98-112 | a simplified monomial names x (or y) exactly when that exponent is not 0, and keeps a `^` exactly when some exponent is 2 or more: `^0` and `^1` never survive |
| Monomials.TermTextRoundTrip | src/graph/polynomial.py:114-117 | every rendered term, with its coefficient prefix unless that is 1, reads back as the term |
| Monomials.NoPlusInTerm | src/graph/polynomial.py:114-117 | no rendered term contains `+`, so `" + "` separates terms unambiguously |
| Monomials.RenderIsJoin | src/graph/polynomial.py:114-119 | the accumulator with its last three characters cut is the term texts joined by `" + "` |
| Monomials.RenderSplits | src/graph/polynomial.py:141 | splitting the rendered polynomial on `" + "` gives back the term texts |
| Monomials.AccumulatedStep | src/graph/polynomial.py:114-117 | one pass of the rendering loop appends the term text and `" + "` |
| Monomials.IndexOf | src/graph/polynomial.py:90 | the position of the key for m: the first term with that monomial, or none |
| Monomials.AddOccurrenceCounts | src/graph/polynomial.py:90-93 | counting one more m raises the coefficient of m by one and leaves every other coefficient unchanged; terms stay distinct with coefficients ≥ 1 |
| Monomials.CombineCounts | src/graph/polynomial.py:87-93 | after counting, the terms are distinct, each coefficient is ≥ 1, and the coefficient of each monomial is its number of occurrences |
| Monomials.CombineMembers | src/graph/polynomial.py:87-93 | a monomial has a term exactly when it occurs among the raw terms |
| Monomials.CombineSum | src/graph/polynomial.py:87-93 | the coefficients add up to the number of raw terms |
| Monomials.CombineOrder | src/graph/polynomial.py:87-95 | every term comes from a raw term, and terms appear in order of first occurrence |
| Monomials.CombineDistinctRaw | src/graph/polynomial.py:87-93 | pairwise different raw terms each get their own term, in order, with coefficient 1 |
| Monomials.CombineValue | src/graph/polynomial.py:87-93 | combining like terms does not change the value of the polynomial at any (x, y) |
| Monomials.CountTerms | src/graph/polynomial.py:87-93 | the counting loop leaves `term_dict`, as keys in insertion order plus counts, describing the combined terms |
| Monomials.CountExisting | src/graph/polynomial.py:90-91 | `term_dict[term] += 1` on a present key keeps the dictionary describing the combined terms |
| Monomials.CountNew | src/graph/polynomial.py:92-93 | `term_dict[term] = 1` on a new key appends it and keeps the dictionary describing the combined terms |
| Monomials.RenderTerms | src/graph/polynomial.py:94-119 | the rendering loop over the dictionary, then `[:-3]`, produces the rendered terms |
| Monomials.SimplifyPolynomial | src/graph/polynomial.py:77-119 | the simplified string is the rendering of the combined raw terms |
| Polynomial.CountsBelow | src/graph/polynomial.py:57-60 | cut edges plus loops never exceed the number of edges, and equal it exactly when no edge is free (neither a cut edge nor a loop) |
| Polynomial.FirstFree | src/graph/polynomial.py:66 | the first free edge in edge order, or none |
| Polynomial.DeleteRemovesOne | src/graph/polynomial.py:68-69 | the deleted copy has the same vertices and every edge but that one, with multiplicities; it stays well formed |
| Polynomial.TutteRaw | src/graph/polynomial.py:45-75 | the raw polynomial has at least one term, and each term's total degree is at most the number of edges |
| Polynomial.TutteBase | src/graph/polynomial.py:60-64 | a single term exactly when no edge is free, and then it is `x^c y^l` with c cut edges and l loops, c + l = #E |
| Polynomial.TutteBranch | src/graph/polynomial.py:66-75 | otherwise the branch edge is the first free edge; the raw terms are the deletion's followed by the contraction's, and the counts add up |
| Polynomial.BranchOnFirst | src/graph/polynomial.py:66-75 | when the first edge is neither a cut edge nor a loop, the raw terms are those of deleting it followed by those of contracting it |
| Polynomial.AllCutBase | src/graph/polynomial.py:60-64 | a graph whose every edge is a cut edge gives the single term `x^#E y^0` |
| Polynomial.BranchEdge | src/graph/polynomial.py:66-73 | when some edge is free, the branch edge is not a loop and the terms split into deletion and contraction |
| Polynomial.DeleteLeavesOneFewer | src/graph/polynomial.py:68-69 | the deleted copy is well formed with one edge fewer |
| Polynomial.ContractLeavesOneFewer | src/graph/polynomial.py:72-74 | the contracted graph is well formed with one edge fewer |
| Polynomial.BaseAtTwoTwo | src/graph/polynomial.py:60-64 | the base term is worth 2^#E at (2, 2) |
| Polynomial.TutteAtTwoTwo | src/graph/polynomial.py:45-75 | the raw polynomial is worth 2^#E at (2, 2), as a Tutte polynomial must be |
| Polynomial.Tutte.constructor | src/graph/polynomial.py:29-30 | the object holds G, and its polynomial is the simplified raw polynomial of G |
| Polynomial.GeneratePolynomial | src/graph/polynomial.py:42-43 | the polynomial string is the simplification of the raw polynomial |
| Polynomial.NewTutte | src/graph/polynomial.py:27-30 | a directed graph gives `NotImplementedError` and no object; otherwise a new object holding G and its polynomial |
| Polynomial.SumTerms | src/graph/polynomial.py:140-151 | splitting the rendered string on `" + "` and adding up the value of each term gives the value of the terms |
| Polynomial.SumStep | src/graph/polynomial.py:142-150 | each term read back from the string adds the value of the term that was rendered |
| Polynomial.Tutte.Evaluate | src/graph/polynomial.py:121-151 | the sum is the value at (x, y) of the simplified polynomial, which equals the value of the raw polynomial |
| Polynomial.CycleFiveRaw | src/graph/polynomial.py:14-16 | the recursion on the cycle on five vertices yields exactly the raw terms `x^4 y^0`, `x^3 y^0`, `x^2 y^0`, `x^1 y^0`, `x^0 y^1`, in that order |
| Polynomial.CycleFiveTutte | src/graph/polynomial.py:14-19 | the simplified polynomial of the cycle on five vertices is `x^4 + x^3 + x^2 + x + y`, and its raw polynomial is worth 30 at (2, 0) |
| Polynomial.CycleFiveExample | src/graph/polynomial.py:14-19 | `Tutte(C5).polynomial` is `x^4 + x^3 + x^2 + x + y` and `Tutte(C5).evaluate(2, 0)` returns 30 |

## Left out

- Polynomial.Tutte.Evaluate: this is weaker than the source.
  - The model reads each rendered term as its coefficient, x exponent and y exponent, over integers.
  - The source instead substitutes numbers into the text and calls Python's `eval`. That raises on many renderings: a coefficient prefix (`2 x`), two factors with no operator between them (`xy`, `x^2y`, `x^2 y^3`), and the empty term of a graph with no edges.
  - Floating-point arguments are not modelled.
- Polynomial.TutteRaw: this branches on the first free edge in the model's edge order, which is insertion order.
  - networkx lists the edges of the contracted MultiGraph in adjacency order, which can differ from insertion order. The raw terms can then come out in a different order.
  - No claim is made that the result is independent of the order.
  - `Polynomial.CycleFiveRaw` follows insertion order too. On a cycle, deleting any edge leaves a path and contracting any edge leaves a shorter cycle, so the other order should give the same terms. That is not proved here.
- Manipulation.ContractEdge, Manipulation.MultiplyEdges, Manipulation.PathifyEdges: these, too, build their results in insertion order, with each edge oriented as it was added.
  - networkx lists edges by adjacency and may report an edge with its ends swapped. For example, multiply_edges with k = 1 on edges inserted as (0, 1), (2, 3), (1, 2) lists them as (0, 1), (1, 2), (2, 3); the model keeps [(0, 1), (2, 3), (1, 2)].
  - So the positions named by `MultipliedAt`, `PathifyKeepsAll`, `AddReattached` and `ContractEdges` are insertion positions, not edge-view positions.
- Polynomial.TutteRaw: this recurses on the corrected contraction, not on `contract_edge` as written (see Findings).
- Edge identity is modelled by position. The source iterates MultiGraph edge views, and the model does not follow it there:
  - Those edge views carry the key as a third component, and the source's `u in edge` and `edge.index(u)` tests can match that key. This is not modelled.
  - `G.copy()` plus `remove_edge(*e)` is modelled as removing the edge at one position.
- `enumeration.get_cut_edges` and `enumeration.get_loops` are not part of this model. Loops and cut edges are defined as predicates instead.
- The `if not G:` fallback to `self.G` in `generate_polynomial` and `_generate_polynomial` is not modelled. Only the explicit-graph path is.
- `G.is_directed()` is modelled as a boolean parameter of `NewTutte`. A directed graph value is not modelled.
- Manipulation.PathifyEdges: the node names `str(edge) + "_" + str(i)` are modelled as `Subdivision(edge, position, i)`.
  - The position stands in for the text of `str(edge)`, which differs between the edges of G. A simple graph lists each edge once, and a multigraph edge view includes the key.
  - Clashes between these strings and the names of G's own nodes are not modelled.
- Vertex labels are integers in every graph given to `ContractEdge`, `Contract`, `TutteRaw`, the `Tutte` class and `NewTutte`, as `len(G)+1` requires of the contracted graphs. The source accepts any hashable label; inputs with other labels are not modelled there. `MultiplyEdges` and `PathifyEdges` are generic in the label type.
- The docstring example of `evaluate` that gives 6 for C5 at (2, 0) is not modelled. It contradicts the class example, which gives 30 (`Polynomial.CycleFiveExample`).

## Findings

| source | as written | input that shows it | evidently intended | confidence | as-written member | corrected member |
|---|---|---|---|---|---|---|
| src/graph/manipulation.py:21 | the merged vertex is labelled `len(G)+1`, which can already be a vertex of G | the triangle on 0, 1, 4: contracting (0, 1) gives the label 4, so (0, 4) and (1, 4) become two loops on 4 | a label G does not use, so (0, 4) and (1, 4) become two parallel edges to the merged vertex | high, not executed | Manipulation.ContractAsWrittenCollapsesTriangle | Manipulation.ContractKeepsEdges |
| src/graph/manipulation.py:18-22 | a loop on u (or v) is reattached as (u, merged vertex) and then removed with u | the triangle 0, 1, 2 with a loop on 0: contracting (0, 1) gives [(2, 4), (2, 4)] and the loop is lost | the loop becomes a loop on the merged vertex, as deletion–contraction requires: [(4, 4), (2, 4), (2, 4)], so that T(2, 2) = 2^#E | high, not executed | Manipulation.ContractAsWrittenDropsLoop | Polynomial.TutteAtTwoTwo |
| src/graph/manipulation.py:79-84 | for k = 1 the loop runs once and adds only (a, `str(edge)_0`); the same code is at graph/manipulation.py:46-50 | any edge (a, b) with a ≠ b and k = 1: b is not reached and a new vertex dangles | a path of length 1 through no new vertex, the edge (a, b) itself | medium, not executed | Manipulation.PathOfOne | Manipulation.IntendedPathIsPath |

The recursion `Polynomial.TutteRaw` uses the corrected contraction `Manipulation.Contract`. The corrected path `Manipulation.IntendedPath` is not used elsewhere. `Manipulation.PathifyEdges` keeps the behaviour as written.
