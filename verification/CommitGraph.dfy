/** Ancestry in a commit-graph file (`commit_graph.rs`). */
module CommitGraph {
  import opened Common
  import opened Objects
  import opened Graphs
  import opened CommitGraphFile
  import opened CommitGraphLayout

  // ---- The search, on the abstract graph ---------------------------------------------------

  ghost predicate Graded(edges: Edges<nat>, gens: seq<nat>)
  {
    && (forall p: nat :: p in edges <==> p < |gens|)
    && (forall p: nat, q: nat {:trigger q in edges[p]} :: p in edges && q in edges[p] ==>
        q < |gens| && gens[q] <= gens[p])
  }

  lemma {:induction false} ConsistentGraded(g: CommitGraphIndex)
    requires Shape(g) && Consistent(g)
    ensures Graded(ParentEdges(g), Generations(g))
  {
    hide Parents, Generation, Shape, ParentEdges, Generations;
    var edges, gens := ParentEdges(g), Generations(g);
    forall p: nat, q: nat | p in edges && q in edges[p] ensures q < |gens| && gens[q] <= gens[p] {
      assert q in Parents(g, p).value;
      assert Generation(g, p) == Some(gens[p]);
      assert Generation(g, q) == Some(gens[q]);
    }
  }

  ghost predicate Pruned(gens: seq<nat>, a: nat, p: nat)
    requires a < |gens|
  {
    p < |gens| && gens[p] < gens[a]
  }

  /** Pruning is sound: nothing below `a`'s generation leads up to `a`. */
  lemma {:induction false} GenerationPrunes(edges: Edges<nat>, gens: seq<nat>, a: nat, d: nat)
    requires Graded(edges, gens) && a < |gens| && d < |gens| && gens[d] < gens[a]
    ensures !Reaches(edges, d, a)
  {
    if Reaches(edges, d, a) {
      var low := iset p: nat | Pruned(gens, a, p);
      forall x: nat, y: nat | x in low && x in edges && y in edges[x] ensures y in low {
      }
      ClosedContains(edges, low, d, a);
    }
  }

  /** On a chain only the one parent matters. */
  lemma {:induction false} OnlyParent(edges: Edges<nat>, a: nat, d: nat)
    requires d in edges && a != d
    ensures |edges[d]| == 0 ==> !Reaches(edges, d, a)
    ensures |edges[d]| == 1 ==> (Reaches(edges, d, a) <==> Reaches(edges, edges[d][0], a))
  {
    if Reaches(edges, d, a) {
      var next := FirstEdge(edges, d, a);
    }
    if |edges[d]| == 1 && Reaches(edges, edges[d][0], a) {
      ReachesEdge(edges, d, edges[d][0], a);
    }
  }

  /** The first `k` parents of `p` are each something other than `a`, and seen or pruned. */
  ghost predicate Expanded(edges: Edges<nat>, gens: seq<nat>, a: nat, seen: set<nat>, p: nat, k: nat)
    requires Graded(edges, gens) && a < |gens| && p in edges
  {
    && k <= |edges[p]|
    && forall i :: 0 <= i < k ==> edges[p][i] != a && (edges[p][i] in seen || Pruned(gens, a, edges[p][i]))
  }

  /** The state of the worklist: seen commits are ancestors of `d`, and all but those on the stack are expanded. */
  ghost predicate Searching(edges: Edges<nat>, gens: seq<nat>, a: nat, d: nat, seen: set<nat>, stack: seq<nat>)
    requires Graded(edges, gens) && a < |gens|
  {
    && d in seen && a !in seen && (forall p: nat :: p in stack ==> p in seen)
    && (forall p: nat :: p in seen ==> p in edges && Reaches(edges, d, p))
    && (forall p: nat :: p in seen && p !in stack ==> Expanded(edges, gens, a, seen, p, |edges[p]|))
  }

  /** An exhausted search has missed nothing. */
  lemma {:induction false} SearchComplete(edges: Edges<nat>, gens: seq<nat>, a: nat, d: nat, seen: set<nat>)
    requires Graded(edges, gens) && a < |gens| && Searching(edges, gens, a, d, seen, [])
    ensures !Reaches(edges, d, a)
  {
    if Reaches(edges, d, a) {
      var inside := iset p: nat | p < |gens| && (p in seen || Pruned(gens, a, p));
      forall x: nat, y: nat | x in inside && x in edges && y in edges[x] ensures y in inside {
        var i :| 0 <= i < |edges[x]| && edges[x][i] == y;
        if x in seen { assert Expanded(edges, gens, a, seen, x, |edges[x]|); }
      }
      ClosedContains(edges, inside, d, a);
    }
  }

  /** What the loop over the parents of `p` keeps, `k` of them done. */
  ghost predicate Expanding(edges: Edges<nat>, gens: seq<nat>, a: nat, d: nat, seen: set<nat>, stack: seq<nat>, p: nat,
                            k: nat)
    requires Graded(edges, gens) && a < |gens|
  {
    && p in seen && p in edges
    && Searching(edges, gens, a, d, seen, stack + [p]) && Expanded(edges, gens, a, seen, p, k)
  }

  lemma {:induction false} ParentSkipped(edges: Edges<nat>, gens: seq<nat>, a: nat, d: nat, seen: set<nat>,
                                         stack: seq<nat>, p: nat, k: nat)
    requires Graded(edges, gens) && a < |gens| && Expanding(edges, gens, a, d, seen, stack, p, k) && k < |edges[p]|
    requires edges[p][k] != a && (edges[p][k] in seen || Pruned(gens, a, edges[p][k]))
    ensures Expanding(edges, gens, a, d, seen, stack, p, k + 1)
  {
  }

  lemma {:induction false} ParentPushed(edges: Edges<nat>, gens: seq<nat>, a: nat, d: nat, seen: set<nat>,
                                        stack: seq<nat>, p: nat, k: nat)
    requires Graded(edges, gens) && a < |gens| && Expanding(edges, gens, a, d, seen, stack, p, k) && k < |edges[p]|
    requires edges[p][k] != a
    ensures Expanding(edges, gens, a, d, seen + {edges[p][k]}, stack + [edges[p][k]], p, k + 1)
  {
    var q := edges[p][k];
    assert q in edges[p] && q in edges;
    ReachesThen(edges, d, p, q);
    forall x: nat | x in seen + {q} && x !in stack + [q] + [p]
      ensures Expanded(edges, gens, a, seen + {q}, x, |edges[x]|) {
      assert x != q && x !in stack + [p];
      assert Expanded(edges, gens, a, seen, x, |edges[x]|);
    }
  }

  lemma {:induction false} ParentsDone(edges: Edges<nat>, gens: seq<nat>, a: nat, d: nat, seen: set<nat>,
                                       stack: seq<nat>, p: nat)
    requires Graded(edges, gens) && a < |gens| && p in edges && Expanding(edges, gens, a, d, seen, stack, p, |edges[p]|)
    ensures Searching(edges, gens, a, d, seen, stack)
  {
    forall x | x in seen && x !in stack ensures Expanded(edges, gens, a, seen, x, |edges[x]|) {
      if x != p { assert x !in stack + [p]; }
    }
  }

  // ---- The program -------------------------------------------------------------------------

  /** The loop over the parents of one commit; `found` means the ancestor was among them. */
  method ExpandParents(g: CommitGraphIndex, parents: seq<nat>, ancestor: nat, ancestorGeneration: nat,
                       seen: set<nat>, stack: seq<nat>, ghost edges: Edges<nat>, ghost gens: seq<nat>, ghost d: nat,
                       ghost p: nat)
    returns (found: bool, seen': set<nat>, stack': seq<nat>)
    requires Shape(g) && gens == Generations(g) && ancestor < |gens| && ancestorGeneration == gens[ancestor]
    requires forall x :: x in seen ==> x < g.count
    requires Graded(edges, gens) ==>
             p in edges && edges[p] == parents && Expanding(edges, gens, ancestor, d, seen, stack, p, 0)
    ensures seen <= seen' && (forall x :: x in seen' ==> x < g.count)
    ensures seen' == seen ==> |stack'| == |stack|
    ensures Graded(edges, gens) && found ==> Reaches(edges, d, ancestor)
    ensures Graded(edges, gens) && !found ==> Searching(edges, gens, ancestor, d, seen', stack')
  {
    hide Searching, Expanding, Expanded, Reaches;
    found, seen', stack' := false, seen, stack;
    for k := 0 to |parents|
      invariant seen <= seen' && (forall x :: x in seen' ==> x < g.count)
      invariant seen' == seen ==> |stack'| == |stack|
      invariant Graded(edges, gens) ==> Expanding(edges, gens, ancestor, d, seen', stack', p, k)
    {
      var parent := parents[k];
      if parent == ancestor {
        if Graded(edges, gens) { FoundParent(edges, gens, ancestor, d, seen', stack', p, k); }
        found := true;
        return;
      }
      if Graded(edges, gens) { assert parent in edges[p]; }
      var generation := Generation(g, parent);
      if generation.Some? && generation.value >= ancestorGeneration && parent !in seen' {
        if Graded(edges, gens) { ParentPushed(edges, gens, ancestor, d, seen', stack', p, k); }
        seen' := seen' + {parent};
        stack' := stack' + [parent];
      } else if Graded(edges, gens) {
        ParentSkipped(edges, gens, ancestor, d, seen', stack', p, k);
      }
    }
    if Graded(edges, gens) { ParentsDone(edges, gens, ancestor, d, seen', stack', p); }
  }

  lemma {:induction false} FoundParent(edges: Edges<nat>, gens: seq<nat>, a: nat, d: nat, seen: set<nat>,
                                       stack: seq<nat>, p: nat, k: nat)
    requires Graded(edges, gens) && a < |gens| && Expanding(edges, gens, a, d, seen, stack, p, k) && k < |edges[p]|
    requires edges[p][k] == a
    ensures Reaches(edges, d, a)
  {
    ReachesThen(edges, d, p, a);
  }

  /** The parent edges of a consistent graph; of any other, none. */
  ghost function SearchEdges(g: CommitGraphIndex): Edges<nat>
    requires Shape(g)
  {
    if Consistent(g) then ParentEdges(g) else map[]
  }

  lemma {:induction false} SearchEdgesGraded(g: CommitGraphIndex)
    requires Shape(g) && g.count > 0
    ensures Graded(SearchEdges(g), Generations(g)) <==> Consistent(g)
    ensures Consistent(g) ==> forall p: nat :: p in SearchEdges(g) ==> Parents(g, p) == Ok(SearchEdges(g)[p])
  {
    hide Parents, Generation, Shape;
    if Consistent(g) { ConsistentGraded(g); } else { assert 0 !in SearchEdges(g); }
  }

  lemma {:induction false} ChainStep(edges: Edges<nat>, gens: seq<nat>, a: nat, current: nat)
    requires Graded(edges, gens) && current in edges && a < |gens| && a != current
    ensures edges[current] == [] ==> !Reaches(edges, current, a)
    ensures |edges[current]| == 1 ==>
              var parent := edges[current][0];
              && parent in edges
              && (parent == a ==> Reaches(edges, current, a))
              && (gens[parent] < gens[a] ==> !Reaches(edges, current, a))
              && (Reaches(edges, current, a) <==> Reaches(edges, parent, a))
  {
    OnlyParent(edges, a, current);
    if |edges[current]| == 1 {
      var parent := edges[current][0];
      assert parent in edges[current];
      if parent == a { ReachesSelf(edges, a); }
      if gens[parent] < gens[a] { GenerationPrunes(edges, gens, a, parent); }
    }
  }

  lemma {:induction false} SearchStarts(edges: Edges<nat>, gens: seq<nat>, a: nat, d: nat)
    requires Graded(edges, gens) && a < |gens| && d in edges && a != d
    ensures Expanding(edges, gens, a, d, {d}, [], d, 0)
  {
    ReachesSelf(edges, d);
    assert [] + [d] == [d];
  }

  lemma {:induction false} SearchPops(edges: Edges<nat>, gens: seq<nat>, a: nat, d: nat, seen: set<nat>,
                                      stack: seq<nat>)
    requires Graded(edges, gens) && a < |gens| && Searching(edges, gens, a, d, seen, stack) && stack != []
    ensures var top := stack[|stack| - 1];
            top in edges && Expanding(edges, gens, a, d, seen, stack[..|stack| - 1], top, 0)
  {
    assert stack == stack[..|stack| - 1] + [stack[|stack| - 1]];
  }

  ghost function Below(n: nat): (s: set<nat>)
    ensures forall p: nat :: p in s <==> p < n
  {
    if n == 0 then {} else Below(n - 1) + {n - 1}
  }

  /** `is_ancestor` from the two positions on: a walk along single parents, then a depth-first search. */
  method AncestorSearch(g: CommitGraphIndex, ancestor: nat, descendant: nat, ghost rank: seq<nat>)
    returns (r: Result<Option<bool>>)
    requires Shape(g) && Ranked(g, rank) && ancestor < g.count && descendant < g.count
    ensures Consistent(g) ==> r == Ok(Some(IsAncestorOf(g, ancestor, descendant)))
  {
    hide Parents, Generation, Searching, Expanding, Expanded, Reaches, Graded, Consistent, Shape;
    ghost var edges, gens := SearchEdges(g), Generations(g);
    ghost var whole := Graded(edges, gens);
    SearchEdgesGraded(g);
    if ancestor == descendant {
      if whole { ReachesSelf(edges, ancestor); }
      return Ok(Some(true));
    }
    var ancestorGeneration := Generation(g, ancestor);
    if ancestorGeneration.None? {
      assert false;
    }
    var descendantGeneration := Generation(g, descendant);
    if descendantGeneration.None? {
      assert false;
    }
    if descendantGeneration.value < ancestorGeneration.value {
      if whole { GenerationPrunes(edges, gens, ancestor, descendant); }
      return Ok(Some(false));
    }
    var stack: seq<nat>, seen: Option<set<nat>> := [], None;
    var current: nat := descendant;
    var found := false;
    while true
      invariant seen.None? && stack == [] && current != ancestor
      invariant whole ==>
                current in edges && (Reaches(edges, current, ancestor) <==> Reaches(edges, descendant, ancestor))
      decreases if current < g.count then rank[current] + 1 else 0
    {
      var parents := ParentPositions(g, current);
      if parents.Err? {
        return Err(parents.error);
      }
      CurrentInRange(g, current);
      if whole { ChainStep(edges, gens, ancestor, current); }
      if parents.value == [] {
        return Ok(Some(false));
      }
      if |parents.value| == 1 {
        var parent := parents.value[0];
        assert parent in parents.value;
        if parent == ancestor {
          return Ok(Some(true));
        }
        var generation := Generation(g, parent);
        if generation.Some? && generation.value < ancestorGeneration.value {
          return Ok(Some(false));
        }
        if seen.Some? {
          assert false;
        }
        current := parent;
        continue;
      }
      if whole { SearchStarts(edges, gens, ancestor, current); }
      var seenNodes;
      found, seenNodes, stack := ExpandParents(g, parents.value, ancestor, ancestorGeneration.value, {current}, [],
                                               edges, gens, current, current);
      seen := Some(seenNodes);
      if found {
        return Ok(Some(true));
      }
      break;
    }
    var reached := DepthFirst(g, ancestor, ancestorGeneration.value, seen.value, stack, edges, gens, current);
    return if reached.Err? then Err(reached.error) else Ok(Some(reached.value));
  }

  /** The second loop of `is_ancestor`: the worklist, with everything ever pushed in `seen`. */
  method DepthFirst(g: CommitGraphIndex, ancestor: nat, ancestorGeneration: nat, seen: set<nat>, stack: seq<nat>,
                    ghost edges: Edges<nat>, ghost gens: seq<nat>, ghost start: nat)
    returns (r: Result<bool>)
    requires Shape(g) && gens == Generations(g) && ancestor < |gens| && ancestorGeneration == gens[ancestor]
    requires Graded(edges, gens) ==> forall p: nat :: p in edges ==> Parents(g, p) == Ok(edges[p])
    requires forall x :: x in seen ==> x < g.count
    requires Graded(edges, gens) ==> Searching(edges, gens, ancestor, start, seen, stack)
    ensures Graded(edges, gens) ==> r == Ok(Reaches(edges, start, ancestor))
  {
    hide Parents, Generation, Searching, Expanding, Expanded, Reaches, Shape, Graded, Generations;
    ghost var universe, whole := Below(g.count), Graded(edges, gens);
    var seen', stack' := seen, stack;
    while stack' != []
      invariant seen' <= universe
      invariant whole ==> Searching(edges, gens, ancestor, start, seen', stack')
      decreases |universe - seen'|, |stack'|
    {
      var position := stack'[|stack'| - 1];
      if whole { SearchPops(edges, gens, ancestor, start, seen', stack'); }
      stack' := stack'[..|stack'| - 1];
      var parents := ParentPositions(g, position);
      if parents.Err? {
        return Err(parents.error);
      }
      ghost var before := seen';
      var found;
      found, seen', stack' :=
          ExpandParents(g, parents.value, ancestor, ancestorGeneration, seen', stack', edges, gens, start, position);
      if found {
        return Ok(true);
      }
      SeenGrows(universe, before, seen');
    }
    if whole { SearchComplete(edges, gens, ancestor, start, seen'); }
    return Ok(false);
  }

  /**
   * `is_ancestor`. On a sorted, consistent, acyclic graph the answer for two known commits is exactly whether zero or
   * more parent edges lead from the descendant to the ancestor; an unknown commit has no answer. For a file that
   * holds a table, these are the edges of the table.
   */
  method IsAncestor(g: CommitGraphIndex, ancestor: ObjectId, descendant: ObjectId, ghost rank: seq<nat>)
    returns (r: Result<Option<bool>>)
    requires Shape(g) && FanoutInRange(g) && Ranked(g, rank)
    ensures SortedIds(g) && Consistent(g) ==>
              forall a: nat, d: nat ::
                  a < g.count && d < g.count && IdAt(g, a) == Some(ancestor) && IdAt(g, d) == Some(descendant) ==>
                r == Ok(Some(IsAncestorOf(g, a, d)))
    ensures SortedIds(g) && Consistent(g) ==>
              (r == Ok(None) <==>
                 || (forall p: nat :: IdAt(g, p) != Some(ancestor))
                 || (forall p: nat :: IdAt(g, p) != Some(descendant)))
    ensures forall table: seq<Row>, starts: seq<nat>, a: nat, d: nat ::
              Fits(table) && LaidOut(g, table, starts) && WellOrdered(table) && a < |table| && d < |table|
              && ancestor == ObjectId(Sha1, table[a].id) && descendant == ObjectId(Sha1, table[d].id) ==>
                r == Ok(Some(Reaches(TableEdges(table), d, a)))
  {
    hide Consistent, SortedIds, Ranked, OidAt, LaidOut, WellOrdered, Fits, Reaches;
    forall table: seq<Row>, starts: seq<nat> | Fits(table) && LaidOut(g, table, starts) && WellOrdered(table)
      ensures SortedIds(g) && Consistent(g) && ParentEdges(g) == TableEdges(table)
      ensures forall p: nat :: IdAt(g, p) == if p < |table| then Some(ObjectId(Sha1, table[p].id)) else None
    {
      AncestryOfTable(g, table, starts);
    }
    var a := Position(g, ancestor);
    if a.None? {
      return Ok(None);
    }
    var d := Position(g, descendant);
    if d.None? {
      return Ok(None);
    }
    r := AncestorSearch(g, a.value, d.value, rank);
  }

  lemma {:induction false} CurrentInRange(g: CommitGraphIndex, p: nat)
    requires Shape(g)
    ensures Parents(g, p).Ok? ==> p < g.count
  {
  }

  lemma {:induction false} SeenGrows(universe: set<nat>, before: set<nat>, after: set<nat>)
    requires before <= after <= universe
    ensures after == before || |universe - after| < |universe - before|
    ensures |universe - after| <= |universe - before|
  {
    if after != before {
      var x :| x in after && x !in before;
      assert universe - after <= universe - before - {x};
      SetSmaller(universe - after, universe - before - {x});
    }
  }

  lemma {:induction false} SetSmaller(a: set<nat>, b: set<nat>)
    requires a <= b
    ensures |a| <= |b|
    decreases |a|
  {
    if a != {} {
      var x :| x in a;
      SetSmaller(a - {x}, b - {x});
    }
  }
}
