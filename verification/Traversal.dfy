/** The stack-based ancestor iterator over pool entries. */
module Traversal {
  import opened Types
  import opened LinkedSets
  import opened Graph
  import opened PoolTxs
  import opened AncestorWalks

  datatype Step = Done | Yield(txid: Txid) | Missing(missing: Txid)

  /** Iterator over the proper ancestors of a transaction. */
  class AncestorsIter {
    var toVisit: seq<Visit>
    var visited: set<Txid>
    ghost const root: Txid
    ghost const graph: Edges
    /** The ancestors yielded so far. */
    ghost var seen: set<Txid>
    /** The same in order. */
    ghost var order: seq<Txid>
    /** The transactions whose parents have been pushed. */
    ghost var expanded: set<Txid>
    /** How often the stack was popped. */
    ghost var turns: nat

    ghost function Now(): Walk
      reads this
    {
      Walk(toVisit, visited, order, expanded)
    }

    ghost predicate Valid()
      reads this
    {
      WalkInvariant(graph, root, Now()) && Now() == WalkAfter(graph, root, turns) && seen == Elements(order)
    }

    constructor (root: Txid, ghost graph: Edges)
      requires !Reaches(graph, root, root)
      ensures Valid() && this.root == root && this.graph == graph && seen == {}
      ensures order == []
    {
      this.root := root;
      this.graph := graph;
      toVisit := [Visit(root, false)];
      visited, seen, expanded, order, turns := {}, {}, {}, [], 0;
    }

    /** Yields an ancestor not yielded before, or reports that all of them were yielded. */
    method Next(txs: Txs) returns (step: Step)
      requires Valid() && DependsGraph(txs) == graph
      modifies this
      ensures !step.Missing? ==> Valid()
      ensures step.Yield? ==> step.txid in txs && Reaches(graph, root, step.txid) &&
                              step.txid !in old(seen) && seen == old(seen) + {step.txid} && order == old(order) + [step.txid]
      ensures step.Done? ==> seen == old(seen) == ReachSet(graph, root) && order == old(order)
      ensures step.Missing? ==> step.missing !in txs && (step.missing == root || Reaches(graph, root, step.missing))
      decreases ReachSet(graph, root) + {root} - expanded
    {
      hide *;
      if toVisit == [] {
        AllSeen();
        return Done;
      }
      var Visit(txid, parentsVisited) := toVisit[|toVisit| - 1];
      TopReached();
      ghost var before := Now();
      Unfold();
      TurnKeeps(graph, root, before);
      WalkOn(graph, root, turns);
      if parentsVisited {
        PopTurn(graph, root, before);
        toVisit := toVisit[..|toVisit| - 1];
        turns := turns + 1;
        // The last item is the root, which is not one of its own ancestors.
        if toVisit == [] {
          Fold();
          AllSeen();
          return Done;
        }
        order, seen := order + [txid], seen + {txid};
        Fold();
        if txid !in txs {
          return Missing(txid);
        }
        return Yield(txid);
      }
      if txid !in txs {
        return Missing(txid);
      }
      var depends := txs[txid].info.depends;
      var novel := Ascending(depends - visited);
      EdgesOf(txs, txid);
      PushTurn(graph, root, before);
      toVisit := toVisit[..|toVisit| - 1] + [Visit(txid, true)] + Unvisited(novel);
      visited := visited + depends;
      expanded := expanded + {txid};
      turns := turns + 1;
      Fold();
      step := Next(txs);
    }

    lemma Unfold()
      requires Valid()
      ensures WalkInvariant(graph, root, Now()) && Now() == WalkAfter(graph, root, turns) && seen == Elements(order)
      ensures Now() == Walk(toVisit, visited, order, expanded)
    {
    }

    lemma Fold()
      requires WalkInvariant(graph, root, Walk(toVisit, visited, order, expanded)) && seen == Elements(order)
      requires Walk(toVisit, visited, order, expanded) == WalkAfter(graph, root, turns)
      ensures Valid()
    {
    }

    /** The order in which ancestors are yielded is that of the walk; it has ancestors first where the walk has. */
    lemma OrderOfWalk()
      requires Valid()
      ensures exists n: nat :: order == WalkAfter(graph, root, n).order
      ensures WalksAncestorsFirst(graph, root) ==> Topological(graph, order)
    {
      hide WalkAfter, Topological;
      assert order == WalkAfter(graph, root, turns).order;
    }

    lemma TopReached()
      requires Valid() && toVisit != []
      ensures var txid := toVisit[|toVisit| - 1].txid; txid == root || Reaches(graph, root, txid)
    {
      hide Reaches;
      OnStackReached(graph, root, Now(), toVisit[|toVisit| - 1]);
    }

    lemma AllSeen()
      requires Valid() && toVisit == []
      ensures seen == ReachSet(graph, root)
    {
      assert Closed(graph, visited);
      ReachSetLeast(graph, root, visited);
      forall t | t in visited ensures t in ReachSet(graph, root) { InReachSet(graph, root, t); }
    }
  }

  lemma WalkOn(g: Edges, root: Txid, n: nat)
    ensures WalkAfter(g, root, n + 1) == Turn(g, WalkAfter(g, root, n))
  {
  }

  lemma PopTurn(g: Edges, root: Txid, w: Walk)
    requires WalkInvariant(g, root, w) && w.stack != [] && w.stack[|w.stack| - 1].parentsVisited
    ensures var txid, rest := w.stack[|w.stack| - 1].txid, w.stack[..|w.stack| - 1];
            && Turn(g, w) == Walk(rest, w.visited, if rest == [] then w.order else w.order + [txid], w.expanded)
            && Elements(w.order + [txid]) == Elements(w.order) + {txid}
            && (rest != [] ==> Reaches(g, root, txid) && txid !in Elements(w.order))
  {
    hide StackInvariant, Reaches;
    PopKeeps(g, root, w.stack, w.visited, Elements(w.order), w.expanded);
  }

  lemma PushTurn(g: Edges, root: Txid, w: Walk)
    requires WalkInvariant(g, root, w) && w.stack != [] && !w.stack[|w.stack| - 1].parentsVisited
    ensures var txid, rest := w.stack[|w.stack| - 1].txid, w.stack[..|w.stack| - 1];
            && Turn(g, w) == Walk(rest + [Visit(txid, true)] + Unvisited(Ascending(Out(g, txid) - w.visited)),
                                  w.visited + Out(g, txid), w.order, w.expanded + {txid})
            && txid in ReachSet(g, root) + {root} - w.expanded
  {
    hide StackInvariant, Reaches, Unvisited, Ascending, Out, ReachSet;
    var txid := w.stack[|w.stack| - 1].txid;
    AscendingFacts(Out(g, txid) - w.visited);
    ExpandKeeps(g, root, w.stack, w.visited, Elements(w.order), w.expanded, Ascending(Out(g, txid) - w.visited));
  }
}
