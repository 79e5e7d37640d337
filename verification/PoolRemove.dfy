/** What removing one transaction does to a pool. */
module PoolRemove {
  import opened Types
  import opened Graph
  import opened TotalsSums
  import opened PoolTxs

  function UnlinkedFromAncestor(info: TxInfo, x: Txid, own: Totals): TxInfo {
    info.(ancestor := Debit(info.ancestor, own), depends := info.depends - {x})
  }

  function UnlinkedFromDescendant(info: TxInfo, x: Txid, own: Totals): TxInfo {
    info.(descendant := Debit(info.descendant, own), spentBy := info.spentBy - {x})
  }

  /** `x` unlinked as an ancestor of every transaction in `s`. */
  ghost function DebitAncestors(txs: Txs, s: set<Txid>, x: Txid, own: Totals): Txs {
    map t | t in txs :: if t in s then Entry(txs[t].tx, UnlinkedFromAncestor(txs[t].info, x, own)) else txs[t]
  }

  /** `x` unlinked as a descendant of every transaction in `s`. */
  ghost function DebitDescendants(txs: Txs, s: set<Txid>, x: Txid, own: Totals): Txs {
    map t | t in txs :: if t in s then Entry(txs[t].tx, UnlinkedFromDescendant(txs[t].info, x, own)) else txs[t]
  }

  lemma DebitAncestorsStep(txs: Txs, s: set<Txid>, x: Txid, own: Totals, d: Txid)
    requires d in txs && d !in s
    ensures DebitAncestors(txs, s + {d}, x, own)
            == DebitAncestors(txs, s, x, own)[d := Entry(txs[d].tx, UnlinkedFromAncestor(txs[d].info, x, own))]
    ensures DebitAncestors(txs, s, x, own)[d] == txs[d]
  {
  }

  lemma DebitAncestorsGraph(txs: Txs, s: set<Txid>, x: Txid, own: Totals)
    ensures DebitAncestors(txs, s, x, own).Keys == txs.Keys
    ensures SpenderGraph(DebitAncestors(txs, s, x, own)) == SpenderGraph(txs)
  {
  }

  lemma DebitDescendantsStep(txs: Txs, s: set<Txid>, x: Txid, own: Totals, a: Txid)
    requires a in txs && a !in s
    ensures DebitDescendants(txs, s + {a}, x, own)
            == DebitDescendants(txs, s, x, own)[a := Entry(txs[a].tx, UnlinkedFromDescendant(txs[a].info, x, own))]
    ensures DebitDescendants(txs, s, x, own)[a] == txs[a]
  {
  }

  lemma DebitDescendantsGraph(txs: Txs, s: set<Txid>, x: Txid, own: Totals)
    ensures DebitDescendants(txs, s, x, own).Keys == txs.Keys
    ensures DependsGraph(DebitDescendants(txs, s, x, own)) == DependsGraph(txs)
  {
  }

  /** Unlinking `x` from its descendants does not touch the edges its own ancestors are found by. */
  lemma DebitAncestorsKeepsAncestors(txs: Txs, x: Txid, own: Totals)
    requires Wired(txs) && Acyclic(DependsGraph(txs)) && x in txs
    ensures var unlinked := DebitAncestors(txs, Descendants(txs, x), x, own);
            && Ancestors(unlinked, x) == Ancestors(txs, x)
            && unlinked[x] == txs[x]
            && !Reaches(DependsGraph(unlinked), x, x)
            && (forall a :: a in Ancestors(txs, x) ==> a in txs && unlinked[a].info.descendant == txs[a].info.descendant)
  {
    var unlinked := DebitAncestors(txs, Descendants(txs, x), x, own);
    NotOwnRelative(txs, x);
    RelativesInPool(txs, x);
    var g, h := DependsGraph(txs), DependsGraph(unlinked);
    forall t | t in Ancestors(txs, x) + {x} ensures Out(h, t) == Out(g, t) {
      if t in Descendants(txs, x) {
        AncestorIffDescendant(txs, x, t);
        InReachSet(g, x, t);
        InReachSet(g, t, x);
        Transitive(g, x, t, x);
      }
    }
    SameReach(g, h, x);
    InReachSet(h, x, x);
  }

  /** The pool without `x`: its descendants lose it as an ancestor, its ancestors lose it as a descendant. */
  ghost function AfterRemove(txs: Txs, x: Txid): Txs {
    if x !in txs then txs else
    var own := txs[x].info.own;
    DebitDescendants(DebitAncestors(txs, Descendants(txs, x), x, own), Ancestors(txs, x), x, own) - {x}
  }

  lemma AfterRemoveInfo(txs: Txs, x: Txid, t: Txid)
    requires Wired(txs) && x in txs && t in txs && t != x
    ensures var after := AfterRemove(txs, x);
            && t in after
            && after[t].tx == txs[t].tx && after[t].info.own == txs[t].info.own
            && after[t].info.conflictsWith == txs[t].info.conflictsWith
            && after[t].info.depends == txs[t].info.depends - {x}
            && after[t].info.spentBy == txs[t].info.spentBy - {x}
            && after[t].info.ancestor == (if x in Ancestors(txs, t) then Debit(txs[t].info.ancestor, txs[x].info.own) else txs[t].info.ancestor)
            && after[t].info.descendant == (if x in Descendants(txs, t) then Debit(txs[t].info.descendant, txs[x].info.own) else txs[t].info.descendant)
  {
    AncestorIffDescendant(txs, x, t);
    AncestorIffDescendant(txs, t, x);
    if x in txs[t].info.depends { ParentIsAncestor(txs, t, x); }
    if x in txs[t].info.spentBy { ParentIsAncestor(txs, x, t); }
  }

  lemma AfterRemoveKeys(txs: Txs, x: Txid)
    ensures AfterRemove(txs, x).Keys == txs.Keys - {x}
  {
  }

  lemma AfterRemoveGraphs(txs: Txs, x: Txid)
    requires Wired(txs) && x in txs
    ensures DependsGraph(AfterRemove(txs, x)) == RemoveNode(DependsGraph(txs), x)
    ensures SpenderGraph(AfterRemove(txs, x)) == RemoveNode(SpenderGraph(txs), x)
    ensures Own(AfterRemove(txs, x)) == Own(txs) - {x}
  {
    var after := AfterRemove(txs, x);
    AfterRemoveKeys(txs, x);
    forall t | t in after
      ensures DependsGraph(after)[t] == RemoveNode(DependsGraph(txs), x)[t]
      ensures SpenderGraph(after)[t] == RemoveNode(SpenderGraph(txs), x)[t]
      ensures Own(after)[t] == Own(txs)[t]
    {
      AfterRemoveInfo(txs, x, t);
    }
  }

  lemma AfterRemoveWired(txs: Txs, x: Txid)
    requires Wired(txs) && x in txs
    ensures Wired(AfterRemove(txs, x))
  {
    var after := AfterRemove(txs, x);
    AfterRemoveKeys(txs, x);
    forall t | t in after
      ensures after[t].tx == txs[t].tx
      ensures after[t].info.depends == txs[t].info.depends - {x}
      ensures after[t].info.spentBy == txs[t].info.spentBy - {x}
    {
      AfterRemoveInfo(txs, x, t);
    }
    WiredWithout(txs, after, x);
  }

  lemma WiredWithout(txs: Txs, after: Txs, x: Txid)
    requires Wired(txs) && after.Keys == txs.Keys - {x}
    requires forall t :: t in after ==> after[t].tx == txs[t].tx
    requires forall t :: t in after ==> after[t].info.depends == txs[t].info.depends - {x}
    requires forall t :: t in after ==> after[t].info.spentBy == txs[t].info.spentBy - {x}
    ensures Wired(after)
  {
    forall t | t in after ensures Spenders(after, t) == Spenders(txs, t) - {x} {
    }
  }

  lemma SumWithout(s: set<Txid>, f: Measure, x: Txid)
    requires x !in s
    ensures Sum(s, f - {x}) == Sum(s, f)
  {
    SumAgree(s, f, f - {x});
  }

  /**
   * Deleting a node lowers the total over what `t` reaches by at least that node if `t` reached
   * it, by exactly that node if it led nowhere, and not at all otherwise.
   */
  lemma ReachTotalAfterRemove(g: Edges, f: Measure, x: Txid, t: Txid)
    requires t != x
    ensures var before, after := Sum(ReachSet(g, t), f), Sum(ReachSet(RemoveNode(g, x), t), f - {x});
            if x in ReachSet(g, t) then
              && Leq(At(f, x), before)
              && Leq(after, Debit(before, At(f, x)))
              && (Out(g, x) == {} ==> after == Debit(before, At(f, x)))
            else after == before
  {
    var h := RemoveNode(g, x);
    RemoveNodeReachSet(g, x, t);
    InReachSet(g, t, x);
    SumWithout(ReachSet(h, t), f, x);
    SumMonotone(ReachSet(h, t), ReachSet(g, t) - {x}, f);
    if x in ReachSet(g, t) {
      SumSplit(ReachSet(g, t), f, x);
    } else {
      assert ReachSet(g, t) - {x} == ReachSet(g, t);
    }
  }

  lemma AddDebit(own: Totals, before: Totals, after: Totals, x: Totals)
    ensures Leq(x, before) && Leq(after, Debit(before, x)) ==> Leq(Add(own, after), Debit(Add(own, before), x))
    ensures Leq(x, before) && after == Debit(before, x) ==> Add(own, after) == Debit(Add(own, before), x)
  {
  }

  lemma AncestorTotalsAfterRemove(txs: Txs, x: Txid, t: Txid)
    requires Wired(txs) && x in txs && t in txs && t != x
    ensures var before, after := AncestorTotals(txs, t), AncestorTotals(AfterRemove(txs, x), t);
            if x in Ancestors(txs, t) then
              && Leq(after, Debit(before, txs[x].info.own))
              && (txs[x].info.depends == {} ==> after == Debit(before, txs[x].info.own))
            else after == before
  {
    var g, f := DependsGraph(txs), Own(txs);
    AfterRemoveGraphs(txs, x);
    ReachTotalAfterRemove(g, f, x, t);
    assert Out(g, x) == txs[x].info.depends;
    AddDebit(At(f, t), Sum(ReachSet(g, t), f), Sum(ReachSet(RemoveNode(g, x), t), f - {x}), At(f, x));
  }

  lemma DescendantTotalsAfterRemove(txs: Txs, x: Txid, t: Txid)
    requires Wired(txs) && x in txs && t in txs && t != x
    ensures var before, after := DescendantTotals(txs, t), DescendantTotals(AfterRemove(txs, x), t);
            if x in Descendants(txs, t) then Leq(after, Debit(before, txs[x].info.own)) else after == before
  {
    var g, f := SpenderGraph(txs), Own(txs);
    AfterRemoveGraphs(txs, x);
    ReachTotalAfterRemove(g, f, x, t);
    AddDebit(At(f, t), Sum(ReachSet(g, t), f), Sum(ReachSet(RemoveNode(g, x), t), f - {x}), At(f, x));
  }

  lemma DebitLeq(a: Totals, b: Totals, c: Totals)
    requires Leq(a, b)
    ensures Leq(Debit(a, c), Debit(b, c))
  {
  }

  lemma AfterRemoveCovered(txs: Txs, x: Txid)
    requires PoolValid(txs) && x in txs
    ensures Covered(AfterRemove(txs, x))
  {
    var after, own := AfterRemove(txs, x), txs[x].info.own;
    forall t | t in after
      ensures Leq(AncestorTotals(after, t), after[t].info.ancestor)
      ensures Leq(DescendantTotals(after, t), after[t].info.descendant)
    {
      AfterRemoveInfo(txs, x, t);
      AncestorTotalsAfterRemove(txs, x, t);
      DescendantTotalsAfterRemove(txs, x, t);
      DebitLeq(AncestorTotals(txs, t), txs[t].info.ancestor, own);
      DebitLeq(DescendantTotals(txs, t), txs[t].info.descendant, own);
    }
  }

  lemma AfterRemoveSized(txs: Txs, x: Txid)
    requires Wired(txs) && Keyed(txs) && Sized(txs) && x in txs
    ensures Keyed(AfterRemove(txs, x)) && Sized(AfterRemove(txs, x))
  {
    forall t | t in AfterRemove(txs, x)
      ensures AfterRemove(txs, x)[t].tx == txs[t].tx && AfterRemove(txs, x)[t].info.own == txs[t].info.own
    {
      AfterRemoveInfo(txs, x, t);
    }
  }

  /** Removing any transaction keeps every pool invariant. */
  lemma AfterRemoveValid(txs: Txs, x: Txid)
    requires PoolValid(txs)
    ensures PoolValid(AfterRemove(txs, x))
  {
    if x in txs {
      AfterRemoveKeys(txs, x);
      AfterRemoveGraphs(txs, x);
      AfterRemoveWired(txs, x);
      AfterRemoveSized(txs, x);
      AfterRemoveCovered(txs, x);
      RemoveNodeAcyclic(DependsGraph(txs), x);
      SumWithout(txs.Keys - {x}, Own(txs), x);
      SumMonotone(txs.Keys - {x}, txs.Keys, Own(txs));
    }
  }

  /** Removing a transaction without in-pool parents keeps the cached ancestor totals exact. */
  lemma ParentlessRemoveExact(txs: Txs, x: Txid)
    requires PoolValid(txs) && AncestorsExact(txs)
    requires x in txs ==> txs[x].info.depends == {}
    ensures AncestorsExact(AfterRemove(txs, x))
  {
    if x in txs {
      forall t | t in AfterRemove(txs, x)
        ensures AfterRemove(txs, x)[t].info.ancestor == AncestorTotals(AfterRemove(txs, x), t)
      {
        AfterRemoveInfo(txs, x, t);
        AncestorTotalsAfterRemove(txs, x, t);
      }
    }
  }

  /** Apart from `x` itself, `t` loses no ancestor when `x` goes: each is still above it along edges that avoid `x`. */
  ghost predicate LosesOnly(txs: Txs, x: Txid, t: Txid) {
    Ancestors(txs, t) - {x} == ReachSet(RemoveNode(DependsGraph(txs), x), t)
  }

  lemma DebitOne(own: Totals, rest: Totals, x: Totals, after: Totals)
    ensures Debit(Add(own, Add(x, rest)), x) == Add(own, rest)
    ensures Add(own, rest) == Add(own, after) <==> rest == after
  {
  }

  lemma RemoveExactAt(txs: Txs, x: Txid, t: Txid)
    requires PoolValid(txs) && AncestorsExact(txs) && x in txs && t in txs && t != x && x in Ancestors(txs, t)
    ensures
      var after := AfterRemove(txs, x);
      t in after && (after[t].info.ancestor == AncestorTotals(after, t) <==> LosesOnly(txs, x, t))
  {
    hide AfterRemove, Ancestors, Reaches, ReachSet, Acyclic, Covered, Sum, Wired, DependsGraph, RemoveNode;
    var g, f, own := DependsGraph(txs), Own(txs), txs[x].info.own;
    var before, left := Ancestors(txs, t), ReachSet(RemoveNode(g, x), t);
    AfterRemoveInfo(txs, x, t);
    AfterRemoveGraphs(txs, x);
    AncestorsAre(txs, t);
    AncestorsAre(AfterRemove(txs, x), t);
    RemoveNodeReachSet(g, x, t);
    SumSplit(before, f, x);
    SumWithout(left, f, x);
    DebitOne(At(f, t), Sum(before - {x}, f), own, Sum(left, f));
    if y :| y in before - {x} && y !in left {
      RelativesInPool(txs, t);
      SumStrict(left, before - {x}, f, y);
    }
  }

  lemma AncestorsAre(txs: Txs, t: Txid)
    ensures Ancestors(txs, t) == ReachSet(DependsGraph(txs), t)
  {
  }

  /** A removal keeps the cached ancestor totals exact precisely when no descendant of the removed transaction loses
      a further ancestor with it. */
  lemma RemoveExactIff(txs: Txs, x: Txid)
    requires PoolValid(txs) && AncestorsExact(txs) && x in txs
    ensures AncestorsExact(AfterRemove(txs, x)) <==> forall t :: t in Descendants(txs, x) ==> LosesOnly(txs, x, t)
  {
    hide AfterRemove, Ancestors, Descendants, Reaches, ReachSet, Acyclic, Covered, AncestorTotals, LosesOnly;
    var after := AfterRemove(txs, x);
    AfterRemoveKeys(txs, x);
    NotOwnRelative(txs, x);
    RelativesInPool(txs, x);
    forall t | t in txs && t != x
      ensures after[t].info.ancestor == AncestorTotals(after, t) <==>
                (t in Descendants(txs, x) ==> LosesOnly(txs, x, t))
    {
      AncestorIffDescendant(txs, x, t);
      AncestorIffDescendant(txs, t, x);
      if x in Ancestors(txs, t) {
        RemoveExactAt(txs, x, t);
      } else {
        AfterRemoveInfo(txs, x, t);
        AncestorTotalsAfterRemove(txs, x, t);
      }
    }
  }

  /** Such a removal: `d` spends `x` alone, and `x` spends something pooled, which `d` then no longer descends from. */
  lemma MiddleRemovalInexact(txs: Txs, x: Txid, d: Txid)
    requires PoolValid(txs) && AncestorsExact(txs) && x in txs && d in txs
    requires txs[d].info.depends == {x} && txs[x].info.depends != {}
    ensures !AncestorsExact(AfterRemove(txs, x))
  {
    hide PoolValid, AncestorsExact, AfterRemove, Reaches, ReachSet, Acyclic, Covered;
    RemoveExactIff(txs, x);
    PoolParents(txs, x, d);
    var y :| y in txs[x].info.depends;
    var g, h := DependsGraph(txs), RemoveNode(DependsGraph(txs), x);
    ParentAncestors(txs, x, d, y);
    assert Out(h, d) == {} by { assert txs[d].info.depends - {x} == {}; }
    ReachSetLeast(h, d, {});
    assert y in Ancestors(txs, d) - {x} && ReachSet(h, d) == {};
    assert !LosesOnly(txs, x, d);
  }

  lemma PoolParents(txs: Txs, x: Txid, d: Txid)
    requires PoolValid(txs) && x in txs && d in txs && txs[d].info.depends == {x}
    ensures Wired(txs) && Acyclic(DependsGraph(txs)) && d != x
  {
    hide Reaches, Covered;
    if d == x {
      EdgeReaches(DependsGraph(txs), x, x);
    }
  }

  lemma ParentAncestors(txs: Txs, x: Txid, d: Txid, y: Txid)
    requires Wired(txs) && Acyclic(DependsGraph(txs)) && x in txs && d in txs
    requires x in txs[d].info.depends && y in txs[x].info.depends
    ensures d in Descendants(txs, x) && y in Ancestors(txs, d) && y != x
  {
    hide Reaches, ReachSet;
    var g := DependsGraph(txs);
    ParentIsAncestor(txs, d, x);
    EdgeReaches(g, d, x);
    ThenEdge(g, d, x, y);
    InReachSet(g, d, y);
    EdgeReaches(g, x, y);
  }
}
