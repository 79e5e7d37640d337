/** What inserting one transaction does to a pool. */
module PoolInsert {
  import opened Types
  import opened Graph
  import opened TotalsSums
  import opened PoolTxs
  import opened PoolRemove
  import opened FeeRates
  import opened FeeRateIndex

  /** No pool transaction spends the transaction yet. */
  ghost predicate Childless(txs: Txs, tx: Transaction) {
    Spenders(txs, tx.txid) == {}
  }

  /** The transaction can be hashed after its parents: it spends neither itself nor a pool descendant. */
  ghost predicate NoCycle(txs: Txs, tx: Transaction) {
    && tx.txid !in tx.Parents()
    && forall s, p :: s in Spenders(txs, tx.txid) && p in tx.Parents() ==> s != p && p !in Descendants(txs, s)
  }

  /** The pool weight stays within a u64 after the insert. */
  ghost predicate FitsWeight(txs: Txs, own: Totals) {
    Sum(txs.Keys, Own(txs)).weight + own.weight <= U64_MAX
  }

  ghost function InheritedConflicts(txs: Txs, parents: set<Txid>): set<Txid> {
    set p, c | p in parents && p in txs && c in txs[p].info.conflictsWith :: c
  }

  /** The pool right after the new entry and its edges are stored, before any cached total is updated. */
  ghost function Linked(txs: Txs, tx: Transaction, own: Totals, declared: set<Txid>): Txs {
    var x := tx.txid;
    var spent := map t | t in txs ::
      if t in tx.Parents() then Entry(txs[t].tx, txs[t].info.(spentBy := txs[t].info.spentBy + {x})) else txs[t];
    spent[x := Entry(tx, TxInfo(own, own, own, tx.Parents() * txs.Keys, Spenders(txs, x),
                                declared + InheritedConflicts(txs, tx.Parents())))]
  }

  ghost function CreditDescendants(txs: Txs, s: set<Txid>, own: Totals): Txs {
    map t | t in txs ::
      if t in s then Entry(txs[t].tx, txs[t].info.(descendant := Credit(txs[t].info.descendant, own))) else txs[t]
  }

  ghost function CreditAncestors(txs: Txs, s: set<Txid>, own: Totals, declared: set<Txid>): Txs {
    map t | t in txs ::
      if t in s then Entry(txs[t].tx, txs[t].info.(ancestor := Credit(txs[t].info.ancestor, own),
                                                   conflictsWith := txs[t].info.conflictsWith + declared))
      else txs[t]
  }

  ghost function MarkConflict(txs: Txs, s: set<Txid>, x: Txid): Txs {
    map t | t in txs ::
      if t in s then Entry(txs[t].tx, txs[t].info.(conflictsWith := txs[t].info.conflictsWith + {x})) else txs[t]
  }

  ghost function SetTotals(txs: Txs, x: Txid, ancestor: Totals, descendant: Totals): Txs
    requires x in txs
  {
    txs[x := Entry(txs[x].tx, txs[x].info.(ancestor := ancestor, descendant := descendant))]
  }

  /** The declared conflicts that are pooled, and all their descendants. */
  ghost function ConflictClosure(txs: Txs, declared: set<Txid>): set<Txid> {
    set t | t in txs && exists c :: c in declared && c in txs && (t == c || t in Descendants(txs, c))
  }

  /** The parents `s` of `x` with `x` recorded as a spender. */
  ghost function SpentBy(txs: Txs, s: set<Txid>, x: Txid): Txs {
    map t | t in txs ::
      if t in s then Entry(txs[t].tx, txs[t].info.(spentBy := txs[t].info.spentBy + {x})) else txs[t]
  }

  lemma SpentByNone(txs: Txs, x: Txid)
    ensures SpentBy(txs, {}, x) == txs && InheritedConflicts(txs, {}) == {}
  {
  }

  lemma SpentByStep(txs: Txs, s: set<Txid>, x: Txid, dep: Txid)
    requires dep in txs && dep !in s
    ensures dep in SpentBy(txs, s, x) && SpentBy(txs, s, x)[dep] == txs[dep]
    ensures SpentBy(txs, s + {dep}, x)
            == SpentBy(txs, s, x)[dep := Entry(txs[dep].tx, txs[dep].info.(spentBy := txs[dep].info.spentBy + {x}))]
    ensures InheritedConflicts(txs, s + {dep}) == InheritedConflicts(txs, s) + txs[dep].info.conflictsWith
  {
  }

  lemma LinkedFromParts(txs: Txs, tx: Transaction, own: Totals, declared: set<Txid>)
    requires tx.txid !in txs
    ensures var depends := tx.Parents() * txs.Keys;
            Linked(txs, tx, own, declared)
            == SpentBy(txs, depends, tx.txid)[tx.txid :=
                 Entry(tx, TxInfo(own, own, own, depends, Spenders(txs, tx.txid), declared + InheritedConflicts(txs, depends)))]
  {
    assert InheritedConflicts(txs, tx.Parents()) == InheritedConflicts(txs, tx.Parents() * txs.Keys);
  }

  lemma CapOfNothing(own: Totals, f: Measure)
    requires own.weight <= U64_MAX
    ensures Cap(Add(own, Sum({}, f))) == own
  {
  }

  /** Crediting one more summand to a capped sum gives the capped longer sum. */
  lemma CapStep(own: Totals, txs: Txs, s: set<Txid>, t: Txid)
    requires t in txs && t !in s
    ensures Credit(Cap(Add(own, Sum(s, Own(txs)))), txs[t].info.own) == Cap(Add(own, Sum(s + {t}, Own(txs))))
  {
    SumInsert(s, Own(txs), t);
  }

  lemma ClosureOfNone(txs: Txs)
    ensures ConflictClosure(txs, {}) == {}
  {
  }

  lemma ClosureStep(txs: Txs, s: set<Txid>, c: Txid)
    requires c in txs ==> Descendants(txs, c) <= txs.Keys
    ensures ConflictClosure(txs, s + {c})
            == if c in txs then ConflictClosure(txs, s) + (Descendants(txs, c) + {c}) else ConflictClosure(txs, s)
  {
    hide Descendants;
  }

  lemma MarkMore(txs: Txs, s: set<Txid>, t: set<Txid>, x: Txid)
    ensures MarkConflict(MarkConflict(txs, s, x), t, x) == MarkConflict(txs, s + t, x)
  {
    forall u | u in txs
      ensures MarkConflict(MarkConflict(txs, s, x), t, x)[u] == MarkConflict(txs, s + t, x)[u]
    {
      assert txs[u].info.conflictsWith + {x} + {x} == txs[u].info.conflictsWith + {x};
    }
  }

  lemma SameRelatives(txs: Txs, after: Txs)
    requires DependsGraph(after) == DependsGraph(txs) && SpenderGraph(after) == SpenderGraph(txs)
    ensures forall t :: Ancestors(after, t) == Ancestors(txs, t) && Descendants(after, t) == Descendants(txs, t)
  {
  }

  lemma SameClosure(txs: Txs, after: Txs, declared: set<Txid>)
    requires after.Keys == txs.Keys && SpenderGraph(after) == SpenderGraph(txs)
    ensures ConflictClosure(after, declared) == ConflictClosure(txs, declared)
  {
    assert forall c :: Descendants(after, c) == Descendants(txs, c);
  }

  /** What the insert needs to know of the linked pool before it walks it. */
  lemma LinkedFacts(txs: Txs, tx: Transaction, own: Totals, declared: set<Txid>)
    requires PoolValid(txs) && tx.txid !in txs && NoCycle(txs, tx)
    ensures var x, linked := tx.txid, Linked(txs, tx, own, declared);
            && x in linked
            && !Reaches(DependsGraph(linked), x, x) && Acyclic(SpenderGraph(linked))
            && Ancestors(linked, x) <= linked.Keys
            && (forall c :: Descendants(linked, c) <= linked.Keys)
  {
    hide Reaches, Linked, ReachSet, Acyclic, DependsGraph, SpenderGraph, Closed, Covered, NoCycle;
    var x, linked := tx.txid, Linked(txs, tx, own, declared);
    LinkedEntries(txs, tx, own, declared);
    LinkedAcyclic(txs, tx, own, declared);
    LinkedAcyclicAtNew(txs, tx, own, declared);
    LinkedClosed(txs, tx, own, declared);
    ReachSetLeast(DependsGraph(linked), x, linked.Keys);
    forall c ensures Descendants(linked, c) <= linked.Keys {
      ReachSetLeast(SpenderGraph(linked), c, linked.Keys);
    }
  }

  lemma LinkedClosed(txs: Txs, tx: Transaction, own: Totals, declared: set<Txid>)
    requires Wired(txs)
    ensures var linked := Linked(txs, tx, own, declared);
            && Closed(DependsGraph(linked), linked.Keys) && (forall c :: Out(DependsGraph(linked), c) <= linked.Keys)
            && Closed(SpenderGraph(linked), linked.Keys) && (forall c :: Out(SpenderGraph(linked), c) <= linked.Keys)
  {
    hide Linked;
    var x, linked := tx.txid, Linked(txs, tx, own, declared);
    LinkedEntries(txs, tx, own, declared);
    forall t | t in linked ensures linked[t].info.depends <= linked.Keys && linked[t].info.spentBy <= linked.Keys {
      if t in txs {
        assert txs[t].info.depends <= txs.Keys && txs[t].info.spentBy <= txs.Keys;
      }
    }
  }

  lemma CreditDescendantsStep(txs: Txs, s: set<Txid>, own: Totals, a: Txid)
    requires a in txs && a !in s
    ensures CreditDescendants(txs, s, own)[a] == txs[a]
    ensures CreditDescendants(txs, s + {a}, own)
            == CreditDescendants(txs, s, own)[a := Entry(txs[a].tx, txs[a].info.(descendant := Credit(txs[a].info.descendant, own)))]
  {
  }

  lemma CreditDescendantsFacts(txs: Txs, s: set<Txid>, own: Totals)
    ensures CreditDescendants(txs, {}, own) == txs
    ensures CreditDescendants(txs, s, own).Keys == txs.Keys
    ensures DependsGraph(CreditDescendants(txs, s, own)) == DependsGraph(txs)
    ensures SpenderGraph(CreditDescendants(txs, s, own)) == SpenderGraph(txs)
    ensures Own(CreditDescendants(txs, s, own)) == Own(txs)
    ensures forall t :: t in txs ==> CreditDescendants(txs, s, own)[t].info.ancestor == txs[t].info.ancestor
  {
    SameGraphs(txs, CreditDescendants(txs, s, own));
  }

  lemma CreditAncestorsStep(txs: Txs, s: set<Txid>, own: Totals, declared: set<Txid>, d: Txid)
    requires d in txs && d !in s
    ensures CreditAncestors(txs, s, own, declared)[d] == txs[d]
    ensures CreditAncestors(txs, s + {d}, own, declared)
            == CreditAncestors(txs, s, own, declared)[d :=
                 Entry(txs[d].tx, txs[d].info.(ancestor := Credit(txs[d].info.ancestor, own),
                                               conflictsWith := txs[d].info.conflictsWith + declared))]
  {
  }

  lemma CreditAncestorsFacts(txs: Txs, s: set<Txid>, own: Totals, declared: set<Txid>)
    ensures CreditAncestors(txs, {}, own, declared) == txs
    ensures CreditAncestors(txs, s, own, declared).Keys == txs.Keys
    ensures SpenderGraph(CreditAncestors(txs, s, own, declared)) == SpenderGraph(txs)
    ensures DependsGraph(CreditAncestors(txs, s, own, declared)) == DependsGraph(txs)
    ensures Own(CreditAncestors(txs, s, own, declared)) == Own(txs)
  {
    SameGraphs(txs, CreditAncestors(txs, s, own, declared));
  }

  lemma MarkConflictStep(txs: Txs, s: set<Txid>, x: Txid, d: Txid)
    requires d in txs
    ensures d in MarkConflict(txs, s, x) && MarkConflict(txs, s, x)[d].tx == txs[d].tx
    ensures MarkConflict(txs, s + {d}, x)
            == MarkConflict(txs, s, x)[d := Entry(txs[d].tx, MarkConflict(txs, s, x)[d].info.(
                 conflictsWith := MarkConflict(txs, s, x)[d].info.conflictsWith + {x}))]
  {
    var marked := MarkConflict(txs, s, x)[d];
    if d in s {
      assert marked.info.conflictsWith + {x} == marked.info.conflictsWith;
    }
  }

  lemma MarkConflictFacts(txs: Txs, s: set<Txid>, x: Txid)
    ensures MarkConflict(txs, {}, x) == txs
    ensures MarkConflict(txs, s, x).Keys == txs.Keys
    ensures SpenderGraph(MarkConflict(txs, s, x)) == SpenderGraph(txs)
    ensures DependsGraph(MarkConflict(txs, s, x)) == DependsGraph(txs)
  {
    SameGraphs(txs, MarkConflict(txs, s, x));
  }

  /** The cached updates of an insert: `above` gain a descendant, `below` an ancestor, `marked` a conflict. */
  ghost function Updated(linked: Txs, x: Txid, own: Totals, declared: set<Txid>,
                         above: set<Txid>, below: set<Txid>, marked: set<Txid>): Txs
    requires x in linked
  {
    SetTotals(MarkConflict(CreditAncestors(CreditDescendants(linked, above, own), below, own, declared), marked, x), x,
              Cap(Add(own, Sum(above, Own(linked)))), Cap(Add(own, Sum(below, Own(linked)))))
  }

  ghost function AfterInsert(txs: Txs, tx: Transaction, own: Totals, declared: set<Txid>): Txs {
    var x, linked := tx.txid, Linked(txs, tx, own, declared);
    Updated(linked, x, own, declared, Ancestors(linked, x), Descendants(linked, x), ConflictClosure(linked, declared))
  }

  /** Updates of cached totals and conflicts leave both graphs and all own totals alone. */
  lemma SameGraphs(txs: Txs, after: Txs)
    requires after.Keys == txs.Keys
    requires forall t :: t in txs ==>
      && after[t].info.depends == txs[t].info.depends && after[t].info.spentBy == txs[t].info.spentBy
      && after[t].info.own == txs[t].info.own
    ensures DependsGraph(after) == DependsGraph(txs)
    ensures SpenderGraph(after) == SpenderGraph(txs)
    ensures Own(after) == Own(txs)
  {
  }

  lemma LinkedEntries(txs: Txs, tx: Transaction, own: Totals, declared: set<Txid>)
    ensures var x, linked := tx.txid, Linked(txs, tx, own, declared);
            && linked.Keys == txs.Keys + {x}
            && linked[x] == Entry(tx, TxInfo(own, own, own, tx.Parents() * txs.Keys, Spenders(txs, x),
                                             declared + InheritedConflicts(txs, tx.Parents())))
            && (forall t :: t in txs && t != x && t in tx.Parents() ==>
                  linked[t] == Entry(txs[t].tx, txs[t].info.(spentBy := txs[t].info.spentBy + {x})))
            && (forall t :: t in txs && t != x && t !in tx.Parents() ==> linked[t] == txs[t])
  {
  }

  lemma LinkedGraphs(txs: Txs, tx: Transaction, own: Totals, declared: set<Txid>)
    requires Wired(txs) && tx.txid !in txs && tx.txid !in tx.Parents()
    ensures var linked := Linked(txs, tx, own, declared);
            && linked.Keys == txs.Keys + {tx.txid}
            && RemoveNode(DependsGraph(linked), tx.txid) == DependsGraph(txs)
            && RemoveNode(SpenderGraph(linked), tx.txid) == SpenderGraph(txs)
            && Out(DependsGraph(linked), tx.txid) == tx.Parents() * txs.Keys
            && Out(SpenderGraph(linked), tx.txid) == Spenders(txs, tx.txid)
            && Own(linked) == Own(txs)[tx.txid := own]
  {
    hide Linked;
    var x, linked := tx.txid, Linked(txs, tx, own, declared);
    LinkedEntries(txs, tx, own, declared);
    forall t | t in txs ensures x !in txs[t].info.depends && x !in txs[t].info.spentBy {
      assert txs[t].info.depends <= txs.Keys;
      assert txs[t].info.spentBy <= txs.Keys;
    }
    WithNode(txs, linked, x);
  }

  lemma WithNode(txs: Txs, linked: Txs, x: Txid)
    requires x !in txs && linked.Keys == txs.Keys + {x}
    requires forall t :: t in txs ==>
      && x !in txs[t].info.depends && x !in txs[t].info.spentBy
      && linked[t].info.depends == txs[t].info.depends
      && linked[t].info.spentBy - {x} == txs[t].info.spentBy
      && linked[t].info.own == txs[t].info.own
    ensures RemoveNode(DependsGraph(linked), x) == DependsGraph(txs)
    ensures RemoveNode(SpenderGraph(linked), x) == SpenderGraph(txs)
    ensures Own(linked) == Own(txs)[x := linked[x].info.own]
  {
    WithNodeDepends(txs, linked, x);
    WithNodeSpenders(txs, linked, x);
  }

  lemma WithNodeDepends(txs: Txs, linked: Txs, x: Txid)
    requires x !in txs && linked.Keys == txs.Keys + {x}
    requires forall t :: t in txs ==> x !in txs[t].info.depends && linked[t].info.depends == txs[t].info.depends
    ensures RemoveNode(DependsGraph(linked), x) == DependsGraph(txs)
  {
    SameWithout(DependsGraph(linked), DependsGraph(txs), x);
  }

  lemma WithNodeSpenders(txs: Txs, linked: Txs, x: Txid)
    requires x !in txs && linked.Keys == txs.Keys + {x}
    requires forall t :: t in txs ==> linked[t].info.spentBy - {x} == txs[t].info.spentBy
    ensures RemoveNode(SpenderGraph(linked), x) == SpenderGraph(txs)
  {
    SameWithout(SpenderGraph(linked), SpenderGraph(txs), x);
  }

  lemma SameWithout(g: Edges, h: Edges, x: Txid)
    requires x !in h && g.Keys == h.Keys + {x}
    requires forall t :: t in h ==> g[t] - {x} == h[t]
    ensures RemoveNode(g, x) == h
  {
  }

  /** Out-edges of the linked pool: only those of the new transaction and of its parents are new. */
  lemma LinkedOut(txs: Txs, tx: Transaction, own: Totals, declared: set<Txid>, t: Txid)
    requires Wired(txs) && tx.txid !in txs && tx.txid !in tx.Parents()
    ensures var linked := Linked(txs, tx, own, declared);
            && tx.txid !in Out(DependsGraph(linked), t)
            && (t != tx.txid && t !in tx.Parents() ==> Out(SpenderGraph(linked), t) == Out(SpenderGraph(txs), t))
            && (t == tx.txid ==> Out(SpenderGraph(linked), t) == Spenders(txs, t))
  {
    hide Linked;
    LinkedEntries(txs, tx, own, declared);
    assert forall c :: c in txs ==> txs[c].info.depends <= txs.Keys;
  }

  /** The new transaction is no ancestor of anything, and reaches itself along no spends. */
  lemma LinkedAcyclicAtNew(txs: Txs, tx: Transaction, own: Totals, declared: set<Txid>)
    requires Wired(txs) && tx.txid !in txs && NoCycle(txs, tx)
    ensures forall t :: !Reaches(DependsGraph(Linked(txs, tx, own, declared)), t, tx.txid)
    ensures !Reaches(SpenderGraph(Linked(txs, tx, own, declared)), tx.txid, tx.txid)
  {
    hide Linked, Wired, DependsGraph, SpenderGraph, Descendants, Reaches, Closed;
    var x, linked := tx.txid, Linked(txs, tx, own, declared);
    forall t ensures !Reaches(DependsGraph(linked), t, x) {
      if Reaches(DependsGraph(linked), t, x) {
        LastEdge(DependsGraph(linked), t, x);
        forall c ensures x !in Out(DependsGraph(linked), c) {
          LinkedOut(txs, tx, own, declared, c);
        }
      }
    }
    if Reaches(SpenderGraph(linked), x, x) {
      BelowClosed(txs, tx, own, declared);
      ReachesInside(SpenderGraph(linked), x, x, Below(txs, x));
    }
  }

  /** The pool transactions that spend `x`, directly or through others. */
  ghost function Below(txs: Txs, x: Txid): set<Txid> {
    set t | t in txs && exists c :: c in Spenders(txs, x) && (t == c || t in Descendants(txs, c))
  }

  lemma BelowClosed(txs: Txs, tx: Transaction, own: Totals, declared: set<Txid>)
    requires Wired(txs) && tx.txid !in txs && NoCycle(txs, tx)
    ensures var s := SpenderGraph(Linked(txs, tx, own, declared));
            Closed(s, Below(txs, tx.txid)) && Out(s, tx.txid) <= Below(txs, tx.txid)
  {
    hide Linked, Reaches, Descendants;
    var x, s := tx.txid, SpenderGraph(Linked(txs, tx, own, declared));
    LinkedOut(txs, tx, own, declared, x);
    forall t | t in Below(txs, x) ensures Out(s, t) <= Below(txs, x) {
      var c :| c in Spenders(txs, x) && (t == c || t in Descendants(txs, c));
      assert t !in tx.Parents();
      LinkedOut(txs, tx, own, declared, t);
      DescendantsClosed(txs, c);
      assert Out(s, t) <= Descendants(txs, c);
    }
  }

  lemma DescendantsClosed(txs: Txs, c: Txid)
    requires Wired(txs)
    ensures Out(SpenderGraph(txs), c) <= Descendants(txs, c) <= txs.Keys
    ensures forall t :: t in Descendants(txs, c) ==> Out(SpenderGraph(txs), t) <= Descendants(txs, c)
  {
    ReachSetClosed(SpenderGraph(txs), c);
    RelativesInPool(txs, c);
  }

  lemma LinkedAcyclic(txs: Txs, tx: Transaction, own: Totals, declared: set<Txid>)
    requires Wired(txs) && Acyclic(DependsGraph(txs)) && tx.txid !in txs && NoCycle(txs, tx)
    ensures Acyclic(DependsGraph(Linked(txs, tx, own, declared)))
    ensures Acyclic(SpenderGraph(Linked(txs, tx, own, declared)))
  {
    var x, linked := tx.txid, Linked(txs, tx, own, declared);
    LinkedGraphs(txs, tx, own, declared);
    LinkedAcyclicAtNew(txs, tx, own, declared);
    SpendersAcyclic(txs);
    AddNodeAcyclic(DependsGraph(linked), x);
    AddNodeAcyclic(SpenderGraph(linked), x);
  }


  lemma UpdatedInfo(linked: Txs, x: Txid, own: Totals, declared: set<Txid>,
                    above: set<Txid>, below: set<Txid>, marked: set<Txid>, t: Txid)
    requires x in linked && t in linked
    ensures var before, after := linked[t], Updated(linked, x, own, declared, above, below, marked)[t];
            && after.tx == before.tx && after.info.own == before.info.own
            && after.info.depends == before.info.depends && after.info.spentBy == before.info.spentBy
            && after.info.conflictsWith == before.info.conflictsWith + (if t in below then declared else {})
                                           + (if t in marked then {x} else {})
            && after.info.ancestor == (if t == x then Cap(Add(own, Sum(above, Own(linked))))
                                       else if t in below then Credit(before.info.ancestor, own) else before.info.ancestor)
            && after.info.descendant == (if t == x then Cap(Add(own, Sum(below, Own(linked))))
                                         else if t in above then Credit(before.info.descendant, own) else before.info.descendant)
  {
  }

  lemma UpdatedGraphs(linked: Txs, x: Txid, own: Totals, declared: set<Txid>,
                      above: set<Txid>, below: set<Txid>, marked: set<Txid>)
    requires x in linked
    ensures var after := Updated(linked, x, own, declared, above, below, marked);
            && after.Keys == linked.Keys
            && DependsGraph(after) == DependsGraph(linked)
            && SpenderGraph(after) == SpenderGraph(linked)
            && Own(after) == Own(linked)
  {
    var after := Updated(linked, x, own, declared, above, below, marked);
    forall t | t in linked
      ensures after[t].info.depends == linked[t].info.depends && after[t].info.spentBy == linked[t].info.spentBy
      ensures after[t].info.own == linked[t].info.own
    {
      UpdatedInfo(linked, x, own, declared, above, below, marked, t);
    }
    SameGraphs(linked, after);
  }

  /** A childless insert wires the new transaction to its parents on both sides. */
  lemma AfterInsertWired(txs: Txs, tx: Transaction, own: Totals, declared: set<Txid>)
    requires Wired(txs) && tx.txid !in txs && tx.txid !in tx.Parents() && Childless(txs, tx)
    ensures Wired(Linked(txs, tx, own, declared))
  {
    var x, linked := tx.txid, Linked(txs, tx, own, declared);
    assert Spenders(linked, x) == {};
    forall t | t in txs
      ensures x !in txs[t].tx.Parents()
      ensures Spenders(linked, t) == Spenders(txs, t) + (if t in tx.Parents() then {x} else {})
    {
      assert t !in Spenders(txs, x);
    }
  }

  /** A childless insert changes no ancestor set, and adds the new transaction below exactly its ancestors. */
  lemma ChildlessRelatives(txs: Txs, tx: Transaction, own: Totals, declared: set<Txid>, t: Txid)
    requires Wired(txs) && Acyclic(DependsGraph(txs))
    requires tx.txid !in txs && tx.txid !in tx.Parents() && Childless(txs, tx) && t in txs
    ensures var x, linked := tx.txid, Linked(txs, tx, own, declared);
            && Descendants(linked, x) == {}
            && Ancestors(linked, t) == Ancestors(txs, t)
            && Descendants(linked, t) == Descendants(txs, t) + (if t in Ancestors(linked, x) then {x} else {})
  {
    hide Linked, Wired, Acyclic, Reaches, ReachSet, DependsGraph, SpenderGraph, RemoveNode, Spenders;
    var x, linked := tx.txid, Linked(txs, tx, own, declared);
    var d, s := DependsGraph(linked), SpenderGraph(linked);
    LinkedGraphs(txs, tx, own, declared);
    LinkedAcyclicAtNew(txs, tx, own, declared);
    AfterInsertWired(txs, tx, own, declared);
    ReachSetLeast(s, x, {});
    RemoveNodeReachSet(d, x, t);
    InReachSet(d, t, x);
    assert ReachSet(d, t) - {x} == ReachSet(d, t);
    RemoveNodeReachSet(s, x, t);
    AncestorIffDescendant(linked, t, x);
  }

  lemma ChildlessLinkedValid(txs: Txs, tx: Transaction, own: Totals, declared: set<Txid>)
    requires Wired(txs) && Acyclic(DependsGraph(txs))
    requires tx.txid !in txs && tx.txid !in tx.Parents() && Childless(txs, tx)
    ensures var linked := Linked(txs, tx, own, declared); Wired(linked) && Acyclic(DependsGraph(linked))
  {
    AfterInsertWired(txs, tx, own, declared);
    LinkedAcyclic(txs, tx, own, declared);
  }

  lemma LinkedPoolWeight(txs: Txs, tx: Transaction, own: Totals, declared: set<Txid>)
    requires Wired(txs) && tx.txid !in txs && tx.txid !in tx.Parents()
    ensures var linked := Linked(txs, tx, own, declared);
            Sum(linked.Keys, Own(linked)) == Add(own, Sum(txs.Keys, Own(txs)))
  {
    var x, linked := tx.txid, Linked(txs, tx, own, declared);
    LinkedGraphs(txs, tx, own, declared);
    SumInsert(txs.Keys, Own(linked), x);
    SumAgree(txs.Keys, Own(txs), Own(linked));
  }

  /** The exact totals of an old transaction after a childless insert. */
  lemma ChildlessTotals(txs: Txs, tx: Transaction, own: Totals, declared: set<Txid>, t: Txid)
    requires Wired(txs) && Acyclic(DependsGraph(txs))
    requires tx.txid !in txs && tx.txid !in tx.Parents() && Childless(txs, tx) && t in txs
    ensures var x, linked := tx.txid, Linked(txs, tx, own, declared);
            && AncestorTotals(linked, t) == AncestorTotals(txs, t)
            && DescendantTotals(linked, t) == (if t in Ancestors(linked, x) then Add(DescendantTotals(txs, t), own)
                                               else DescendantTotals(txs, t))
  {
    hide Linked, Wired, Acyclic, Reaches, Ancestors, Descendants, DependsGraph, SpenderGraph, RemoveNode, Spenders, Sum;
    var x, linked := tx.txid, Linked(txs, tx, own, declared);
    ChildlessRelatives(txs, tx, own, declared, t);
    RelativesInPool(txs, t);
    LinkedGraphs(txs, tx, own, declared);
    SumAgree(Ancestors(txs, t), Own(txs), Own(linked));
    SumAgree(Descendants(txs, t), Own(txs), Own(linked));
    if t in Ancestors(linked, x) {
      SumInsert(Descendants(txs, t), Own(linked), x);
    } else {
      assert Descendants(txs, t) + {} == Descendants(txs, t);
    }
    assert At(Own(linked), t) == At(Own(txs), t);
  }

  lemma CreditCovers(exact: Totals, stored: Totals, own: Totals)
    requires Leq(exact, stored) && exact.weight + own.weight <= U64_MAX
    ensures Leq(Add(exact, own), Credit(stored, own))
  {
  }

  lemma ChildlessCoversNew(txs: Txs, tx: Transaction, own: Totals, declared: set<Txid>)
    requires PoolValid(txs) && FitsWeight(txs, own)
    requires tx.txid !in txs && tx.txid !in tx.Parents() && Childless(txs, tx)
    ensures var after := AfterInsert(txs, tx, own, declared);
            && tx.txid in after
            && after[tx.txid].info.ancestor == AncestorTotals(after, tx.txid)
            && after[tx.txid].info.descendant == DescendantTotals(after, tx.txid)
  {
    hide Linked, Wired, Acyclic, Ancestors, Descendants, ConflictClosure, DependsGraph, SpenderGraph, Spenders, Sum, Updated;
    var x, linked := tx.txid, Linked(txs, tx, own, declared);
    var above, below, marked := Ancestors(linked, x), Descendants(linked, x), ConflictClosure(linked, declared);
    LinkedEntries(txs, tx, own, declared);
    UpdatedInfo(linked, x, own, declared, above, below, marked, x);
    UpdatedGraphs(linked, x, own, declared, above, below, marked);
    ChildlessLinkedValid(txs, tx, own, declared);
    RelativesWithinPool(linked, x);
    LinkedPoolWeight(txs, tx, own, declared);
    SameTotals(linked, AfterInsert(txs, tx, own, declared), x);
  }

  lemma ChildlessCoversOld(txs: Txs, tx: Transaction, own: Totals, declared: set<Txid>, t: Txid)
    requires PoolValid(txs) && FitsWeight(txs, own)
    requires tx.txid !in txs && tx.txid !in tx.Parents() && Childless(txs, tx) && t in txs
    ensures var after := AfterInsert(txs, tx, own, declared);
            && t in after
            && Leq(AncestorTotals(after, t), after[t].info.ancestor)
            && Leq(DescendantTotals(after, t), after[t].info.descendant)
            && (txs[t].info.ancestor == AncestorTotals(txs, t) ==> after[t].info.ancestor == AncestorTotals(after, t))
  {
    hide Linked, Wired, Acyclic, Ancestors, Descendants, ConflictClosure, DependsGraph, SpenderGraph, Spenders, Sum, Updated,
         AncestorTotals, DescendantTotals;
    var x, linked := tx.txid, Linked(txs, tx, own, declared);
    var above, below, marked := Ancestors(linked, x), Descendants(linked, x), ConflictClosure(linked, declared);
    LinkedEntries(txs, tx, own, declared);
    UpdatedInfo(linked, x, own, declared, above, below, marked, t);
    UpdatedGraphs(linked, x, own, declared, above, below, marked);
    SameTotals(linked, AfterInsert(txs, tx, own, declared), t);
    ChildlessRelatives(txs, tx, own, declared, t);
    ChildlessTotals(txs, tx, own, declared, t);
    RelativesWithinPool(txs, t);
    CreditCovers(DescendantTotals(txs, t), txs[t].info.descendant, own);
  }

  lemma SameTotals(txs: Txs, after: Txs, t: Txid)
    requires DependsGraph(after) == DependsGraph(txs) && SpenderGraph(after) == SpenderGraph(txs) && Own(after) == Own(txs)
    ensures AncestorTotals(after, t) == AncestorTotals(txs, t)
    ensures DescendantTotals(after, t) == DescendantTotals(txs, t)
  {
  }

  /** A childless insert keeps every pool invariant. */
  lemma ChildlessInsertValid(txs: Txs, tx: Transaction, own: Totals, declared: set<Txid>)
    requires PoolValid(txs) && FitsWeight(txs, own)
    requires own.vsize == tx.Vsize() && own.weight > 0
    requires tx.txid !in txs && tx.txid !in tx.Parents() && Childless(txs, tx)
    ensures PoolValid(AfterInsert(txs, tx, own, declared))
    ensures AncestorsExact(txs) ==> AncestorsExact(AfterInsert(txs, tx, own, declared))
  {
    hide Linked, Wired, Acyclic, Ancestors, Descendants, ConflictClosure, DependsGraph, SpenderGraph, Sum, Updated, Own, AncestorTotals, DescendantTotals;
    var x, linked, after := tx.txid, Linked(txs, tx, own, declared), AfterInsert(txs, tx, own, declared);
    var above, below, marked := Ancestors(linked, x), Descendants(linked, x), ConflictClosure(linked, declared);
    LinkedEntries(txs, tx, own, declared);
    UpdatedGraphs(linked, x, own, declared, above, below, marked);
    ChildlessLinkedValid(txs, tx, own, declared);
    LinkedPoolWeight(txs, tx, own, declared);
    forall t | t in linked ensures after[t].tx == linked[t].tx && after[t].info.own == linked[t].info.own {
      UpdatedInfo(linked, x, own, declared, above, below, marked, t);
    }
    WiredTransfer(linked, after);
    ChildlessCovered(txs, tx, own, declared);
  }

  lemma ChildlessCovered(txs: Txs, tx: Transaction, own: Totals, declared: set<Txid>)
    requires PoolValid(txs) && FitsWeight(txs, own)
    requires tx.txid !in txs && tx.txid !in tx.Parents() && Childless(txs, tx)
    requires AfterInsert(txs, tx, own, declared).Keys == txs.Keys + {tx.txid}
    ensures Covered(AfterInsert(txs, tx, own, declared))
    ensures AncestorsExact(txs) ==> AncestorsExact(AfterInsert(txs, tx, own, declared))
  {
    hide AfterInsert, PoolValid, Wired, Childless, FitsWeight, AncestorTotals, DescendantTotals;
    var after := AfterInsert(txs, tx, own, declared);
    forall t | t in after
      ensures Leq(AncestorTotals(after, t), after[t].info.ancestor) && Leq(DescendantTotals(after, t), after[t].info.descendant)
      ensures AncestorsExact(txs) ==> after[t].info.ancestor == AncestorTotals(after, t)
    {
      if t == tx.txid { ChildlessCoversNew(txs, tx, own, declared); } else { ChildlessCoversOld(txs, tx, own, declared, t); }
    }
  }

  lemma WiredTransfer(txs: Txs, after: Txs)
    requires Wired(txs) && after.Keys == txs.Keys
    requires DependsGraph(after) == DependsGraph(txs) && SpenderGraph(after) == SpenderGraph(txs)
    requires forall t :: t in txs ==> after[t].tx == txs[t].tx
    ensures Wired(after)
  {
    forall t | t in after
      ensures after[t].info.depends == txs[t].info.depends && after[t].info.spentBy == txs[t].info.spentBy
      ensures Spenders(after, t) == Spenders(txs, t)
    {
      assert DependsGraph(after)[t] == DependsGraph(txs)[t];
      assert SpenderGraph(after)[t] == SpenderGraph(txs)[t];
    }
  }

  /** An insert of a transaction that is already spent in the pool breaks the edge agreement: the spender does not gain it as a parent. */
  lemma SpentInsertBreaksWiring(txs: Txs, tx: Transaction, own: Totals, declared: set<Txid>, child: Txid)
    requires Wired(txs) && tx.txid !in txs && tx.txid !in tx.Parents()
    requires child in Spenders(txs, tx.txid)
    ensures !Wired(AfterInsert(txs, tx, own, declared))
  {
    var x, linked, after := tx.txid, Linked(txs, tx, own, declared), AfterInsert(txs, tx, own, declared);
    UpdatedInfo(linked, x, own, declared, Ancestors(linked, x), Descendants(linked, x), ConflictClosure(linked, declared), child);
    UpdatedGraphs(linked, x, own, declared, Ancestors(linked, x), Descendants(linked, x), ConflictClosure(linked, declared));
    assert x in after[child].tx.Parents() * after.Keys;
    assert x !in txs[child].info.depends;
  }

  /** Inserting keeps the pool invariants exactly when no pool transaction spends the new one. */
  lemma InsertValidIff(txs: Txs, tx: Transaction, own: Totals, declared: set<Txid>)
    requires PoolValid(txs) && FitsWeight(txs, own)
    requires own.vsize == tx.Vsize() && own.weight > 0
    requires tx.txid !in txs && tx.txid !in tx.Parents()
    ensures PoolValid(AfterInsert(txs, tx, own, declared)) <==> Childless(txs, tx)
  {
    if Childless(txs, tx) {
      ChildlessInsertValid(txs, tx, own, declared);
    } else {
      var child :| child in Spenders(txs, tx.txid);
      SpentInsertBreaksWiring(txs, tx, own, declared, child);
    }
  }

  /** If the pool is valid after an insert, the only new slot is the inserted transaction's. */
  lemma InsertedSlots(txs: Txs, tx: Transaction, own: Totals, declared: set<Txid>)
    requires PoolValid(txs) && tx.txid !in txs && tx.txid !in tx.Parents()
    requires PoolValid(AfterInsert(txs, tx, own, declared))
    ensures var x, after := tx.txid, AfterInsert(txs, tx, own, declared);
            x in after && SlotsFor(after) == SlotsFor(txs) + {Slot(RateOf(after[x].info), x)}
  {
    hide AfterInsert, Linked, SlotsFor, Wired, Acyclic, Covered, Ancestors, Descendants, Updated, ConflictClosure;
    var x, linked, after := tx.txid, Linked(txs, tx, own, declared), AfterInsert(txs, tx, own, declared);
    if !Childless(txs, tx) {
      var child :| child in Spenders(txs, x);
      SpentInsertBreaksWiring(txs, tx, own, declared, child);
    }
    InsertedAncestorTotals(txs, tx, own, declared);
    forall slot ensures slot in SlotsFor(after) <==> slot in SlotsFor(txs) + {Slot(RateOf(after[x].info), x)} {
      SlotIn(txs, slot);
      SlotIn(after, slot);
    }
  }

  lemma InsertedAncestorTotals(txs: Txs, tx: Transaction, own: Totals, declared: set<Txid>)
    requires PoolValid(txs) && tx.txid !in txs && tx.txid !in tx.Parents() && Childless(txs, tx)
    ensures AfterInsert(txs, tx, own, declared).Keys == txs.Keys + {tx.txid}
    ensures forall t :: t in txs ==> AfterInsert(txs, tx, own, declared)[t].info.ancestor == txs[t].info.ancestor
  {
    hide Linked, Wired, Acyclic, Covered, Ancestors, Descendants, Updated, ConflictClosure;
    var x, linked := tx.txid, Linked(txs, tx, own, declared);
    var above, below, marked := Ancestors(linked, x), Descendants(linked, x), ConflictClosure(linked, declared);
    LinkedEntries(txs, tx, own, declared);
    UpdatedGraphs(linked, x, own, declared, above, below, marked);
    forall t | t in txs ensures AfterInsert(txs, tx, own, declared)[t].info.ancestor == txs[t].info.ancestor {
      UpdatedInfo(linked, x, own, declared, above, below, marked, t);
      ChildlessRelatives(txs, tx, own, declared, t);
    }
  }

  lemma AfterInsertTxs(txs: Txs, tx: Transaction, own: Totals, declared: set<Txid>)
    requires tx.txid !in txs
    ensures var after := AfterInsert(txs, tx, own, declared);
            && after.Keys == txs.Keys + {tx.txid}
            && after[tx.txid].tx == tx
            && forall t :: t in txs ==> after[t].tx == txs[t].tx
  {
    hide Linked, Updated, Ancestors, Descendants, ConflictClosure;
    var x, linked := tx.txid, Linked(txs, tx, own, declared);
    LinkedEntries(txs, tx, own, declared);
    var above, below, marked := Ancestors(linked, x), Descendants(linked, x), ConflictClosure(linked, declared);
    UpdatedGraphs(linked, x, own, declared, above, below, marked);
    forall t | t in linked ensures AfterInsert(txs, tx, own, declared)[t].tx == linked[t].tx {
      UpdatedInfo(linked, x, own, declared, above, below, marked, t);
    }
  }

  lemma ChildlessInsertWired(txs: Txs, tx: Transaction, own: Totals, declared: set<Txid>)
    requires Wired(txs) && Acyclic(DependsGraph(txs))
    requires tx.txid !in txs && tx.txid !in tx.Parents() && Childless(txs, tx)
    ensures Wired(AfterInsert(txs, tx, own, declared))
  {
    hide Linked, Wired, Acyclic, Updated, Ancestors, Descendants, ConflictClosure, DependsGraph, SpenderGraph, Own;
    var x, linked := tx.txid, Linked(txs, tx, own, declared);
    LinkedEntries(txs, tx, own, declared);
    UpdatedGraphs(linked, x, own, declared, Ancestors(linked, x), Descendants(linked, x), ConflictClosure(linked, declared));
    ChildlessLinkedValid(txs, tx, own, declared);
    AfterInsertTxs(txs, tx, own, declared);
    WiredTransfer(linked, AfterInsert(txs, tx, own, declared));
  }
}
