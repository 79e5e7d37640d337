/** Invariants of the pool over whole runs of inserts and removals. */
module PoolRuns {
  import opened Types
  import opened LinkedSets
  import opened Graph
  import opened TotalsSums
  import opened PoolTxs
  import opened PoolRemove
  import opened PoolInsert
  import opened PoolCluster
  import opened PoolFilter
  import opened PoolPackage
  import opened PoolProposal

  datatype PoolOp =
    | InsertOp(tx: Transaction, fee: nat, declared: set<Txid>, modifiedWeight: nat)
    | RemoveOp(txid: Txid)
    | CascadeOp(txid: Txid, order: seq<Txid>)

  ghost function OwnOf(op: PoolOp): Totals
    requires op.InsertOp?
  {
    Totals(op.fee, op.tx.Vsize(), op.modifiedWeight)
  }

  /** The pool after one operation; inserting a pooled transaction is refused and changes nothing. */
  ghost function Apply(txs: Txs, op: PoolOp): Txs {
    match op
    case InsertOp(tx, _, declared, _) => if tx.txid in txs then txs else AfterInsert(txs, tx, OwnOf(op), declared)
    case RemoveOp(txid) => AfterRemove(txs, txid)
    case CascadeOp(_, order) => RemoveAll(txs, order)
  }

  /** Inserts are of transactions nothing in the pool spends yet, with a positive weight that does not saturate the pool's;
      a removal with descendants takes them out in any order. */
  ghost predicate Allowed(txs: Txs, op: PoolOp) {
    match op
    case InsertOp(tx, _, _, modifiedWeight) =>
      tx.txid !in txs ==>
        && modifiedWeight > 0 && FitsWeight(txs, OwnOf(op))
        && tx.txid !in tx.Parents() && Childless(txs, tx)
    case RemoveOp(_) => true
    case CascadeOp(txid, order) => CascadeOrder(txs, txid, order)
  }

  ghost function Run(ops: seq<PoolOp>): Txs {
    if ops == [] then map[] else Apply(Run(ops[..|ops| - 1]), ops[|ops| - 1])
  }

  ghost predicate AllAllowed(ops: seq<PoolOp>) {
    forall i :: 0 <= i < |ops| ==> Allowed(Run(ops[..i]), ops[i])
  }

  lemma RunPrefix(ops: seq<PoolOp>, n: nat)
    requires AllAllowed(ops) && n <= |ops|
    ensures AllAllowed(ops[..n])
    ensures n < |ops| ==> Allowed(Run(ops[..n]), ops[n]) && Run(ops[..n + 1]) == Apply(Run(ops[..n]), ops[n])
  {
    hide Allowed, Apply;
    forall i | 0 <= i < n ensures ops[..n][..i] == ops[..i] && ops[..n][i] == ops[i] {
    }
    if n < |ops| {
      assert ops[..n + 1][..n] == ops[..n];
    }
  }

  /** One allowed operation keeps every pool invariant. */
  lemma ApplyValid(txs: Txs, op: PoolOp)
    requires PoolValid(txs) && Allowed(txs, op)
    ensures PoolValid(Apply(txs, op))
  {
    hide PoolValid, AfterInsert, AfterRemove, Childless, RemoveAll, CascadeOrder;
    match op {
      case RemoveOp(txid) => AfterRemoveValid(txs, txid);
      case CascadeOp(txid, order) => CascadeExact(txs, txid, order);
      case InsertOp(tx, _, declared, _) =>
        if tx.txid !in txs {
          ChildlessInsertValid(txs, tx, OwnOf(op), declared);
        }
    }
  }

  /** Any run of childless inserts, arbitrary removals and removals with descendants leads to a pool that satisfies
      every pool invariant. */
  lemma {:induction false} RunValid(ops: seq<PoolOp>)
    requires AllAllowed(ops)
    ensures PoolValid(Run(ops))
  {
    hide AllAllowed, PoolValid, Apply, Allowed;
    if ops == [] {
      EmptyPoolValid();
    } else {
      var n := |ops| - 1;
      RunPrefix(ops, n);
      RunValid(ops[..n]);
      ApplyValid(Run(ops[..n]), ops[n]);
    }
  }

  /** A removal that leaves descendants takes no further ancestor away from them. Inserts and removals with descendants
      are not restricted. */
  ghost predicate KeepsExact(txs: Txs, op: PoolOp) {
    op.RemoveOp? && op.txid in txs ==> forall t :: t in Descendants(txs, op.txid) ==> LosesOnly(txs, op.txid, t)
  }

  /** A parentless removal is of that kind. */
  lemma ParentlessKeepsExact(txs: Txs, x: Txid)
    requires PoolValid(txs) && AncestorsExact(txs) && (x in txs ==> txs[x].info.depends == {})
    ensures KeepsExact(txs, RemoveOp(x))
  {
    hide PoolValid, AncestorsExact, LosesOnly, AfterRemove, Descendants;
    if x in txs {
      ParentlessRemoveExact(txs, x);
      RemoveExactIff(txs, x);
    }
  }

  lemma ApplyExactIff(txs: Txs, op: PoolOp)
    requires PoolValid(txs) && AncestorsExact(txs) && Allowed(txs, op)
    ensures AncestorsExact(Apply(txs, op)) <==> KeepsExact(txs, op)
  {
    hide PoolValid, AncestorsExact, AfterInsert, AfterRemove, Childless, RemoveAll, CascadeOrder, LosesOnly, Descendants;
    match op {
      case RemoveOp(txid) =>
        if txid in txs {
          RemoveExactIff(txs, txid);
        } else {
          AbsentRemove(txs, txid);
        }
      case CascadeOp(txid, order) => CascadeExact(txs, txid, order);
      case InsertOp(tx, _, declared, _) =>
        if tx.txid !in txs {
          ChildlessInsertValid(txs, tx, OwnOf(op), declared);
        }
    }
  }

  ghost predicate AllKeepExact(ops: seq<PoolOp>) {
    forall i :: 0 <= i < |ops| ==> KeepsExact(Run(ops[..i]), ops[i])
  }

  ghost predicate ExactThroughout(ops: seq<PoolOp>) {
    forall n :: 0 <= n <= |ops| ==> AncestorsExact(Run(ops[..n]))
  }

  lemma KeepExactStep(ops: seq<PoolOp>, n: nat)
    requires |ops| == n + 1
    ensures AllKeepExact(ops) <==> AllKeepExact(ops[..n]) && KeepsExact(Run(ops[..n]), ops[n])
  {
    hide KeepsExact, Run;
    forall i | 0 <= i < n ensures ops[..n][..i] == ops[..i] && ops[..n][i] == ops[i] {
    }
  }

  lemma ExactStep(ops: seq<PoolOp>, n: nat)
    requires |ops| == n + 1
    ensures ExactThroughout(ops) <==> ExactThroughout(ops[..n]) && AncestorsExact(Run(ops))
    ensures ExactThroughout(ops[..n]) ==> AncestorsExact(Run(ops[..n]))
  {
    hide AncestorsExact, Run;
    assert ops[..n + 1] == ops && ops[..n][..n] == ops[..n];
    forall i | 0 <= i <= n ensures ops[..n][..i] == ops[..i] {
    }
  }

  /** The cached ancestor totals are exact throughout a run precisely if no removal takes further ancestors away from
      the descendants it leaves; removals with descendants never do. */
  lemma {:induction false} RunExactIff(ops: seq<PoolOp>)
    requires AllAllowed(ops)
    ensures ExactThroughout(ops) <==> AllKeepExact(ops)
  {
    hide AllAllowed, PoolValid, Apply, Allowed, AncestorsExact, KeepsExact, ExactThroughout, AllKeepExact;
    if ops == [] {
      NothingRun(ops);
    } else {
      var n := |ops| - 1;
      RunPrefix(ops, n);
      RunValid(ops[..n]);
      RunExactIff(ops[..n]);
      KeepExactStep(ops, n);
      ExactStep(ops, n);
      assert ops[..n + 1] == ops;
      if AncestorsExact(Run(ops[..n])) {
        ApplyExactIff(Run(ops[..n]), ops[n]);
      }
    }
  }

  lemma NothingRun(ops: seq<PoolOp>)
    requires ops == []
    ensures ExactThroughout(ops) && AllKeepExact(ops)
  {
    EmptyPoolValid();
    assert ops[..0] == [];
  }

  // ---- removal undoes insertion ----

  /** Removing the transaction a childless insert added restores every entry, except for the conflict marks it left. */
  lemma InsertThenRemove(txs: Txs, tx: Transaction, own: Totals, declared: set<Txid>, t: Txid)
    requires PoolValid(txs) && FitsWeight(txs, own)
    requires tx.txid !in txs && tx.txid !in tx.Parents() && Childless(txs, tx)
    requires forall a :: a in txs ==> txs[a].info.descendant.weight + own.weight <= U64_MAX
    requires t in txs
    ensures var undone := AfterRemove(AfterInsert(txs, tx, own, declared), tx.txid);
            && t in undone && undone[t].tx == txs[t].tx
            && undone[t].info.(conflictsWith := txs[t].info.conflictsWith) == txs[t].info
  {
    hide Linked, Wired, Acyclic, Covered, Ancestors, Descendants, Updated, ConflictClosure, AfterRemove, Childless,
         DependsGraph, SpenderGraph, Own, Sum, InheritedConflicts, Spenders;
    var x, linked, after := tx.txid, Linked(txs, tx, own, declared), AfterInsert(txs, tx, own, declared);
    var above, below, marked := Ancestors(linked, x), Descendants(linked, x), ConflictClosure(linked, declared);
    LinkedEntries(txs, tx, own, declared);
    UpdatedInfo(linked, x, own, declared, above, below, marked, t);
    UpdatedInfo(linked, x, own, declared, above, below, marked, x);
    UpdatedGraphs(linked, x, own, declared, above, below, marked);
    SameRelatives(linked, after);
    ChildlessLinkedValid(txs, tx, own, declared);
    ChildlessInsertWired(txs, tx, own, declared);
    ChildlessRelatives(txs, tx, own, declared, t);
    AncestorIffDescendant(linked, t, x);
    NewIsForeign(txs, x, t);
    AfterRemoveInfo(after, x, t);
    AncestorIffDescendant(linked, x, t);
  }

  lemma NewIsForeign(txs: Txs, x: Txid, t: Txid)
    requires Wired(txs) && x !in txs && t in txs
    ensures x !in txs[t].info.depends && x !in txs[t].info.spentBy
    ensures txs[t].info.depends - {x} == txs[t].info.depends
    ensures txs[t].info.spentBy - {x} == txs[t].info.spentBy
    ensures txs[t].info.spentBy + {x} - {x} == txs[t].info.spentBy
  {
  }

  // ---- conflict bookkeeping ----

  /** The new transaction conflicts neither with itself nor with any of its ancestors, by declaration or inheritance. */
  ghost predicate Compatible(txs: Txs, tx: Transaction, own: Totals, declared: set<Txid>) {
    declared + InheritedConflicts(txs, tx.Parents()) !! Ancestors(Linked(txs, tx, own, declared), tx.txid) + {tx.txid}
  }

  /** The new transaction declares neither itself nor any of its ancestors as a conflict. */
  ghost predicate Unrelated(txs: Txs, tx: Transaction, own: Totals, declared: set<Txid>) {
    declared !! Ancestors(Linked(txs, tx, own, declared), tx.txid) + {tx.txid}
  }

  lemma CompatibleUnrelated(txs: Txs, tx: Transaction, own: Totals, declared: set<Txid>)
    requires Compatible(txs, tx, own, declared)
    ensures Unrelated(txs, tx, own, declared)
  {
    hide Ancestors, Linked;
  }

  /** Wherever the pool already names the new transaction as a conflict, the declaration names that transaction or an ancestor of it. */
  ghost predicate Reciprocated(txs: Txs, tx: Transaction, declared: set<Txid>) {
    forall u :: u in txs && tx.txid in txs[u].info.conflictsWith ==>
      exists a :: a in declared && a in Ancestors(txs, u) + {u}
  }

  /** Conflict sets stay sound when a compatible, reciprocated transaction is inserted. */
  lemma InsertKeepsConflictsSound(txs: Txs, tx: Transaction, own: Totals, declared: set<Txid>)
    requires PoolValid(txs) && ConflictsSound(txs)
    requires tx.txid !in txs && tx.txid !in tx.Parents() && Childless(txs, tx)
    requires Compatible(txs, tx, own, declared) && Reciprocated(txs, tx, declared)
    ensures ConflictsSound(AfterInsert(txs, tx, own, declared))
  {
    hide AfterInsert, ConflictsSound, PoolValid, Compatible, Reciprocated, Mutual, Childless;
    CompatibleUnrelated(txs, tx, own, declared);
    var after := AfterInsert(txs, tx, own, declared);
    SoundInherited(txs);
    InsertMonotone(txs, tx, own, declared);
    InsertDisjoint(txs, tx, own, declared);
    forall u, v | u in after && v in after && v in after[u].info.conflictsWith ensures Mutual(after, u, v) {
      InsertMutual(txs, tx, own, declared, u, v);
    }
    SoundFromParts(after);
  }

  lemma SoundInherited(txs: Txs)
    requires ConflictsSound(txs)
    ensures Inherited(txs)
  {
    hide Mutual;
  }

  lemma SoundFromParts(txs: Txs)
    requires forall t, p :: t in txs && p in txs[t].info.depends && p in txs ==> txs[p].info.conflictsWith <= txs[t].info.conflictsWith
    requires forall u, v :: u in txs && v in txs && v in txs[u].info.conflictsWith ==> Mutual(txs, u, v)
    requires forall u :: u in txs ==> txs[u].info.conflictsWith !! Ancestors(txs, u) + {u}
    ensures ConflictsSound(txs)
  {
  }

  /** The conflict sets and ancestors after a childless insert. */
  lemma InsertConflicts(txs: Txs, tx: Transaction, own: Totals, declared: set<Txid>, t: Txid)
    requires PoolValid(txs) && Unrelated(txs, tx, own, declared)
    requires tx.txid !in txs && tx.txid !in tx.Parents() && Childless(txs, tx)
    requires t in txs || t == tx.txid
    ensures var x, linked, after := tx.txid, Linked(txs, tx, own, declared), AfterInsert(txs, tx, own, declared);
            && after.Keys == txs.Keys + {x} && linked.Keys == txs.Keys + {x}
            && Ancestors(after, t) == Ancestors(linked, t)
            && (t != x ==> Ancestors(after, t) == Ancestors(txs, t) && after[t].info.depends == txs[t].info.depends)
            && (t != x ==> after[t].info.conflictsWith
                           == txs[t].info.conflictsWith + (if t in ConflictClosure(linked, declared) then {x} else {}))
            && after[x].info.conflictsWith == declared + InheritedConflicts(txs, tx.Parents())
            && after[x].info.depends == tx.Parents() * txs.Keys
            && (t != x ==> (t in ConflictClosure(linked, declared) <==>
                            exists c :: c in declared && c in txs && c in Ancestors(txs, t) + {t}))
  {
    hide Linked, Wired, Acyclic, Covered, Ancestors, Descendants, Updated, ConflictClosure, Childless, Unrelated;
    var x, linked, after := tx.txid, Linked(txs, tx, own, declared), AfterInsert(txs, tx, own, declared);
    var above, below, marked := Ancestors(linked, x), Descendants(linked, x), ConflictClosure(linked, declared);
    LinkedEntries(txs, tx, own, declared);
    UpdatedGraphs(linked, x, own, declared, above, below, marked);
    UpdatedInfo(linked, x, own, declared, above, below, marked, t);
    UpdatedInfo(linked, x, own, declared, above, below, marked, x);
    SameRelatives(linked, after);
    ChildlessLinkedValid(txs, tx, own, declared);
    NoDescendantsOfNew(txs, tx, own, declared);
    NewNotMarked(txs, tx, own, declared);
    if t != x {
      ChildlessRelatives(txs, tx, own, declared, t);
      RelativesInPool(txs, t);
      MarkedIff(txs, tx, own, declared, t);
    }
  }

  lemma NoDescendantsOfNew(txs: Txs, tx: Transaction, own: Totals, declared: set<Txid>)
    requires Wired(txs) && tx.txid !in txs && tx.txid !in tx.Parents() && Childless(txs, tx)
    ensures Descendants(Linked(txs, tx, own, declared), tx.txid) == {}
  {
    LinkedGraphs(txs, tx, own, declared);
    hide Linked;
    ReachSetLeast(SpenderGraph(Linked(txs, tx, own, declared)), tx.txid, {});
  }

  lemma NewNotMarked(txs: Txs, tx: Transaction, own: Totals, declared: set<Txid>)
    requires Wired(Linked(txs, tx, own, declared)) && Unrelated(txs, tx, own, declared)
    ensures tx.txid !in ConflictClosure(Linked(txs, tx, own, declared), declared)
  {
    hide Linked, Wired, Ancestors, Descendants;
    var x, linked := tx.txid, Linked(txs, tx, own, declared);
    if x in ConflictClosure(linked, declared) {
      var c :| c in declared && c in linked && (x == c || x in Descendants(linked, c));
      AncestorIffDescendant(linked, c, x);
    }
  }

  lemma MarkedIff(txs: Txs, tx: Transaction, own: Totals, declared: set<Txid>, t: Txid)
    requires Wired(Linked(txs, tx, own, declared)) && t in txs && t != tx.txid
    requires Linked(txs, tx, own, declared).Keys == txs.Keys + {tx.txid}
    requires Ancestors(Linked(txs, tx, own, declared), t) == Ancestors(txs, t) <= txs.Keys
    requires tx.txid !in txs
    ensures t in ConflictClosure(Linked(txs, tx, own, declared), declared) <==>
            exists c :: c in declared && c in txs && c in Ancestors(txs, t) + {t}
  {
    hide Linked, Wired, Ancestors, Descendants;
    var linked := Linked(txs, tx, own, declared);
    if t in ConflictClosure(linked, declared) {
      var c :| c in declared && c in linked && (t == c || t in Descendants(linked, c));
      AncestorIffDescendant(linked, c, t);
      assert c in Ancestors(txs, t) + {t};
    }
    if c :| c in declared && c in txs && c in Ancestors(txs, t) + {t} {
      AncestorIffDescendant(linked, c, t);
      assert c in linked && (t == c || t in Descendants(linked, c));
    }
  }

  lemma InsertMonotone(txs: Txs, tx: Transaction, own: Totals, declared: set<Txid>)
    requires PoolValid(txs) && Inherited(txs) && Unrelated(txs, tx, own, declared)
    requires tx.txid !in txs && tx.txid !in tx.Parents() && Childless(txs, tx)
    ensures var after := AfterInsert(txs, tx, own, declared);
            forall t, p :: t in after && p in after[t].info.depends && p in after ==> after[p].info.conflictsWith <= after[t].info.conflictsWith
  {
    hide AfterInsert, Linked, Ancestors, Descendants, ConflictClosure, Childless, Wired, Acyclic, Unrelated;
    var x, linked, after := tx.txid, Linked(txs, tx, own, declared), AfterInsert(txs, tx, own, declared);
    forall t, p | t in after && p in after[t].info.depends && p in after
      ensures after[p].info.conflictsWith <= after[t].info.conflictsWith
    {
      InsertConflicts(txs, tx, own, declared, x);
      InsertConflicts(txs, tx, own, declared, t);
      InsertConflicts(txs, tx, own, declared, p);
      if t == x {
        ParentNotMarked(txs, tx, own, declared, p);
      } else {
        DependsPooled(txs, t, p);
        if c :| c in declared && c in txs && c in Ancestors(txs, p) + {p} {
          ParentIsAncestor(txs, t, p);
          if c != p { AncestorOfParent(txs, t, p, c); }
          assert c in Ancestors(txs, t) + {t};
        }
      }
    }
  }

  lemma DependsPooled(txs: Txs, t: Txid, p: Txid)
    requires Wired(txs) && t in txs && p in txs[t].info.depends
    ensures p in txs
  {
  }

  lemma AncestorOfParent(txs: Txs, t: Txid, p: Txid, c: Txid)
    requires p in Ancestors(txs, t) && c in Ancestors(txs, p)
    ensures c in Ancestors(txs, t)
  {
    hide Reaches;
    var g := DependsGraph(txs);
    InReachSet(g, t, p);
    InReachSet(g, p, c);
    InReachSet(g, t, c);
    Transitive(g, t, p, c);
  }

  /** No parent of a compatible transaction is, or descends from, one of its declared conflicts. */
  lemma ParentNotMarked(txs: Txs, tx: Transaction, own: Totals, declared: set<Txid>, p: Txid)
    requires PoolValid(txs) && Unrelated(txs, tx, own, declared)
    requires tx.txid !in txs && tx.txid !in tx.Parents() && Childless(txs, tx)
    requires p in tx.Parents() && p in txs
    ensures p in Ancestors(Linked(txs, tx, own, declared), tx.txid)
    ensures Ancestors(txs, p) <= Ancestors(Linked(txs, tx, own, declared), tx.txid)
    ensures !exists c :: c in declared && c in txs && c in Ancestors(txs, p) + {p}
    ensures txs[p].info.conflictsWith <= InheritedConflicts(txs, tx.Parents())
  {
    hide Linked, Descendants, Childless;
    var x, linked := tx.txid, Linked(txs, tx, own, declared);
    LinkedEntries(txs, tx, own, declared);
    ChildlessLinkedValid(txs, tx, own, declared);
    ChildlessRelatives(txs, tx, own, declared, p);
    ParentIsAncestor(linked, x, p);
    hide Ancestors;
    forall c | c in Ancestors(txs, p) ensures c in Ancestors(linked, x) {
      AncestorOfParent(linked, x, p, c);
    }
  }

  lemma InsertDisjoint(txs: Txs, tx: Transaction, own: Totals, declared: set<Txid>)
    requires PoolValid(txs) && ConflictsSound(txs) && Compatible(txs, tx, own, declared)
    requires tx.txid !in txs && tx.txid !in tx.Parents() && Childless(txs, tx)
    ensures var after := AfterInsert(txs, tx, own, declared);
            forall u :: u in after ==> after[u].info.conflictsWith !! Ancestors(after, u) + {u}
  {
    hide AfterInsert, Linked, Ancestors, Descendants, ConflictClosure, Mutual, Childless, Wired, Acyclic;
    CompatibleUnrelated(txs, tx, own, declared);
    var x, after := tx.txid, AfterInsert(txs, tx, own, declared);
    forall u | u in after ensures after[u].info.conflictsWith !! Ancestors(after, u) + {u} {
      InsertConflicts(txs, tx, own, declared, x);
      InsertConflicts(txs, tx, own, declared, u);
      if u != x {
        RelativesInPool(txs, u);
      }
    }
  }

  lemma InsertMutual(txs: Txs, tx: Transaction, own: Totals, declared: set<Txid>, u: Txid, v: Txid)
    requires PoolValid(txs) && ConflictsSound(txs) && Compatible(txs, tx, own, declared) && Reciprocated(txs, tx, declared)
    requires tx.txid !in txs && tx.txid !in tx.Parents() && Childless(txs, tx)
    requires var after := AfterInsert(txs, tx, own, declared); u in after && v in after && v in after[u].info.conflictsWith
    ensures Mutual(AfterInsert(txs, tx, own, declared), u, v)
  {
    hide AfterInsert, Linked, Ancestors, Descendants, ConflictClosure, Childless, Wired, Acyclic, Compatible;
    CompatibleUnrelated(txs, tx, own, declared);
    var x, after := tx.txid, AfterInsert(txs, tx, own, declared);
    InsertConflicts(txs, tx, own, declared, x);
    InsertConflicts(txs, tx, own, declared, u);
    InsertConflicts(txs, tx, own, declared, v);
    if u != x && v != x {
      assert Mutual(txs, u, v);
      var a :| a in Ancestors(txs, u) + {u} && a in txs && v in txs[a].info.conflictsWith && a in txs[v].info.conflictsWith;
      InsertConflicts(txs, tx, own, declared, a);
      assert a in Ancestors(after, u) + {u} && a in after;
    } else if u != x {
      var a :| a in declared && a in txs && a in Ancestors(txs, u) + {u} by {
        NamedAncestor(txs, tx, own, declared, u);
      }
      InsertConflicts(txs, tx, own, declared, a);
      assert a in Ancestors(txs, a) + {a};
      assert a in Ancestors(after, u) + {u} && a in after;
    } else if v != x {
      if v in declared {
        assert v in Ancestors(txs, v) + {v};
        assert x in Ancestors(after, u) + {u} && x in after;
      } else {
        InheritedMutual(txs, tx, own, declared, v);
      }
    } else {
      InsertDisjoint(txs, tx, own, declared);
      assert false;
    }
  }

  /** A pool transaction that ends up naming the new one descends from a declared conflict. */
  lemma NamedAncestor(txs: Txs, tx: Transaction, own: Totals, declared: set<Txid>, u: Txid)
    requires PoolValid(txs) && Compatible(txs, tx, own, declared) && Reciprocated(txs, tx, declared)
    requires tx.txid !in txs && tx.txid !in tx.Parents() && Childless(txs, tx) && u in txs
    requires tx.txid in AfterInsert(txs, tx, own, declared)[u].info.conflictsWith
    ensures exists a :: a in declared && a in txs && a in Ancestors(txs, u) + {u}
  {
    hide AfterInsert, Linked, Ancestors, Descendants, ConflictClosure, Childless, Wired, Acyclic, Compatible;
    CompatibleUnrelated(txs, tx, own, declared);
    InsertConflicts(txs, tx, own, declared, u);
    RelativesInPool(txs, u);
    if tx.txid in txs[u].info.conflictsWith {
      var a :| a in declared && a in Ancestors(txs, u) + {u};
      assert a in txs;
    }
  }

  /** A conflict inherited from a parent is mutual with an ancestor. */
  lemma InheritedMutual(txs: Txs, tx: Transaction, own: Totals, declared: set<Txid>, v: Txid)
    requires PoolValid(txs) && ConflictsSound(txs) && Compatible(txs, tx, own, declared)
    requires tx.txid !in txs && tx.txid !in tx.Parents() && Childless(txs, tx)
    requires v in txs && v in InheritedConflicts(txs, tx.Parents())
    ensures Mutual(AfterInsert(txs, tx, own, declared), tx.txid, v)
  {
    hide AfterInsert, Linked, Ancestors, Descendants, ConflictClosure, Childless, Wired, Acyclic, Compatible;
    CompatibleUnrelated(txs, tx, own, declared);
    var x, after := tx.txid, AfterInsert(txs, tx, own, declared);
    var p :| p in tx.Parents() && p in txs && v in txs[p].info.conflictsWith;
    ParentNotMarked(txs, tx, own, declared, p);
    assert Mutual(txs, p, v);
    var a :| a in Ancestors(txs, p) + {p} && a in txs && v in txs[a].info.conflictsWith && a in txs[v].info.conflictsWith;
    InsertConflicts(txs, tx, own, declared, x);
    InsertConflicts(txs, tx, own, declared, a);
    InsertConflicts(txs, tx, own, declared, v);
    assert a in Ancestors(after, x) + {x} && a in after;
  }

  /** Conflict sets stay sound when a spender-closed set of transactions is removed. */
  lemma ClosedRemovalKeepsConflictsSound(txs: Txs, after: Txs)
    requires Wired(txs) && Wired(after) && ConflictsSound(txs) && Remains(txs, after)
    requires SpenderClosed(txs, txs.Keys - after.Keys)
    ensures ConflictsSound(after)
  {
    hide Ancestors, Reaches, ReachSet, Mutual;
    forall t | t in after ensures Ancestors(after, t) == Ancestors(txs, t) <= after.Keys {
      SurvivorAncestors(txs, after, t);
    }
    forall u, v | u in after && v in after && v in after[u].info.conflictsWith ensures Mutual(after, u, v) {
      assert Mutual(txs, u, v);
      MutualSurvives(txs, after, u, v);
    }
    forall t, p | t in after && p in after[t].info.depends && p in after
      ensures after[p].info.conflictsWith <= after[t].info.conflictsWith
    {
      assert p in txs[t].info.depends;
    }
    SoundFromParts(after);
  }

  lemma MutualSurvives(txs: Txs, after: Txs, u: Txid, v: Txid)
    requires Remains(txs, after) && u in after && v in after && Mutual(txs, u, v)
    requires Ancestors(after, u) == Ancestors(txs, u) <= after.Keys
    ensures Mutual(after, u, v)
  {
    hide Ancestors;
    var a :| a in Ancestors(txs, u) + {u} && a in txs && v in txs[a].info.conflictsWith && a in txs[v].info.conflictsWith;
    assert a in after;
  }

  /** A survivor keeps all its ancestors when a spender-closed set goes. */
  lemma SurvivorAncestors(txs: Txs, after: Txs, t: Txid)
    requires Wired(txs) && Wired(after) && Remains(txs, after) && t in after
    requires SpenderClosed(txs, txs.Keys - after.Keys)
    ensures Ancestors(after, t) == Ancestors(txs, t) <= after.Keys
  {
    hide Reaches, ReachSet;
    var gone := txs.Keys - after.Keys;
    forall u | u in after ensures after[u].info.depends == txs[u].info.depends {
      forall p | p in txs[u].info.depends ensures p in after {
        assert u in Spenders(txs, p);
      }
    }
    RelativesInPool(after, t);
    forall u | u in ReachSet(DependsGraph(after), t) + {t} ensures Out(DependsGraph(txs), u) == Out(DependsGraph(after), u) {
      assert u in after;
    }
    SameReach(DependsGraph(after), DependsGraph(txs), t);
  }

  /** Without `x`, some ancestor-or-self of `u` and `v` still name each other as conflicts. */
  ghost predicate Backed(txs: Txs, x: Txid, u: Txid, v: Txid) {
    exists a :: a in ReachSet(RemoveNode(DependsGraph(txs), x), u) + {u} && a in txs && a != x
                && v in txs && v in txs[a].info.conflictsWith && a in txs[v].info.conflictsWith
  }

  /** Every conflict that a descendant of `x` has inherited is backed without `x`. */
  ghost predicate LeavesBacked(txs: Txs, x: Txid) {
    forall u, v :: u in Descendants(txs, x) && u in txs && v in txs && v != x && v in txs[u].info.conflictsWith ==> Backed(txs, x, u, v)
  }

  /** What a removal changes for conflicts: some ancestors are gone. */
  lemma RemovedConflicts(txs: Txs, x: Txid, t: Txid)
    requires PoolValid(txs) && x in txs && t in txs && t != x
    ensures var after := AfterRemove(txs, x);
            && t in after && after[t].info.conflictsWith == txs[t].info.conflictsWith
            && after[t].info.depends <= txs[t].info.depends
            && Ancestors(after, t) == ReachSet(RemoveNode(DependsGraph(txs), x), t) <= Ancestors(txs, t) - {x}
            && (t !in Descendants(txs, x) ==> Ancestors(after, t) == Ancestors(txs, t) && x !in Ancestors(txs, t))
  {
    hide PoolValid, AfterRemove, Reaches, ReachSet, RemoveNode;
    ValidWired(txs);
    AfterRemoveKeys(txs, x);
    AfterRemoveInfo(txs, x, t);
    AfterRemoveGraphs(txs, x);
    RemoveNodeReachSet(DependsGraph(txs), x, t);
    AncestorIffDescendant(txs, x, t);
    InReachSet(DependsGraph(txs), t, x);
  }

  lemma MutualAfterIff(txs: Txs, x: Txid, u: Txid, v: Txid)
    requires PoolValid(txs) && x in txs && u in txs && u != x && v in txs && v != x
    ensures Mutual(AfterRemove(txs, x), u, v) <==> Backed(txs, x, u, v)
  {
    hide PoolValid, AfterRemove, Reaches, ReachSet, RemoveNode, Ancestors, Descendants;
    var after := AfterRemove(txs, x);
    AfterRemoveKeys(txs, x);
    RemovedConflicts(txs, x, u);
    RemovedConflicts(txs, x, v);
    forall a | a in txs && a != x ensures a in after && after[a].info.conflictsWith == txs[a].info.conflictsWith {
      RemovedConflicts(txs, x, a);
    }
  }

  /** A removal keeps conflict sets sound precisely when every conflict of a descendant is backed without the removed
      transaction. */
  lemma RemoveSoundIff(txs: Txs, x: Txid)
    requires PoolValid(txs) && ConflictsSound(txs) && x in txs
    ensures ConflictsSound(AfterRemove(txs, x)) <==> LeavesBacked(txs, x)
  {
    hide PoolValid, AfterRemove, Mutual, Backed, Ancestors, Descendants;
    var after := AfterRemove(txs, x);
    AfterRemoveKeys(txs, x);
    forall t | t in after
      ensures t in txs && t != x && after[t].info.conflictsWith == txs[t].info.conflictsWith
      ensures after[t].info.depends <= txs[t].info.depends && Ancestors(after, t) <= Ancestors(txs, t)
    {
      RemovedConflicts(txs, x, t);
    }
    forall u, v | u in after && v in after && v in txs[u].info.conflictsWith
      ensures Mutual(after, u, v) <==> Backed(txs, x, u, v)
      ensures u !in Descendants(txs, x) ==> Mutual(after, u, v)
    {
      MutualAfterIff(txs, x, u, v);
      if u !in Descendants(txs, x) {
        MutualKept(txs, x, u, v);
      }
    }
    if LeavesBacked(txs, x) {
      SoundFromParts(after);
    } else {
      UnbackedUnsound(txs, x);
    }
  }

  lemma MutualKept(txs: Txs, x: Txid, u: Txid, v: Txid)
    requires PoolValid(txs) && ConflictsSound(txs) && x in txs && u in txs && u != x && v in txs && v != x
    requires v in txs[u].info.conflictsWith && u !in Descendants(txs, x)
    ensures Mutual(AfterRemove(txs, x), u, v)
  {
    hide PoolValid, AfterRemove, Ancestors, Descendants;
    var after := AfterRemove(txs, x);
    assert Mutual(txs, u, v);
    var a :| a in Ancestors(txs, u) + {u} && a in txs && v in txs[a].info.conflictsWith && a in txs[v].info.conflictsWith;
    RemovedConflicts(txs, x, u);
    RemovedConflicts(txs, x, v);
    RemovedConflicts(txs, x, a);
  }

  lemma UnbackedUnsound(txs: Txs, x: Txid)
    requires PoolValid(txs) && x in txs && !LeavesBacked(txs, x)
    ensures !ConflictsSound(AfterRemove(txs, x))
  {
    hide PoolValid, AfterRemove, Mutual, Backed, Ancestors;
    var u, v :| u in Descendants(txs, x) && u in txs && v in txs && v != x && v in txs[u].info.conflictsWith
                && !Backed(txs, x, u, v);
    ValidWired(txs);
    NotOwnRelative(txs, x);
    MutualAfterIff(txs, x, u, v);
    RemovedConflicts(txs, x, u);
    RemovedConflicts(txs, x, v);
  }

  /** A removal that does not: `c` spends only `x`, and `v` names `x` but not `c`, which inherited the conflict. */
  lemma InheritedConflictUnbacked(txs: Txs, x: Txid, c: Txid, v: Txid)
    requires PoolValid(txs) && ConflictsSound(txs) && x in txs && c in txs && v in txs && v != x
    requires txs[c].info.depends == {x} && v in txs[c].info.conflictsWith && c !in txs[v].info.conflictsWith
    ensures !ConflictsSound(AfterRemove(txs, x))
  {
    hide PoolValid, ConflictsSound, Reaches, ReachSet, AfterRemove;
    RemoveSoundIff(txs, x);
    ValidWired(txs);
    ParentIsAncestor(txs, c, x);
    var h := RemoveNode(DependsGraph(txs), x);
    assert Out(h, c) == {} by { assert txs[c].info.depends - {x} == {}; }
    ReachSetLeast(h, c, {});
    assert !Backed(txs, x, c, v);
  }

  /** Every insert is compatible and reciprocated. */
  ghost predicate Reconciled(txs: Txs, op: PoolOp) {
    op.InsertOp? && op.tx.txid !in txs ==>
      Compatible(txs, op.tx, OwnOf(op), op.declared) && Reciprocated(txs, op.tx, op.declared)
  }

  ghost predicate AllReconciled(ops: seq<PoolOp>) {
    forall i :: 0 <= i < |ops| ==> Reconciled(Run(ops[..i]), ops[i])
  }

  /** A single removal leaves only backed conflicts behind. */
  ghost predicate KeepsBacked(txs: Txs, op: PoolOp) {
    op.RemoveOp? && op.txid in txs ==> LeavesBacked(txs, op.txid)
  }

  ghost predicate AllKeepBacked(ops: seq<PoolOp>) {
    forall i :: 0 <= i < |ops| ==> KeepsBacked(Run(ops[..i]), ops[i])
  }

  ghost predicate SoundThroughout(ops: seq<PoolOp>) {
    forall n :: 0 <= n <= |ops| ==> ConflictsSound(Run(ops[..n]))
  }

  lemma ReconciledPrefix(ops: seq<PoolOp>, n: nat)
    requires |ops| == n + 1 && AllReconciled(ops)
    ensures AllReconciled(ops[..n]) && Reconciled(Run(ops[..n]), ops[n])
  {
    hide Reconciled, Run;
    forall i | 0 <= i < n ensures ops[..n][..i] == ops[..i] && ops[..n][i] == ops[i] {
    }
  }

  lemma KeepBackedStep(ops: seq<PoolOp>, n: nat)
    requires |ops| == n + 1
    ensures AllKeepBacked(ops) <==> AllKeepBacked(ops[..n]) && KeepsBacked(Run(ops[..n]), ops[n])
  {
    hide KeepsBacked, Run;
    forall i | 0 <= i < n ensures ops[..n][..i] == ops[..i] && ops[..n][i] == ops[i] {
    }
  }

  lemma SoundStep(ops: seq<PoolOp>, n: nat)
    requires |ops| == n + 1
    ensures SoundThroughout(ops) <==> SoundThroughout(ops[..n]) && ConflictsSound(Run(ops))
    ensures SoundThroughout(ops[..n]) ==> ConflictsSound(Run(ops[..n]))
  {
    hide ConflictsSound, Run;
    assert ops[..n + 1] == ops && ops[..n][..n] == ops[..n];
    forall i | 0 <= i <= n ensures ops[..n][..i] == ops[..i] {
    }
  }

  lemma EmptyConflictsSound()
    ensures ConflictsSound(map[]) && PairsApart(map[], {})
  {
  }

  lemma NothingSound(ops: seq<PoolOp>)
    requires ops == []
    ensures SoundThroughout(ops) && AllKeepBacked(ops)
  {
    EmptyConflictsSound();
    assert ops[..0] == [];
  }

  /** A removal of a transaction that nothing in the pool spends leaves nothing unbacked. */
  lemma SpenderlessKeepsBacked(txs: Txs, x: Txid)
    requires PoolValid(txs) && (x in txs ==> Spenders(txs, x) == {})
    ensures KeepsBacked(txs, RemoveOp(x))
  {
    hide PoolValid, Backed, Reaches, ReachSet, Spenders;
    ValidWired(txs);
    if x in txs {
      ReachSetLeast(SpenderGraph(txs), x, {});
    }
  }

  /** A removal with descendants keeps conflict sets sound. */
  lemma CascadeKeepsConflictsSound(txs: Txs, x: Txid, order: seq<Txid>)
    requires PoolValid(txs) && ConflictsSound(txs) && CascadeOrder(txs, x, order)
    ensures ConflictsSound(RemoveAll(txs, order))
  {
    hide *;
    var after := RemoveAll(txs, order);
    CascadeExact(txs, x, order);
    ValidWired(txs);
    ValidWired(after);
    ClusterClosed(txs, x);
    assert txs.Keys - after.Keys == Cluster(txs, x);
    ClosedRemovalKeepsConflictsSound(txs, after);
  }

  lemma ApplySoundIff(txs: Txs, op: PoolOp)
    requires PoolValid(txs) && Allowed(txs, op) && Reconciled(txs, op) && ConflictsSound(txs)
    ensures ConflictsSound(Apply(txs, op)) <==> KeepsBacked(txs, op)
  {
    hide PoolValid, AfterInsert, AfterRemove, Childless, ConflictsSound, Compatible, Reciprocated, RemoveAll, CascadeOrder,
         LeavesBacked;
    match op {
      case RemoveOp(txid) =>
        if txid in txs {
          RemoveSoundIff(txs, txid);
        } else {
          AbsentRemove(txs, txid);
        }
      case CascadeOp(txid, order) => CascadeKeepsConflictsSound(txs, txid, order);
      case InsertOp(tx, _, declared, _) =>
        if tx.txid !in txs {
          InsertKeepsConflictsSound(txs, tx, OwnOf(op), declared);
        }
    }
  }

  /** Over runs of compatible, reciprocated inserts, conflict sets are sound throughout, inherited conflicts included,
      precisely if every single removal leaves only backed conflicts behind; removals with descendants always do. */
  lemma {:induction false} RunSoundIff(ops: seq<PoolOp>)
    requires AllAllowed(ops) && AllReconciled(ops)
    ensures SoundThroughout(ops) <==> AllKeepBacked(ops)
  {
    hide AllAllowed, AllReconciled, PoolValid, ConflictsSound, Apply, Allowed, Reconciled, KeepsBacked, SoundThroughout,
         AllKeepBacked;
    if ops == [] {
      NothingSound(ops);
    } else {
      var n := |ops| - 1;
      RunPrefix(ops, n);
      assert ops[..n + 1] == ops;
      ReconciledPrefix(ops, n);
      RunValid(ops[..n]);
      RunSoundIff(ops[..n]);
      KeepBackedStep(ops, n);
      SoundStep(ops, n);
      if ConflictsSound(Run(ops[..n])) {
        ApplySoundIff(Run(ops[..n]), ops[n]);
      }
    }
  }

  // ---- declared conflicts, whatever is removed ----

  /** The new transaction and each pooled conflict it declares, both ways round. */
  ghost function DeclaredPairs(txs: Txs, x: Txid, declared: set<Txid>): Pairs {
    (set c | c in declared * txs.Keys :: (x, c)) + (set c | c in declared * txs.Keys :: (c, x))
  }

  ghost function Within(pairs: Pairs, keys: set<Txid>): Pairs {
    set p | p in pairs && p.0 in keys && p.1 in keys
  }

  ghost function PairsStep(txs: Txs, pairs: Pairs, op: PoolOp): Pairs {
    match op
    case InsertOp(tx, _, declared, _) => if tx.txid in txs then pairs else pairs + DeclaredPairs(txs, tx.txid, declared)
    case _ => Within(pairs, Apply(txs, op).Keys)
  }

  /** The transactions of which one declared the other as a conflict when it was inserted, both having been pooled since. */
  ghost function DeclaredIn(ops: seq<PoolOp>): Pairs {
    if ops == [] then {} else
    var front := ops[..|ops| - 1];
    PairsStep(Run(front), DeclaredIn(front), ops[|ops| - 1])
  }

  /** The new transaction declares neither itself nor an ancestor, and no two of its ancestors have a declared conflict. */
  ghost predicate Unpaired(txs: Txs, pairs: Pairs, op: PoolOp) {
    op.InsertOp? && op.tx.txid !in txs ==>
      && Unrelated(txs, op.tx, OwnOf(op), op.declared)
      && NonePaired(Linked(txs, op.tx, OwnOf(op), op.declared), pairs, op.tx.txid)
  }

  ghost predicate AllUnpaired(ops: seq<PoolOp>) {
    forall i :: 0 <= i < |ops| ==> Unpaired(Run(ops[..i]), DeclaredIn(ops[..i]), ops[i])
  }

  lemma UnpairedPrefix(ops: seq<PoolOp>)
    requires ops != [] && AllUnpaired(ops)
    ensures var n := |ops| - 1; AllUnpaired(ops[..n]) && Unpaired(Run(ops[..n]), DeclaredIn(ops[..n]), ops[n])
  {
    hide Unpaired, Run, DeclaredIn;
    var front := ops[..|ops| - 1];
    forall i | 0 <= i < |front| ensures front[..i] == ops[..i] && front[i] == ops[i] {
    }
  }

  ghost predicate PairsPooled(txs: Txs, pairs: Pairs) {
    forall u, w :: (u, w) in pairs ==> u in txs && w in txs
  }

  /** A childless insert that declares no ancestor keeps declared conflicts apart. */
  lemma InsertKeepsApart(txs: Txs, pairs: Pairs, tx: Transaction, own: Totals, declared: set<Txid>)
    requires PoolValid(txs) && PairsApart(txs, pairs) && PairsPooled(txs, pairs)
    requires tx.txid !in txs && tx.txid !in tx.Parents() && Childless(txs, tx) && Unrelated(txs, tx, own, declared)
    requires NonePaired(Linked(txs, tx, own, declared), pairs, tx.txid)
    ensures var after, more := AfterInsert(txs, tx, own, declared), pairs + DeclaredPairs(txs, tx.txid, declared);
            PairsApart(after, more) && PairsPooled(after, more)
  {
    hide AfterInsert, Linked, PoolValid, Unrelated, Childless, NonePaired, Ancestors, DeclaredPairs;
    var x := tx.txid;
    var after, more := AfterInsert(txs, tx, own, declared), pairs + DeclaredPairs(txs, x, declared);
    InsertMonotone(txs, tx, own, declared);
    InsertConflicts(txs, tx, own, declared, x);
    forall u, w | (u, w) in more
      ensures (w, u) in more && u in after && w in after && w in after[u].info.conflictsWith
    {
      DeclaredPairsAre(txs, x, declared, u, w);
      DeclaredPairsAre(txs, x, declared, w, u);
      PairKnown(txs, pairs, tx, own, declared, u, w);
    }
    forall t | t in after ensures NonePaired(after, more, t) {
      InsertNonePaired(txs, pairs, tx, own, declared, t);
    }
  }

  lemma DeclaredPairsAre(txs: Txs, x: Txid, declared: set<Txid>, u: Txid, w: Txid)
    ensures (u, w) in DeclaredPairs(txs, x, declared) <==>
              (u == x && w in declared && w in txs) || (w == x && u in declared && u in txs)
  {
  }

  /** After the insert a pair is known on both sides. */
  lemma PairKnown(txs: Txs, pairs: Pairs, tx: Transaction, own: Totals, declared: set<Txid>, u: Txid, w: Txid)
    requires PoolValid(txs) && PairsApart(txs, pairs) && PairsPooled(txs, pairs)
    requires tx.txid !in txs && tx.txid !in tx.Parents() && Childless(txs, tx) && Unrelated(txs, tx, own, declared)
    requires (u, w) in pairs || (u, w) in DeclaredPairs(txs, tx.txid, declared)
    ensures var after := AfterInsert(txs, tx, own, declared); u in after && w in after && w in after[u].info.conflictsWith
  {
    hide AfterInsert, Linked, PoolValid, Unrelated, Childless, NonePaired, Ancestors, DeclaredPairs, ConflictClosure;
    DeclaredPairsAre(txs, tx.txid, declared, u, w);
    InsertConflicts(txs, tx, own, declared, u);
    InsertConflicts(txs, tx, own, declared, w);
    if u in declared && u in txs {
      assert u in Ancestors(txs, u) + {u};
    }
  }

  lemma InsertNonePaired(txs: Txs, pairs: Pairs, tx: Transaction, own: Totals, declared: set<Txid>, t: Txid)
    requires PoolValid(txs) && PairsApart(txs, pairs) && PairsPooled(txs, pairs) && (t in txs || t == tx.txid)
    requires tx.txid !in txs && tx.txid !in tx.Parents() && Childless(txs, tx) && Unrelated(txs, tx, own, declared)
    requires NonePaired(Linked(txs, tx, own, declared), pairs, tx.txid)
    ensures NonePaired(AfterInsert(txs, tx, own, declared), pairs + DeclaredPairs(txs, tx.txid, declared), t)
  {
    hide AfterInsert, Linked, Childless, Ancestors, DeclaredPairs, ConflictClosure, Wired, Acyclic, Covered;
    var x, after := tx.txid, AfterInsert(txs, tx, own, declared);
    InsertConflicts(txs, tx, own, declared, t);
    if t != x {
      RelativesInPool(txs, t);
      assert NonePaired(txs, pairs, t);
    }
    forall u, w | (u, w) in pairs + DeclaredPairs(txs, x, declared) && u in Ancestors(after, t) + {t}
      ensures w !in Ancestors(after, t) + {t}
    {
      DeclaredPairsAre(txs, x, declared, u, w);
    }
  }

  /** One operation keeps declared conflicts apart, whatever it removes. */
  lemma ApplyKeepsApart(txs: Txs, pairs: Pairs, op: PoolOp)
    requires PoolValid(txs) && Allowed(txs, op) && Unpaired(txs, pairs, op)
    requires PairsApart(txs, pairs) && PairsPooled(txs, pairs)
    ensures PairsApart(Apply(txs, op), PairsStep(txs, pairs, op)) && PairsPooled(Apply(txs, op), PairsStep(txs, pairs, op))
  {
    hide PoolValid, AfterInsert, AfterRemove, Childless, PairsApart, RemoveAll, CascadeOrder, NonePaired, Unrelated, Linked;
    match op {
      case RemoveOp(txid) =>
        RemovedKeepsApart(txs, pairs, txid);
      case CascadeOp(txid, order) =>
        CascadeExact(txs, txid, order);
        LessKeepsApart(txs, RemoveAll(txs, order), pairs);
      case InsertOp(tx, _, declared, _) =>
        if tx.txid !in txs {
          InsertKeepsApart(txs, pairs, tx, OwnOf(op), declared);
        }
    }
  }

  lemma RemovedKeepsApart(txs: Txs, pairs: Pairs, x: Txid)
    requires PoolValid(txs) && PairsApart(txs, pairs)
    ensures var after := AfterRemove(txs, x); PairsApart(after, Within(pairs, after.Keys)) && PairsPooled(after, Within(pairs, after.Keys))
  {
    hide *;
    AfterRemoveValid(txs, x);
    ValidWired(txs);
    RemainsReflexive(txs);
    if x in txs {
      AfterRemoveRemains(txs, txs, x);
    } else {
      AbsentRemove(txs, x);
    }
    LessKeepsApart(txs, AfterRemove(txs, x), pairs);
  }

  lemma LessKeepsApart(txs: Txs, after: Txs, pairs: Pairs)
    requires PoolValid(txs) && PoolValid(after) && Remains(txs, after) && PairsApart(txs, pairs)
    ensures PairsApart(after, Within(pairs, after.Keys)) && PairsPooled(after, Within(pairs, after.Keys))
  {
    hide PoolValid, Remains, NonePaired, Inherited;
    ValidWired(txs);
    ValidWired(after);
    RemainsApart(txs, after, pairs, Within(pairs, after.Keys));
  }

  /** After any run of childless inserts and any removals: if at each insert neither the new transaction and an ancestor
      nor two of its ancestors had a declared conflict, declared conflicts are kept apart, so no proposal holds two
      transactions of which one declared the other while both were pooled. */
  lemma {:induction false} RunApart(ops: seq<PoolOp>)
    requires AllAllowed(ops) && AllUnpaired(ops)
    ensures PairsApart(Run(ops), DeclaredIn(ops)) && PairsPooled(Run(ops), DeclaredIn(ops))
  {
    hide AllAllowed, AllUnpaired, PoolValid, PairsApart, Apply, Allowed, Unpaired, PairsStep;
    if ops == [] {
      EmptyConflictsSound();
    } else {
      var n := |ops| - 1;
      RunPrefix(ops, n);
      UnpairedPrefix(ops);
      RunValid(ops[..n]);
      RunApart(ops[..n]);
      ApplyKeepsApart(Run(ops[..n]), DeclaredIn(ops[..n]), ops[n]);
    }
  }
}
