/** A transaction together with everything in the pool that spends it, directly or through others. */
module PoolCluster {
  import opened Types
  import opened LinkedSets
  import opened Graph
  import opened TotalsSums
  import opened PoolTxs
  import opened PoolRemove
  import opened PoolInsert

  /** The transaction, if pooled, and the pool transactions below it; it need not be pooled itself. */
  ghost function Cluster(txs: Txs, x: Txid): set<Txid> {
    Below(txs, x) + ({x} * txs.Keys)
  }

  /** A set of pool transactions that holds the spenders of its members. */
  ghost predicate SpenderClosed(txs: Txs, s: set<Txid>) {
    forall t :: t in s ==> Spenders(txs, t) <= s
  }

  /** The cluster is the least spender-closed set that holds the transaction (if pooled) and its spenders. */
  lemma ClusterLeast(txs: Txs, x: Txid, s: set<Txid>)
    requires Wired(txs)
    requires SpenderClosed(txs, s) && Spenders(txs, x) <= s && (x in txs ==> x in s)
    ensures Cluster(txs, x) <= s
  {
    hide Reaches, ReachSet;
    var r := s * txs.Keys;
    forall t | t in Below(txs, x) ensures t in s {
      var c :| c in Spenders(txs, x) && (t == c || t in Descendants(txs, c));
      forall u | u in r ensures Out(SpenderGraph(txs), u) <= r {
        assert Out(SpenderGraph(txs), u) == Spenders(txs, u);
      }
      assert Closed(SpenderGraph(txs), r) && Out(SpenderGraph(txs), c) <= r;
      ReachSetLeast(SpenderGraph(txs), c, r);
    }
  }

  lemma ClusterClosed(txs: Txs, x: Txid)
    requires Wired(txs)
    ensures SpenderClosed(txs, Cluster(txs, x)) && Spenders(txs, x) <= Cluster(txs, x) <= txs.Keys
  {
    hide Reaches, ReachSet, Descendants;
    forall t | t in Cluster(txs, x) ensures Spenders(txs, t) <= Cluster(txs, x) {
      if t in Below(txs, x) {
        var c :| c in Spenders(txs, x) && (t == c || t in Descendants(txs, c));
        DescendantsClosed(txs, c);
        assert Out(SpenderGraph(txs), t) == Spenders(txs, t);
        assert Spenders(txs, t) <= Descendants(txs, c);
      }
    }
  }

  /** For a pooled transaction the cluster is itself and its descendants. */
  lemma ClusterOfPooled(txs: Txs, x: Txid)
    requires Wired(txs) && x in txs
    ensures Cluster(txs, x) == Descendants(txs, x) + {x}
  {
    hide Reaches, ReachSet, Descendants, Below;
    DescendantsClosed(txs, x);
    forall t | t in Descendants(txs, x) + {x} ensures Spenders(txs, t) <= Descendants(txs, x) + {x} {
      assert t in txs && Out(SpenderGraph(txs), t) == Spenders(txs, t);
    }
    ClusterLeast(txs, x, Descendants(txs, x) + {x});
    ClusterClosed(txs, x);
    SpenderClosedReaches(txs, Cluster(txs, x), x);
  }

  /** A spender-closed set holds the descendants of its members. */
  lemma SpenderClosedReaches(txs: Txs, s: set<Txid>, x: Txid)
    requires Wired(txs) && SpenderClosed(txs, s) && x in s
    ensures Descendants(txs, x) <= s
  {
    hide Reaches, ReachSet;
    forall u | u in s ensures Out(SpenderGraph(txs), u) <= s {
      assert u in txs ==> Out(SpenderGraph(txs), u) == Spenders(txs, u);
    }
    assert Closed(SpenderGraph(txs), s);
    ReachSetLeast(SpenderGraph(txs), x, s);
  }

  /** `after` is what is left of `txs`: some transactions are gone, the others are the same transactions. */
  ghost predicate Remains(txs: Txs, after: Txs) {
    && after.Keys <= txs.Keys
    && forall t :: t in after ==>
         && after[t].tx == txs[t].tx && after[t].info.own == txs[t].info.own
         && after[t].info.conflictsWith == txs[t].info.conflictsWith
  }

  /** The ancestor side of every entry that stays is unchanged. */
  ghost predicate AncestorsUntouched(txs: Txs, after: Txs, gone: set<Txid>) {
    forall t :: t in after && t !in gone ==>
      t in txs && after[t].info.ancestor == txs[t].info.ancestor && after[t].info.depends == txs[t].info.depends
  }

  lemma RemainsReflexive(txs: Txs)
    ensures Remains(txs, txs) && AncestorsUntouched(txs, txs, {})
  {
  }

  lemma RemainsSpenders(txs: Txs, after: Txs, p: Txid)
    requires Remains(txs, after)
    ensures Spenders(after, p) == Spenders(txs, p) * after.Keys
  {
  }

  /** One removal out of a spender-closed set leaves everything outside the set alone on the ancestor side. */
  lemma RemoveFromClosed(txs: Txs, cur: Txs, gone: set<Txid>, x: Txid)
    requires Wired(cur) && Remains(txs, cur) && AncestorsUntouched(txs, cur, gone)
    requires SpenderClosed(txs, gone) && x in gone
    ensures Remains(txs, AfterRemove(cur, x)) && AncestorsUntouched(txs, AfterRemove(cur, x), gone)
  {
    hide Reaches, ReachSet, AfterRemove, Ancestors, Descendants;
    AfterRemoveKeys(cur, x);
    if x in cur {
      forall t | t in AfterRemove(cur, x)
        ensures var after := AfterRemove(cur, x)[t];
                && after.tx == cur[t].tx && after.info.own == cur[t].info.own
                && after.info.conflictsWith == cur[t].info.conflictsWith
                && (t !in gone ==> after.info.ancestor == cur[t].info.ancestor && after.info.depends == cur[t].info.depends)
      {
        AfterRemoveInfo(cur, x, t);
        if t !in gone {
          StaysOutside(txs, cur, gone, x, t);
        }
      }
    } else {
      AbsentRemove(cur, x);
    }
  }

  lemma AbsentRemove(txs: Txs, x: Txid)
    requires x !in txs
    ensures AfterRemove(txs, x) == txs
  {
  }

  lemma StaysOutside(txs: Txs, cur: Txs, gone: set<Txid>, x: Txid, t: Txid)
    requires Wired(cur) && Remains(txs, cur) && SpenderClosed(txs, gone)
    requires x in gone && x in cur && t in cur && t !in gone
    ensures x !in Ancestors(cur, t) && x !in cur[t].info.depends
    ensures cur[t].info.depends - {x} == cur[t].info.depends
  {
    hide Reaches, ReachSet, Ancestors, Descendants;
    forall u | u in gone ensures Spenders(cur, u) <= gone {
      RemainsSpenders(txs, cur, u);
    }
    SpenderClosedReaches(cur, gone, x);
    AncestorIffDescendant(cur, x, t);
    if x in cur[t].info.depends {
      ParentIsAncestor(cur, t, x);
    }
  }

  /** Exact ancestor totals of the entries outside the removed set stay exact once the set is gone. */
  lemma ClosedRemovalExact(txs: Txs, after: Txs, gone: set<Txid>)
    requires Wired(txs) && AncestorsExact(txs) && Wired(after)
    requires Remains(txs, after) && AncestorsUntouched(txs, after, gone)
    requires after.Keys == txs.Keys - gone
    ensures AncestorsExact(after)
  {
    forall t | t in after ensures after[t].info.ancestor == AncestorTotals(after, t) {
      UntouchedTotals(txs, after, gone, t);
    }
  }

  lemma UntouchedTotals(txs: Txs, after: Txs, gone: set<Txid>, t: Txid)
    requires Wired(txs) && Wired(after)
    requires Remains(txs, after) && AncestorsUntouched(txs, after, gone)
    requires after.Keys == txs.Keys - gone && t in after
    ensures AncestorTotals(after, t) == AncestorTotals(txs, t)
    ensures Ancestors(after, t) == Ancestors(txs, t) <= after.Keys
  {
    hide Reaches, ReachSet, Sum;
    var g, h := DependsGraph(after), DependsGraph(txs);
    RelativesInPool(after, t);
    forall u | u in ReachSet(g, t) + {t} ensures Out(h, u) == Out(g, u) {
      assert u in after;
    }
    SameReach(g, h, t);
    SumAgree(Ancestors(after, t), Own(txs), Own(after));
  }

  ghost function TxidsOf(list: seq<Transaction>): set<Txid> {
    set tx | tx in list :: tx.txid
  }

  /** `list` enumerates, without repetition, pool transactions. */
  ghost predicate Enumerates(txs: Txs, list: seq<Transaction>) {
    && (forall tx :: tx in list ==> tx.txid in txs && txs[tx.txid].tx == tx)
    && (forall i, j :: 0 <= i < j < |list| ==> list[i].txid != list[j].txid)
  }

  lemma EnumeratesMore(txs: Txs, list: seq<Transaction>, tx: Transaction)
    requires Enumerates(txs, list) && tx.txid in txs && txs[tx.txid].tx == tx && tx.txid !in TxidsOf(list)
    ensures Enumerates(txs, list + [tx])
    ensures TxidsOf(list + [tx]) == TxidsOf(list) + {tx.txid}
  {
    var more := list + [tx];
    forall i, j | 0 <= i < j < |more| ensures more[i].txid != more[j].txid {
      if j == |list| {
        assert more[i] in list;
      }
    }
    forall t ensures t in TxidsOf(more) <==> t in TxidsOf(list) + {tx.txid} {
      if t in TxidsOf(list) {
        var u :| u in list && u.txid == t;
        assert u in more;
      }
      assert tx in more;
    }
  }

  /** Progress of a cascading removal: what was removed so far, and what is still queued. */
  ghost predicate Cascade(before: Txs, cur: Txs, x: Txid, removed: seq<Transaction>, queue: seq<Txid>) {
    && Remains(before, cur)
    && AncestorsUntouched(before, cur, Cluster(before, x))
    && Enumerates(before, removed)
    && cur.Keys == before.Keys - TxidsOf(removed)
    && TxidsOf(removed) <= Cluster(before, x)
    && Distinct(queue) && Elements(queue) <= Cluster(before, x) * cur.Keys
    && (forall t :: t in TxidsOf(removed) + {x} ==> Spenders(before, t) <= TxidsOf(removed) + Elements(queue))
  }

  lemma CascadeStarts(before: Txs, x: Txid, queue: seq<Txid>)
    requires Wired(before) && Acyclic(DependsGraph(before)) && Keyed(before)
    requires Distinct(queue) && Elements(queue) == Spenders(AfterRemove(before, x), x)
    ensures Cascade(before, AfterRemove(before, x), x, if x in before then [before[x].tx] else [], queue)
  {
    hide Reaches, ReachSet, AfterRemove, Cluster;
    var cur := AfterRemove(before, x);
    var removed := if x in before then [before[x].tx] else [];
    ClusterClosed(before, x);
    AfterRemoveKeys(before, x);
    RemainsReflexive(before);
    if x in before {
      InOwnCluster(before, x);
      RemoveFromClosed(before, before, Cluster(before, x), x);
      assert TxidsOf(removed) == {x};
      NotOwnSpender(before, x);
    } else {
      AbsentRemove(before, x);
      assert TxidsOf(removed) == {};
    }
    RemainsSpenders(before, cur, x);
  }

  lemma InOwnCluster(txs: Txs, x: Txid)
    requires x in txs
    ensures x in Cluster(txs, x)
  {
  }

  lemma NotOwnSpender(txs: Txs, x: Txid)
    requires Wired(txs) && Acyclic(DependsGraph(txs))
    ensures x !in Spenders(txs, x)
  {
    if x in Spenders(txs, x) {
      ParentIsAncestor(txs, x, x);
      NotOwnRelative(txs, x);
    }
  }

  lemma CascadeSteps(before: Txs, cur: Txs, x: Txid, removed: seq<Transaction>, queue: seq<Txid>, next: seq<Txid>)
    requires Cascade(before, cur, x, removed, queue) && queue != []
    requires Wired(before) && Wired(cur) && Keyed(before) && Acyclic(DependsGraph(before))
    requires Distinct(next)
    requires Elements(next) == Elements(queue[1..]) + Spenders(AfterRemove(cur, queue[0]), queue[0])
    ensures queue[0] in cur
    ensures Cascade(before, AfterRemove(cur, queue[0]), x, removed + [cur[queue[0]].tx], next)
  {
    hide Reaches, ReachSet, AfterRemove, Cluster, Spenders, TxidsOf, Enumerates, Remains, AncestorsUntouched, Wired, Keyed, Acyclic;
    var t := queue[0];
    var after := AfterRemove(cur, t);
    QueueHead(queue);
    ClusterClosed(before, x);
    RemoveFromClosed(before, cur, Cluster(before, x), t);
    AfterRemoveKeys(cur, t);
    RemainsEntry(before, cur, t);
    EnumeratesMore(before, removed, cur[t].tx);
    RemainsSpenders(before, after, t);
    NotOwnSpender(before, t);
    ClosedMember(before, Cluster(before, x), t);
  }

  lemma ClosedMember(txs: Txs, s: set<Txid>, t: Txid)
    requires SpenderClosed(txs, s) && t in s
    ensures Spenders(txs, t) <= s
  {
  }

  lemma RemainsEntry(txs: Txs, after: Txs, t: Txid)
    requires Keyed(txs) && Remains(txs, after) && t in after
    ensures t in txs && after[t].tx == txs[t].tx && after[t].tx.txid == t
  {
  }

  lemma QueueHead(queue: seq<Txid>)
    requires queue != [] && Distinct(queue)
    ensures Elements(queue) == {queue[0]} + Elements(queue[1..])
    ensures queue[0] !in Elements(queue[1..])
  {
    assert queue == [queue[0]] + queue[1..];
    assert forall k :: 0 < k < |queue| ==> queue[k] != queue[0];
  }

  lemma CascadeEnds(before: Txs, cur: Txs, x: Txid, removed: seq<Transaction>)
    requires Wired(before) && Cascade(before, cur, x, removed, [])
    requires x in before ==> x in TxidsOf(removed)
    ensures TxidsOf(removed) == Cluster(before, x)
    ensures cur.Keys == before.Keys - Cluster(before, x)
  {
    hide Reaches, ReachSet, Cluster;
    assert Elements<Txid>([]) == {};
    ClusterLeast(before, x, TxidsOf(removed));
  }

  // ---- a cascade as removals one by one ----

  /** Removes transactions one after the other. */
  ghost function RemoveAll(txs: Txs, order: seq<Txid>): Txs {
    if order == [] then txs else AfterRemove(RemoveAll(txs, order[..|order| - 1]), order[|order| - 1])
  }

  /** An order in which the cluster of a transaction can be removed. */
  ghost predicate CascadeOrder(txs: Txs, x: Txid, order: seq<Txid>) {
    Distinct(order) && Elements(order) == Cluster(txs, x)
  }

  function OrderOf(list: seq<Transaction>): seq<Txid> {
    seq(|list|, i requires 0 <= i < |list| => list[i].txid)
  }

  lemma OrderOfFacts(txs: Txs, list: seq<Transaction>)
    requires Enumerates(txs, list)
    ensures Distinct(OrderOf(list)) && Elements(OrderOf(list)) == TxidsOf(list)
  {
    var order := OrderOf(list);
    forall t ensures t in Elements(order) <==> t in TxidsOf(list) {
      if t in Elements(order) {
        var i :| 0 <= i < |order| && order[i] == t;
        assert list[i] in list;
      }
      if t in TxidsOf(list) {
        var tx :| tx in list && tx.txid == t;
        var i :| 0 <= i < |list| && list[i] == tx;
        assert order[i] == t;
      }
    }
  }

  lemma RemoveAllMore(txs: Txs, list: seq<Transaction>, tx: Transaction)
    ensures RemoveAll(txs, OrderOf(list + [tx])) == AfterRemove(RemoveAll(txs, OrderOf(list)), tx.txid)
  {
    hide AfterRemove;
    var order := OrderOf(list + [tx]);
    assert order[..|order| - 1] == OrderOf(list);
  }

  lemma RemoveAllFirst(txs: Txs, x: Txid, list: seq<Transaction>)
    requires Keyed(txs) && list == if x in txs then [txs[x].tx] else []
    ensures RemoveAll(txs, OrderOf(list)) == AfterRemove(txs, x)
  {
    if x in txs {
      assert OrderOf(list) == [x] && [x][..0] == [];
      assert RemoveAll(txs, []) == txs;
    } else {
      assert OrderOf(list) == [];
      AbsentRemove(txs, x);
    }
  }

  /** Removing members of a spender-closed set in any order keeps the pool valid and the rest of it as it was. */
  lemma {:induction false} RemoveAllClosed(txs: Txs, gone: set<Txid>, order: seq<Txid>)
    requires PoolValid(txs) && SpenderClosed(txs, gone) && Elements(order) <= gone
    ensures PoolValid(RemoveAll(txs, order))
    ensures Remains(txs, RemoveAll(txs, order)) && AncestorsUntouched(txs, RemoveAll(txs, order), gone)
    ensures RemoveAll(txs, order).Keys == txs.Keys - Elements(order)
    decreases |order|
  {
    hide PoolValid, AfterRemove, SpenderClosed, Remains, AncestorsUntouched;
    if order == [] {
      RemainsItself(txs, gone);
    } else {
      var front, x := order[..|order| - 1], order[|order| - 1];
      assert order == front + [x];
      assert Elements(order) == Elements(front) + {x};
      RemoveAllClosed(txs, gone, front);
      var cur := RemoveAll(txs, front);
      AfterRemoveValid(cur, x);
      AfterRemoveKeys(cur, x);
      ValidWired(cur);
      RemoveFromClosed(txs, cur, gone, x);
    }
  }

  lemma ValidWired(txs: Txs)
    requires PoolValid(txs)
    ensures Wired(txs) && Acyclic(DependsGraph(txs)) && Keyed(txs)
  {
  }

  lemma RemainsItself(txs: Txs, gone: set<Txid>)
    ensures Remains(txs, txs) && AncestorsUntouched(txs, txs, gone) && Elements<Txid>([]) == {}
  {
  }

  /** A cascading removal keeps exact ancestor totals exact. */
  lemma CascadeExact(txs: Txs, x: Txid, order: seq<Txid>)
    requires PoolValid(txs) && CascadeOrder(txs, x, order)
    ensures PoolValid(RemoveAll(txs, order)) && Remains(txs, RemoveAll(txs, order))
    ensures RemoveAll(txs, order).Keys == txs.Keys - Cluster(txs, x)
    ensures AncestorsExact(txs) ==> AncestorsExact(RemoveAll(txs, order))
  {
    hide *;
    CascadeOrderIs(txs, x, order);
    ValidWired(txs);
    ClusterClosed(txs, x);
    RemoveAllClosed(txs, Cluster(txs, x), order);
    ValidWired(RemoveAll(txs, order));
    if AncestorsExact(txs) {
      ClosedRemovalExact(txs, RemoveAll(txs, order), Cluster(txs, x));
    }
  }

  lemma CascadeOrderIs(txs: Txs, x: Txid, order: seq<Txid>)
    requires CascadeOrder(txs, x, order)
    ensures Elements(order) == Cluster(txs, x)
  {
  }
}
