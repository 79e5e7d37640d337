/** Which transactions a filter pass over the pool keeps. */
module PoolFilter {
  import opened Types
  import opened LinkedSets
  import opened Graph
  import opened PoolTxs
  import opened PoolRemove
  import opened PoolCluster

  /** Decides on a transaction given its in-pool input transactions; `None` is the caller's own error. */
  type Filter = (Transaction, map<Txid, Transaction>) -> Option<bool>

  /** The in-pool input transactions of a pooled transaction. */
  ghost function InputsOf(txs: Txs, t: Txid): map<Txid, Transaction>
    requires t in txs
  {
    map p | p in txs[t].tx.Parents() * txs.Keys :: txs[p].tx
  }

  predicate Accepts(verdict: Option<bool>) {
    verdict.Some? && verdict.value
  }

  /** The transactions that the filter accepts with the inputs they have in the pool. */
  ghost function Passing(f: Filter, txs: Txs): set<Txid> {
    set t | t in txs && Accepts(f(txs[t].tx, InputsOf(txs, t)))
  }

  /** The filter does not fail. If rejected transactions leave their descendants behind, it must not mind that inputs
      disappear. */
  ghost predicate Decides(f: Filter, txs: Txs, cascade: bool) {
    forall t :: t in txs ==>
      && f(txs[t].tx, InputsOf(txs, t)).Some?
      && (!cascade ==> forall inputs :: Fewer(inputs, InputsOf(txs, t)) ==> f(txs[t].tx, inputs) == f(txs[t].tx, InputsOf(txs, t)))
  }

  ghost predicate Fewer(inputs: map<Txid, Transaction>, all: map<Txid, Transaction>) {
    inputs.Keys <= all.Keys && forall p :: p in inputs ==> inputs[p] == all[p]
  }

  /** Of the given transactions, those all of whose ancestors are given too. */
  ghost function KeptWithAncestors(txs: Txs, pass: set<Txid>): set<Txid> {
    set t | t in pass && Ancestors(txs, t) <= pass
  }

  /** The transactions without in-pool parents, where the pass starts. */
  ghost function Roots(txs: Txs): set<Txid> {
    set t | t in txs && txs[t].info.depends == {}
  }

  lemma BelowSomeRoot(txs: Txs, t: Txid) returns (r: Txid)
    requires Wired(txs) && Acyclic(DependsGraph(txs)) && t in txs
    ensures r in Roots(txs) && (r == t || t in Descendants(txs, r))
  {
    hide Reaches, ReachSet;
    RelativesInPool(txs, t);
    ReachSetClosed(DependsGraph(txs), t);
    r := SinkExists(DependsGraph(txs), Ancestors(txs, t) + {t});
    assert Out(DependsGraph(txs), r) <= Ancestors(txs, t);
    AncestorIffDescendant(txs, r, t);
  }

  lemma RootsCoverAll(txs: Txs, s: set<Txid>)
    requires Wired(txs) && Acyclic(DependsGraph(txs))
    requires SpenderClosed(txs, s) && Roots(txs) <= s
    ensures txs.Keys <= s
  {
    forall t | t in txs ensures t in s {
      var r := BelowSomeRoot(txs, t);
      SpenderClosedReaches(txs, s, r);
    }
  }

  /** Ancestors in what remains of a pool are ancestors in the pool. */
  lemma RemainsAncestors(txs: Txs, after: Txs, t: Txid)
    requires Wired(txs) && Wired(after) && Remains(txs, after)
    ensures Ancestors(after, t) <= Ancestors(txs, t)
  {
    var g, h := DependsGraph(after), DependsGraph(txs);
    forall x ensures Out(g, x) <= Out(h, x) {
    }
    forall a | a in ReachSet(g, t) ensures a in ReachSet(h, t) {
      InReachSet(g, t, a);
      Monotone(g, h, t, a);
      InReachSet(h, t, a);
    }
  }

  lemma RemainsTransitive(a: Txs, b: Txs, c: Txs)
    requires Remains(a, b) && Remains(b, c)
    ensures Remains(a, c)
  {
  }

  /** No surviving transaction has lost a parent. */
  ghost predicate UpClosed(before: Txs, cur: Txs) {
    forall t :: t in cur && t in before ==> before[t].info.depends <= cur.Keys
  }

  lemma UpClosedAncestors(before: Txs, cur: Txs, t: Txid)
    requires Wired(before) && UpClosed(before, cur) && t in cur && cur.Keys <= before.Keys
    ensures Ancestors(before, t) <= cur.Keys
  {
    var g := DependsGraph(before);
    assert Closed(g, cur.Keys) && Out(g, t) <= cur.Keys;
    ReachSetLeast(g, t, cur.Keys);
  }

  /**
   * Progress of a filter pass. `seen` are the transactions listed so far and `pending` those of
   * them still to be decided; the rest of the claims are for a filter that accepts exactly `pass`.
   */
  ghost predicate Progress(before: Txs, cur: Txs, seen: set<Txid>, pending: set<Txid>,
                           cascade: bool, exact: bool, pass: set<Txid>)
  {
    && Remains(before, cur)
    && SpenderClosed(before, seen) && before.Keys - cur.Keys <= seen <= before.Keys
    && (exact ==> forall t :: t in (seen - pending) * cur.Keys ==> t in pass)
    && (exact && !cascade ==> forall t :: t in before && t !in cur ==> t !in pass)
    && (exact && cascade ==> UpClosed(before, cur) && (before.Keys - cur.Keys) !! KeptWithAncestors(before, pass))
  }

  /** A pooled transaction is judged by the inputs it had at the start, or by some of them. */
  lemma VerdictExact(f: Filter, before: Txs, cur: Txs, cascade: bool, d: Txid, inputs: map<Txid, Transaction>)
    requires Wired(before) && Remains(before, cur) && d in cur && (cascade && Decides(f, before, cascade) ==> UpClosed(before, cur))
    requires inputs.Keys == cur[d].tx.Parents() * cur.Keys && forall p :: p in inputs ==> inputs[p] == cur[p].tx
    ensures Decides(f, before, cascade) ==>
              f(cur[d].tx, inputs).Some? && (Accepts(f(cur[d].tx, inputs)) <==> d in Passing(f, before))
  {
    if Decides(f, before, cascade) {
      var all := InputsOf(before, d);
      assert Fewer(inputs, all);
      if cascade {
        assert before[d].info.depends <= cur.Keys;
        assert inputs == all;
      }
      assert f(before[d].tx, inputs) == f(before[d].tx, all);
    }
  }

  lemma ProgressStarts(before: Txs, cascade: bool, exact: bool, pass: set<Txid>)
    requires Wired(before)
    ensures Progress(before, before, {}, {}, cascade, exact, pass)
  {
    hide KeptWithAncestors;
  }

  /** Listing a root's descendants extends `seen` by pool transactions and keeps it closed. */
  lemma ProgressLists(before: Txs, cur: Txs, seen: set<Txid>, cascade: bool, exact: bool, pass: set<Txid>, root: Txid)
    requires Wired(cur) && Progress(before, cur, seen, {}, cascade, exact, pass) && root in cur
    ensures var listed := Descendants(cur, root) + {root};
            Progress(before, cur, seen + listed, listed, cascade, exact, pass)
  {
    hide KeptWithAncestors, Reaches, ReachSet, Descendants, UpClosed;
    var listed := Descendants(cur, root) + {root};
    ClusterOfPooled(cur, root);
    ClusterClosed(cur, root);
    forall t | t in seen + listed ensures Spenders(before, t) <= seen + listed {
      RemainsSpenders(before, cur, t);
      if t in listed {
        assert Spenders(cur, t) <= listed;
        assert Spenders(before, t) <= Spenders(cur, t) + seen;
      }
    }
  }

  lemma ProgressKeeps(before: Txs, cur: Txs, seen: set<Txid>, pending: set<Txid>, cascade: bool, exact: bool,
                      pass: set<Txid>, d: Txid)
    requires Progress(before, cur, seen, pending, cascade, exact, pass)
    requires exact && d in cur ==> d in pass
    ensures Progress(before, cur, seen, pending - {d}, cascade, exact, pass)
  {
    hide KeptWithAncestors, UpClosed;
  }

  lemma ProgressRemoves(before: Txs, cur: Txs, after: Txs, seen: set<Txid>, pending: set<Txid>, exact: bool,
                        pass: set<Txid>, d: Txid)
    requires Progress(before, cur, seen, pending, false, exact, pass)
    requires d in cur && d in seen && (exact ==> d !in pass)
    requires Remains(cur, after) && after.Keys == cur.Keys - {d}
    ensures Progress(before, after, seen, pending - {d}, false, exact, pass)
  {
    hide KeptWithAncestors, UpClosed;
  }

  lemma ProgressCascades(before: Txs, cur: Txs, after: Txs, seen: set<Txid>, pending: set<Txid>, exact: bool,
                         pass: set<Txid>, d: Txid)
    requires Wired(before) && Wired(cur)
    requires Progress(before, cur, seen, pending, true, exact, pass)
    requires d in cur && d in seen && (exact ==> d !in pass)
    requires Remains(cur, after) && after.Keys == cur.Keys - Cluster(cur, d)
    ensures Progress(before, after, seen, pending - {d}, true, exact, pass)
  {
    hide KeptWithAncestors, Reaches, ReachSet, Descendants, Cluster, UpClosed;
    ClusterOfPooled(cur, d);
    RemainsTransitive(before, cur, after);
    forall u | u in seen ensures Spenders(cur, u) <= seen {
      RemainsSpenders(before, cur, u);
    }
    SpenderClosedReaches(cur, seen, d);
    if exact {
      CascadeUpClosed(before, cur, after, d);
      forall t | t in Cluster(cur, d) ensures t !in KeptWithAncestors(before, pass) {
        CascadeDrops(before, cur, pass, d, t);
      }
    }
  }

  lemma CascadeUpClosed(before: Txs, cur: Txs, after: Txs, d: Txid)
    requires Wired(before) && Wired(cur) && Remains(before, cur) && UpClosed(before, cur)
    requires after.Keys == cur.Keys - Cluster(cur, d)
    ensures UpClosed(before, after)
  {
    hide Reaches, ReachSet, Cluster;
    ClusterClosed(cur, d);
    forall t | t in after && t in before ensures before[t].info.depends <= after.Keys {
      forall p | p in before[t].info.depends ensures p !in Cluster(cur, d) {
        assert t in Spenders(cur, p);
      }
    }
  }

  lemma CascadeDrops(before: Txs, cur: Txs, pass: set<Txid>, d: Txid, t: Txid)
    requires Wired(before) && Wired(cur) && Remains(before, cur)
    requires d in cur && d !in pass && (t == d || t in Descendants(cur, d))
    ensures t !in KeptWithAncestors(before, pass)
  {
    hide Reaches, ReachSet, Ancestors, Descendants;
    if t != d {
      AncestorIffDescendant(cur, d, t);
      RemainsAncestors(before, cur, t);
    }
  }

  /** Once everything was decided, exactly the transactions the filter asks for are left. */
  lemma ProgressEnds(before: Txs, cur: Txs, seen: set<Txid>, cascade: bool, pass: set<Txid>)
    requires Wired(before) && Acyclic(DependsGraph(before))
    requires Progress(before, cur, seen, {}, cascade, true, pass)
    requires Roots(before) <= seen && pass <= before.Keys
    ensures cur.Keys == if cascade then KeptWithAncestors(before, pass) else pass
  {
    hide Reaches, ReachSet, Ancestors;
    RootsCoverAll(before, seen);
    if cascade {
      forall t | t in cur ensures t in KeptWithAncestors(before, pass) {
        UpClosedAncestors(before, cur, t);
      }
    }
  }

  lemma EnumeratesConcat(txs: Txs, cur: Txs, list: seq<Transaction>, more: seq<Transaction>)
    requires Enumerates(txs, list) && Enumerates(cur, more) && Remains(txs, cur)
    requires cur.Keys !! TxidsOf(list)
    ensures Enumerates(txs, list + more) && TxidsOf(list + more) == TxidsOf(list) + TxidsOf(more)
  {
    var all := list + more;
    forall i, j | 0 <= i < j < |all| ensures all[i].txid != all[j].txid {
      if i < |list| <= j {
        assert all[i] in list && all[j] in more;
        assert all[i].txid in TxidsOf(list);
      }
    }
    forall t ensures t in TxidsOf(all) <==> t in TxidsOf(list) + TxidsOf(more) {
      assert forall tx :: tx in all <==> tx in list || tx in more;
    }
  }
}
