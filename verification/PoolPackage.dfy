/** Taking a transaction with its ancestors out of the pool, parents first. */
module PoolPackage {
  import opened Types
  import opened LinkedSets
  import opened Graph
  import opened TotalsSums
  import opened PoolTxs
  import opened PoolRemove
  import opened PoolCluster
  import opened PoolFilter
  import opened AncestorWalks
  import opened Traversal

  /** Every ancestor of a listed transaction is listed before it. */
  ghost predicate AncestorsFirst(txs: Txs, list: seq<Txid>) {
    forall j :: 0 <= j < |list| ==> list[j] in txs && Ancestors(txs, list[j]) <= Elements(list[..j])
  }

  /** `p` is on the stack above position `i`. */
  ghost predicate Above(stack: seq<Visit>, i: nat, p: Txid) {
    exists k :: i < k < |stack| && stack[k].txid == p
  }

  /** What is known of the stack entry at `i`. */
  ghost predicate GoodVisit(base: Txs, cur: Txs, root: Txid, stack: seq<Visit>, i: nat)
    requires i < |stack|
  {
    && stack[i].txid in Ancestors(base, root) + {root}
    && (stack[i].parentsVisited ==>
          && stack[i].txid in cur
          && (forall j :: i < j < |stack| ==> stack[j].txid in Ancestors(base, stack[i].txid))
          && (forall p :: p in cur[stack[i].txid].info.depends ==> Above(stack, i, p)))
  }

  ghost predicate GoodStack(base: Txs, cur: Txs, root: Txid, stack: seq<Visit>) {
    && (stack != [] ==> stack[0].txid == root && root in cur)
    && (stack == [] ==> root !in cur)
    && (|stack| > 1 ==> stack[0].parentsVisited)
    && forall i :: 0 <= i < |stack| ==> GoodVisit(base, cur, root, stack, i)
  }

  /** The transactions picked so far are gone from the pool, in an order that puts ancestors first. */
  ghost predicate PickedSoFar(base: Txs, cur: Txs, root: Txid, picked: seq<Txid>) {
    && Remains(base, cur)
    && cur.Keys == base.Keys - Elements(picked)
    && Distinct(picked)
    && Elements(picked) <= Ancestors(base, root) + {root}
    && AncestorsFirst(base, picked)
  }

  ghost predicate Picking(base: Txs, cur: Txs, root: Txid, stack: seq<Visit>, picked: seq<Txid>) {
    PickedSoFar(base, cur, root, picked) && GoodStack(base, cur, root, stack)
  }

  ghost function OpenTxids(stack: seq<Visit>): set<Txid> {
    set v | v in stack && v.parentsVisited :: v.txid
  }

  lemma PickingStarts(base: Txs, root: Txid)
    requires root in base
    ensures Picking(base, base, root, [Visit(root, false)], [])
  {
    RemainsReflexive(base);
    assert Elements<Txid>([]) == {};
  }

  /** An entry that is no longer pooled is dropped. */
  lemma PickingSkips(base: Txs, cur: Txs, root: Txid, stack: seq<Visit>, picked: seq<Txid>)
    requires Wired(cur) && Picking(base, cur, root, stack, picked)
    requires stack != [] && !stack[|stack| - 1].parentsVisited && stack[|stack| - 1].txid !in cur
    ensures Picking(base, cur, root, stack[..|stack| - 1], picked)
  {
    hide PickedSoFar, Ancestors;
    var rest := stack[..|stack| - 1];
    assert |stack| > 1;
    forall i | 0 <= i < |rest| ensures GoodVisit(base, cur, root, rest, i) {
      assert GoodVisit(base, cur, root, stack, i) && rest[i] == stack[i];
      if rest[i].parentsVisited {
        forall p | p in cur[rest[i].txid].info.depends ensures Above(rest, i, p) {
          var k :| i < k < |stack| && stack[k].txid == p;
          assert k < |rest| && rest[k].txid == p;
        }
      }
    }
  }

  /** An entry still pooled is reopened with its parents above it. */
  lemma PickingExpands(base: Txs, cur: Txs, root: Txid, stack: seq<Visit>, picked: seq<Txid>, depends: seq<Txid>)
    requires Wired(base) && Wired(cur) && Acyclic(DependsGraph(base)) && Picking(base, cur, root, stack, picked)
    requires stack != [] && !stack[|stack| - 1].parentsVisited && stack[|stack| - 1].txid in cur
    requires Elements(depends) == cur[stack[|stack| - 1].txid].info.depends
    ensures var txid := stack[|stack| - 1].txid;
            && Picking(base, cur, root, stack[..|stack| - 1] + [Visit(txid, true)] + Unvisited(depends), picked)
            && txid !in OpenTxids(stack)
  {
    hide PickedSoFar, Ancestors, Reaches, ReachSet, Acyclic, Wired;
    var n, top := |stack| - 1, Visit(stack[|stack| - 1].txid, true);
    var pushed := stack[..n] + [top] + Unvisited(depends);
    RemainsFrom(base, cur, root, picked);
    ParentsReachable(base, cur, root, stack, depends);
    forall i | 0 <= i < |pushed| ensures GoodVisit(base, cur, root, pushed, i) {
      if i < n {
        assert GoodVisit(base, cur, root, stack, i) && pushed[i] == stack[i];
        if pushed[i].parentsVisited {
          OpenStaysGood(base, cur, root, stack, depends, i);
        }
      } else if i == n {
        assert pushed[i] == top;
        assert GoodVisit(base, cur, root, stack, n);
        forall p | p in cur[top.txid].info.depends ensures Above(pushed, n, p) {
          assert p in Elements(depends);
          var k :| 0 <= k < |depends| && depends[k] == p;
          assert pushed[n + 1 + k].txid == p;
        }
        forall j | n < j < |pushed| ensures pushed[j].txid in Ancestors(base, top.txid) {
          assert pushed[j].txid == depends[j - n - 1];
        }
      } else {
        assert pushed[i] == Visit(depends[i - n - 1], false);
      }
    }
    TopNotOpen(base, cur, root, stack);
  }

  lemma RemainsFrom(base: Txs, cur: Txs, root: Txid, picked: seq<Txid>)
    requires PickedSoFar(base, cur, root, picked)
    ensures Remains(base, cur)
  {
  }

  lemma TopNotOpen(base: Txs, cur: Txs, root: Txid, stack: seq<Visit>)
    requires Wired(base) && Acyclic(DependsGraph(base)) && GoodStack(base, cur, root, stack)
    requires stack != [] && !stack[|stack| - 1].parentsVisited
    ensures stack[|stack| - 1].txid !in OpenTxids(stack)
  {
    hide Ancestors, Reaches, ReachSet, Acyclic, Wired;
    var n := |stack| - 1;
    forall v | v in stack && v.parentsVisited ensures v.txid != stack[n].txid {
      var i :| 0 <= i < |stack| && stack[i] == v;
      assert GoodVisit(base, cur, root, stack, i);
      NotOwnRelative(base, v.txid);
    }
  }

  /** Parents of the top entry are ancestors of it, of the root, and of every open entry below it. */
  lemma ParentsReachable(base: Txs, cur: Txs, root: Txid, stack: seq<Visit>, depends: seq<Txid>)
    requires Wired(base) && Wired(cur) && GoodStack(base, cur, root, stack) && Remains(base, cur)
    requires stack != [] && stack[|stack| - 1].txid in cur
    requires Elements(depends) == cur[stack[|stack| - 1].txid].info.depends
    ensures forall k :: 0 <= k < |depends| ==>
      && depends[k] in Ancestors(base, stack[|stack| - 1].txid)
      && depends[k] in Ancestors(base, root) + {root}
    ensures forall i, k :: 0 <= i < |stack| - 1 && stack[i].parentsVisited && 0 <= k < |depends| ==>
      depends[k] in Ancestors(base, stack[i].txid)
  {
    hide Ancestors, Reaches, ReachSet;
    var n := |stack| - 1;
    var t := stack[n].txid;
    assert GoodVisit(base, cur, root, stack, n);
    forall k | 0 <= k < |depends|
      ensures depends[k] in Ancestors(base, t)
      ensures depends[k] in Ancestors(base, root) + {root}
      ensures forall i :: 0 <= i < n && stack[i].parentsVisited ==> depends[k] in Ancestors(base, stack[i].txid)
    {
      assert depends[k] in Elements(depends);
      assert depends[k] in base[t].info.depends;
      ParentIsAncestor(base, t, depends[k]);
      if t != root { AncestorsTransitive(base, root, t, depends[k]); }
      forall i | 0 <= i < n && stack[i].parentsVisited ensures depends[k] in Ancestors(base, stack[i].txid) {
        assert GoodVisit(base, cur, root, stack, i);
        AncestorsTransitive(base, stack[i].txid, t, depends[k]);
      }
    }
  }

  lemma AncestorsTransitive(txs: Txs, t: Txid, a: Txid, b: Txid)
    requires a in Ancestors(txs, t) && b in Ancestors(txs, a)
    ensures b in Ancestors(txs, t)
  {
    var g := DependsGraph(txs);
    InReachSet(g, t, a);
    InReachSet(g, a, b);
    InReachSet(g, t, b);
    Transitive(g, t, a, b);
  }

  lemma OpenStaysGood(base: Txs, cur: Txs, root: Txid, stack: seq<Visit>, depends: seq<Txid>, i: nat)
    requires GoodStack(base, cur, root, stack) && i < |stack| - 1 && stack[i].parentsVisited
    requires forall k :: 0 <= k < |depends| ==> depends[k] in Ancestors(base, stack[i].txid)
    ensures var n := |stack| - 1;
            GoodVisit(base, cur, root, stack[..n] + [Visit(stack[n].txid, true)] + Unvisited(depends), i)
  {
    hide Ancestors;
    var n := |stack| - 1;
    var pushed := stack[..n] + [Visit(stack[n].txid, true)] + Unvisited(depends);
    assert GoodVisit(base, cur, root, stack, i) && pushed[i] == stack[i];
    forall j | i < j < |pushed| ensures pushed[j].txid in Ancestors(base, stack[i].txid) {
      if j <= n {
        assert pushed[j].txid == stack[j].txid;
      } else {
        assert pushed[j].txid == depends[j - n - 1];
      }
    }
    forall p | p in cur[stack[i].txid].info.depends ensures Above(pushed, i, p) {
      var k :| i < k < |stack| && stack[k].txid == p;
      assert pushed[k].txid == p;
    }
  }

  /** An open entry on top is picked and removed. */
  lemma PickingPicks(base: Txs, cur: Txs, root: Txid, stack: seq<Visit>, picked: seq<Txid>)
    requires Wired(base) && Wired(cur) && Acyclic(DependsGraph(base)) && Picking(base, cur, root, stack, picked)
    requires stack != [] && stack[|stack| - 1].parentsVisited
    ensures var txid := stack[|stack| - 1].txid;
            && txid in cur && cur[txid].info.depends == {}
            && Picking(base, AfterRemove(cur, txid), root, stack[..|stack| - 1], picked + [txid])
  {
    var txid := stack[|stack| - 1].txid;
    assert GoodVisit(base, cur, root, stack, |stack| - 1);
    PickedMore(base, cur, root, picked, txid);
    PoppedStack(base, cur, root, stack);
  }

  lemma PickedMore(base: Txs, cur: Txs, root: Txid, picked: seq<Txid>, txid: Txid)
    requires Wired(base) && Wired(cur) && PickedSoFar(base, cur, root, picked)
    requires txid in cur && cur[txid].info.depends == {} && txid in Ancestors(base, root) + {root}
    ensures PickedSoFar(base, AfterRemove(cur, txid), root, picked + [txid])
  {
    hide Ancestors, Reaches, ReachSet, AfterRemove, AncestorsFirst;
    var after, more := AfterRemove(cur, txid), picked + [txid];
    AfterRemoveKeys(cur, txid);
    assert Elements(more) == Elements(picked) + {txid};
    AfterRemoveRemains(base, cur, txid);
    assert txid !in picked by { assert txid !in Elements(picked); }
    PickedAncestors(base, cur, root, picked, txid);
    FirstMore(base, picked, txid);
  }

  lemma AfterRemoveRemains(base: Txs, cur: Txs, x: Txid)
    requires Wired(cur) && Remains(base, cur) && x in cur
    ensures Remains(base, AfterRemove(cur, x))
  {
    hide Wired, AfterRemove, Ancestors, Descendants;
    AfterRemoveKeys(cur, x);
    forall t | t in AfterRemove(cur, x)
      ensures AfterRemove(cur, x)[t].tx == cur[t].tx && AfterRemove(cur, x)[t].info.own == cur[t].info.own
      ensures AfterRemove(cur, x)[t].info.conflictsWith == cur[t].info.conflictsWith
    {
      AfterRemoveInfo(cur, x, t);
    }
  }

  lemma FirstMore(txs: Txs, list: seq<Txid>, t: Txid)
    requires AncestorsFirst(txs, list) && t in txs && Ancestors(txs, t) <= Elements(list)
    ensures AncestorsFirst(txs, list + [t])
  {
    hide Ancestors;
    var more := list + [t];
    forall j | 0 <= j < |more| ensures more[j] in txs && Ancestors(txs, more[j]) <= Elements(more[..j]) {
      if j < |list| {
        assert more[j] == list[j] && more[..j] == list[..j];
      } else {
        assert more[..j] == list;
      }
    }
  }

  /** All ancestors of a transaction without in-pool parents have been picked. */
  lemma PickedAncestors(base: Txs, cur: Txs, root: Txid, picked: seq<Txid>, txid: Txid)
    requires Wired(base) && Wired(cur) && PickedSoFar(base, cur, root, picked)
    requires txid in cur && cur[txid].info.depends == {}
    ensures Ancestors(base, txid) <= Elements(picked)
  {
    hide Reaches, ReachSet;
    var g := DependsGraph(base);
    FirstClosed(base, picked);
    forall p | p in base[txid].info.depends ensures p in Elements(picked) {
      assert p in base && p in cur[txid].tx.Parents();
      assert p !in cur[txid].info.depends;
    }
    ReachSetLeast(g, txid, Elements(picked));
  }

  lemma FirstClosed(txs: Txs, list: seq<Txid>)
    requires AncestorsFirst(txs, list)
    ensures Closed(DependsGraph(txs), Elements(list))
    ensures forall t :: t in list ==> t in txs && Ancestors(txs, t) <= Elements(list)
  {
    hide Reaches, ReachSet;
    forall t | t in list ensures t in txs && Ancestors(txs, t) <= Elements(list) && Out(DependsGraph(txs), t) <= Elements(list) {
      var j :| 0 <= j < |list| && list[j] == t;
      ReachSetClosed(DependsGraph(txs), t);
      assert Elements(list[..j]) <= Elements(list);
    }
  }

  lemma PoppedStack(base: Txs, cur: Txs, root: Txid, stack: seq<Visit>)
    requires Wired(base) && Wired(cur) && Acyclic(DependsGraph(base)) && GoodStack(base, cur, root, stack)
    requires stack != [] && stack[|stack| - 1].parentsVisited && stack[|stack| - 1].txid in cur
    ensures GoodStack(base, AfterRemove(cur, stack[|stack| - 1].txid), root, stack[..|stack| - 1])
  {
    hide Ancestors, Reaches, ReachSet, AfterRemove;
    var n := |stack| - 1;
    var rest, txid := stack[..n], stack[n].txid;
    var after := AfterRemove(cur, txid);
    AfterRemoveKeys(cur, txid);
    assert GoodVisit(base, cur, root, stack, n);
    forall i | 0 <= i < n ensures GoodVisit(base, after, root, rest, i) {
      assert GoodVisit(base, cur, root, stack, i) && rest[i] == stack[i];
      if rest[i].parentsVisited {
        NotOwnRelative(base, rest[i].txid);
        AfterRemoveInfo(cur, txid, rest[i].txid);
        forall p | p in after[rest[i].txid].info.depends ensures Above(rest, i, p) {
          var k :| i < k < |stack| && stack[k].txid == p;
          assert rest[k].txid == p;
        }
      }
    }
    if n > 0 {
      RootBelow(base, cur, root, stack);
    }
  }

  /** The root is at the bottom of the stack and nowhere else among the open entries. */
  lemma RootBelow(base: Txs, cur: Txs, root: Txid, stack: seq<Visit>)
    requires Wired(base) && Acyclic(DependsGraph(base)) && GoodStack(base, cur, root, stack)
    requires |stack| > 1 && stack[|stack| - 1].parentsVisited
    ensures stack[|stack| - 1].txid != root
  {
    assert GoodVisit(base, cur, root, stack, 0);
    NotOwnRelative(base, root);
  }
}
