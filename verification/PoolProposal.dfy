/** What a block proposal takes out of the pool, round by round. */
module PoolProposal {
  import opened Types
  import opened LinkedSets
  import opened Graph
  import opened TotalsSums
  import opened FeeRates
  import opened FeeRateIndex
  import opened PoolTxs
  import opened PoolRemove
  import opened PoolInsert
  import opened PoolCluster
  import opened PoolFilter
  import opened PoolPackage

  // ---- eviction of conflicts ----

  /** Exactly the clusters of the given conflicts were removed. */
  ghost predicate Evicts(base: Txs, cur: Txs, conflicts: set<Txid>) {
    var gone := base.Keys - cur.Keys;
    && Remains(base, cur)
    && SpenderClosed(base, gone)
    && AncestorsUntouched(base, cur, gone)
    && conflicts !! cur.Keys
    && forall t :: t in gone ==> exists c :: c in conflicts && t in Cluster(base, c)
  }

  lemma EvictsNothing(base: Txs)
    ensures Evicts(base, base, {})
  {
    RemainsReflexive(base);
  }

  /** Clusters in what remains of a pool lie within the pool's clusters. */
  lemma ClusterMonotone(base: Txs, cur: Txs, c: Txid)
    requires Wired(base) && Wired(cur) && Remains(base, cur)
    ensures Cluster(cur, c) <= Cluster(base, c)
  {
    hide Reaches, ReachSet, PoolInsert.Below;
    ClusterClosed(base, c);
    forall t | t in Cluster(base, c) ensures Spenders(cur, t) <= Cluster(base, c) {
      RemainsSpenders(base, cur, t);
    }
    RemainsSpenders(base, cur, c);
    ClusterLeast(cur, c, Cluster(base, c));
  }

  lemma EvictsMore(base: Txs, cur: Txs, after: Txs, conflicts: set<Txid>, c: Txid)
    requires Wired(base) && Wired(cur) && Evicts(base, cur, conflicts)
    requires Remains(cur, after) && after.Keys == cur.Keys - Cluster(cur, c)
    requires AncestorsUntouched(cur, after, Cluster(cur, c))
    ensures Evicts(base, after, conflicts + {c})
  {
    hide Reaches, ReachSet, Cluster, Wired;
    RemainsTransitive(base, cur, after);
    ClusterClosed(cur, c);
    ClusterMonotone(base, cur, c);
    var gone := base.Keys - after.Keys;
    forall t | t in gone ensures Spenders(base, t) <= gone {
      RemainsSpenders(base, cur, t);
      if t in cur {
        assert Spenders(cur, t) <= Cluster(cur, c);
      }
    }
    forall t | t in gone ensures exists d :: d in conflicts + {c} && t in Cluster(base, d) {
      if t in cur {
        assert c in conflicts + {c} && t in Cluster(base, c);
      } else {
        assert t in base.Keys - cur.Keys;
        var d :| d in conflicts && t in Cluster(base, d);
        assert d in conflicts + {c};
      }
    }
    if c in cur { InOwnCluster(cur, c); }
  }

  // ---- one round ----

  /** The package of `root` was picked, ancestors first, and then the conflicts of `root` were evicted. */
  ghost predicate PackageTaken(base: Txs, after: Txs, root: Txid, picked: seq<Txid>) {
    && root in base
    && Distinct(picked)
    && Elements(picked) == Ancestors(base, root) + {root}
    && AncestorsFirst(base, picked)
    && Remains(base, after)
    && after.Keys !! Elements(picked)
    && base[root].info.conflictsWith !! after.Keys
    && SpenderClosed(base, base.Keys - Elements(picked) - after.Keys)
    && (forall t :: t in base.Keys - Elements(picked) - after.Keys ==>
          exists c :: c in base[root].info.conflictsWith && t in Cluster(base, c))
  }

  lemma PackageEnds(base: Txs, mid: Txs, after: Txs, root: Txid, picked: seq<Txid>)
    requires Wired(base) && Wired(mid) && root in base && root !in mid
    requires PickedSoFar(base, mid, root, picked)
    requires Evicts(mid, after, base[root].info.conflictsWith)
    ensures PackageTaken(base, after, root, picked)
  {
    hide Reaches, ReachSet, Cluster, Ancestors, Wired, Acyclic;
    FirstClosed(base, picked);
    assert root in picked by { assert root in Elements(picked); }
    RemainsTransitive(base, mid, after);
    var evicted := base.Keys - Elements(picked) - after.Keys;
    assert evicted == mid.Keys - after.Keys;
    forall t | t in evicted ensures Spenders(base, t) <= evicted {
      RemainsSpenders(base, mid, t);
      forall w | w in Spenders(base, t) ensures w in evicted {
        if w in picked {
          SpenderHasAncestor(base, w, t);
        }
      }
    }
    forall c | c in base[root].info.conflictsWith ensures Cluster(mid, c) <= Cluster(base, c) {
      ClusterMonotone(base, mid, c);
    }
  }

  lemma SpenderHasAncestor(txs: Txs, w: Txid, t: Txid)
    requires Wired(txs) && t in txs && w in Spenders(txs, t)
    ensures t in Ancestors(txs, w)
  {
    ParentIsAncestor(txs, w, t);
  }

  // ---- the whole proposal ----

  /** `t` was dropped because it is, or descends from, a conflict of a chosen transaction. */
  ghost predicate Dropped(before: Txs, chosen: seq<Txid>, t: Txid) {
    exists u, c :: u in chosen && u in before && c in before[u].info.conflictsWith && t in Cluster(before, c)
  }

  /** The chosen transactions form a valid block prefix, and every other transaction is left or dropped for a conflict. */
  ghost predicate Proposal(before: Txs, cur: Txs, chosen: seq<Txid>) {
    && Remains(before, cur)
    && Distinct(chosen) && Elements(chosen) !! cur.Keys
    && AncestorsFirst(before, chosen)
    && (forall t :: t in cur ==> before[t].info.depends <= cur.Keys + Elements(chosen))
    && (forall t :: t in before ==> t in cur || t in chosen || Dropped(before, chosen, t))
  }

  lemma ProposalStarts(before: Txs)
    requires Wired(before)
    ensures Proposal(before, before, [])
  {
    RemainsReflexive(before);
    assert Elements<Txid>([]) == {};
  }

  /** An original ancestor of a transaction still pooled is still its ancestor or was chosen. */
  lemma AncestorsSplit(before: Txs, cur: Txs, chosen: seq<Txid>, u: Txid)
    requires Wired(before) && Wired(cur) && Proposal(before, cur, chosen) && u in cur
    ensures Ancestors(before, u) <= Elements(chosen) + Ancestors(cur, u)
  {
    hide Reaches, ReachSet, Dropped;
    var g := DependsGraph(before);
    var s := Elements(chosen) + Ancestors(cur, u);
    FirstClosed(before, chosen);
    ReachSetClosed(DependsGraph(cur), u);
    RelativesInPool(cur, u);
    forall t | t in Ancestors(cur, u) + {u} ensures Out(g, t) <= s {
      forall p | p in before[t].info.depends ensures p in s {
        if p in cur {
          assert p in cur[t].info.depends;
          assert cur[t].info.depends == Out(DependsGraph(cur), t);
        }
      }
    }
    assert Closed(g, s);
    ReachSetLeast(g, u, s);
  }

  lemma ConcatElements(a: seq<Txid>, b: seq<Txid>)
    ensures Elements(a + b) == Elements(a) + Elements(b)
    ensures Distinct(a) && Distinct(b) && Elements(a) !! Elements(b) ==> Distinct(a + b)
  {
    if Distinct(a) && Distinct(b) && Elements(a) !! Elements(b) {
      var all := a + b;
      forall i, j | 0 <= i < j < |all| ensures all[i] != all[j] {
        if i < |a| <= j {
          assert all[i] in Elements(a) && all[j] in Elements(b);
        }
      }
    }
  }

  lemma ProposalOrder(before: Txs, cur: Txs, chosen: seq<Txid>, picked: seq<Txid>)
    requires Wired(before) && Wired(cur) && Proposal(before, cur, chosen)
    requires AncestorsFirst(cur, picked)
    ensures AncestorsFirst(before, chosen + picked)
  {
    hide Ancestors, Wired, Dropped;
    var all := chosen + picked;
    forall j | 0 <= j < |all| ensures all[j] in before && Ancestors(before, all[j]) <= Elements(all[..j]) {
      if j < |chosen| {
        assert all[j] == chosen[j] && all[..j] == chosen[..j];
      } else {
        var k := j - |chosen|;
        assert all[j] == picked[k] && all[..j] == chosen + picked[..k];
        AncestorsSplit(before, cur, chosen, picked[k]);
        ConcatElements(chosen, picked[..k]);
      }
    }
  }

  lemma ProposalParents(before: Txs, cur: Txs, after: Txs, chosen: seq<Txid>, root: Txid, picked: seq<Txid>, t: Txid)
    requires Wired(before) && Wired(cur) && Proposal(before, cur, chosen)
    requires PackageTaken(cur, after, root, picked) && t in after
    ensures before[t].info.depends <= after.Keys + Elements(chosen) + Elements(picked)
  {
    hide Ancestors, Dropped, AncestorsFirst, Cluster;
    forall p | p in before[t].info.depends ensures p in after.Keys + Elements(chosen) + Elements(picked) {
      if p in cur && p !in after && p !in Elements(picked) {
        assert t in Spenders(cur, p);
      }
    }
  }

  lemma ProposalSteps(before: Txs, cur: Txs, after: Txs, chosen: seq<Txid>, root: Txid, picked: seq<Txid>)
    requires Wired(before) && Wired(cur) && Proposal(before, cur, chosen)
    requires PackageTaken(cur, after, root, picked)
    ensures Proposal(before, after, chosen + picked)
  {
    hide Ancestors, AncestorsFirst, Cluster, Wired, SpenderClosed;
    var all := chosen + picked;
    RemainsTransitive(before, cur, after);
    ProposalOrder(before, cur, chosen, picked);
    PickedPooled(cur, picked);
    ConcatElements(chosen, picked);
    forall t | t in after ensures before[t].info.depends <= after.Keys + Elements(all) {
      ProposalParents(before, cur, after, chosen, root, picked, t);
    }
    assert forall u :: u in chosen ==> u in all;
    forall t | t in before ensures t in after || t in all || Dropped(before, all, t) {
      if t in cur && t !in after {
        ProposalDrops(before, cur, after, chosen, root, picked, t);
      } else if Dropped(before, chosen, t) {
        var u, c :| u in chosen && u in before && c in before[u].info.conflictsWith && t in Cluster(before, c);
        assert u in all;
      }
    }
  }

  lemma PickedPooled(txs: Txs, picked: seq<Txid>)
    requires AncestorsFirst(txs, picked)
    ensures Elements(picked) <= txs.Keys
  {
  }

  lemma ProposalDrops(before: Txs, cur: Txs, after: Txs, chosen: seq<Txid>, root: Txid, picked: seq<Txid>, t: Txid)
    requires Wired(before) && Wired(cur) && Remains(before, cur)
    requires PackageTaken(cur, after, root, picked) && t in cur && t !in after
    ensures t in picked || Dropped(before, chosen + picked, t)
  {
    hide Ancestors, AncestorsFirst, Cluster, Wired, SpenderClosed;
    if t !in picked {
      assert t in cur.Keys - Elements(picked) - after.Keys;
      var c :| c in cur[root].info.conflictsWith && t in Cluster(cur, c);
      ClusterMonotone(before, cur, c);
      assert root in Elements(picked);
      assert root in chosen + picked && c in before[root].info.conflictsWith;
    }
  }

  // ---- weight ----

  function ChargedWeight(rate: FeeRate): nat {
    rate.vsize * WITNESS_SCALE_FACTOR
  }

  /** The modified weights of the chosen transactions and the remaining weight stay within the limit. */
  ghost predicate Budget(before: Txs, chosen: seq<Txid>, remaining: nat, limit: nat) {
    Sum(Elements(chosen), Own(before)).weight + remaining <= limit
  }

  lemma AddAssociative(a: Totals, b: Totals, c: Totals)
    ensures Add(a, Add(b, c)) == Add(b, Add(a, c)) && Add(a, ZERO) == a
  {
  }

  lemma {:induction false} SumDisjoint(s: set<Txid>, t: set<Txid>, f: Measure)
    requires s !! t
    ensures Sum(s + t, f) == Add(Sum(s, f), Sum(t, f))
    decreases |t|
  {
    hide Sum, Add, At;
    if t == {} {
      SumNothing(f);
      AddAssociative(Sum(s, f), ZERO, ZERO);
      assert s + t == s;
    } else {
      var x :| x in t;
      SumSplit(s + t, f, x);
      SumSplit(t, f, x);
      assert s + t - {x} == s + (t - {x});
      SumDisjoint(s, t - {x}, f);
      AddAssociative(At(f, x), Sum(s, f), Sum(t - {x}, f));
    }
  }

  lemma SumNothing(f: Measure)
    ensures Sum({}, f) == ZERO
  {
  }

  lemma RoundUp(w: nat)
    ensures w <= VbytesCeil(w) * WITNESS_SCALE_FACTOR
  {
  }

  lemma BudgetSteps(before: Txs, cur: Txs, chosen: seq<Txid>, root: Txid, picked: seq<Txid>, remaining: nat, limit: nat)
    requires PoolValid(cur) && Remains(before, cur) && root in cur
    requires Elements(chosen) !! cur.Keys
    requires Elements(picked) == Ancestors(cur, root) + {root}
    requires Fits(RateOf(cur[root].info), remaining) && Budget(before, chosen, remaining, limit)
    ensures ChargedWeight(RateOf(cur[root].info)) <= remaining
    ensures Budget(before, chosen + picked, remaining - ChargedWeight(RateOf(cur[root].info)), limit)
  {
    hide Reaches, ReachSet, Wired, Acyclic, Sum, Remains;
    ConcatElements(chosen, picked);
    RelativesInPool(cur, root);
    NotOwnRelative(cur, root);
    RemainsOwn(before, cur, Ancestors(cur, root) + {root});
    SumInsert(Ancestors(cur, root), Own(cur), root);
    SumDisjoint(Elements(chosen), Elements(picked), Own(before));
    RoundUp(cur[root].info.ancestor.weight);
    assert Leq(AncestorTotals(cur, root), cur[root].info.ancestor);
  }

  lemma RemainsOwn(before: Txs, cur: Txs, s: set<Txid>)
    requires Remains(before, cur) && s <= cur.Keys
    ensures Sum(s, Own(before)) == Sum(s, Own(cur))
  {
    SumAgree(s, Own(before), Own(cur));
  }

  // ---- conflicts ----

  /**
   * Conflict sets a proposal can rely on: a parent's conflicts are its child's, a conflict is
   * known on both sides, and no transaction conflicts with itself or an ancestor.
   */
  ghost predicate ConflictsSound(txs: Txs) {
    && (forall t, p :: t in txs && p in txs[t].info.depends && p in txs ==> txs[p].info.conflictsWith <= txs[t].info.conflictsWith)
    && (forall u, v :: u in txs && v in txs && v in txs[u].info.conflictsWith ==> Mutual(txs, u, v))
    && (forall u :: u in txs ==> txs[u].info.conflictsWith !! Ancestors(txs, u) + {u})
  }

  /** Some ancestor-or-self of `u` and `v` name each other as conflicts. */
  ghost predicate Mutual(txs: Txs, u: Txid, v: Txid) {
    v in txs && exists a :: a in Ancestors(txs, u) + {u} && a in txs
                            && v in txs[a].info.conflictsWith && a in txs[v].info.conflictsWith
  }

  ghost predicate NoConflicts(before: Txs, chosen: seq<Txid>) {
    forall u, w :: u in chosen && u in before && w in chosen ==> w !in before[u].info.conflictsWith
  }

  type Pairs = set<(Txid, Txid)>

  /** A parent's conflicts are its child's. */
  ghost predicate Inherited(txs: Txs) {
    forall t, p :: t in txs && p in txs[t].info.depends && p in txs ==> txs[p].info.conflictsWith <= txs[t].info.conflictsWith
  }

  /** No transaction and its ancestors hold a pair. */
  ghost predicate NonePaired(txs: Txs, pairs: Pairs, t: Txid) {
    forall u, w :: (u, w) in pairs && u in Ancestors(txs, t) + {t} ==> w !in Ancestors(txs, t) + {t}
  }

  /** What keeps the given pairs out of every proposal: the pairs are known on both sides, conflicts are inherited, and
      no transaction has a pair among itself and its ancestors. */
  ghost predicate PairsApart(txs: Txs, pairs: Pairs) {
    && Inherited(txs)
    && (forall u, w :: (u, w) in pairs ==> (w, u) in pairs)
    && (forall u, w :: (u, w) in pairs && u in txs && w in txs ==> w in txs[u].info.conflictsWith)
    && (forall t :: t in txs ==> NonePaired(txs, pairs, t))
  }

  /** The partners of chosen transactions are neither pooled nor chosen. */
  ghost predicate PairFree(pairs: Pairs, cur: Txs, chosen: seq<Txid>) {
    && (forall u, w :: (u, w) in pairs && u in chosen ==> w !in cur)
    && NoPairs(pairs, chosen)
  }

  ghost predicate NoPairs(pairs: Pairs, chosen: seq<Txid>) {
    forall u, w :: (u, w) in pairs && u in chosen ==> w !in chosen
  }

  /** Conflicts grow from ancestor to descendant. */
  lemma ConflictsInherited(txs: Txs, t: Txid, a: Txid)
    requires Wired(txs) && Inherited(txs) && t in txs && a in Ancestors(txs, t)
    ensures a in txs && txs[a].info.conflictsWith <= txs[t].info.conflictsWith
  {
    hide Reaches, ReachSet;
    var g := DependsGraph(txs);
    var s := set x | x in txs && txs[x].info.conflictsWith <= txs[t].info.conflictsWith;
    forall x | x in s ensures Out(g, x) <= s {
    }
    assert Closed(g, s) && Out(g, t) <= s;
    ReachSetLeast(g, t, s);
  }

  /** Picking a package and evicting its root's conflicts keeps the pairs out of the proposal. */
  lemma PairFreeSteps(before: Txs, cur: Txs, after: Txs, pairs: Pairs, chosen: seq<Txid>, root: Txid, picked: seq<Txid>)
    requires Wired(before) && Wired(cur) && Proposal(before, cur, chosen)
    requires PackageTaken(cur, after, root, picked)
    requires PairsApart(before, pairs) && PairFree(pairs, cur, chosen)
    ensures PairFree(pairs, after, chosen + picked)
  {
    hide Reaches, ReachSet, Ancestors, Wired, Proposal, Cluster, SpenderClosed, Remains, AncestorsFirst, Inherited, NonePaired;
    ProposalRemains(before, cur, chosen);
    PackageRemains(cur, after, root, picked);
    PickedPooled(cur, picked);
    forall x ensures x in picked <==> x in Elements(picked) {
    }
    RemainsAncestors(before, cur, root);
    forall u, w | (u, w) in pairs && u in picked ensures w !in after && w !in picked {
      if u != root { ConflictsInherited(before, root, u); }
      PairApart(before, pairs, root, u, w);
    }
  }

  lemma PairApart(txs: Txs, pairs: Pairs, t: Txid, u: Txid, w: Txid)
    requires PairsApart(txs, pairs) && t in txs && (u, w) in pairs && u in Ancestors(txs, t) + {t}
    ensures w !in Ancestors(txs, t) + {t}
  {
    hide Ancestors, Inherited;
    assert NonePaired(txs, pairs, t);
  }

  lemma ProposalRemains(before: Txs, cur: Txs, chosen: seq<Txid>)
    requires Proposal(before, cur, chosen)
    ensures Remains(before, cur) && cur.Keys <= before.Keys
    ensures forall t :: t in cur ==> t in before && cur[t].info.conflictsWith == before[t].info.conflictsWith
  {
  }

  lemma PackageRemains(cur: Txs, after: Txs, root: Txid, picked: seq<Txid>)
    requires PackageTaken(cur, after, root, picked)
    ensures after.Keys <= cur.Keys && cur[root].info.conflictsWith !! after.Keys
  {
  }

  /** What is left of a pool keeps apart what the pool kept apart. */
  lemma RemainsApart(txs: Txs, after: Txs, pairs: Pairs, fewer: Pairs)
    requires Wired(txs) && Wired(after) && Remains(txs, after) && PairsApart(txs, pairs)
    requires fewer <= pairs && forall u, w :: (u, w) in fewer ==> (w, u) in fewer
    ensures PairsApart(after, fewer)
  {
    hide Ancestors;
    forall t | t in after ensures NonePaired(after, fewer, t) {
      RemainsAncestors(txs, after, t);
      assert NonePaired(txs, pairs, t);
    }
    forall t, p | t in after && p in after[t].info.depends && p in after
      ensures after[p].info.conflictsWith <= after[t].info.conflictsWith
    {
      assert p in txs[t].info.depends;
    }
  }

  // ---- inherited conflicts ----

  /** The transactions that name each other as conflicts. */
  ghost function MutualPairs(txs: Txs): Pairs {
    set u, w | u in txs && w in txs && w in txs[u].info.conflictsWith && u in txs[w].info.conflictsWith :: (u, w)
  }

  lemma SoundMutual(txs: Txs, t: Txid, u: Txid, w: Txid)
    requires Wired(txs) && ConflictsSound(txs) && t in txs && (u, w) in MutualPairs(txs) && u in Ancestors(txs, t) + {t}
    ensures w !in Ancestors(txs, t) + {t}
  {
    hide Ancestors, Mutual;
    if u != t { ConflictsInherited(txs, t, u); }
  }

  /** Sound conflict sets keep apart all that name each other. */
  lemma SoundApart(txs: Txs)
    requires Wired(txs) && ConflictsSound(txs)
    ensures PairsApart(txs, MutualPairs(txs))
  {
    hide Ancestors, Mutual;
    forall t | t in txs ensures NonePaired(txs, MutualPairs(txs), t) {
      forall u, w | (u, w) in MutualPairs(txs) && u in Ancestors(txs, t) + {t} ensures w !in Ancestors(txs, t) + {t} {
        SoundMutual(txs, t, u, w);
      }
    }
  }

  /** With sound conflict sets, keeping apart all that name each other keeps apart all conflicts, inherited ones included. */
  lemma NoPairsNoConflicts(txs: Txs, chosen: seq<Txid>)
    requires ConflictsSound(txs) && AncestorsFirst(txs, chosen) && NoPairs(MutualPairs(txs), chosen)
    ensures NoConflicts(txs, chosen)
  {
    hide Ancestors, AncestorsFirst, ConflictsSound, MutualPairs;
    FirstClosed(txs, chosen);
    forall u, w | u in chosen && u in txs && w in chosen && w in txs[u].info.conflictsWith ensures false {
      MutualChosen(txs, chosen, u, w);
    }
  }

  /** Behind a conflict of `u` with `w` stands `u` or an ancestor, chosen as well, that names `w` and is named by it. */
  lemma MutualChosen(txs: Txs, chosen: seq<Txid>, u: Txid, w: Txid)
    requires ConflictsSound(txs) && u in txs && w in txs && w in txs[u].info.conflictsWith
    requires u in chosen && Ancestors(txs, u) <= Elements(chosen)
    ensures exists a :: a in chosen && (a, w) in MutualPairs(txs)
  {
    hide Ancestors;
    assert Mutual(txs, u, w);
    var a :| a in Ancestors(txs, u) + {u} && a in txs && w in txs[a].info.conflictsWith && a in txs[w].info.conflictsWith;
    assert a in Elements(chosen) by { assert u in Elements(chosen); }
  }

  // ---- the greedy trace ----

  /** One round: in pool `before`, `root` was the best slot that fits `remaining`; `picked` was taken and `after` left. */
  datatype Round = Round(before: Txs, root: Txid, remaining: nat, picked: seq<Txid>, after: Txs)

  ghost predicate RoundGreedy(r: Round) {
    && r.root in r.before
    && Best(SlotsFor(r.before), Slot(RateOf(r.before[r.root].info), r.root), r.remaining)
    && PackageTaken(r.before, r.after, r.root, r.picked)
  }

  /** The rounds lead from `start` with weight `limit` to `end` with weight `left`, choosing `chosen` on the way. */
  ghost predicate Greedy(rounds: seq<Round>, start: Txs, limit: nat, end: Txs, left: nat, chosen: seq<Txid>)
    decreases |rounds|
  {
    if rounds == [] then start == end && left == limit && chosen == []
    else
      var last := rounds[|rounds| - 1];
      && RoundGreedy(last)
      && last.after == end
      && |last.picked| <= |chosen| && chosen[|chosen| - |last.picked|..] == last.picked
      && left + ChargedWeight(RateOf(last.before[last.root].info)) == last.remaining
      && Greedy(rounds[..|rounds| - 1], start, limit, last.before, last.remaining, chosen[..|chosen| - |last.picked|])
  }

  lemma GreedyMore(rounds: seq<Round>, start: Txs, limit: nat, end: Txs, left: nat, chosen: seq<Txid>, next: Round)
    requires Greedy(rounds, start, limit, end, left, chosen)
    requires RoundGreedy(next) && next.before == end && next.remaining == left
    requires ChargedWeight(RateOf(end[next.root].info)) <= left
    ensures Greedy(rounds + [next], start, limit, next.after, left - ChargedWeight(RateOf(end[next.root].info)), chosen + next.picked)
  {
    hide RoundGreedy;
    assert (rounds + [next])[..|rounds|] == rounds;
    var all := chosen + next.picked;
    assert all[..|all| - |next.picked|] == chosen;
    assert all[|all| - |next.picked|..] == next.picked;
  }

  // ---- what the greedy choice means ----

  /** The virtual size of a transaction with its ancestors: a quarter of their weight, rounded up. */
  ghost function PackageSize(txs: Txs, t: Txid): nat {
    (AncestorTotals(txs, t).weight + 3) / 4
  }

  ghost predicate PackageFits(txs: Txs, t: Txid, remaining: nat) {
    4 * PackageSize(txs, t) <= remaining
  }

  /** What a transaction with its ancestors pays by size. */
  ghost function Quotient(txs: Txs, t: Txid): real {
    if PackageSize(txs, t) == 0 then 0.0 else AncestorTotals(txs, t).fee as real / PackageSize(txs, t) as real
  }

  /** Of the packages that fit none pays more by size, and none that pays as much is larger. */
  ghost predicate BestPackage(txs: Txs, root: Txid, remaining: nat) {
    && root in txs && PackageFits(txs, root, remaining)
    && forall t :: t in txs && PackageFits(txs, t, remaining) ==>
         || Quotient(txs, t) < Quotient(txs, root)
         || (Quotient(txs, t) == Quotient(txs, root) && PackageSize(txs, t) <= PackageSize(txs, root))
  }

  /** Where cached totals are exact, the rate of an entry is what its package pays. */
  lemma RateIsPackage(txs: Txs, t: Txid, remaining: nat)
    requires PoolValid(txs) && AncestorsExact(txs) && t in txs && remaining <= U64_MAX
    ensures RateOf(txs[t].info) == FeeRate(AncestorTotals(txs, t).fee, PackageSize(txs, t)) && PackageSize(txs, t) > 0
    ensures Fits(RateOf(txs[t].info), remaining) <==> PackageFits(txs, t, remaining)
    ensures ChargedWeight(RateOf(txs[t].info)) == 4 * PackageSize(txs, t)
  {
    hide Sum, Ancestors, Wired, Acyclic, Covered;
  }

  lemma BestIsBestPackage(txs: Txs, root: Txid, remaining: nat)
    requires PoolValid(txs) && AncestorsExact(txs) && root in txs && remaining <= U64_MAX
    requires Best(SlotsFor(txs), Slot(RateOf(txs[root].info), root), remaining)
    ensures BestPackage(txs, root, remaining)
  {
    hide PoolValid, AncestorsExact, AncestorTotals, RateOf, FeeRates.Below, PackageFits, PackageSize, Fits, SlotsFor;
    RateIsPackage(txs, root, remaining);
    forall t | t in txs && PackageFits(txs, t, remaining)
      ensures Quotient(txs, t) < Quotient(txs, root)
              || (Quotient(txs, t) == Quotient(txs, root) && PackageSize(txs, t) <= PackageSize(txs, root))
    {
      RateIsPackage(txs, t, remaining);
      SlotIn(txs, Slot(RateOf(txs[t].info), t));
      RefinesQuotient(RateOf(txs[root].info), RateOf(txs[t].info));
    }
  }

  /** Round by round the best package that fits is taken, and its rounded weight taken off. */
  ghost predicate BestRounds(rounds: seq<Round>, limit: nat, left: nat)
    decreases |rounds|
  {
    if rounds == [] then left == limit else
    var last := rounds[|rounds| - 1];
    && BestPackage(last.before, last.root, last.remaining)
    && left + 4 * PackageSize(last.before, last.root) == last.remaining
    && BestRounds(rounds[..|rounds| - 1], limit, last.remaining)
  }

  lemma BestRoundsMore(rounds: seq<Round>, limit: nat, left: nat, next: Round)
    requires PoolValid(next.before) && AncestorsExact(next.before) && left <= U64_MAX
    requires BestRounds(rounds, limit, left) && RoundGreedy(next) && next.remaining == left
    requires ChargedWeight(RateOf(next.before[next.root].info)) <= left
    ensures BestRounds(rounds + [next], limit, left - ChargedWeight(RateOf(next.before[next.root].info)))
  {
    hide PoolValid, AncestorsExact, BestPackage, PackageSize, Best, PackageTaken;
    BestIsBestPackage(next.before, next.root, left);
    RateIsPackage(next.before, next.root, left);
    assert (rounds + [next])[..|rounds|] == rounds;
  }

  lemma NoPackageFits(txs: Txs, remaining: nat)
    requires PoolValid(txs) && remaining <= U64_MAX
    requires forall t :: t in txs ==> !Fits(RateOf(txs[t].info), remaining)
    ensures AncestorsExact(txs) ==> forall t :: t in txs ==> 4 * ((AncestorTotals(txs, t).weight + 3) / 4) > remaining
  {
    hide PoolValid, AncestorsExact, AncestorTotals, RateOf, Fits;
    if AncestorsExact(txs) {
      forall t | t in txs ensures 4 * ((AncestorTotals(txs, t).weight + 3) / 4) > remaining {
        RateIsPackage(txs, t, remaining);
      }
    }
  }
}
