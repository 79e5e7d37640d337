/** The mempool: pool entries with their fee-rate index and child map. */
module Mempools {
  import opened Types
  import opened LinkedSets
  import opened Graph
  import opened TotalsSums
  import opened FeeRates
  import opened FeeRateIndex
  import opened PoolTxs
  import opened PoolInsert
  import opened PoolRemove
  import opened PoolCluster
  import opened PoolFilter
  import opened PoolPackage
  import opened PoolProposal
  import opened TxChildsMap
  import opened AncestorWalks
  import opened Traversal
  import opened DescendantTraversal

  datatype MempoolError =
    | TxAlreadyExists(txid: Txid)
    | MissingAncestor(missing: Txid)
    | MissingDescendant(missing: Txid)
    | MissingByAncestorFeeRateKey(rate: FeeRate)

  datatype Result<+T> = Ok(value: T) | Err(error: MempoolError)

  /** `Weight::MAX_BLOCK`. */
  const MAX_BLOCK_WEIGHT: nat := 4_000_000

  const COINBASE_TXIN_WEIGHT: nat := WITNESS_SCALE_FACTOR * (36 + 4 + 5) + (1 + 1 + 32)

  /** Version, locktime, segwit marker and flag, input count, input, output count. */
  const COINBASE_TX_WEIGHT: nat :=
    WITNESS_SCALE_FACTOR * 4 + WITNESS_SCALE_FACTOR * 4 + 2 + WITNESS_SCALE_FACTOR * 1 + COINBASE_TXIN_WEIGHT + WITNESS_SCALE_FACTOR * 1

  /** What is left for transactions and coinbase outputs after the header, the tx count and the bare coinbase. */
  const MAX_USABLE_BLOCK_WEIGHT: nat :=
    MAX_BLOCK_WEIGHT - WITNESS_SCALE_FACTOR * 80 - WITNESS_SCALE_FACTOR * 3 - COINBASE_TX_WEIGHT

  /** An entry of a block template; `depends` are 0-based positions of earlier entries. */
  datatype TemplateTx = TemplateTx(txid: Txid, depends: seq<nat>, fee: nat, weight: nat)

  /** The positions, in ascending order, of all ancestors of `t` in `list`. */
  ghost predicate AncestorPositions(txs: Txs, list: seq<Txid>, t: Txid, positions: seq<nat>) {
    && Sorted(positions)
    && forall i: nat :: i in positions <==> i < |list| && list[i] in Ancestors(txs, t)
  }

  /** The template lists the chosen transactions, each with the positions of all its ancestors before it. */
  ghost predicate TemplateOf(txs: Txs, chosen: seq<Txid>, template: seq<TemplateTx>) {
    && |template| == |chosen|
    && forall j :: 0 <= j < |chosen| ==> TemplateEntry(txs, chosen, j, template[j])
  }

  ghost predicate TemplateEntry(txs: Txs, chosen: seq<Txid>, j: nat, entry: TemplateTx)
    requires j < |chosen|
  {
    && chosen[j] in txs
    && entry.txid == chosen[j]
    && entry.fee == txs[chosen[j]].info.own.fee
    && entry.weight == txs[chosen[j]].tx.weight
    && AncestorPositions(txs, chosen[..j], chosen[j], entry.depends)
    && |entry.depends| == |Ancestors(txs, chosen[j])|
  }

  datatype FilterOutcome =
    | Filtered(removed: seq<Transaction>)
    | CallerFailed
    | PoolFailed(error: MempoolError)

  /** Each pool transaction has exactly the slot its cached ancestor totals call for. */
  ghost predicate IndexAgrees(index: ByAncestorFeeRate, txs: Txs)
    reads index
  {
    index.Valid() && index.Slots() == SlotsFor(txs)
  }

  /** One of the first `i` inputs spends an output of `p`. */
  ghost predicate SpentBefore(tx: Transaction, i: nat, p: Txid) {
    exists k :: 0 <= k < i <= |tx.input| && tx.input[k].txid == p
  }

  class Mempool {
    const byAncestorFeeRate: ByAncestorFeeRate
    const txChilds: TxChilds
    var txs: Txs

    ghost predicate Valid()
      reads this, byAncestorFeeRate, txChilds
    {
      && PoolValid(txs)
      && IndexAgrees(byAncestorFeeRate, txs)
      && ChildsAgree(txChilds.childs, txs)
    }

    constructor ()
      ensures Valid() && txs == map[] && fresh(byAncestorFeeRate) && fresh(txChilds)
    {
      byAncestorFeeRate := new ByAncestorFeeRate();
      txChilds := new TxChilds();
      txs := map[];
      new;
      EmptyPoolValid();
    }

    // ---- removal ----

    /** Takes `txid` out of the child sets of everything it spends. */
    method UnlinkInputs(tx: Transaction)
      requires ChildsAgree(txChilds.childs, txs)
      modifies txChilds
      ensures forall p :: ChildsOf(txChilds.childs, p) == Spenders(txs, p) - (if p in tx.Parents() then {tx.txid} else {})
      ensures forall p :: p in txChilds.childs ==> txChilds.childs[p] != {}
    {
      var i := 0;
      while i < |tx.input|
        invariant 0 <= i <= |tx.input|
        invariant forall p ::
                    ChildsOf(txChilds.childs, p) == Spenders(txs, p) - (if SpentBefore(tx, i, p) then {tx.txid} else {})
        invariant forall p :: p in txChilds.childs ==> txChilds.childs[p] != {}
      {
        var _ := txChilds.Remove(tx.input[i].txid, tx.txid);
        i := i + 1;
      }
    }

    /** Moves a descendant to the fee rate it has without the removed transaction. */
    method UnlinkFromAncestor(d: Txid, x: Txid, own: Totals) returns (r: Result<()>)
      requires d in txs && IndexAgrees(byAncestorFeeRate, txs)
      requires CanDebit(txs[d].info.ancestor, own)
      requires own.weight < txs[d].info.ancestor.weight
      modifies this`txs, byAncestorFeeRate
      ensures r.Ok?
      ensures txs == old(txs)[d := Entry(old(txs)[d].tx, UnlinkedFromAncestor(old(txs)[d].info, x, own))]
      ensures IndexAgrees(byAncestorFeeRate, txs)
    {
      var entry := txs[d];
      SlotIn(txs, Slot(RateOf(entry.info), d));
      var removed := byAncestorFeeRate.Remove(RateOf(entry.info), d);
      if !removed {
        return Err(MissingByAncestorFeeRateKey(RateOf(entry.info)));
      }
      var info := UnlinkedFromAncestor(entry.info, x, own);
      SlotsUpdated(txs, d, Entry(entry.tx, info));
      byAncestorFeeRate.Insert(RateOf(info), d);
      txs := txs[d := Entry(entry.tx, info)];
      return Ok(());
    }

    /** Takes the removed transaction out of its descendants' ancestor totals, re-indexing each. */
    method DebitFromDescendants(x: Txid, own: Totals) returns (r: Result<()>)
      requires PoolValid(txs) && IndexAgrees(byAncestorFeeRate, txs)
      requires x in txs && own == txs[x].info.own
      modifies this`txs, byAncestorFeeRate
      ensures r.Ok?
      ensures txs == DebitAncestors(old(txs), Descendants(old(txs), x), x, own)
      ensures IndexAgrees(byAncestorFeeRate, txs)
    {
      hide *;
      ghost var before, graph := txs, SpenderGraph(txs);
      DescendantFacts(before, x);
      var descendants := new DescendantsIter(x, graph);
      var first := descendants.Next(txs);
      if first.Missing? {
        return Err(MissingDescendant(x));
      }
      assert descendants.seen == {x};
      DebitNobody(before, x, own);
      while true
        invariant fresh(descendants) && descendants.Valid()
        invariant descendants.graph == graph && descendants.root == x
        invariant x in descendants.seen && descendants.seen <= Descendants(before, x) + {x}
        invariant txs == DebitAncestors(before, descendants.seen - {x}, x, own)
        invariant IndexAgrees(byAncestorFeeRate, txs)
        decreases Descendants(before, x) + {x} - descendants.seen
      {
        DebitAncestorsGraph(before, descendants.seen - {x}, x, own);
        ghost var seen := descendants.seen;
        var step := descendants.Next(txs);
        match step {
          case Done =>
            assert seen - {x} == Descendants(before, x);
            return Ok(());
          case Missing(_) =>
            return Err(MissingDescendant(x));
          case Yield(d) =>
            InReachSet(graph, x, d);
            DebitAncestorsStep(before, seen - {x}, x, own, d);
            assert seen + {d} - {x} == seen - {x} + {d};
            var unlinked := UnlinkFromAncestor(d, x, own);
            if unlinked.Err? {
              return Err(MissingDescendant(x));
            }
        }
      }
    }

    /** Takes the removed transaction out of its ancestors' descendant totals. */
    method DebitFromAncestors(x: Txid, own: Totals, ghost original: Txs) returns (r: Result<()>)
      requires PoolValid(original) && x in original && own == original[x].info.own
      requires txs == DebitAncestors(original, Descendants(original, x), x, own)
      modifies this`txs
      ensures r.Ok?
      ensures txs == DebitDescendants(old(txs), Ancestors(original, x), x, own)
    {
      hide *;
      ghost var before, graph := txs, DependsGraph(txs);
      AncestorFacts(original, before, x, own);
      var ancestors := new AncestorsIter(x, graph);
      DebitNoAncestor(before, x, own);
      while true
        invariant fresh(ancestors) && ancestors.Valid()
        invariant ancestors.graph == graph && ancestors.root == x
        invariant ancestors.seen <= Ancestors(original, x)
        invariant txs == DebitDescendants(before, ancestors.seen, x, own)
        decreases Ancestors(original, x) - ancestors.seen
      {
        DebitDescendantsGraph(before, ancestors.seen, x, own);
        ghost var seen := ancestors.seen;
        var step := ancestors.Next(txs);
        match step {
          case Done =>
            return Ok(());
          case Missing(_) =>
            return Err(MissingAncestor(x));
          case Yield(a) =>
            DebitDescendantsStep(before, seen, x, own, a);
            assert CanDebit(txs[a].info.descendant, own);
            txs := txs[a := Entry(txs[a].tx, UnlinkedFromDescendant(txs[a].info, x, own))];
        }
      }
    }

    /** Removes a transaction; its descendants stay in the pool and are updated. */
    method Remove(txid: Txid) returns (r: Result<Option<Entry>>)
      requires Valid()
      modifies this`txs, byAncestorFeeRate, txChilds
      ensures Valid()
      ensures r == Ok(if txid in old(txs) then Some(old(txs)[txid]) else None)
      ensures txs == AfterRemove(old(txs), txid)
    {
      hide *;
      ghost var before := txs;
      ValidParts();
      AfterRemoveValid(before, txid);
      if txid !in txs {
        AfterRemoveAbsent(before, txid);
        return Ok(None);
      }
      var entry := txs[txid];
      var own := entry.info.own;
      RemoveFacts(before, txid);
      UnlinkInputs(entry.tx);
      var below := DebitFromDescendants(txid, own);
      if below.Err? {
        return Err(MissingDescendant(txid));
      }
      ghost var unlinked := txs;
      var above := DebitFromAncestors(txid, own, before);
      if above.Err? {
        return Err(MissingAncestor(txid));
      }
      OwnSlotRemains(before, txid);
      var removed := RemoveFromIndex(RateOf(entry.info), txid, unlinked);
      if !removed {
        return Err(MissingByAncestorFeeRateKey(RateOf(entry.info)));
      }
      txs := txs - {txid};
      AfterRemoveChilds(before, txid, txChilds.childs);
      MakeValid();
      return Ok(Some(entry));
    }

    method RemoveFromIndex(rate: FeeRate, txid: Txid, ghost pool: Txs) returns (removed: bool)
      requires IndexAgrees(byAncestorFeeRate, pool)
      requires txid in pool && rate == RateOf(pool[txid].info) && rate.vsize > 0
      modifies byAncestorFeeRate
      ensures removed
      ensures IndexAgrees(byAncestorFeeRate, pool - {txid})
    {
      SlotIn(pool, Slot(rate, txid));
      SlotsWithout(pool, txid);
      removed := byAncestorFeeRate.Remove(rate, txid);
    }

    /** The spenders of a transaction (pooled or not), in the arbitrary order a hash set is iterated in. */
    method Children(txid: Txid) returns (children: seq<Txid>)
      requires ChildsAgree(txChilds.childs, txs)
      ensures Distinct(children) && Elements(children) == Spenders(txs, txid)
    {
      children := AnyOrder(ChildsOf(txChilds.childs, txid));
    }

    /** Removes a transaction, if present, and everything that spends it, directly or through others. */
    method RemoveWithDescendants(txid: Txid) returns (r: Result<seq<Transaction>>)
      requires Valid()
      modifies this`txs, byAncestorFeeRate, txChilds
      ensures Valid()
      ensures r.Ok? && Enumerates(old(txs), r.value)
      ensures TxidsOf(r.value) == Cluster(old(txs), txid)
      ensures txs.Keys == old(txs).Keys - Cluster(old(txs), txid)
      ensures Remains(old(txs), txs)
      ensures AncestorsUntouched(old(txs), txs, Cluster(old(txs), txid))
      ensures CascadeOrder(old(txs), txid, OrderOf(r.value)) && txs == RemoveAll(old(txs), OrderOf(r.value))
    {
      hide *;
      ghost var before := txs;
      ValidParts();
      PoolParts(before);
      var res := [];
      var root := Remove(txid);
      if root.Err? {
        return Err(MissingDescendant(txid));
      }
      if root.value.Some? {
        res := [root.value.value.tx];
      }
      ValidParts();
      var children := Children(txid);
      var queue := Extend([], children);
      ExtendNothing(children);
      CascadeStarts(before, txid, queue);
      RootListed(before, txid, res);
      RemoveAllFirst(before, txid, res);
      while queue != []
        invariant Valid()
        invariant txs == RemoveAll(before, OrderOf(res))
        invariant Cascade(before, txs, txid, res, queue)
        invariant txid in before ==> txid in TxidsOf(res)
        decreases txs.Keys
      {
        var next := queue[0];
        ghost var cur := txs;
        ValidParts();
        PoolParts(cur);
        QueuePooled(before, cur, txid, res, queue);
        AfterRemoveKeys(cur, next);
        var removed := Remove(next);
        if removed.Err? {
          return Err(MissingDescendant(next));
        }
        ghost var listed := res;
        if removed.value.Some? {
          res := res + [removed.value.value.tx];
        }
        ValidParts();
        children := Children(next);
        var rest := queue[1..];
        ExtendFacts(rest, children);
        CascadeSteps(before, cur, txid, listed, queue, Extend(rest, children));
        ListedMore(listed, removed.value.value.tx);
        RemoveAllMore(before, listed, removed.value.value.tx);
        queue := Extend(rest, children);
      }
      CascadeEnds(before, txs, txid, res);
      CascadeResult(before, txs, txid, res);
      CascadeOrdered(before, txid, res);
      return Ok(res);
    }

    // ---- block proposal ----

    /** Removes the conflicts of a transaction, each with its descendants. */
    method EvictConflicts(conflicts: set<Txid>) returns (r: Result<()>)
      requires Valid()
      modifies this`txs, byAncestorFeeRate, txChilds
      ensures Valid() && r.Ok?
      ensures Evicts(old(txs), txs, conflicts)
      ensures AncestorsExact(old(txs)) ==> AncestorsExact(txs)
    {
      hide *;
      ghost var base := txs;
      ghost var done: set<Txid> := {};
      ValidParts();
      PoolParts(base);
      var order := Ascending(conflicts);
      AscendingFacts(conflicts);
      PrefixNone(order);
      EvictsNothing(base);
      for i := 0 to |order|
        invariant Valid() && done == Prefix(order, i)
        invariant Evicts(base, txs, done)
        invariant AncestorsExact(base) ==> AncestorsExact(txs)
      {
        var conflict := order[i];
        PrefixStep(order, i);
        ghost var cur := txs;
        ValidParts();
        PoolParts(cur);
        var removed := RemoveWithDescendants(conflict);
        if removed.Err? {
          return Err(MissingDescendant(conflict));
        }
        EvictsMore(base, cur, txs, done, conflict);
        ValidParts();
        PoolParts(txs);
        if AncestorsExact(cur) {
          ClosedRemovalExact(cur, txs, Cluster(cur, conflict));
        }
        done := done + {conflict};
      }
      PrefixAll(order, conflicts);
      return Ok(());
    }

    /** Picks a transaction after its in-pool ancestors, removing each from the pool, and then evicts its conflicts. */
    method AddPackage(root: Txid) returns (r: Result<seq<Txid>>)
      requires Valid() && root in txs
      modifies this`txs, byAncestorFeeRate, txChilds
      ensures Valid() && r.Ok?
      ensures PackageTaken(old(txs), txs, root, r.value)
      ensures AncestorsExact(old(txs)) ==> AncestorsExact(txs)
    {
      hide *;
      ghost var base := txs;
      ValidParts();
      PoolParts(base);
      var picked: seq<Txid> := [];
      var toAdd := [Visit(root, false)];
      ghost var open := OpenTxids(toAdd);
      PickingStarts(base, root);
      while toAdd != []
        invariant Valid()
        invariant AncestorsExact(base) ==> AncestorsExact(txs)
        invariant toAdd != [] ==> Picking(base, txs, root, toAdd, picked)
        invariant toAdd == [] ==> PackageTaken(base, txs, root, picked)
        decreases txs.Keys, txs.Keys - OpenTxids(toAdd), |toAdd|
      {
        ghost var cur, stack := txs, toAdd;
        ValidParts();
        PoolParts(cur);
        var Visit(txid, parentsVisited) := toAdd[|toAdd| - 1];
        toAdd := toAdd[..|toAdd| - 1];
        if parentsVisited {
          PickingPicks(base, cur, root, stack, picked);
          AfterRemoveKeys(cur, txid);
          var removed := Remove(txid);
          if removed.Err? {
            return Err(MissingAncestor(txid));
          }
          // The transaction is pooled, so this is never `None`.
          var entry := removed.value.value;
          picked := picked + [txid];
          if AncestorsExact(cur) {
            ParentlessExact(cur, txid);
          }
          if toAdd == [] {
            LastIsRoot(base, cur, root, stack, picked);
            ghost var mid := txs;
            ValidParts();
            PoolParts(mid);
            var evicted := EvictConflicts(entry.info.conflictsWith);
            if evicted.Err? {
              return Err(MissingDescendant(txid));
            }
            EvictedKeys(mid, txs, entry.info.conflictsWith);
            PackageEnds(base, mid, txs, root, picked);
          }
        } else {
          if txid !in txs {
            PickingSkips(base, cur, root, stack, picked);
            SkippedOpen(base, cur, root, stack, picked);
            continue;
          }
          var depends := Ascending(txs[txid].info.depends);
          AscendingFacts(txs[txid].info.depends);
          PickingExpands(base, cur, root, stack, picked, depends);
          ExpandedOpen(base, cur, root, stack, picked, depends);
          toAdd := toAdd + [Visit(txid, true)] + Unvisited(depends);
        }
      }
      return Ok(picked);
    }

    /**
     * Chooses transactions for a block, taking them out of the pool: repeatedly the best-paying
     * package that fits, until none fits.
     */
    method ProposeTxsMut(weightLimit: Option<nat>) returns (r: Result<seq<Txid>>, ghost remaining: nat, ghost rounds: seq<Round>)
      requires Valid()
      modifies this`txs, byAncestorFeeRate, txChilds
      ensures Valid() && r.Ok?
      ensures Proposal(old(txs), txs, r.value)
      ensures Budget(old(txs), r.value, remaining, UsableLimit(weightLimit))
      ensures forall t :: t in txs ==> !Fits(RateOf(txs[t].info), remaining)
      ensures Greedy(rounds, old(txs), UsableLimit(weightLimit), txs, remaining, r.value)
      ensures forall pairs :: PairsApart(old(txs), pairs) ==> NoPairs(pairs, r.value)
      ensures ConflictsSound(old(txs)) ==> NoConflicts(old(txs), r.value)
      ensures AncestorsExact(old(txs)) ==> AncestorsExact(txs)
      ensures AncestorsExact(old(txs)) ==>
                && BestRounds(rounds, UsableLimit(weightLimit), remaining)
                && forall t :: t in txs ==> 4 * ((AncestorTotals(txs, t).weight + 3) / 4) > remaining
    {
      hide *;
      ghost var before := txs;
      ValidParts();
      PoolParts(before);
      var res: seq<Txid> := [];
      var weightRemaining: nat := UsableLimit(weightLimit);
      rounds := [];
      ProposalStarts(before);
      NothingChosen(before, UsableLimit(weightLimit));
      while true
        invariant Valid() && Proposal(before, txs, res)
        invariant Budget(before, res, weightRemaining, UsableLimit(weightLimit))
        invariant Greedy(rounds, before, UsableLimit(weightLimit), txs, weightRemaining, res)
        invariant forall pairs :: PairsApart(before, pairs) ==> PairFree(pairs, txs, res)
        invariant AncestorsExact(before) ==> AncestorsExact(txs)
        invariant AncestorsExact(before) ==> BestRounds(rounds, UsableLimit(weightLimit), weightRemaining)
        invariant weightRemaining <= UsableLimit(weightLimit)
        decreases txs.Keys
      {
        ghost var cur := txs;
        ValidParts();
        PoolParts(cur);
        LimitIs(weightLimit);
        IndexParts(byAncestorFeeRate, cur);
        var best := byAncestorFeeRate.FindBest(weightRemaining);
        if best.None? {
          NothingFits(cur, weightRemaining);
          NoConflictsChosen(before, cur, res);
          NoPackageFits(cur, weightRemaining);
          remaining := weightRemaining;
          return Ok(res), remaining, rounds;
        }
        var Slot(rate, txid) := best.value;
        BestPooled(cur, best.value, weightRemaining);
        var package := AddPackage(txid);
        if package.Err? {
          remaining := weightRemaining;
          return Err(MissingAncestor(txid)), remaining, rounds;
        }
        RoundDone(before, cur, txs, res, best.value, weightRemaining, package.value);
        ProposalSteps(before, cur, txs, res, txid, package.value);
        BudgetSteps(before, cur, res, txid, package.value, weightRemaining, UsableLimit(weightLimit));
        GreedyMore(rounds, before, UsableLimit(weightLimit), cur, weightRemaining, res,
                   Round(cur, txid, weightRemaining, package.value, txs));
        if AncestorsExact(before) {
          BestRoundsMore(rounds, UsableLimit(weightLimit), weightRemaining,
                         Round(cur, txid, weightRemaining, package.value, txs));
        }
        forall pairs | PairsApart(before, pairs) ensures PairFree(pairs, txs, res + package.value) {
          PairFreeSteps(before, cur, txs, pairs, res, txid, package.value);
        }
        rounds := rounds + [Round(cur, txid, weightRemaining, package.value, txs)];
        res := res + package.value;
        weightRemaining := weightRemaining - ChargedWeight(rate);
      }
    }

    constructor Clone(other: Mempool)
      requires other.Valid()
      ensures Valid() && txs == other.txs && fresh(byAncestorFeeRate) && fresh(txChilds)
    {
      byAncestorFeeRate := new ByAncestorFeeRate.Clone(other.byAncestorFeeRate);
      txChilds := new TxChilds.Clone(other.txChilds);
      txs := other.txs;
    }

    /** The positions of a transaction's ancestors among the transactions listed before it. */
    method DependsOf(txid: Txid, earlier: seq<Txid>) returns (r: Result<seq<nat>>)
      requires PoolValid(txs) && txid in txs
      requires Distinct(earlier) && Ancestors(txs, txid) <= Elements(earlier)
      ensures r.Ok? && AncestorPositions(txs, earlier, txid, r.value)
      ensures |r.value| == |Ancestors(txs, txid)|
    {
      hide *;
      ghost var graph := DependsGraph(txs);
      OwnAncestors(txs, txid);
      AncestorsByReach(txs, txid);
      var depends: seq<nat> := [];
      var ancestors := new AncestorsIter(txid, graph);
      NoPositions(earlier);
      while true
        invariant fresh(ancestors) && ancestors.Valid()
        invariant ancestors.graph == graph && ancestors.root == txid
        invariant ancestors.seen <= Ancestors(txs, txid)
        invariant PositionsOf(earlier, ancestors.seen, depends)
        decreases Ancestors(txs, txid) - ancestors.seen
      {
        ghost var seen := ancestors.seen;
        var step := ancestors.Next(txs);
        match step {
          case Done =>
            PositionsDone(txs, earlier, txid, depends);
            // The positions are distinct, so sorting them lists them as a set in ascending order.
            return Ok(Ascending(Elements(depends)));
          case Missing(_) =>
            return Err(MissingAncestor(txid));
          case Yield(a) =>
            var index := IndexOf(earlier, a);
            assert a in Elements(earlier);
            InElements(earlier, a);
            if index.None? {
              return Err(MissingAncestor(a));
            }
            PositionsMore(earlier, seen, depends, a, index.value);
            depends := depends + [index.value];
        }
      }
    }

    /** Chooses transactions for a block without changing the pool, with the positions each depends on. */
    method ProposeTxs(weightLimit: Option<nat>)
      returns (r: Result<seq<TemplateTx>>, ghost chosen: seq<Txid>, ghost left: Txs, ghost remaining: nat, ghost rounds: seq<Round>)
      requires Valid()
      ensures r.Ok? && TemplateOf(txs, chosen, r.value)
      ensures Proposal(txs, left, chosen)
      ensures Budget(txs, chosen, remaining, UsableLimit(weightLimit))
      ensures forall t :: t in left ==> !Fits(RateOf(left[t].info), remaining)
      ensures Greedy(rounds, txs, UsableLimit(weightLimit), left, remaining, chosen)
      ensures AncestorsExact(txs) ==>
                && BestRounds(rounds, UsableLimit(weightLimit), remaining)
                && forall t :: t in left ==> 4 * ((AncestorTotals(left, t).weight + 3) / 4) > remaining
      ensures forall pairs :: PairsApart(txs, pairs) ==> NoPairs(pairs, chosen)
      ensures ConflictsSound(txs) ==> NoConflicts(txs, chosen)
    {
      hide *;
      var clone := new Mempool.Clone(this);
      var proposed: Result<seq<Txid>>;
      ValidParts();
      proposed, remaining, rounds := clone.ProposeTxsMut(weightLimit);
      left := clone.txs;
      var list: seq<Txid> := [];
      match proposed {
        case Err(error) =>
          return Err(error), [], left, remaining, rounds;
        case Ok(txids) =>
          list := txids;
      }
      chosen := list;
      var res: seq<TemplateTx> := [];
      var k := |list|;
      TemplateNone(txs, list);
      while k > 0
        invariant 0 <= k <= |list|
        invariant TemplateFrom(txs, list, k, res)
      {
        k := k - 1;
        var txid := list[k];
        ProposalEntry(txs, left, list, k);
        var depends := DependsOf(txid, list[..k]);
        if depends.Err? {
          return Err(MissingAncestor(txid)), chosen, left, remaining, rounds;
        }
        var entry := txs[txid];
        var template := TemplateTx(txid, depends.value, entry.info.own.fee, entry.tx.weight);
        TemplateMore(txs, list, k, res, template);
        // The source pushes in reverse and turns the list around at the end.
        res := [template] + res;
      }
      TemplateAll(txs, list, res);
      return Ok(res), chosen, left, remaining, rounds;
    }

    // ---- filtering ----

    /** A transaction and its descendants, in the order the descendant iterator yields them. */
    method ListDescendants(root: Txid) returns (r: Result<seq<Txid>>)
      requires PoolValid(txs) && root in txs
      ensures r.Ok? && Distinct(r.value) && Elements(r.value) == Descendants(txs, root) + {root}
    {
      hide *;
      ghost var graph := SpenderGraph(txs);
      DescendantFacts(txs, root);
      var list: seq<Txid> := [];
      var descendants := new DescendantsIter(root, graph);
      ListedNone();
      while true
        invariant fresh(descendants) && descendants.Valid()
        invariant descendants.graph == graph && descendants.root == root
        invariant descendants.seen <= Descendants(txs, root) + {root}
        invariant Distinct(list) && Elements(list) == descendants.seen
        decreases Descendants(txs, root) + {root} - descendants.seen
      {
        var step := descendants.Next(txs);
        match step {
          case Done =>
            return Ok(list);
          case Missing(_) =>
            return Err(MissingDescendant(root));
          case Yield(d) =>
            ListedStep(list, d);
            list := list + [d];
        }
      }
    }

    /** The in-pool input transactions of a transaction. */
    method InPoolInputs(tx: Transaction) returns (inputs: map<Txid, Transaction>)
      ensures inputs.Keys == tx.Parents() * txs.Keys
      ensures forall p :: p in inputs ==> inputs[p] == txs[p].tx
    {
      inputs := map[];
      for i := 0 to |tx.input|
        invariant forall p :: p in inputs <==> p in txs && SpentBefore(tx, i, p)
        invariant forall p :: p in inputs ==> inputs[p] == txs[p].tx
      {
        var p := tx.input[i].txid;
        if p in inputs {
          continue;
        }
        if p in txs {
          inputs := inputs[p := txs[p].tx];
        }
      }
    }

    /** Decides on one listed transaction, removing it (and, if asked, its descendants) when it fails the filter. */
    method FilterOne(cascade: bool, f: Filter, d: Txid, ghost before: Txs,
                     ghost seen: set<Txid>, ghost pending: set<Txid>)
      returns (r: FilterOutcome)
      requires Valid() && PoolValid(before) && d in seen
      requires Progress(before, txs, seen, pending, cascade, Decides(f, before, cascade), Passing(f, before))
      modifies this`txs, byAncestorFeeRate, txChilds
      ensures Valid() && !r.PoolFailed?
      ensures Decides(f, before, cascade) ==> r.Filtered?
      ensures r.CallerFailed? ==> txs == old(txs)
      ensures r.Filtered? ==> Progress(before, txs, seen, pending - {d}, cascade, Decides(f, before, cascade), Passing(f, before))
      ensures r.Filtered? ==> Enumerates(old(txs), r.removed) && txs.Keys == old(txs).Keys - TxidsOf(r.removed)
      ensures r.Filtered? ==> TxidsOf(r.removed) <= old(txs).Keys
    {
      hide *;
      ghost var cur, exact, pass := txs, Decides(f, before, cascade), Passing(f, before);
      NothingListed(cur);
      if d !in txs {
        ProgressKeeps(before, cur, seen, pending, cascade, exact, pass, d);
        return Filtered([]);
      }
      var inputs := InPoolInputs(txs[d].tx);
      var verdict := f(txs[d].tx, inputs);
      FilterVerdict(f, before, cur, seen, pending, cascade, d, inputs);
      if verdict.None? {
        return CallerFailed;
      }
      VerdictValue(verdict);
      if verdict.value {
        ProgressKeeps(before, cur, seen, pending, cascade, exact, pass, d);
        return Filtered([]);
      }
      ValidParts();
      PoolParts(cur);
      PoolParts(before);
      if cascade {
        var removed := RemoveWithDescendants(d);
        if removed.Err? {
          return PoolFailed(MissingDescendant(d));
        }
        ProgressCascades(before, cur, txs, seen, pending, exact, pass, d);
        ClusterPooled(cur, d);
        return Filtered(removed.value);
      } else {
        var removed := Remove(d);
        if removed.Err? || removed.value.None? {
          return PoolFailed(MissingDescendant(d));
        }
        SingleRemoval(cur, d);
        ProgressRemoves(before, cur, txs, seen, pending, exact, pass, d);
        return Filtered([removed.value.value.tx]);
      }
    }

    /** Decides on every listed transaction in turn. */
    method FilterListed(cascade: bool, f: Filter, list: seq<Txid>, ghost before: Txs, ghost seen: set<Txid>)
      returns (r: FilterOutcome)
      requires Valid() && PoolValid(before) && Distinct(list) && Elements(list) <= seen
      requires Progress(before, txs, seen, Elements(list), cascade, Decides(f, before, cascade), Passing(f, before))
      modifies this`txs, byAncestorFeeRate, txChilds
      ensures Valid() && !r.PoolFailed? && Remains(old(txs), txs)
      ensures Decides(f, before, cascade) ==> r.Filtered?
      ensures r.Filtered? ==> Progress(before, txs, seen, {}, cascade, Decides(f, before, cascade), Passing(f, before))
      ensures r.Filtered? ==> Enumerates(old(txs), r.removed) && txs.Keys == old(txs).Keys - TxidsOf(r.removed)
    {
      hide *;
      ghost var entry, pending := txs, Elements(list);
      ghost var exact, pass := Decides(f, before, cascade), Passing(f, before);
      var res := [];
      NothingListed(entry);
      RemainsReflexive(entry);
      for i := 0 to |list|
        invariant Valid() && Remains(entry, txs)
        invariant pending == Elements(list[i..])
        invariant Progress(before, txs, seen, pending, cascade, exact, pass)
        invariant Enumerates(entry, res) && txs.Keys == entry.Keys - TxidsOf(res)
      {
        SuffixStep(list, i);
        ghost var cur := txs;
        var d := list[i];
        var one := FilterOne(cascade, f, d, before, seen, pending);
        if one.PoolFailed? {
          return PoolFailed(MissingDescendant(d));
        }
        if one.CallerFailed? {
          return CallerFailed;
        }
        EnumeratesConcat(entry, cur, res, one.removed);
        OutcomeRemains(before, entry, cur, txs, seen, pending, pending - {list[i]}, cascade, exact, pass);
        res := res + one.removed;
        pending := pending - {list[i]};
      }
      SuffixDone(list);
      return Filtered(res);
    }

    /**
     * Keeps the transactions the closure accepts, root by root; optionally removes the descendants
     * of a rejected transaction with it. Returns the removed transactions.
     */
    method TryFilter(alsoRemoveDescendants: bool, f: Filter) returns (r: FilterOutcome)
      requires Valid()
      modifies this`txs, byAncestorFeeRate, txChilds
      ensures Valid() && !r.PoolFailed? && Remains(old(txs), txs)
      ensures r.Filtered? ==> Enumerates(old(txs), r.removed) && txs.Keys == old(txs).Keys - TxidsOf(r.removed)
      ensures Decides(f, old(txs), alsoRemoveDescendants) ==>
                && r.Filtered?
                && txs.Keys == if alsoRemoveDescendants then KeptWithAncestors(old(txs), Passing(f, old(txs)))
                               else Passing(f, old(txs))
    {
      hide *;
      ghost var before := txs;
      ghost var exact, pass := Decides(f, before, alsoRemoveDescendants), Passing(f, before);
      ghost var seen: set<Txid> := {};
      ValidParts();
      PoolParts(before);
      var noAncestors := set t | t in txs && txs[t].info.depends == {};
      var roots := AnyOrder(noAncestors);
      RootsAre(before, noAncestors);
      NoRootListed(before, roots);
      var res := [];
      NothingListed(before);
      RemainsReflexive(before);
      ProgressStarts(before, alsoRemoveDescendants, exact, pass);
      for i := 0 to |roots|
        invariant Valid() && Remains(before, txs)
        invariant Progress(before, txs, seen, {}, alsoRemoveDescendants, exact, pass)
        invariant RootsListed(before, roots, i, seen)
        invariant Enumerates(before, res) && txs.Keys == before.Keys - TxidsOf(res)
      {
        var root := roots[i];
        ghost var cur := txs;
        ValidParts();
        PoolParts(cur);
        RootStillPooled(before, cur, roots, i, seen, alsoRemoveDescendants, exact, pass);
        var listed := ListDescendants(root);
        if listed.Err? {
          return PoolFailed(MissingDescendant(root));
        }
        ProgressLists(before, cur, seen, alsoRemoveDescendants, exact, pass, root);
        RootListed1(before, cur, roots, i, seen);
        seen := seen + Elements(listed.value);
        var filtered := FilterListed(alsoRemoveDescendants, f, listed.value, before, seen);
        RemainsTransitive(before, cur, txs);
        if filtered.PoolFailed? {
          return PoolFailed(MissingDescendant(root));
        }
        if filtered.CallerFailed? {
          return CallerFailed;
        }
        EnumeratesConcat(before, cur, res, filtered.removed);
        res := res + filtered.removed;
      }
      AllRootsListed(before, roots, seen);
      if exact {
        PassingPooled(f, before);
        ProgressEnds(before, txs, seen, alsoRemoveDescendants, pass);
      }
      return Filtered(res);
    }

    // ---- insertion ----

    /** Adds `tx` to the child sets of everything it spends. */
    method LinkInputs(tx: Transaction)
      requires ChildsAgree(txChilds.childs, txs)
      modifies txChilds
      ensures forall p :: ChildsOf(txChilds.childs, p) == Spenders(txs, p) + (if p in tx.Parents() then {tx.txid} else {})
      ensures forall p :: p in txChilds.childs ==> txChilds.childs[p] != {}
    {
      var i := 0;
      while i < |tx.input|
        invariant 0 <= i <= |tx.input|
        invariant forall p ::
                    ChildsOf(txChilds.childs, p) == Spenders(txs, p) + (if SpentBefore(tx, i, p) then {tx.txid} else {})
        invariant forall p :: p in txChilds.childs ==> txChilds.childs[p] != {}
      {
        var _ := txChilds.Insert(tx.input[i].txid, tx.txid);
        i := i + 1;
      }
    }

    /** Stores the entry: its parents learn of the new spender, and pass on their conflicts. */
    method StoreEntry(tx: Transaction, own: Totals, conflictsWith: set<Txid>) returns (r: Result<()>)
      requires tx.txid !in txs && tx.txid !in tx.Parents()
      requires ChildsOf(txChilds.childs, tx.txid) == Spenders(txs, tx.txid)
      modifies this`txs
      ensures r.Ok?
      ensures txs == Linked(old(txs), tx, own, conflictsWith)
    {
      hide *;
      var x := tx.txid;
      ghost var before := txs;
      var depends := tx.Parents() * txs.Keys;
      var conflicts := conflictsWith;
      var deps := Ascending(depends);
      AscendingFacts(depends);
      PrefixNone(deps);
      SpentByNone(before, x);
      ghost var done: set<Txid> := {};
      for i := 0 to |deps|
        invariant done == Prefix(deps, i)
        invariant txs == SpentBy(before, done, x)
        invariant conflicts == conflictsWith + InheritedConflicts(before, done)
      {
        var dep := deps[i];
        PrefixStep(deps, i);
        assert dep in deps;
        SpentByStep(before, done, x, dep);
        if dep !in txs {
          return Err(MissingAncestor(dep));
        }
        var entry := txs[dep];
        txs := txs[dep := Entry(entry.tx, entry.info.(spentBy := entry.info.spentBy + {x}))];
        conflicts := conflicts + entry.info.conflictsWith;
        done := done + {dep};
      }
      PrefixAll(deps, depends);
      LinkedFromParts(before, tx, own, conflictsWith);
      var spentBy := ChildsOf(txChilds.childs, x);
      txs := txs[x := Entry(tx, TxInfo(own, own, own, depends, spentBy, conflicts))];
      return Ok(());
    }

    /** Credits the new transaction to its ancestors and adds them up. */
    method CreditToAncestors(x: Txid, own: Totals) returns (r: Result<Totals>)
      requires !Reaches(DependsGraph(txs), x, x) && Ancestors(txs, x) <= txs.Keys && x in txs
      requires own.weight <= U64_MAX
      modifies this`txs
      ensures r == Ok(Cap(Add(own, Sum(Ancestors(old(txs), x), Own(old(txs))))))
      ensures txs == CreditDescendants(old(txs), Ancestors(old(txs), x), own)
    {
      hide *;
      ghost var before, graph := txs, DependsGraph(txs);
      var total := own;
      var ancestors := new AncestorsIter(x, graph);
      CreditDescendantsFacts(before, {}, own);
      CapOfNothing(own, Own(before));
      AncestorsByReach(before, x);
      while true
        invariant fresh(ancestors) && ancestors.Valid()
        invariant ancestors.graph == graph && ancestors.root == x
        invariant ancestors.seen <= Ancestors(before, x)
        invariant txs == CreditDescendants(before, ancestors.seen, own)
        invariant total == Cap(Add(own, Sum(ancestors.seen, Own(before))))
        decreases Ancestors(before, x) - ancestors.seen
      {
        CreditDescendantsFacts(before, ancestors.seen, own);
        ghost var seen := ancestors.seen;
        var step := ancestors.Next(txs);
        match step {
          case Done =>
            return Ok(total);
          case Missing(_) =>
            return Err(MissingAncestor(x));
          case Yield(a) =>
            CreditDescendantsStep(before, seen, own, a);
            CapStep(own, before, seen, a);
            var entry := txs[a];
            total := Credit(total, entry.info.own);
            txs := txs[a := Entry(entry.tx, entry.info.(descendant := Credit(entry.info.descendant, own)))];
        }
      }
    }

    /** Credits the new transaction to its descendants, passes its conflicts down, and adds them up. */
    method CreditToDescendants(x: Txid, own: Totals, conflictsWith: set<Txid>) returns (r: Result<Totals>)
      requires !Reaches(SpenderGraph(txs), x, x) && Descendants(txs, x) <= txs.Keys && x in txs
      requires own.weight <= U64_MAX
      modifies this`txs
      ensures r == Ok(Cap(Add(own, Sum(Descendants(old(txs), x), Own(old(txs))))))
      ensures txs == CreditAncestors(old(txs), Descendants(old(txs), x), own, conflictsWith)
    {
      hide *;
      ghost var before, graph := txs, SpenderGraph(txs);
      var total := own;
      var descendants := new DescendantsIter(x, graph);
      DescendantsByReach(before, x);
      var first := descendants.Next(txs);
      if first.Missing? {
        return Err(MissingDescendant(x));
      }
      assert descendants.seen - {x} == {};
      CreditAncestorsFacts(before, {}, own, conflictsWith);
      CapOfNothing(own, Own(before));
      while true
        invariant fresh(descendants) && descendants.Valid()
        invariant descendants.graph == graph && descendants.root == x
        invariant x in descendants.seen && descendants.seen <= Descendants(before, x) + {x}
        invariant txs == CreditAncestors(before, descendants.seen - {x}, own, conflictsWith)
        invariant total == Cap(Add(own, Sum(descendants.seen - {x}, Own(before))))
        decreases Descendants(before, x) + {x} - descendants.seen
      {
        CreditAncestorsFacts(before, descendants.seen - {x}, own, conflictsWith);
        ghost var seen := descendants.seen;
        var step := descendants.Next(txs);
        match step {
          case Done =>
            assert seen - {x} == Descendants(before, x);
            return Ok(total);
          case Missing(_) =>
            return Err(MissingDescendant(x));
          case Yield(d) =>
            CreditAncestorsStep(before, seen - {x}, own, conflictsWith, d);
            CapStep(own, before, seen - {x}, d);
            assert seen + {d} - {x} == seen - {x} + {d};
            var entry := txs[d];
            total := Credit(total, entry.info.own);
            txs := txs[d := Entry(entry.tx, entry.info.(ancestor := Credit(entry.info.ancestor, own),
                                                       conflictsWith := entry.info.conflictsWith + conflictsWith))];
        }
      }
    }

    /** Marks a conflict with `x` on `conflict` and all its descendants. */
    method MarkBelow(conflict: Txid, x: Txid) returns (r: Result<()>)
      requires !Reaches(SpenderGraph(txs), conflict, conflict) && Descendants(txs, conflict) <= txs.Keys && conflict in txs
      modifies this`txs
      ensures r.Ok?
      ensures txs == MarkConflict(old(txs), Descendants(old(txs), conflict) + {conflict}, x)
    {
      hide *;
      ghost var before, graph := txs, SpenderGraph(txs);
      var descendants := new DescendantsIter(conflict, graph);
      MarkConflictFacts(before, {}, x);
      DescendantsByReach(before, conflict);
      while true
        invariant fresh(descendants) && descendants.Valid()
        invariant descendants.graph == graph && descendants.root == conflict
        invariant descendants.seen <= Descendants(before, conflict) + {conflict}
        invariant txs == MarkConflict(before, descendants.seen, x)
        decreases Descendants(before, conflict) + {conflict} - descendants.seen
      {
        MarkConflictFacts(before, descendants.seen, x);
        ghost var seen := descendants.seen;
        var step := descendants.Next(txs);
        match step {
          case Done =>
            return Ok(());
          case Missing(_) =>
            return Err(MissingDescendant(conflict));
          case Yield(d) =>
            MarkConflictStep(before, seen, x, d);
            var entry := txs[d];
            txs := txs[d := Entry(entry.tx, entry.info.(conflictsWith := entry.info.conflictsWith + {x}))];
        }
      }
    }

    /** Tells every pooled declared conflict, and its descendants, about `x`; absent ones are skipped. */
    method MarkConflicts(x: Txid, conflictsWith: set<Txid>) returns (r: Result<()>)
      requires Acyclic(SpenderGraph(txs)) && (forall c :: c in txs ==> Descendants(txs, c) <= txs.Keys)
      modifies this`txs
      ensures r.Ok?
      ensures txs == MarkConflict(old(txs), ConflictClosure(old(txs), conflictsWith), x)
    {
      hide *;
      ghost var before := txs;
      var conflicts := Ascending(conflictsWith);
      AscendingFacts(conflictsWith);
      PrefixNone(conflicts);
      ClosureOfNone(before);
      MarkConflictFacts(before, {}, x);
      ghost var done: set<Txid> := {};
      for i := 0 to |conflicts|
        invariant done == Prefix(conflicts, i)
        invariant txs == MarkConflict(before, ConflictClosure(before, done), x)
      {
        var conflict := conflicts[i];
        PrefixStep(conflicts, i);
        ClosureStep(before, done, conflict);
        MarkConflictFacts(before, ConflictClosure(before, done), x);
        if conflict in txs {
          MarkMore(before, ConflictClosure(before, done), Descendants(before, conflict) + {conflict}, x);
          SameRelatives(before, txs);
          NotOnCycle(SpenderGraph(before), conflict);
          var marked := MarkBelow(conflict, x);
          if marked.Err? {
            return Err(MissingDescendant(conflict));
          }
        }
        done := done + {conflict};
      }
      PrefixAll(conflicts, conflictsWith);
      return Ok(());
    }

    /**
     * Inserts a transaction, stating conflicts with other transactions for reasons other than
     * shared inputs. The pool invariants survive when they hold of `AfterInsert`.
     */
    method Insert(tx: Transaction, fee: nat, conflictsWith: set<Txid>, modifiedWeight: nat) returns (r: Result<Option<TxInfo>>)
      requires Valid()
      requires tx.txid !in txs ==> NoCycle(txs, tx)
      requires 0 < modifiedWeight <= U64_MAX
      modifies this`txs, byAncestorFeeRate, txChilds
      ensures tx.txid in old(txs) ==> r == Err(TxAlreadyExists(tx.txid)) && txs == old(txs) && Valid()
      ensures tx.txid !in old(txs) ==>
                && r == Ok(None)
                && txs == AfterInsert(old(txs), tx, Totals(fee, tx.Vsize(), modifiedWeight), conflictsWith)
                && ChildsAgree(txChilds.childs, txs)
                && byAncestorFeeRate.Valid()
                && tx.txid in txs
                && byAncestorFeeRate.Slots() == old(byAncestorFeeRate.Slots()) + {Slot(RateOf(txs[tx.txid].info), tx.txid)}
      ensures tx.txid !in old(txs) && PoolValid(txs) ==> Valid()
    {
      hide *;
      var x := tx.txid;
      ValidParts();
      if x in txs {
        return Err(TxAlreadyExists(x));
      }
      var own := Totals(fee, tx.Vsize(), modifiedWeight);
      ghost var before := txs;
      LinkedFacts(before, tx, own, conflictsWith);
      NotItsOwnParent(before, tx);
      LinkInputs(tx);
      var stored := StoreEntry(tx, own, conflictsWith);
      if stored.Err? {
        return Err(MissingAncestor(x));
      }
      ghost var linked := txs;
      var ancestor := CreditToAncestors(x, own);
      if ancestor.Err? {
        return Err(MissingAncestor(x));
      }
      CreditDescendantsFacts(linked, Ancestors(linked, x), own);
      SameRelatives(linked, txs);
      NotOnCycle(SpenderGraph(linked), x);
      var descendant := CreditToDescendants(x, own, conflictsWith);
      if descendant.Err? {
        return Err(MissingDescendant(x));
      }
      ghost var credited := txs;
      CreditAncestorsFacts(CreditDescendants(linked, Ancestors(linked, x), own), Descendants(linked, x), own, conflictsWith);
      SameRelatives(linked, credited);
      SameClosure(linked, credited, conflictsWith);
      var marked := MarkConflicts(x, conflictsWith);
      if marked.Err? {
        return Err(MissingDescendant(x));
      }
      MarkConflictFacts(credited, ConflictClosure(credited, conflictsWith), x);
      var entry := txs[x];
      var info := entry.info.(ancestor := ancestor.value, descendant := descendant.value);
      AfterInsertParts(before, tx, own, conflictsWith, txs);
      txs := txs[x := Entry(entry.tx, info)];
      IndexParts(byAncestorFeeRate, before);
      byAncestorFeeRate.Insert(RateOf(info), x);
      InsertedChilds(before, tx, own, conflictsWith, txChilds.childs);
      if PoolValid(txs) {
        InsertedSlots(before, tx, own, conflictsWith);
        IndexWhole(byAncestorFeeRate, txs);
        MakeValid();
      }
      return Ok(None);
    }

    lemma ValidParts()
      requires Valid()
      ensures PoolValid(txs) && IndexAgrees(byAncestorFeeRate, txs) && ChildsAgree(txChilds.childs, txs)
    {
    }

    lemma MakeValid()
      requires PoolValid(txs) && IndexAgrees(byAncestorFeeRate, txs) && ChildsAgree(txChilds.childs, txs)
      ensures Valid()
    {
    }
  }

  /** A set's members in some order. */
  method AnyOrder(s: set<Txid>) returns (order: seq<Txid>)
    ensures Distinct(order) && Elements(order) == s
  {
    order := [];
    var rest := s;
    while rest != {}
      invariant Distinct(order) && Elements(order) !! rest && Elements(order) + rest == s
      decreases rest
    {
      var x :| x in rest;
      assert Elements(order + [x]) == Elements(order) + {x};
      assert x !in order by { assert x !in Elements(order); }
      order := order + [x];
      rest := rest - {x};
    }
  }

  lemma PoolParts(txs: Txs)
    requires PoolValid(txs)
    ensures Keyed(txs) && Wired(txs) && Acyclic(DependsGraph(txs))
  {
  }

  lemma ExtendFacts(s: seq<Txid>, xs: seq<Txid>)
    requires Distinct(s)
    ensures Distinct(Extend(s, xs)) && Elements(Extend(s, xs)) == Elements(s) + Elements(xs)
  {
    ExtendDistinct(s, xs);
  }

  lemma OwnAncestors(txs: Txs, x: Txid)
    requires PoolValid(txs)
    ensures !Reaches(DependsGraph(txs), x, x)
    ensures Ancestors(txs, x) <= txs.Keys
  {
    RelativesInPool(txs, x);
  }

  lemma InElements(s: seq<Txid>, x: Txid)
    requires x in Elements(s)
    ensures x in s
  {
  }

  /** `positions` are, without repetition, the places of the members of `s` in `list`. */
  ghost predicate PositionsOf(list: seq<Txid>, s: set<Txid>, positions: seq<nat>) {
    && Distinct(positions) && |positions| == |s|
    && forall i: nat :: i in positions <==> i < |list| && list[i] in s
  }

  lemma NoPositions(list: seq<Txid>)
    ensures PositionsOf(list, {}, [])
  {
  }

  lemma PositionsMore(list: seq<Txid>, s: set<Txid>, positions: seq<nat>, x: Txid, index: nat)
    requires Distinct(list) && PositionsOf(list, s, positions)
    requires x !in s && index < |list| && list[index] == x
    ensures PositionsOf(list, s + {x}, positions + [index])
  {
    assert index !in positions;
    forall i: nat ensures i in positions + [index] <==> i < |list| && list[i] in s + {x} {
    }
  }

  lemma PositionsDone(txs: Txs, list: seq<Txid>, t: Txid, positions: seq<nat>)
    requires PositionsOf(list, Ancestors(txs, t), positions)
    ensures var sorted := Ascending(Elements(positions));
            AncestorPositions(txs, list, t, sorted) && |sorted| == |Ancestors(txs, t)|
  {
    hide Ancestors;
    DistinctCount(positions);
  }

  lemma {:induction false} DistinctCount(s: seq<nat>)
    requires Distinct(s)
    ensures |Elements(s)| == |s|
  {
    if s != [] {
      var front, last := s[..|s| - 1], s[|s| - 1];
      DistinctCount(front);
      assert s == front + [last];
      assert last !in front && last !in Elements(front);
      assert Elements(s) == Elements(front) + {last};
    }
  }

  lemma ProposalEntry(before: Txs, cur: Txs, chosen: seq<Txid>, k: nat)
    requires Proposal(before, cur, chosen) && k < |chosen|
    ensures chosen[k] in before && Ancestors(before, chosen[k]) <= Elements(chosen[..k]) && Distinct(chosen[..k])
  {
    hide Ancestors, Dropped;
  }

  /** The template entries of the chosen transactions from position `k` on. */
  ghost predicate TemplateFrom(txs: Txs, chosen: seq<Txid>, k: nat, template: seq<TemplateTx>) {
    && k <= |chosen| && |template| == |chosen| - k
    && forall i :: 0 <= i < |template| ==> TemplateEntry(txs, chosen, k + i, template[i])
  }

  lemma TemplateNone(txs: Txs, chosen: seq<Txid>)
    ensures TemplateFrom(txs, chosen, |chosen|, [])
  {
  }

  lemma TemplateMore(txs: Txs, chosen: seq<Txid>, k: nat, template: seq<TemplateTx>, entry: TemplateTx)
    requires k < |chosen| && TemplateFrom(txs, chosen, k + 1, template)
    requires chosen[k] in txs && entry.txid == chosen[k]
    requires entry.fee == txs[chosen[k]].info.own.fee && entry.weight == txs[chosen[k]].tx.weight
    requires AncestorPositions(txs, chosen[..k], chosen[k], entry.depends)
    requires |entry.depends| == |Ancestors(txs, chosen[k])|
    ensures TemplateFrom(txs, chosen, k, [entry] + template)
  {
    hide AncestorPositions, Ancestors;
    var more := [entry] + template;
    forall i | 0 <= i < |more| ensures TemplateEntry(txs, chosen, k + i, more[i]) {
      if i > 0 {
        assert more[i] == template[i - 1] && TemplateEntry(txs, chosen, k + 1 + (i - 1), template[i - 1]);
      }
    }
  }

  lemma TemplateAll(txs: Txs, chosen: seq<Txid>, template: seq<TemplateTx>)
    requires TemplateFrom(txs, chosen, 0, template)
    ensures TemplateOf(txs, chosen, template)
  {
    hide TemplateEntry;
  }

  function UsableLimit(weightLimit: Option<nat>): nat {
    match weightLimit
    case None => MAX_USABLE_BLOCK_WEIGHT
    case Some(limit) => Min(limit, MAX_USABLE_BLOCK_WEIGHT)
  }

  /** The limit is the given one, or 3,999,412 weight units if that is less or none is given. */
  lemma LimitIs(weightLimit: Option<nat>)
    ensures UsableLimit(weightLimit) <= 3_999_412 <= U64_MAX
    ensures weightLimit.None? ==> UsableLimit(weightLimit) == 3_999_412
    ensures weightLimit.Some? ==>
              UsableLimit(weightLimit) == if weightLimit.value < 3_999_412 then weightLimit.value else 3_999_412
  {
  }

  lemma ParentlessExact(txs: Txs, x: Txid)
    requires PoolValid(txs) && AncestorsExact(txs) && x in txs && txs[x].info.depends == {}
    ensures AncestorsExact(AfterRemove(txs, x))
  {
    ParentlessRemoveExact(txs, x);
  }

  /** The last entry of the stack is the root. */
  lemma LastIsRoot(base: Txs, cur: Txs, root: Txid, stack: seq<Visit>, picked: seq<Txid>)
    requires |stack| == 1 && stack[0].txid in cur
    requires Picking(base, AfterRemove(cur, stack[0].txid), root, [], picked)
    requires exists less :: Picking(base, cur, root, stack, less)
    ensures stack[0].txid == root && root in base && root !in AfterRemove(cur, root)
    ensures PickedSoFar(base, AfterRemove(cur, root), root, picked)
    ensures cur[root].info.conflictsWith == base[root].info.conflictsWith
  {
    var less :| Picking(base, cur, root, stack, less);
  }

  lemma EvictedKeys(base: Txs, cur: Txs, conflicts: set<Txid>)
    requires Evicts(base, cur, conflicts)
    ensures cur.Keys <= base.Keys
  {
  }

  lemma SkippedOpen(base: Txs, cur: Txs, root: Txid, stack: seq<Visit>, picked: seq<Txid>)
    requires stack != [] && !stack[|stack| - 1].parentsVisited && stack[|stack| - 1].txid !in cur
    requires Picking(base, cur, root, stack, picked)
    ensures OpenTxids(stack[..|stack| - 1]) == OpenTxids(stack)
    ensures |stack| > 1
  {
    hide PickedSoFar, GoodVisit;
    assert stack == stack[..|stack| - 1] + [stack[|stack| - 1]];
  }

  lemma ExpandedOpen(base: Txs, cur: Txs, root: Txid, stack: seq<Visit>, picked: seq<Txid>, depends: seq<Txid>)
    requires stack != [] && !stack[|stack| - 1].parentsVisited && stack[|stack| - 1].txid in cur
    requires stack[|stack| - 1].txid !in OpenTxids(stack)
    ensures var txid := stack[|stack| - 1].txid;
            OpenTxids(stack[..|stack| - 1] + [Visit(txid, true)] + Unvisited(depends)) == OpenTxids(stack) + {txid}
  {
    var n, top := |stack| - 1, Visit(stack[|stack| - 1].txid, true);
    var pushed := stack[..n] + [top] + Unvisited(depends);
    assert stack == stack[..n] + [stack[n]];
    forall v ensures v in pushed && v.parentsVisited <==> v == top || (v in stack && v.parentsVisited) {
      assert v in pushed <==> v in stack[..n] || v == top || v in Unvisited(depends);
    }
    assert top in pushed;
  }

  lemma NothingChosen(before: Txs, limit: nat)
    ensures Budget(before, [], limit, limit)
    ensures Greedy([], before, limit, before, limit, [])
    ensures forall pairs :: PairFree(pairs, before, [])
    ensures BestRounds([], limit, limit)
  {
    assert Elements<Txid>([]) == {};
  }

  lemma NothingFits(txs: Txs, remaining: nat)
    requires forall slot :: slot in SlotsFor(txs) ==> !Fits(slot.rate, remaining)
    ensures forall t :: t in txs ==> !Fits(RateOf(txs[t].info), remaining)
  {
    forall t | t in txs ensures !Fits(RateOf(txs[t].info), remaining) {
      SlotIn(txs, Slot(RateOf(txs[t].info), t));
    }
  }

  lemma NoConflictsChosen(before: Txs, cur: Txs, chosen: seq<Txid>)
    requires Wired(before) && Proposal(before, cur, chosen)
    requires forall pairs :: PairsApart(before, pairs) ==> PairFree(pairs, cur, chosen)
    ensures forall pairs :: PairsApart(before, pairs) ==> NoPairs(pairs, chosen)
    ensures ConflictsSound(before) ==> NoConflicts(before, chosen)
  {
    hide ConflictsSound, PairsApart, NoConflicts, Wired, AncestorsFirst;
    if ConflictsSound(before) {
      SoundApart(before);
      assert PairFree(MutualPairs(before), cur, chosen);
      NoPairsNoConflicts(before, chosen);
    }
  }

  lemma BestPooled(txs: Txs, slot: Slot, remaining: nat)
    requires Best(SlotsFor(txs), slot, remaining)
    ensures slot.txid in txs && slot.rate == RateOf(txs[slot.txid].info)
    ensures Fits(slot.rate, remaining)
  {
    SlotIn(txs, slot);
  }

  lemma RoundDone(before: Txs, cur: Txs, after: Txs, chosen: seq<Txid>, best: Slot, remaining: nat, picked: seq<Txid>)
    requires Best(SlotsFor(cur), best, remaining)
    requires Proposal(before, cur, chosen) && PackageTaken(cur, after, best.txid, picked)
    ensures RoundGreedy(Round(cur, best.txid, remaining, picked, after))
    ensures Remains(before, cur) && Elements(chosen) !! cur.Keys
    ensures best.txid in cur && Elements(picked) == Ancestors(cur, best.txid) + {best.txid}
    ensures after.Keys < cur.Keys
  {
    hide Ancestors, AncestorsFirst, SpenderClosed, Dropped;
    BestPooled(cur, best, remaining);
    assert best.txid in Elements(picked);
  }

  lemma ListedNone()
    ensures Distinct<Txid>([]) && Elements<Txid>([]) == {}
  {
  }

  lemma ListedStep(list: seq<Txid>, d: Txid)
    requires Distinct(list) && d !in Elements(list)
    ensures Distinct(list + [d]) && Elements(list + [d]) == Elements(list) + {d}
  {
    assert d !in list;
  }

  lemma NothingListed(txs: Txs)
    ensures Enumerates(txs, []) && TxidsOf([]) == {} && txs.Keys == txs.Keys - TxidsOf([])
  {
  }

  lemma FilterVerdict(f: Filter, before: Txs, cur: Txs, seen: set<Txid>, pending: set<Txid>, cascade: bool, d: Txid,
                      inputs: map<Txid, Transaction>)
    requires PoolValid(before) && d in cur
    requires Progress(before, cur, seen, pending, cascade, Decides(f, before, cascade), Passing(f, before))
    requires inputs.Keys == cur[d].tx.Parents() * cur.Keys && forall p :: p in inputs ==> inputs[p] == cur[p].tx
    ensures Decides(f, before, cascade) ==>
              f(cur[d].tx, inputs).Some? && (Accepts(f(cur[d].tx, inputs)) <==> d in Passing(f, before))
  {
    hide Decides, Passing, UpClosed, Wired, Acyclic, Covered, KeptWithAncestors;
    VerdictExact(f, before, cur, cascade, d, inputs);
  }

  lemma VerdictValue(verdict: Option<bool>)
    requires verdict.Some?
    ensures Accepts(verdict) <==> verdict.value
  {
  }

  lemma PassingPooled(f: Filter, txs: Txs)
    ensures Passing(f, txs) <= txs.Keys
  {
  }

  lemma ClusterPooled(txs: Txs, x: Txid)
    requires Wired(txs)
    ensures Cluster(txs, x) <= txs.Keys
  {
    ClusterClosed(txs, x);
  }

  lemma SingleRemoval(txs: Txs, d: Txid)
    requires PoolValid(txs) && d in txs
    ensures Enumerates(txs, [txs[d].tx]) && TxidsOf([txs[d].tx]) == {d}
    ensures AfterRemove(txs, d).Keys == txs.Keys - {d}
    ensures Remains(txs, AfterRemove(txs, d))
  {
    hide AfterRemove, Wired, Acyclic, Covered;
    AfterRemoveKeys(txs, d);
    forall t | t in AfterRemove(txs, d)
      ensures var after := AfterRemove(txs, d)[t];
              && after.tx == txs[t].tx && after.info.own == txs[t].info.own
              && after.info.conflictsWith == txs[t].info.conflictsWith
    {
      AfterRemoveInfo(txs, d, t);
    }
  }

  lemma SuffixStep(list: seq<Txid>, i: nat)
    requires i < |list| && Distinct(list)
    ensures list[i] in Elements(list[i..]) && Elements(list[i..]) - {list[i]} == Elements(list[i + 1..])
    ensures list[i] in Elements(list)
  {
    assert list[i..] == [list[i]] + list[i + 1..];
    assert forall k :: i < k < |list| ==> list[k] != list[i];
  }

  lemma SuffixDone(list: seq<Txid>)
    ensures Elements(list[|list|..]) == {}
    ensures Elements(list[0..]) == Elements(list)
  {
    assert list[0..] == list;
  }

  lemma OutcomeRemains(before: Txs, entry: Txs, cur: Txs, after: Txs, seen: set<Txid>, pending: set<Txid>, next: set<Txid>,
                       cascade: bool, exact: bool, pass: set<Txid>)
    requires Progress(before, cur, seen, pending, cascade, exact, pass)
    requires Progress(before, after, seen, next, cascade, exact, pass)
    requires Remains(entry, cur) && after.Keys <= cur.Keys
    ensures Remains(entry, after)
  {
  }

  lemma RootsAre(txs: Txs, s: set<Txid>)
    requires s == set t | t in txs && txs[t].info.depends == {}
    ensures s == Roots(txs)
  {
  }

  /** The first `i` roots were listed, and no later one. */
  ghost predicate RootsListed(before: Txs, roots: seq<Txid>, i: nat, seen: set<Txid>) {
    && Distinct(roots) && Elements(roots) == Roots(before)
    && i <= |roots|
    && forall k :: 0 <= k < |roots| ==> (roots[k] in seen <==> k < i)
  }

  lemma NoRootListed(before: Txs, roots: seq<Txid>)
    requires Distinct(roots) && Elements(roots) == Roots(before)
    ensures RootsListed(before, roots, 0, {})
  {
  }

  lemma RootStillPooled(before: Txs, cur: Txs, roots: seq<Txid>, i: nat, seen: set<Txid>,
                        cascade: bool, exact: bool, pass: set<Txid>)
    requires RootsListed(before, roots, i, seen) && i < |roots|
    requires Progress(before, cur, seen, {}, cascade, exact, pass)
    ensures roots[i] in cur
  {
    assert roots[i] in Elements(roots);
  }

  lemma RootListed1(before: Txs, cur: Txs, roots: seq<Txid>, i: nat, seen: set<Txid>)
    requires Wired(before) && Wired(cur) && Remains(before, cur)
    requires RootsListed(before, roots, i, seen) && i < |roots| && roots[i] in cur
    ensures RootsListed(before, roots, i + 1, seen + (Descendants(cur, roots[i]) + {roots[i]}))
  {
    hide Reaches, ReachSet, Descendants;
    forall k | 0 <= k < |roots| && roots[k] in Descendants(cur, roots[i]) ensures false {
      assert roots[k] in Elements(roots);
      HasParent(before, cur, roots[k], roots[i]);
    }
  }

  lemma HasParent(before: Txs, cur: Txs, d: Txid, x: Txid)
    requires Wired(before) && Wired(cur) && Remains(before, cur) && d in Descendants(cur, x)
    ensures d in before && before[d].info.depends != {}
  {
    hide Reaches, ReachSet;
    AncestorIffDescendant(cur, x, d);
    InReachSet(DependsGraph(cur), d, x);
    FirstEdge(DependsGraph(cur), d, x);
    assert Out(DependsGraph(cur), d) != {};
  }

  lemma AllRootsListed(before: Txs, roots: seq<Txid>, seen: set<Txid>)
    requires RootsListed(before, roots, |roots|, seen)
    ensures Roots(before) <= seen
  {
    forall r | r in Roots(before) ensures r in seen {
      assert r in Elements(roots);
    }
  }

  lemma ExtendNothing(xs: seq<Txid>)
    ensures Distinct(Extend([], xs)) && Elements(Extend([], xs)) == Elements(xs)
  {
    ExtendFacts([], xs);
  }

  lemma RootListed(txs: Txs, x: Txid, list: seq<Transaction>)
    requires Keyed(txs) && list == if x in txs then [txs[x].tx] else []
    ensures x in txs ==> x in TxidsOf(list)
  {
    if x in txs {
      assert txs[x].tx in list;
    }
  }

  lemma ListedMore(list: seq<Transaction>, tx: Transaction)
    ensures TxidsOf(list) <= TxidsOf(list + [tx])
  {
    assert forall u :: u in list ==> u in list + [tx];
  }

  lemma QueuePooled(before: Txs, cur: Txs, x: Txid, removed: seq<Transaction>, queue: seq<Txid>)
    requires Cascade(before, cur, x, removed, queue) && queue != [] && Keyed(before)
    ensures queue[0] in cur && Distinct(queue[1..]) && cur[queue[0]].tx.txid == queue[0]
  {
    assert queue[0] in Elements(queue);
  }

  lemma CascadeResult(before: Txs, cur: Txs, x: Txid, removed: seq<Transaction>)
    requires Cascade(before, cur, x, removed, [])
    ensures Enumerates(before, removed) && Remains(before, cur) && AncestorsUntouched(before, cur, Cluster(before, x))
  {
  }

  lemma CascadeOrdered(before: Txs, x: Txid, removed: seq<Transaction>)
    requires Enumerates(before, removed) && TxidsOf(removed) == Cluster(before, x)
    ensures CascadeOrder(before, x, OrderOf(removed))
  {
    hide Enumerates, Cluster;
    OrderOfFacts(before, removed);
  }

  lemma IndexParts(index: ByAncestorFeeRate, txs: Txs)
    requires IndexAgrees(index, txs)
    ensures index.Valid() && index.Slots() == SlotsFor(txs)
  {
  }

  lemma IndexWhole(index: ByAncestorFeeRate, txs: Txs)
    requires index.Valid() && index.Slots() == SlotsFor(txs)
    ensures IndexAgrees(index, txs)
  {
  }

  lemma NotOnCycle(g: Edges, x: Txid)
    requires Acyclic(g)
    ensures !Reaches(g, x, x)
  {
  }

  lemma AncestorsByReach(txs: Txs, x: Txid)
    ensures Ancestors(txs, x) == ReachSet(DependsGraph(txs), x)
    ensures forall a :: Reaches(DependsGraph(txs), x, a) <==> a in Ancestors(txs, x)
  {
    forall a ensures Reaches(DependsGraph(txs), x, a) <==> a in Ancestors(txs, x) {
      InReachSet(DependsGraph(txs), x, a);
    }
  }

  lemma DescendantsByReach(txs: Txs, x: Txid)
    ensures Descendants(txs, x) == ReachSet(SpenderGraph(txs), x)
    ensures forall d :: Reaches(SpenderGraph(txs), x, d) <==> d in Descendants(txs, x)
  {
    forall d ensures Reaches(SpenderGraph(txs), x, d) <==> d in Descendants(txs, x) {
      InReachSet(SpenderGraph(txs), x, d);
    }
  }

  lemma NotItsOwnParent(txs: Txs, tx: Transaction)
    requires NoCycle(txs, tx)
    ensures tx.txid !in tx.Parents()
  {
  }

  /** The stages of an insert compose to `AfterInsert`, whose new entry has a positive vsize. */
  lemma AfterInsertParts(txs: Txs, tx: Transaction, own: Totals, declared: set<Txid>, marked: Txs)
    requires tx.txid !in txs && own.weight > 0
    requires var x, linked := tx.txid, Linked(txs, tx, own, declared);
             var credited := CreditAncestors(CreditDescendants(linked, Ancestors(linked, x), own), Descendants(linked, x), own, declared);
             marked == MarkConflict(credited, ConflictClosure(linked, declared), x)
    ensures var x, linked := tx.txid, Linked(txs, tx, own, declared);
            var ancestor := Cap(Add(own, Sum(Ancestors(linked, x), Own(linked))));
            var descendant := Cap(Add(own, Sum(Descendants(linked, x), Own(linked))));
            && x in marked
            && AfterInsert(txs, tx, own, declared)
               == marked[x := Entry(marked[x].tx, marked[x].info.(ancestor := ancestor, descendant := descendant))]
            && RateOf(marked[x].info.(ancestor := ancestor, descendant := descendant)).vsize > 0
  {
  }

  lemma InsertedChilds(txs: Txs, tx: Transaction, own: Totals, declared: set<Txid>, childs: map<Txid, set<Txid>>)
    requires tx.txid !in txs
    requires forall p :: ChildsOf(childs, p) == Spenders(txs, p) + (if p in tx.Parents() then {tx.txid} else {})
    requires forall p :: p in childs ==> childs[p] != {}
    ensures ChildsAgree(childs, AfterInsert(txs, tx, own, declared))
  {
    hide AfterInsert;
    var after := AfterInsert(txs, tx, own, declared);
    AfterInsertTxs(txs, tx, own, declared);
    forall p ensures Spenders(after, p) == Spenders(txs, p) + (if p in tx.Parents() then {tx.txid} else {}) {
    }
  }

  lemma AfterRemoveAbsent(txs: Txs, x: Txid)
    requires x !in txs
    ensures AfterRemove(txs, x) == txs
  {
  }

  lemma RemoveFacts(txs: Txs, x: Txid)
    requires PoolValid(txs) && x in txs
    ensures txs[x].tx.txid == x
    ensures RateOf(txs[x].info).vsize > 0
    ensures AfterRemove(txs, x) == DebitDescendants(DebitAncestors(txs, Descendants(txs, x), x, txs[x].info.own),
                                                    Ancestors(txs, x), x, txs[x].info.own) - {x}
  {
  }

  /** Unlinking `x` everywhere leaves its own slot, and moves no slot after the descendants were re-indexed. */
  lemma OwnSlotRemains(txs: Txs, x: Txid)
    requires PoolValid(txs) && x in txs
    ensures var own := txs[x].info.own;
            var below := DebitAncestors(txs, Descendants(txs, x), x, own);
            var after := DebitDescendants(below, Ancestors(txs, x), x, own);
            && x in below && RateOf(below[x].info) == RateOf(txs[x].info)
            && SlotsFor(after - {x}) == SlotsFor(below - {x})
  {
    NotOwnRelative(txs, x);
    UnlinkSlots(txs, Descendants(txs, x), Ancestors(txs, x), x, txs[x].info.own);
  }

  lemma UnlinkSlots(txs: Txs, below: set<Txid>, above: set<Txid>, x: Txid, own: Totals)
    requires x in txs && x !in below
    ensures var unlinked := DebitAncestors(txs, below, x, own);
            && x in unlinked && RateOf(unlinked[x].info) == RateOf(txs[x].info)
            && SlotsFor(DebitDescendants(unlinked, above, x, own) - {x}) == SlotsFor(unlinked - {x})
  {
    hide SlotsFor;
    var unlinked := DebitAncestors(txs, below, x, own);
    SlotsSame(unlinked - {x}, DebitDescendants(unlinked, above, x, own) - {x});
  }

  lemma AfterRemoveChilds(txs: Txs, x: Txid, childs: map<Txid, set<Txid>>)
    requires PoolValid(txs) && x in txs
    requires forall p :: ChildsOf(childs, p) == Spenders(txs, p) - (if p in txs[x].tx.Parents() then {x} else {})
    requires forall p :: p in childs ==> childs[p] != {}
    ensures ChildsAgree(childs, AfterRemove(txs, x))
  {
    hide AfterRemove, Wired, Acyclic, Covered, WeightBounded;
    var after := AfterRemove(txs, x);
    AfterRemoveKeys(txs, x);
    forall t | t in after ensures after[t].tx == txs[t].tx { AfterRemoveInfo(txs, x, t); }
    forall p ensures Spenders(after, p) == Spenders(txs, p) - (if p in txs[x].tx.Parents() then {x} else {}) {
    }
  }

  lemma AncestorFacts(original: Txs, unlinked: Txs, x: Txid, own: Totals)
    requires PoolValid(original) && x in original && own == original[x].info.own
    requires unlinked == DebitAncestors(original, Descendants(original, x), x, own)
    ensures unlinked.Keys == original.Keys
    ensures !Reaches(DependsGraph(unlinked), x, x)
    ensures ReachSet(DependsGraph(unlinked), x) == Ancestors(original, x) <= original.Keys
    ensures forall a :: Reaches(DependsGraph(unlinked), x, a) <==> a in Ancestors(original, x)
    ensures forall a :: a in Ancestors(original, x) ==> CanDebit(unlinked[a].info.descendant, own)
  {
    DebitAncestorsKeepsAncestors(original, x, own);
    RelativesInPool(original, x);
    forall a ensures Reaches(DependsGraph(unlinked), x, a) <==> a in Ancestors(original, x) {
      InReachSet(DependsGraph(unlinked), x, a);
    }
    forall a | a in Ancestors(original, x) ensures CanDebit(unlinked[a].info.descendant, own) {
      AncestorIffDescendant(original, a, x);
      DescendantCovers(original, a, x);
    }
  }

  lemma DebitNoAncestor(txs: Txs, x: Txid, own: Totals)
    ensures DebitDescendants(txs, {}, x, own) == txs
  {
  }

  lemma DescendantFacts(txs: Txs, x: Txid)
    requires PoolValid(txs) && x in txs
    ensures !Reaches(SpenderGraph(txs), x, x)
    ensures Descendants(txs, x) == ReachSet(SpenderGraph(txs), x) <= txs.Keys
    ensures x !in Descendants(txs, x)
    ensures forall d :: d in Descendants(txs, x) ==>
              CanDebit(txs[d].info.ancestor, txs[x].info.own) && txs[x].info.own.weight < txs[d].info.ancestor.weight
    ensures forall d :: Reaches(SpenderGraph(txs), x, d) <==> d in Descendants(txs, x)
  {
    SpendersAcyclic(txs);
    RelativesInPool(txs, x);
    NotOwnRelative(txs, x);
    forall d | d in Descendants(txs, x)
      ensures CanDebit(txs[d].info.ancestor, txs[x].info.own) && txs[x].info.own.weight < txs[d].info.ancestor.weight
    {
      AncestorIffDescendant(txs, x, d);
      AncestorCovers(txs, d, x);
    }
    forall d ensures Reaches(SpenderGraph(txs), x, d) <==> d in Descendants(txs, x) {
      InReachSet(SpenderGraph(txs), x, d);
    }
  }

  lemma DebitNobody(txs: Txs, x: Txid, own: Totals)
    ensures DebitAncestors(txs, {x} - {x}, x, own) == txs
  {
  }
}
