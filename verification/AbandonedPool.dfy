/** Transactions held back until the parents they depend on become available again. */
module AbandonedPools {
  import opened Types
  import opened LinkedSets
  import opened AbandonedTxs
  import opened AbandonedClosures

  /** The parents named by the first `i` inputs. */
  ghost function ParentsUpTo(tx: Transaction, i: nat): set<Txid>
    requires i <= |tx.input|
  {
    set j | 0 <= j < i :: tx.input[j].txid
  }

  lemma ParentsStep(tx: Transaction, i: nat)
    requires i < |tx.input|
    ensures ParentsUpTo(tx, i + 1) == ParentsUpTo(tx, i) + {tx.input[i].txid}
  {
  }

  lemma ParentsAll(tx: Transaction)
    ensures ParentsUpTo(tx, |tx.input|) == tx.Parents()
    ensures ParentsUpTo(tx, 0) == {}
  {
  }

  /** Pooled entries with `t` made a child of those in `ps`. */
  ghost function Adopting(m: map<Txid, AbandonedTx>, ps: set<Txid>, t: Txid): map<Txid, AbandonedTx> {
    map u | u in m :: if u in ps then WithChild(m[u], t) else m[u]
  }

  ghost function BlockingPooled(m: map<Txid, AbandonedTx>, cs: set<Txid>, t: Txid): map<Txid, AbandonedTx> {
    map u | u in m :: if u in cs then BlockedByPooled(m[u], t) else m[u]
  }

  ghost function Disowning(m: map<Txid, AbandonedTx>, ps: set<Txid>, t: Txid): map<Txid, AbandonedTx> {
    map u | u in m :: if u in ps then WithoutChild(m[u], t) else m[u]
  }

  ghost function BlockingAbsent(m: map<Txid, AbandonedTx>, cs: set<Txid>, t: Txid): map<Txid, AbandonedTx> {
    map u | u in m :: if u in cs then BlockedByAbsent(m[u], t) else m[u]
  }

  lemma LinkedStep(m: Links, ps: set<Txid>, t: Txid, p: Txid)
    ensures Linked(m, ps, t)[p := Replace(LinksOf(Linked(m, ps, t), p), t)] == Linked(m, ps + {p}, t)
  {
    assert Replace(Replace(LinksOf(m, p), t), t) == Replace(LinksOf(m, p), t);
  }

  lemma LinkedNone(m: Links, t: Txid)
    ensures Linked(m, {}, t) == m
  {
  }

  class AbandonedPool {
    var absentParentToChilds: Links
    var availableParentToChilds: Links
    var abandonedTxs: map<Txid, AbandonedTx>

    constructor ()
      ensures Contents() == Pool(map[], map[], map[])
    {
      absentParentToChilds, availableParentToChilds, abandonedTxs := map[], map[], map[];
    }

    ghost function Contents(): Pool
      reads this
    {
      Pool(absentParentToChilds, availableParentToChilds, abandonedTxs)
    }

    /** Adds a tx, blocked by the pooled txs and the given absent txs among its parents. */
    method Insert(tx: Transaction, absentMaybe: set<Txid>) returns (existing: Option<AbandonedTx>)
      requires tx.txid !in tx.Parents()
      modifies this
      ensures Contents() == AfterInsert(old(Contents()), tx, absentMaybe)
      ensures tx.txid !in old(abandonedTxs) ==>
                forall v :: v in tx.Parents() ==> tx.txid in Family(Contents(), v)
      ensures existing == if tx.txid in old(abandonedTxs) then Some(old(abandonedTxs)[tx.txid]) else None
    {
      var txid := tx.txid;
      if txid in abandonedTxs {
        return Some(abandonedTxs[txid]);
      }
      ghost var s := Contents();
      var abandonedParents, absentParents := LinkToParents(tx, absentMaybe);
      var childs := LinksOf(absentParentToChilds, txid);
      absentParentToChilds := absentParentToChilds - {txid};
      childs := Extend(childs, LinksOf(availableParentToChilds, txid));
      availableParentToChilds := availableParentToChilds - {txid};
      KnownAfterLinking(s, tx, absentMaybe);
      BlockChilds(txid, childs);
      abandonedTxs := abandonedTxs[txid := AbandonedTx(abandonedParents, absentParents, childs, tx)];
      InsertComplete(s, tx, absentMaybe, abandonedTxs);
      forall v | v in tx.Parents() ensures txid in Family(Contents(), v) {
        InsertedInFamily(s, tx, absentMaybe, v);
      }
      return None;
    }

    /** The first loop of `insert`: one link per parent, in the map its state calls for. */
    method LinkToParents(tx: Transaction, absentMaybe: set<Txid>)
      returns (abandonedParents: set<Txid>, absentParents: set<Txid>)
      modifies this
      ensures
        var pooled := old(abandonedTxs).Keys;
        && abandonedParents == tx.Parents() * pooled
        && absentParents == tx.Parents() * absentMaybe - pooled
        && abandonedTxs == Adopting(old(abandonedTxs), tx.Parents(), tx.txid)
        && absentParentToChilds == Linked(old(absentParentToChilds), absentParents, tx.txid)
        && availableParentToChilds ==
             Linked(old(availableParentToChilds), tx.Parents() - absentMaybe - pooled, tx.txid)
    {
      hide *;
      ghost var pooled := abandonedTxs.Keys;
      abandonedParents, absentParents := {}, {};
      AdoptingNone(abandonedTxs, tx.txid);
      LinkedNone(absentParentToChilds, tx.txid);
      LinkedNone(availableParentToChilds, tx.txid);
      ParentsAll(tx);
      assert ParentsUpTo(tx, 0) - absentMaybe - pooled == {};
      for i := 0 to |tx.input|
        invariant abandonedParents == ParentsUpTo(tx, i) * pooled
        invariant absentParents == ParentsUpTo(tx, i) * absentMaybe - pooled
        invariant abandonedTxs == Adopting(old(abandonedTxs), ParentsUpTo(tx, i), tx.txid)
        invariant absentParentToChilds == Linked(old(absentParentToChilds), absentParents, tx.txid)
        invariant availableParentToChilds ==
                    Linked(old(availableParentToChilds), ParentsUpTo(tx, i) - absentMaybe - pooled, tx.txid)
      {
        var parent := tx.input[i].txid;
        ParentsStep(tx, i);
        ghost var available := ParentsUpTo(tx, i) - absentMaybe - pooled;
        ghost var absent := absentParents;
        AdoptingKeys(old(abandonedTxs), ParentsUpTo(tx, i), tx.txid);
        if parent in abandonedTxs {
          abandonedParents := abandonedParents + {parent};
          abandonedTxs := abandonedTxs[parent := WithChild(abandonedTxs[parent], tx.txid)];
          AdoptingStep(old(abandonedTxs), ParentsUpTo(tx, i), tx.txid, parent);
          assert ParentsUpTo(tx, i + 1) - absentMaybe - pooled == available;
        } else {
          AdoptingOther(old(abandonedTxs), ParentsUpTo(tx, i), tx.txid, parent);
          if parent in absentMaybe {
            absentParents := absentParents + {parent};
            absentParentToChilds :=
              absentParentToChilds[parent := Replace(LinksOf(absentParentToChilds, parent), tx.txid)];
            LinkedStep(old(absentParentToChilds), absent, tx.txid, parent);
            assert ParentsUpTo(tx, i + 1) - absentMaybe - pooled == available;
          } else {
            availableParentToChilds :=
              availableParentToChilds[parent := Replace(LinksOf(availableParentToChilds, parent), tx.txid)];
            LinkedStep(old(availableParentToChilds), available, tx.txid, parent);
            assert ParentsUpTo(tx, i + 1) - absentMaybe - pooled == available + {parent};
          }
        }
      }
    }

    /** The second loop of `insert`: a child's absent parent becomes an abandoned one. */
    method BlockChilds(txid: Txid, childs: seq<Txid>)
      modifies this`abandonedTxs
      ensures abandonedTxs == BlockingPooled(old(abandonedTxs), Elements(childs), txid)
    {
      PrefixNone(childs);
      for i := 0 to |childs|
        invariant abandonedTxs == BlockingPooled(old(abandonedTxs), Prefix(childs, i), txid)
      {
        var child := childs[i];
        PrefixNext(childs, i);
        BlockingPooledStep(old(abandonedTxs), Prefix(childs, i), txid, child);
        if child in abandonedTxs {
          abandonedTxs := abandonedTxs[child := BlockedByPooled(abandonedTxs[child], txid)];
        }
      }
      PrefixAll(childs, Elements(childs));
    }

    /** Takes a tx out and marks it absent, so that its children stay behind and stay blocked. */
    method Remove(txid: Txid) returns (removed: Option<AbandonedTx>)
      requires txid in abandonedTxs ==> txid !in abandonedTxs[txid].tx.Parents()
      modifies this
      ensures Contents() == AfterRemove(old(Contents()), txid)
      ensures removed == if txid in old(abandonedTxs) then Some(old(abandonedTxs)[txid]) else None
    {
      hide Unlinked, Disowning, BlockingAbsent, AfterRemove, Transaction.Parents;
      if txid !in abandonedTxs {
        NothingRemoved(Contents(), txid);
        return None;
      }
      ghost var s := Contents();
      var entry := abandonedTxs[txid];
      abandonedTxs := abandonedTxs - {txid};
      UnlinkFromParents(txid, entry.tx);
      if entry.childs != [] {
        absentParentToChilds := absentParentToChilds[txid := entry.childs];
      }
      MarkAbsent(txid, entry.childs);
      RemoveComplete(s, txid, Contents());
      return Some(entry);
    }

    method UnlinkFromParents(txid: Txid, tx: Transaction)
      modifies this
      ensures
        var pooled := old(abandonedTxs).Keys;
        && abandonedTxs == Disowning(old(abandonedTxs), tx.Parents(), txid)
        && absentParentToChilds == Unlinked(old(absentParentToChilds), tx.Parents() - pooled, txid)
        && availableParentToChilds ==
             Unlinked(old(availableParentToChilds), tx.Parents() - pooled - old(absentParentToChilds).Keys, txid)
    {
      ghost var pooled := abandonedTxs.Keys;
      ghost var absent := absentParentToChilds.Keys;
      var parents := DistinctParents(tx);
      PrefixNone(parents);
      UnlinkedNone(absentParentToChilds, txid);
      UnlinkedNone(availableParentToChilds, txid);
      for i := 0 to |parents|
        invariant abandonedTxs == Disowning(old(abandonedTxs), Prefix(parents, i), txid)
        invariant absentParentToChilds == Unlinked(old(absentParentToChilds), Prefix(parents, i) - pooled, txid)
        invariant availableParentToChilds ==
                    Unlinked(old(availableParentToChilds), Prefix(parents, i) - pooled - absent, txid)
      {
        var parent := parents[i];
        PrefixStep(parents, i);
        DisowningStep(old(abandonedTxs), Prefix(parents, i), txid, parent);
        if parent in abandonedTxs {
          abandonedTxs := abandonedTxs[parent := WithoutChild(abandonedTxs[parent], txid)];
          assert Prefix(parents, i + 1) - pooled == Prefix(parents, i) - pooled;
          assert Prefix(parents, i + 1) - pooled - absent == Prefix(parents, i) - pooled - absent;
        } else {
          UnlinkedStep(old(absentParentToChilds), Prefix(parents, i) - pooled, txid, parent);
          UnlinkedStep(old(availableParentToChilds), Prefix(parents, i) - pooled - absent, txid, parent);
          assert Prefix(parents, i + 1) - pooled == Prefix(parents, i) - pooled + {parent};
          if parent in absentParentToChilds {
            absentParentToChilds := WithLinks(absentParentToChilds, parent,
                                              Without(absentParentToChilds[parent], txid));
            assert Prefix(parents, i + 1) - pooled - absent == Prefix(parents, i) - pooled - absent;
          } else {
            assert Prefix(parents, i + 1) - pooled - absent == Prefix(parents, i) - pooled - absent + {parent};
            if parent in availableParentToChilds {
              availableParentToChilds := WithLinks(availableParentToChilds, parent,
                                                   Without(availableParentToChilds[parent], txid));
            }
          }
        }
      }
      PrefixAll(parents, tx.Parents());
    }

    method MarkAbsent(txid: Txid, childs: seq<Txid>)
      modifies this`abandonedTxs
      ensures abandonedTxs == BlockingAbsent(old(abandonedTxs), Elements(childs), txid)
    {
      PrefixNone(childs);
      for i := 0 to |childs|
        invariant abandonedTxs == BlockingAbsent(old(abandonedTxs), Prefix(childs, i), txid)
      {
        var child := childs[i];
        PrefixNext(childs, i);
        BlockingAbsentStep(old(abandonedTxs), Prefix(childs, i), txid, child);
        if child in abandonedTxs {
          abandonedTxs := abandonedTxs[child := BlockedByAbsent(abandonedTxs[child], txid)];
        }
      }
      PrefixAll(childs, Elements(childs));
    }

    /** Rejects a tx: it and everything below it leave the pool; what stays is blocked exactly as before. */
    method RemoveDescendantTxs(txid: Txid, ghost spends: Spends) returns (removed: seq<Transaction>)
      requires Valid(Contents(), spends)
      modifies this
      ensures TakenOut(old(Contents()), removed, Family(old(Contents()), txid))
      ensures Thinned(old(Contents()), Contents(), Family(old(Contents()), txid))
      ensures abandonedTxs.Keys == old(abandonedTxs).Keys - Family(old(Contents()), txid)
      ensures SameBlockers(old(Contents()), Contents(), Family(old(Contents()), txid) * old(abandonedTxs).Keys)
      ensures AvailableKept(old(availableParentToChilds), availableParentToChilds,
                            Family(old(Contents()), txid) * old(abandonedTxs).Keys, {txid})
      ensures Valid(Contents(), spends)
    {
      hide *;
      ghost var s := Contents();
      Unfold();
      ValidParts(s, spends);
      removed := [];
      TakenNothing(s);
      ThinnedNothing(s, spends);
      AvailableSame(s);
      var below;
      removed, below := Visit(txid, s, {}, {}, removed, spends);
      var waiting := LinksOf(availableParentToChilds, txid);
      RootWaiting(s, availableParentToChilds, txid, spends);
      ghost var visited := Contents();
      assert {} + {txid} == {txid};
      Unfold();
      availableParentToChilds := availableParentToChilds - {txid};
      Unfold();
      ThinnedAnyhow(s, visited, Contents(), {txid});
      var stack := Extend(Extend([], below), waiting);
      ghost var seen := {txid};
      SweepStart(s, txid, below, waiting);
      while stack != []
        invariant Thinned(s, Contents(), seen) && TakenOut(s, removed, seen)
        invariant Swept(s, txid, seen, stack)
        invariant LinksFollowSpends(availableParentToChilds, spends)
        invariant TidyLinks(availableParentToChilds, s.abandoned.Keys)
        invariant AvailableKept(s.available, availableParentToChilds, seen * s.abandoned.Keys, {txid})
        decreases abandonedTxs.Keys, absentParentToChilds.Keys, |stack|
      {
        var next := stack[0];
        assert stack == [next] + stack[1..];
        PooledNotAvailable(s, txid, spends);
        removed, below := Visit(next, s, seen, {txid}, removed, spends);
        SweepStep(s, txid, seen, next, stack[1..], below);
        ExtendNothing(stack[1..]);
        stack := Extend(stack[1..], below);
        seen := seen + {next};
      }
      Unfold();
      SweepDone(s, txid, seen);
      SurvivorsStayBlocked(s, Contents(), seen, spends);
      ThinnedValid(s, Contents(), seen, spends);
    }

    /** One turn of the removal: takes `txid` out if it is pooled and returns the txs then waiting for it. */
    method Visit(txid: Txid, ghost s: Pool, ghost seen: set<Txid>, ghost dropped: set<Txid>,
                 removed: seq<Transaction>, ghost spends: Spends)
      returns (removed': seq<Transaction>, below: seq<Txid>)
      requires Valid(s, spends) && Thinned(s, Contents(), seen) && TakenOut(s, removed, seen)
      requires LinksFollowSpends(availableParentToChilds, spends)
      requires TidyLinks(availableParentToChilds, s.abandoned.Keys)
      requires AvailableKept(s.available, availableParentToChilds, seen * s.abandoned.Keys, dropped)
      modifies this
      ensures Thinned(s, Contents(), seen + {txid}) && TakenOut(s, removed', seen + {txid})
      ensures LinksFollowSpends(availableParentToChilds, spends)
      ensures TidyLinks(availableParentToChilds, s.abandoned.Keys)
      ensures AvailableKept(s.available, availableParentToChilds, (seen + {txid}) * s.abandoned.Keys, dropped)
      ensures Elements(below) <= Below(s, txid)
      ensures txid !in seen ==> Below(s, txid) - seen <= Elements(below)
      ensures abandonedTxs.Keys <= old(abandonedTxs).Keys
      ensures abandonedTxs.Keys == old(abandonedTxs).Keys ==>
                absentParentToChilds.Keys <= old(absentParentToChilds).Keys &&
                (absentParentToChilds.Keys == old(absentParentToChilds).Keys ==> below == [])
    {
      hide *;
      ghost var before := Contents();
      Unfold();
      ValidParts(s, spends);
      VisitFacts(s, before, seen, txid, spends);
      var entry := Remove(txid);
      removed' := removed;
      ghost var mid := Contents();
      Unfold();
      if entry.Some? {
        removed' := removed' + [entry.value.tx];
        VisitPooled(s, before, seen, txid, spends);
        TakenMore(s, removed, seen, txid, spends);
        VisitAvailable(s, before, seen, dropped, txid, spends);
        RemovedPool(before, txid);
      } else {
        NothingRemoved(before, txid);
        VisitOther(s, before, seen, txid);
        TakenSame(s, removed, seen, txid);
      }
      below := LinksOf(absentParentToChilds, txid);
      TakeLinks(absentParentToChilds, txid);
      absentParentToChilds := absentParentToChilds - {txid};
      Unfold();
      assert Contents() == mid.(absent := mid.absent - {txid});
    }

    /** Hands back exactly the txs that wait for nothing once `txid` is available again, parents before children. */
    method RestoreDescendantTxs(txid: Txid, ghost spends: Spends) returns (restored: seq<Transaction>)
      requires Valid(Contents(), spends)
      modifies this
      ensures forall tx :: tx in restored ==>
                tx.txid in old(abandonedTxs) && tx == old(abandonedTxs)[tx.txid].tx
      ensures Released(old(Contents()), txid, TxidsOf(restored))
      ensures FreedBy(old(Contents()), txid, Elements<Txid>(TxidsOf(restored)))
      ensures Contents() == AfterRestore(old(Contents()), txid, Elements<Txid>(TxidsOf(restored)))
      ensures Valid(Contents(), spends)
    {
      hide *;
      ghost var s := Contents();
      Unfold();
      ValidParts(s, spends);
      RestoringStart(s, txid);
      restored := [];
      if txid !in absentParentToChilds {
        RestoreNothing(s, txid, spends);
        NoneRestored();
        return;
      }
      var childs := absentParentToChilds[txid];
      absentParentToChilds := absentParentToChilds - {txid};
      var queue: Waiting;
      restored, queue := TellAbsent(txid, childs, s, spends);
      ghost var told := 0;
      AbsentAllTold(s, txid, childs);
      NoneTold(TxidsOf(restored));
      while queue != []
        invariant absentParentToChilds == s.absent - {txid} && availableParentToChilds == s.available
        invariant Restoring(s, txid, abandonedTxs, restored, queue, told) && told <= |TxidsOf(restored)|
        invariant abandonedTxs == FreeAll(s.abandoned, txid, Elements<Txid>(TxidsOf(restored)[..told]))
                                  - Elements<Txid>(TxidsOf(restored))
        decreases abandonedTxs.Keys, |queue|
      {
        QueueHead(s, txid, abandonedTxs, restored, queue, told);
        var next := queue[0];
        AbandonedTold(s, txid, Elements<Txid>(TxidsOf(restored)[..told]), next.0);
        ghost var before := TxidsOf(restored);
        restored, queue := TellAbandoned(next.0, next.1, restored, queue[1..], txid, s, told + 1, spends);
        told := told + 1;
        assert TxidsOf(restored)[..told] == before[..told];
      }
      RestoringFacts(s, txid, abandonedTxs, restored, queue, told);
      RestoringDone(s, txid, abandonedTxs, restored, told, spends);
      Unfold();
      Assemble(s, txid, Elements<Txid>(TxidsOf(restored)));
    }

    /** First loop of the restoration: every child loses the absent parent. */
    method TellAbsent(txid: Txid, childs: seq<Txid>, ghost s: Pool, ghost spends: Spends)
      returns (restored: seq<Transaction>, queue: Waiting)
      requires abandonedTxs == s.abandoned && Keyed(s, spends) && AllBlocked(s)
      modifies this`abandonedTxs
      ensures Restoring(s, txid, abandonedTxs, restored, queue, 0)
      ensures abandonedTxs == LessAbsent(s.abandoned, Elements<Txid>(childs), txid) - Elements<Txid>(TxidsOf(restored))
    {
      hide *;
      restored, queue := [], [];
      RestoringStart(s, txid);
      PrefixNone(childs);
      for i := 0 to |childs|
        invariant Restoring(s, txid, abandonedTxs, restored, queue, 0)
        invariant abandonedTxs == LessAbsent(s.abandoned, Prefix(childs, i), txid) - Elements<Txid>(TxidsOf(restored))
      {
        var child := childs[i];
        PrefixNext(childs, i);
        ghost var gone := Elements<Txid>(TxidsOf(restored));
        LessAbsentStep(s.abandoned, Prefix(childs, i), txid, child, gone);
        if child in abandonedTxs {
          var entry := abandonedTxs[child].(absentParents := abandonedTxs[child].absentParents - {txid});
          LessAbsentLoosens(s, txid, Prefix(childs, i), TxidsOf(restored), child, entry);
          DropOne(abandonedTxs, LessAbsent(s.abandoned, Prefix(childs, i + 1), txid), gone, child, entry);
          restored, queue := Settle(child, entry, restored, queue, txid, s, 0, spends);
        }
      }
      PrefixAll(childs, Elements<Txid>(childs)) by { MembersOfElements<Txid>(childs); }
    }

    /** Body of the second loop: every child of a restored tx loses an abandoned parent. */
    method TellAbandoned(parent: Txid, childs: seq<Txid>, restored: seq<Transaction>, queue: Waiting,
                         ghost txid: Txid, ghost s: Pool, ghost told: nat, ghost spends: Spends)
      returns (restored': seq<Transaction>, queue': Waiting)
      requires Keyed(s, spends) && Restoring(s, txid, abandonedTxs, restored, queue, told)
      requires 0 < told <= |TxidsOf(restored)| && parent == TxidsOf(restored)[told - 1]
      requires abandonedTxs == FreeAll(s.abandoned, txid, Elements<Txid>(TxidsOf(restored)[..told - 1]))
                               - Elements<Txid>(TxidsOf(restored))
      modifies this`abandonedTxs
      ensures Restoring(s, txid, abandonedTxs, restored', queue', told)
      ensures |TxidsOf(restored)| <= |TxidsOf(restored')|
      ensures TxidsOf(restored')[..|TxidsOf(restored)|] == TxidsOf(restored)
      ensures abandonedTxs == LessAbandoned(FreeAll(s.abandoned, txid, Elements<Txid>(TxidsOf(restored)[..told - 1])),
                                            Elements<Txid>(childs), parent) - Elements<Txid>(TxidsOf(restored'))
      ensures abandonedTxs.Keys <= old(abandonedTxs).Keys
      ensures abandonedTxs.Keys == old(abandonedTxs).Keys ==> queue' == queue
    {
      hide *;
      ghost var before := TxidsOf(restored);
      ghost var m := FreeAll(s.abandoned, txid, Elements<Txid>(before[..told - 1]));
      restored', queue' := restored, queue;
      PrefixNone(childs);
      LessAbandonedNone(m, parent);
      for i := 0 to |childs|
        invariant Restoring(s, txid, abandonedTxs, restored', queue', told)
        invariant |before| <= |TxidsOf(restored')| && TxidsOf(restored')[..|before|] == before
        invariant abandonedTxs == LessAbandoned(m, Prefix(childs, i), parent) - Elements<Txid>(TxidsOf(restored'))
        invariant abandonedTxs.Keys <= old(abandonedTxs).Keys
        invariant abandonedTxs.Keys == old(abandonedTxs).Keys ==> queue' == queue
      {
        var child := childs[i];
        PrefixNext(childs, i);
        ghost var ids := TxidsOf(restored');
        LessAbandonedStep(m, Prefix(childs, i), parent, child, Elements<Txid>(ids));
        if child in abandonedTxs {
          var entry := abandonedTxs[child].(abandonedParents := abandonedTxs[child].abandonedParents - {parent});
          ToldWithin(before, ids, told);
          LessAbandonedLoosens(s, txid, before[..told - 1], Prefix(childs, i), parent, ids, child, entry);
          DropOne(abandonedTxs, LessAbandoned(m, Prefix(childs, i + 1), parent), Elements<Txid>(ids), child, entry);
          restored', queue' := Settle(child, entry, restored', queue', txid, s, told, spends);
        }
      }
      PrefixAll(childs, Elements<Txid>(childs)) by { MembersOfElements<Txid>(childs); }
    }

    /** Stores the loosened entry, or takes it out when nothing blocks it any more. */
    method Settle(child: Txid, entry: AbandonedTx, restored: seq<Transaction>, queue: Waiting,
                  ghost txid: Txid, ghost s: Pool, ghost told: nat, ghost spends: Spends)
      returns (restored': seq<Transaction>, queue': Waiting)
      requires Keyed(s, spends) && Restoring(s, txid, abandonedTxs, restored, queue, told) && child in abandonedTxs
      requires Loosened(s, txid, TxidsOf(restored), child, entry)
      modifies this`abandonedTxs
      ensures Restoring(s, txid, abandonedTxs, restored', queue', told)
      ensures
        || (Blocked(entry) && abandonedTxs == old(abandonedTxs)[child := entry]
            && restored' == restored && queue' == queue)
        || (!Blocked(entry) && abandonedTxs == old(abandonedTxs) - {child}
            && TxidsOf(restored') == TxidsOf(restored) + [child]
            && Elements<Txid>(TxidsOf(restored')) == Elements<Txid>(TxidsOf(restored)) + {child})
    {
      hide *;
      BlockedMeans(entry);
      if entry.absentParents == {} && entry.abandonedParents == {} {
        ReleaseStep(s, txid, abandonedTxs, restored, queue, told, child, entry, spends);
        LoosenedKey(s, txid, TxidsOf(restored), child, entry, spends);
        TxidsOfMore(restored, entry.tx);
        abandonedTxs := abandonedTxs - {child};
        return restored + [entry.tx], queue + [(child, entry.childs)];
      }
      KeepStep(s, txid, abandonedTxs, restored, queue, told, child, entry);
      abandonedTxs := abandonedTxs[child := entry];
      return restored, queue;
    }

    lemma Unfold()
      ensures Contents() == Pool(absentParentToChilds, availableParentToChilds, abandonedTxs)
    {
    }
  }

  /** A link list put back, or its key dropped when the list ran empty. */
  function WithLinks(m: Links, p: Txid, l: seq<Txid>): Links {
    if l == [] then m - {p} else m[p := l]
  }

  lemma UnlinkedNone(m: Links, t: Txid)
    ensures Unlinked(m, {}, t) == m
  {
  }

  lemma UnlinkedStep(m: Links, ps: set<Txid>, t: Txid, p: Txid)
    requires p !in ps
    ensures
      var m' := Unlinked(m, ps, t);
      && (p in m <==> p in m') && (p in m ==> m'[p] == m[p])
      && Unlinked(m, ps + {p}, t) == if p in m' then WithLinks(m', p, Without(m'[p], t)) else m'
  {
    hide Without;
  }

  lemma PrefixNext(s: seq<Txid>, i: nat)
    requires i < |s|
    ensures Prefix(s, i + 1) == Prefix(s, i) + {s[i]}
  {
    assert s[..i + 1] == s[..i] + [s[i]];
  }

  lemma AdoptingStep(m: map<Txid, AbandonedTx>, ps: set<Txid>, t: Txid, p: Txid)
    requires p in m
    ensures
      var m' := Adopting(m, ps, t);
      m'[p := WithChild(m'[p], t)] == Adopting(m, ps + {p}, t)
  {
  }

  lemma AdoptingOther(m: map<Txid, AbandonedTx>, ps: set<Txid>, t: Txid, p: Txid)
    requires p !in m
    ensures Adopting(m, ps, t) == Adopting(m, ps + {p}, t)
  {
    hide Replace;
  }

  lemma DisowningStep(m: map<Txid, AbandonedTx>, ps: set<Txid>, t: Txid, p: Txid)
    requires p !in ps
    ensures
      var m' := Disowning(m, ps, t);
      Disowning(m, ps + {p}, t) == if p in m then m'[p := WithoutChild(m'[p], t)] else m'
  {
    hide Without;
  }

  lemma KnownAfterLinking(s: Pool, tx: Transaction, absentMaybe: set<Txid>)
    requires tx.txid !in tx.Parents()
    ensures
      var absent := Linked(s.absent, tx.Parents() * absentMaybe - s.abandoned.Keys, tx.txid);
      var available := Linked(s.available, tx.Parents() - absentMaybe - s.abandoned.Keys, tx.txid);
      Extend(LinksOf(absent, tx.txid), LinksOf(available, tx.txid)) == KnownChilds(s, tx.txid)
  {
    hide Extend;
  }

  lemma InsertComplete(s: Pool, tx: Transaction, absentMaybe: set<Txid>, m: map<Txid, AbandonedTx>)
    requires tx.txid !in s.abandoned
    requires m == BlockingPooled(Adopting(s.abandoned, tx.Parents(), tx.txid),
                                 Elements<Txid>(KnownChilds(s, tx.txid)), tx.txid)[tx.txid := NewEntry(s, tx, absentMaybe)]
    ensures m == AfterInsert(s, tx, absentMaybe).abandoned
  {
    hide KnownChilds, Replace, NewEntry, Linked;
  }

  lemma RemoveComplete(s: Pool, t: Txid, s': Pool)
    requires t in s.abandoned && t !in s.abandoned[t].tx.Parents()
    requires
      var parents, childs := s.abandoned[t].tx.Parents(), s.abandoned[t].childs;
      var pooled := (s.abandoned - {t}).Keys;
      var absent := Unlinked(s.absent, parents - pooled, t);
      && s'.absent == (if childs == [] then absent else absent[t := childs])
      && s'.available == Unlinked(s.available, parents - pooled - s.absent.Keys, t)
      && s'.abandoned == BlockingAbsent(Disowning(s.abandoned - {t}, parents, t), Elements<Txid>(childs), t)
    ensures s' == AfterRemove(s, t)
  {
    hide Without, Unlinked, Transaction.Parents;
    var parents := s.abandoned[t].tx.Parents();
    assert parents - (s.abandoned - {t}).Keys == parents - s.abandoned.Keys;
    assert s'.abandoned == AfterRemove(s, t).abandoned;
  }

  lemma AdoptingNone(m: map<Txid, AbandonedTx>, t: Txid)
    ensures Adopting(m, {}, t) == m
  {
    hide Replace;
  }

  lemma AdoptingKeys(m: map<Txid, AbandonedTx>, ps: set<Txid>, t: Txid)
    ensures Adopting(m, ps, t).Keys == m.Keys
  {
    hide Replace;
  }

  lemma BlockingPooledStep(m: map<Txid, AbandonedTx>, cs: set<Txid>, t: Txid, c: Txid)
    ensures
      var m' := BlockingPooled(m, cs, t);
      BlockingPooled(m, cs + {c}, t) == if c in m' then m'[c := BlockedByPooled(m'[c], t)] else m'
  {
    if c in m {
      assert BlockedByPooled(BlockedByPooled(m[c], t), t) == BlockedByPooled(m[c], t);
    }
  }

  lemma BlockingAbsentStep(m: map<Txid, AbandonedTx>, cs: set<Txid>, t: Txid, c: Txid)
    ensures
      var m' := BlockingAbsent(m, cs, t);
      BlockingAbsent(m, cs + {c}, t) == if c in m' then m'[c := BlockedByAbsent(m'[c], t)] else m'
  {
    if c in m {
      assert BlockedByAbsent(BlockedByAbsent(m[c], t), t) == BlockedByAbsent(m[c], t);
    }
  }

  method DistinctParents(tx: Transaction) returns (parents: seq<Txid>)
    ensures Distinct(parents) && forall p :: p in parents <==> p in tx.Parents()
  {
    parents := [];
    ParentsAll(tx);
    for i := 0 to |tx.input|
      invariant Distinct(parents) && forall p :: p in parents <==> p in ParentsUpTo(tx, i)
    {
      ParentsStep(tx, i);
      InsertBackDistinct(parents, tx.input[i].txid);
      parents := InsertBack(parents, tx.input[i].txid);
    }
  }

  lemma ThinnedAnyhow(s: Pool, a: Pool, b: Pool, seen: set<Txid>)
    requires Thinned(s, a, seen) && a.abandoned == b.abandoned && a.absent == b.absent
    ensures Thinned(s, b, seen)
  {
  }

  lemma AvailableSame(s: Pool)
    ensures AvailableKept(s.available, s.available, {} * s.abandoned.Keys, {})
  {
  }

  /** The list the rejected tx had as an available parent is still whole when it is taken. */
  lemma RootWaiting(s: Pool, m: Links, t: Txid, spends: Spends)
    requires Valid(s, spends) && AvailableKept(s.available, m, ({} + {t}) * s.abandoned.Keys, {})
    requires LinksFollowSpends(m, spends) && TidyLinks(m, s.abandoned.Keys)
    ensures Elements<Txid>(LinksOf(m, t)) == Elements<Txid>(LinksOf(s.available, t))
    ensures AvailableKept(s.available, m - {t}, {t} * s.abandoned.Keys, {t})
    ensures LinksFollowSpends(m - {t}, spends) && TidyLinks(m - {t}, s.abandoned.Keys)
  {
    hide Distinct, AbandonedAgree, AbsentLinked, AllBlocked, ChildsFollowSpends, Keyed;
    assert {} + {t} == {t};
    AvailableRoot(s.available, m, {t} * s.abandoned.Keys, t);
    if t in s.abandoned {
      assert t !in s.available && t !in m;
    } else {
      assert {t} * s.abandoned.Keys == {};
      forall c ensures c in LinksOf(m, t) <==> c in LinksOf(s.available, t) {
      }
    }
  }

  lemma PooledNotAvailable(s: Pool, t: Txid, spends: Spends)
    requires Valid(s, spends)
    ensures t in s.abandoned ==> t !in s.available
  {
  }

  lemma TakeLinks(m: Links, t: Txid)
    ensures (m - {t}).Keys <= m.Keys
    ensures (m - {t}).Keys == m.Keys ==> LinksOf(m, t) == []
  {
    assert t in m ==> t in m.Keys && t !in (m - {t}).Keys;
  }

  /** A pooled entry that has not been visited still holds its own tx. */
  lemma VisitFacts(s: Pool, s1: Pool, seen: set<Txid>, t: Txid, spends: Spends)
    requires Keyed(s, spends) && Thinned(s, s1, seen)
    ensures t in s1.abandoned ==>
              t in s.abandoned && t !in seen && s1.abandoned[t].tx == s.abandoned[t].tx
              && t !in s1.abandoned[t].tx.Parents()
    ensures t !in s1.abandoned ==> t in seen || t !in s.abandoned
  {
    hide Filter, Distinct;
  }

  lemma VisitAvailable(s: Pool, s1: Pool, seen: set<Txid>, dropped: set<Txid>, t: Txid, spends: Spends)
    requires t in s1.abandoned && t in s.abandoned
    requires LinksFollowSpends(s1.available, spends) && TidyLinks(s1.available, s.abandoned.Keys)
    requires AvailableKept(s.available, s1.available, seen * s.abandoned.Keys, dropped)
    ensures
      var available := AfterRemove(s1, t).available;
      && LinksFollowSpends(available, spends) && TidyLinks(available, s.abandoned.Keys)
      && AvailableKept(s.available, available, (seen + {t}) * s.abandoned.Keys, dropped)
  {
    hide *;
    RemovedLinks(s1, t);
    var ps := s1.abandoned[t].tx.Parents() - s1.abandoned.Keys - s1.absent.Keys;
    UnlinkedTidy(s1.available, ps, t, s.abandoned.Keys, spends);
    AvailableStep(s.available, s1.available, seen * s.abandoned.Keys, dropped, ps, t);
    assert (seen + {t}) * s.abandoned.Keys == seen * s.abandoned.Keys + {t};
  }

  lemma DropOne(m: map<Txid, AbandonedTx>, x: map<Txid, AbandonedTx>, gone: set<Txid>, c: Txid, a: AbandonedTx)
    requires x - gone == m[c := a]
    ensures m - {c} == x - (gone + {c})
  {
    assert m - {c} == m[c := a] - {c};
  }

  lemma NoneRestored()
    ensures TxidsOf([]) == [] && Elements<Txid>([]) == {}
  {
  }

  lemma RestoringFacts(s: Pool, p: Txid, m: map<Txid, AbandonedTx>, restored: seq<Transaction>, queue: Waiting,
                       told: nat)
    requires Restoring(s, p, m, restored, queue, told)
    ensures Released(s, p, TxidsOf(restored)) && told + |queue| == |TxidsOf(restored)|
    ensures forall tx :: tx in restored ==> tx.txid in s.abandoned && tx == s.abandoned[tx.txid].tx
  {
    hide TxidsOf, Released, Blocked;
  }

  lemma BlockedMeans(a: AbandonedTx)
    ensures Blocked(a) <==> !(a.absentParents == {} && a.abandonedParents == {})
  {
  }

  lemma LoosenedKey(s: Pool, p: Txid, ids: seq<Txid>, c: Txid, a: AbandonedTx, spends: Spends)
    requires Loosened(s, p, ids, c, a) && Keyed(s, spends)
    ensures a.tx.txid == c
  {
    hide Elements, Distinct;
  }

  lemma MembersOfElements<Txid>(l: seq<Txid>)
    ensures forall x :: x in l <==> x in Elements<Txid>(l)
  {
  }

  lemma NoneTold(ids: seq<Txid>)
    ensures Elements<Txid>(ids[..0]) == {}
  {
  }

  lemma ToldWithin(before: seq<Txid>, ids: seq<Txid>, told: nat)
    requires 0 < told <= |before| <= |ids| && ids[..|before|] == before
    ensures Elements<Txid>(before[..told - 1]) + {before[told - 1]} <= Elements<Txid>(ids)
  {
    assert forall i :: 0 <= i < |before| ==> before[i] == ids[i];
  }

  lemma LessAbandonedNone(m: map<Txid, AbandonedTx>, p: Txid)
    ensures LessAbandoned(m, {}, p) == m
  {
  }

  lemma AbsentAllTold(s: Pool, p: Txid, childs: seq<Txid>)
    requires AbsentLinked(s) && p in s.absent && childs == s.absent[p]
    ensures LessAbsent(s.abandoned, Elements<Txid>(childs), p) == FreeAll(s.abandoned, p, {})
  {
    hide LessAbsent, FreeAll;
    AbsentTold(s, p);
  }

  lemma Assemble(s: Pool, p: Txid, gone: set<Txid>)
    ensures
      var r := AfterRestore(s, p, gone);
      r.absent == s.absent - {p} && r.available == s.available
  {
  }
}
