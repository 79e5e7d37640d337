/** What each step of the sync does, as a relation between the states before and after it. */
module SyncSteps {
  import opened Types
  import opened LinkedSets
  import opened SyncQueues
  import opened SyncRequests
  import opened SyncParents
  import opened SyncTips
  import opened SyncLogs
  import opened SyncPools
  import opened Enforcers
  import opened SyncFacts
  import AbandonedTxs
  import AbandonedClosures

  /** Everything the sync keeps, apart from its history. */
  datatype State = State(tips: Tips, stack: seq<BlockHash>, blocks: map<BlockHash, Block>, blocksNeeded: seq<BlockHash>,
                         mempool: map<Txid, Transaction>, mirror: set<Txid>, abandoned: AbandonedTxs.Pool,
                         rejected: set<Txid>, cache: map<Txid, Transaction>, unavailable: set<Txid>,
                         txsNeeded: seq<Txid>, first: Option<nat>, requests: seq<RequestItem>,
                         inFlight: set<RequestItem>, actions: seq<SyncAction>)

  /** What the node said of its mempool at the start. */
  datatype Given = Given(fees: map<Txid, nat>, mempoolTxids: set<Txid>)

  function CachesOf(s: State, g: Given): ParentCaches {
    ParentCaches(s.abandoned.abandoned.Keys, s.mempool, s.rejected, s.cache, s.unavailable, g.mempoolTxids)
  }

  function HeightAt(s: State): Option<nat> {
    if s.tips.unfiltered in s.blocks then Some(s.blocks[s.tips.unfiltered].height) else None
  }

  // ---- an addition ----

  ghost function Abandoning(s: State, tx: Transaction, absent: set<Txid>): State {
    s.(cache := s.cache - {tx.txid}, abandoned := AbandonedTxs.AfterInsert(s.abandoned, tx, absent))
  }

  /** What a rejection of the roots takes along from the abandoned pool, with the roots. */
  ghost function RejectedWith(pool: AbandonedTxs.Pool, roots: set<Txid>): set<Txid> {
    roots + AbandonedClosures.Families(pool, roots) * pool.abandoned.Keys
  }

  /** One root more: what it takes along now is what it had below it at the start and was not gone yet. */
  lemma PruneFurther(s: AbandonedTxs.Pool, s1: AbandonedTxs.Pool, s2: AbandonedTxs.Pool, gone: set<Txid>,
                     dropped: set<Txid>, root: Txid)
    requires AbandonedClosures.Pruned(s, s1, gone, dropped) && root !in dropped
    requires gone == AbandonedClosures.Families(s, dropped)
    requires AbandonedClosures.Thinned(s1, s2, AbandonedClosures.Family(s1, root))
    requires AbandonedClosures.AvailableKept(s1.available, s2.available,
                                             AbandonedClosures.Family(s1, root) * s1.abandoned.Keys, {root})
    ensures
      var gone' := gone + AbandonedClosures.Family(s, root);
      && AbandonedClosures.Pruned(s, s2, gone', dropped + {root})
      && gone' == AbandonedClosures.Families(s, dropped + {root})
      && gone' * s.abandoned.Keys ==
         gone * s.abandoned.Keys + AbandonedClosures.Family(s1, root) * s1.abandoned.Keys
  {
    hide *;
    AbandonedClosures.ThinnedPrunes(s1, s2, root);
    AbandonedClosures.PrunedFamily(s, s1, gone, dropped, root);
    AbandonedClosures.PrunedMore(s, s1, s2, gone, dropped, root);
    AbandonedClosures.FamiliesMore(s, dropped, root);
    PrunedKeys(s, s1, gone, dropped);
  }

  lemma PrunedKeys(s: AbandonedTxs.Pool, s': AbandonedTxs.Pool, gone: set<Txid>, dropped: set<Txid>)
    requires AbandonedClosures.Pruned(s, s', gone, dropped) && gone == AbandonedClosures.Families(s, dropped)
    ensures s'.abandoned.Keys == s.abandoned.Keys - gone
    ensures s'.abandoned.Keys == s.abandoned.Keys - RejectedWith(s, dropped)
  {
    hide AbandonedClosures.Family, AbandonedClosures.Below, AbandonedClosures.AvailableKept;
    forall r | r in dropped ensures r in AbandonedClosures.Family(s, r) {
      AbandonedClosures.FamilyHolds(s, r);
    }
  }

  /** A tx the enforcer turned down takes everything below it along, in both pools, and each rejection is queued. */
  ghost predicate FamilyRejected(s: State, s': State, txid: Txid) {
    var gone := Downstream(s.mempool, {txid});
    var rejected := RejectedWith(s.abandoned, gone + {txid});
    && s' == s.(mempool := s.mempool - gone, rejected := s.rejected + rejected, abandoned := s'.abandoned,
                requests := s'.requests)
    && s'.abandoned.abandoned.Keys == s.abandoned.abandoned.Keys - rejected
    && forall q :: q in s'.requests <==> q in s.requests || (q.RejectTx? && q.txid in rejected)
  }

  /** A tx at hand whose parents resolve, other than to ones that must be fetched first. */
  ghost predicate TxSettled(s: State, s': State, tx: Transaction, how: ParentTxsResult, rulings: Rulings) {
    match how
    case RejectedParent(_) =>
      s' == s.(rejected := s.rejected + {tx.txid},
               requests := ReplaceToFront(s.requests, RequestItem.RejectTx(tx.txid)))
    case UnavailableParents(txids) => s' == Abandoning(s, tx, Elements(txids))
    case AbandonedParents(_) => s' == Abandoning(s, tx, {})
    case RequiredParents(_) => false
    case AvailableParents(_) =>
      rulings.asked == Some(tx) &&
      match rulings.tx
      case TxAccept(_, _) =>
        s' == s.(mempool := if tx.txid in s.mempool then s.mempool else s.mempool[tx.txid := tx])
      case TxReject => FamilyRejected(s, s', tx.txid)
      case TxFailed => false
  }

  lemma FamilyLeaves(s: State, s': State, txid: Txid)
    requires FamilyRejected(s, s', txid)
    ensures Part(s'.mempool, s.mempool) && txid !in s'.mempool && txid !in s'.abandoned.abandoned
    ensures txid in s'.rejected && RequestItem.RejectTx(txid) in s'.requests
  {
    hide Downstream, AbandonedClosures.Families;
    DownstreamWithin(s.mempool, {txid});
  }

  /** What stays pooled after a rejection spends neither the tx nor anything that left; and whatever left, from either
      pool, is what is rejected with the tx. */
  lemma FamilyMeans(s: State, s': State, txid: Txid)
    requires FamilyRejected(s, s', txid)
    ensures
      var gone := s.mempool.Keys - s'.mempool.Keys;
      var lost := s.abandoned.abandoned.Keys - s'.abandoned.abandoned.Keys;
      && (forall t :: t in s'.mempool ==> t !in {txid} + gone && s'.mempool[t].Parents() * ({txid} + gone) == {})
      && s'.rejected == s.rejected + {txid} + gone + lost
      && (forall t :: t in {txid} + gone + lost ==> RequestItem.RejectTx(t) in s'.requests)
    ensures txid !in s.mempool && NoSpender(s.mempool, txid) ==> s'.mempool == s.mempool
  {
    hide Downstream, AbandonedClosures.Families;
    var gone := Downstream(s.mempool, {txid});
    DownstreamWithin(s.mempool, {txid});
    assert s.mempool.Keys - s'.mempool.Keys == gone;
    assert forall t :: t in s'.mempool ==> t in s.mempool && t !in gone && s'.mempool[t] == s.mempool[t];
    if txid !in s.mempool && NoSpender(s.mempool, txid) {
      LeavesNothing(s.mempool, txid);
      DownstreamLeast(s.mempool, {txid}, {});
    }
  }

  /** `x` holds the roots, what waits for a root although it was available, and whatever is below a member. */
  ghost predicate BelowWithin(pool: AbandonedTxs.Pool, roots: set<Txid>, x: set<Txid>) {
    && roots <= x
    && (forall r :: r in roots ==> Elements(AbandonedTxs.LinksOf(pool.available, r)) <= x)
    && (forall y :: y in x ==> AbandonedClosures.Below(pool, y) <= x)
  }

  /** What is rejected along from the abandoned pool are the pooled members of the least such set. */
  lemma RejectedLeast(pool: AbandonedTxs.Pool, roots: set<Txid>)
    ensures
      var all := AbandonedClosures.Families(pool, roots);
      && RejectedWith(pool, roots) == roots + all * pool.abandoned.Keys && BelowWithin(pool, roots, all)
      && forall x :: BelowWithin(pool, roots, x) ==> all <= x
  {
    hide AbandonedClosures.Family, AbandonedClosures.Below, AbandonedTxs.LinksOf, Elements;
    forall r | r in roots
      ensures r in AbandonedClosures.Family(pool, r)
      ensures Elements(AbandonedTxs.LinksOf(pool.available, r)) <= AbandonedClosures.Family(pool, r)
      ensures forall y :: y in AbandonedClosures.Family(pool, r) ==>
                AbandonedClosures.Below(pool, y) <= AbandonedClosures.Family(pool, r)
      ensures forall x :: BelowWithin(pool, roots, x) ==> AbandonedClosures.Family(pool, r) <= x
    {
      AbandonedClosures.FamilyHolds(pool, r);
      forall x | BelowWithin(pool, roots, x) ensures AbandonedClosures.Family(pool, r) <= x {
        AbandonedClosures.FamilyLeast(pool, r, x);
      }
    }
    FamiliesCover(pool, roots);
  }

  lemma FamiliesCover(pool: AbandonedTxs.Pool, roots: set<Txid>)
    ensures forall r :: r in roots ==> AbandonedClosures.Family(pool, r) <= AbandonedClosures.Families(pool, roots)
    ensures forall y :: y in AbandonedClosures.Families(pool, roots) ==>
              exists r :: r in roots && y in AbandonedClosures.Family(pool, r)
  {
    hide AbandonedClosures.Family;
  }

  lemma LeavesNothing(pool: map<Txid, Transaction>, txid: Txid)
    requires txid !in pool && NoSpender(pool, txid)
    ensures SpendersWithin(pool, {txid}, {})
  {
  }

  /** Settling a tx touches neither tips nor blocks, and at most adds that one tx to the mempool. */
  lemma SettledMeans(s: State, s': State, tx: Transaction, how: ParentTxsResult, rulings: Rulings)
    requires TxSettled(s, s', tx, how, rulings)
    ensures s' == s.(mempool := s'.mempool, rejected := s'.rejected, abandoned := s'.abandoned, cache := s'.cache,
                     requests := s'.requests)
    ensures Part(s'.mempool, s.mempool) || s'.mempool == s.mempool[tx.txid := tx]
  {
    hide FamilyRejected, AbandonedTxs.AfterInsert, ReplaceToFront;
    PartSame(s.mempool);
    if how.AvailableParents? && rulings.tx.TxReject? {
      FamilyLeaves(s, s', tx.txid);
      FamilyFrame(s, s', tx.txid);
    }
  }

  lemma FamilyFrame(s: State, s': State, txid: Txid)
    requires FamilyRejected(s, s', txid)
    ensures s' == s.(mempool := s'.mempool, rejected := s'.rejected, abandoned := s'.abandoned, requests := s'.requests)
  {
    hide Downstream, RejectedWith;
  }

  lemma ParentsMeans(s: State, s': State, how: ParentTxsResult)
    requires ParentsAsked(s, s', how)
    ensures s' == s.(txsNeeded := s'.txsNeeded, requests := s'.requests)
    ensures forall p :: p in how.txids ==> p in s'.txsNeeded
  {
    hide TxRequests;
  }

  ghost predicate Known(s: State, txid: Txid) {
    txid in s.mirror || (txid !in s.cache && txid in s.unavailable)
  }

  ghost predicate TxAdded(s: State, s': State, g: Given, txid: Txid, rulings: Rulings) {
    && s'.mirror == s.mirror + {txid}
    && if Known(s, txid) then s'.(mirror := s.mirror) == s
       else
         && txid in s.cache
         && exists how ::
              && Resolves(CachesOf(s, g), txid in g.fees, s.cache[txid].input, how)
              && TxSettled(s, s'.(mirror := s.mirror), s.cache[txid], how, rulings)
  }

  /** Where an added tx goes: into the mempool exactly if its parents are available and the enforcer accepts it; to the
      rejected ones, with the rejection queued, if a parent was rejected or the enforcer turns it down; and into the
      abandoned pool if a parent is unavailable or abandoned. It is mirrored in any case. */
  lemma AdditionGoes(s: State, s': State, g: Given, txid: Txid, rulings: Rulings, how: ParentTxsResult, spends: Spends)
    requires TxAdded(s, s', g, txid, rulings) && !Known(s, txid) && CacheHashed(s.cache, spends)
    requires txid in s.cache && Resolves(CachesOf(s, g), txid in g.fees, s.cache[txid].input, how)
    ensures txid in s'.mirror && !how.RequiredParents?
    ensures how.AvailableParents? ==> rulings.asked == Some(s.cache[txid])
    ensures how.AvailableParents? && rulings.tx.TxAccept? ==> s'.rejected == s.rejected && s'.abandoned == s.abandoned
    ensures txid !in s.mempool ==> (txid in s'.mempool <==> how.AvailableParents? && rulings.tx.TxAccept?)
    ensures how.RejectedParent? || (how.AvailableParents? && rulings.tx.TxReject?) ==>
              txid in s'.rejected && RequestItem.RejectTx(txid) in s'.requests
    ensures how.AvailableParents? && rulings.tx.TxReject? ==> txid !in s'.mempool && txid !in s'.abandoned.abandoned
    ensures how.UnavailableParents? || how.AbandonedParents? ==> txid in s'.abandoned.abandoned && txid !in s'.cache
    ensures how.AvailableParents? ==> !rulings.tx.TxFailed?
  {
    hide Resolves, FamilyRejected, AbandonedTxs.Hashed, AbandonedTxs.AfterInsert;
    var tx := s.cache[txid];
    var r :| Resolves(CachesOf(s, g), txid in g.fees, tx.input, r) && TxSettled(s, s'.(mirror := s.mirror), tx, r, rulings);
    ResolvesOneWay(CachesOf(s, g), txid in g.fees, tx.input, r, how);
    CachedHashed(s.cache, txid, spends);
    if how.AvailableParents? && rulings.tx.TxReject? {
      FamilyLeaves(s, s'.(mirror := s.mirror), txid);
    } else if how.UnavailableParents? {
      EntersAbandoned(s.abandoned, tx, Elements(how.txids));
    } else if how.AbandonedParents? {
      EntersAbandoned(s.abandoned, tx, {});
    }
  }

  lemma EntersAbandoned(pool: AbandonedTxs.Pool, tx: Transaction, absent: set<Txid>)
    ensures tx.txid in AbandonedTxs.AfterInsert(pool, tx, absent).abandoned
  {
    hide AbandonedTxs.AfterInsert;
    if tx.txid !in pool.abandoned {
      AbandonedTxs.InsertedNew(pool, tx, absent);
    } else {
      InsertedAgain(pool, tx, absent);
    }
  }

  lemma InsertedAgain(pool: AbandonedTxs.Pool, tx: Transaction, absent: set<Txid>)
    requires tx.txid in pool.abandoned
    ensures AbandonedTxs.AfterInsert(pool, tx, absent) == pool
  {
  }

  ghost predicate ParentsAsked(s: State, s': State, how: ParentTxsResult) {
    && how.RequiredParents?
    && s' == s.(txsNeeded := Fronted(s.txsNeeded, how.txids), requests := Fronted(s.requests, TxRequests(how.txids)))
  }

  /** The tx, or a parent of it, must be fetched first. */
  ghost predicate TxWaits(s: State, s': State, g: Given, txid: Txid) {
    && !Known(s, txid)
    && if txid !in s.cache then s' == s.(requests := ReplaceToFront(s.requests, Tx(txid, true)))
       else exists how ::
         && Resolves(CachesOf(s, g), txid in g.fees, s.cache[txid].input, how)
         && ParentsAsked(s, s', how)
  }

  // ---- blocks ----

  /** The cache with the txs of `txs`. */
  ghost predicate CacheGains(cache: map<Txid, Transaction>, cache': map<Txid, Transaction>, txs: set<Transaction>) {
    && (forall tx :: tx in txs ==> tx.txid in cache')
    && (forall t :: t in cache ==> t in cache')
    && (forall t :: t in cache' ==>
          (cache'[t] in txs && cache'[t].txid == t) || (t in cache && cache'[t] == cache[t]))
  }

  lemma GainsNothing(cache: map<Txid, Transaction>, txs: seq<Transaction>)
    ensures CacheGains(cache, cache, Elements(txs[..0])) && CacheGains(cache, cache, Elements(txs[|txs|..]))
    ensures txs[..|txs|] == txs && txs[0..] == txs
  {
  }

  lemma GainsMore(cache: map<Txid, Transaction>, cache': map<Txid, Transaction>, txs: set<Transaction>, tx: Transaction)
    requires CacheGains(cache, cache', txs)
    ensures CacheGains(cache, cache'[tx.txid := tx], txs + {tx})
  {
  }

  lemma GainsFront(cache: map<Txid, Transaction>, cache': map<Txid, Transaction>, txs: seq<Transaction>, i: nat)
    requires i < |txs| && CacheGains(cache, cache', Elements(txs[..i]))
    ensures CacheGains(cache, cache'[txs[i].txid := txs[i]], Elements(txs[..i + 1]))
  {
    hide CacheGains;
    GainsMore(cache, cache', Elements(txs[..i]), txs[i]);
    assert txs[..i + 1] == txs[..i] + [txs[i]];
    assert Elements(txs[..i + 1]) == Elements(txs[..i]) + {txs[i]};
  }

  lemma GainsBack(cache: map<Txid, Transaction>, cache': map<Txid, Transaction>, txs: seq<Transaction>, i: nat)
    requires i < |txs| && CacheGains(cache, cache', Elements(txs[i + 1..]))
    ensures CacheGains(cache, cache'[txs[i].txid := txs[i]], Elements(txs[i..]))
  {
    hide CacheGains;
    GainsMore(cache, cache', Elements(txs[i + 1..]), txs[i]);
    assert txs[i..] == [txs[i]] + txs[i + 1..];
    assert Elements(txs[i..]) == Elements(txs[i + 1..]) + {txs[i]};
  }

  ghost function BlockRejected(s: State, hash: BlockHash): State {
    s.(tips := s.tips.(rejected := s.tips.rejected + {hash}),
       requests := ReplaceToFront(s.requests, RequestItem.RejectBlock(hash)))
  }

  /** The txs of an accepted block leave mempool and needs, and what it conflicts with is rejected. */
  ghost predicate MinedTaken(s: State, s': State, block: Block, remove: set<Txid>) {
    var ids := IdsOf(block.tx);
    var left := s.mempool - ids;
    && s' == s.(mempool := left - Downstream(left, remove), rejected := s.rejected + (remove - ids),
                cache := s'.cache, txsNeeded := s'.txsNeeded, requests := s'.requests)
    && CacheGains(s.cache, s'.cache, Elements(block.tx))
    && (forall t :: t in s'.txsNeeded <==> t in s.txsNeeded && t !in ids)
    && (forall q :: q in s'.requests <==>
          || (q.RejectTx? && q.txid in remove - ids)
          || (q in s.requests && !(q.Tx? && q.inMempool && q.txid in ids)))
  }

  /** The enforcer accepted the block, which is its top and the filtered tip from now on. */
  ghost predicate BlockAccepted(s: State, s': State, block: Block, remove: set<Txid>) {
    && MinedTaken(s, s'.(tips := s.tips, stack := s.stack), block, remove)
    && s'.tips == s.tips.(chain := block.hash) && s'.stack == s.stack + [block.hash]
  }

  lemma MakeAccepted(s: State, ruled: State, taken: State, s': State, block: Block, remove: set<Txid>)
    requires ruled == s.(stack := s.stack + [block.hash]) && MinedTaken(ruled, taken, block, remove)
    requires s' == taken.(tips := taken.tips.(chain := block.hash))
    ensures BlockAccepted(s, s', block, remove)
  {
    hide Downstream, CacheGains, IdsOf, Elements;
  }

  /** After an accepted block nothing is pooled that was mined or asked to be removed, or that spends, directly or through
      other pooled txs, one asked to be removed; whoever spends none of them stays; and exactly what was asked to be
      removed and not mined is rejected. */
  lemma AcceptedMeans(s: State, s': State, block: Block, remove: set<Txid>)
    requires BlockAccepted(s, s', block, remove)
    ensures
      var ids := IdsOf(block.tx);
      var gone := s.mempool.Keys - ids - s'.mempool.Keys;
      && (forall t :: t in s'.mempool ==>
            t in s.mempool && s'.mempool[t] == s.mempool[t] && t !in ids && t !in remove
            && s'.mempool[t].Parents() * (remove + gone) == {})
      && (forall x :: SpendersWithin(s.mempool - ids, remove, x) ==> gone <= x)
      && (forall t :: t in s'.rejected <==> t in s.rejected || (t in remove && t !in ids))
      && (forall t :: t in remove && t !in ids ==> RequestItem.RejectTx(t) in s'.requests)
      && (forall t :: t in ids ==> t in s'.cache && t !in s'.txsNeeded && Tx(t, true) !in s'.requests)
    ensures s'.tips == Tips(block.hash, s.tips.unfiltered, s.tips.rejected)
  {
    hide Downstream, Elements, SpendersWithin;
    var ids := IdsOf(block.tx);
    var left := s.mempool - ids;
    DownstreamWithin(left, remove);
    StaysUnspent(left, remove, Downstream(left, remove));
    assert s.mempool.Keys - ids - s'.mempool.Keys == Downstream(left, remove);
    forall x | SpendersWithin(left, remove, x) ensures Downstream(left, remove) <= x {
      DownstreamLeast(left, remove, x);
    }
    MinedCached(s.cache, s'.cache, block.tx);
  }

  lemma StaysUnspent(pool: map<Txid, Transaction>, roots: set<Txid>, x: set<Txid>)
    requires SpendersWithin(pool, roots, x)
    ensures forall t :: t in pool && t !in x ==> t !in roots && pool[t].Parents() * (roots + x) == {}
  {
    hide Transaction.Parents;
  }

  lemma MinedCached(cache: map<Txid, Transaction>, cache': map<Txid, Transaction>, txs: seq<Transaction>)
    requires CacheGains(cache, cache', Elements(txs))
    ensures IdsOf(txs) <= cache'.Keys
  {
  }

  ghost predicate BlockRuledOn(s: State, s': State, block: Block, answer: ConnectAnswer) {
    match answer
    case ConnectAccept(remove) => BlockAccepted(s, s', block, remove)
    case ConnectReject => s' == BlockRejected(s, block.hash)
    case ConnectFailed => false
  }

  /** The mirror moves to the block and forgets its txs. */
  ghost function MirrorAt(s: State, block: Block): State {
    s.(mirror := s.mirror - IdsOf(block.tx), tips := s.tips.(unfiltered := block.hash))
  }

  ghost predicate BlockConnected(s: State, s': State, block: Block, answer: ConnectAnswer) {
    match CaseOf(s.tips, HeightAt(s), block)
    case AlreadyApplied => s' == s
    case BelowTip => s' == s
    case TipMismatch => false
    case OnRejectedParent => s' == BlockRejected(MirrorAt(s, block), block.hash)
    case AskEnforcer => BlockRuledOn(MirrorAt(s, block), s', block, answer)
  }

  function VerdictOf(answer: ConnectAnswer): Verdict {
    if answer.ConnectAccept? then Accepted else TurnedDown
  }

  ghost function ViewsOf(s: State): Views {
    Views(s.tips.rejected, s.mempool, s.mirror)
  }

  lemma RuledMeans(s: State, s': State, block: Block, answer: ConnectAnswer, spends: Spends)
    requires BlockRuledOn(s, s', block, answer)
    ensures answer.ConnectAccept? ==> s'.tips == s.tips.(chain := block.hash) && s'.stack == s.stack + [block.hash]
    ensures !answer.ConnectAccept? ==>
              s'.tips == s.tips.(rejected := s.tips.rejected + {block.hash}) && s'.stack == s.stack
    ensures s'.mirror == s.mirror && Part(s'.mempool, s.mempool)
    ensures answer.ConnectAccept? ==> s'.mempool.Keys !! IdsOf(block.tx)
    ensures s'.tips.rejected == {} ==> answer.ConnectAccept?
  {
    hide Downstream, CacheGains, IdsOf, Elements, ReplaceToFront;
    assert block.hash in s.tips.rejected + {block.hash};
    PartSame(s.mempool);
    if answer.ConnectAccept? {
      PartWithout(s.mempool, s.mempool, IdsOf(block.tx));
      PartWithout(s.mempool - IdsOf(block.tx), s.mempool,
                  Downstream(s.mempool - IdsOf(block.tx), answer.removeMempoolTxs));
    }
  }

  /** A connected block moves the tips as its case and the verdict say, and leaves the views as they should be. */
  lemma ConnectedMeans(s: State, s': State, block: Block, answer: ConnectAnswer, spends: Spends)
    requires BlockConnected(s, s', block, answer)
    ensures
      var c := CaseOf(s.tips, HeightAt(s), block);
      && c != TipMismatch
      && s'.tips == AfterConnect(s.tips, c, block, VerdictOf(answer))
      && s'.mirror == (if Skipped(c) then s.mirror else s.mirror - IdsOf(block.tx))
      && s'.stack == s.stack + (if c == AskEnforcer && answer.ConnectAccept? then [block.hash] else [])
    ensures PooledStep(ViewsOf(s), ViewsOf(s'), spends)
  {
    hide BlockRuledOn, CaseOf, PooledStep, IdsOf, Part;
    ViewsSame(ViewsOf(s), spends);
    var m := MirrorAt(s, block);
    match CaseOf(s.tips, HeightAt(s), block) {
      case AlreadyApplied =>
      case BelowTip =>
      case TipMismatch =>
      case OnRejectedParent => ViewsReject(ViewsOf(s), block.hash, m.mirror, spends);
      case AskEnforcer =>
        RuledMeans(m, s', block, answer, spends);
        ViewsShrink(ViewsOf(s), ViewsOf(s'), IdsOf(block.tx), spends);
    }
  }

  ghost predicate ParentMissing(s: State, block: Block) {
    block.previousblockhash.Some? && block.Prev() !in s.blocks
  }

  /** The enforcer pops the filtered tip, and both tips move to its parent. */
  ghost predicate BlockDisconnected(s: State, s': State, block: Block, answer: DisconnectAnswer) {
    && s.tips.chain == block.hash && s.tips.unfiltered == block.hash && !ParentMissing(s, block)
    && answer.DisconnectDone? && s.stack != []
    && s' == s.(tips := s.tips.(chain := block.Prev(), unfiltered := block.Prev()), stack := s.stack[..|s.stack| - 1],
                mempool := s.mempool - Downstream(s.mempool, answer.removeMempoolTxs))
  }

  ghost predicate ParentBlockAsked(s: State, s': State, block: Block) {
    && s.tips.chain == block.hash && s.tips.unfiltered == block.hash && ParentMissing(s, block)
    && s' == if block.Prev() in s.blocksNeeded then s
             else s.(blocksNeeded := Replace(s.blocksNeeded, block.Prev()),
                     requests := ReplaceToFront(s.requests, RequestItem.Block(block.Prev())))
  }

  lemma DisconnectedMeans(s: State, s': State, block: Block, answer: DisconnectAnswer, spends: Spends)
    requires BlockDisconnected(s, s', block, answer)
    ensures s'.tips == AfterDisconnect(s.tips, block) && s'.tips.chain == s'.tips.unfiltered == block.Prev()
    ensures s.stack != [] && s'.stack == s.stack[..|s.stack| - 1]
    ensures block.previousblockhash.Some? ==> block.Prev() in s.blocks
    ensures Part(s'.mempool, s.mempool) && s'.blocksNeeded == s.blocksNeeded && s'.mirror == s.mirror
    ensures PooledStep(ViewsOf(s), ViewsOf(s'), spends)
  {
    hide Downstream, PooledStep;
    PartSame(s.mempool);
    PartWithout(s.mempool, s.mempool, Downstream(s.mempool, answer.removeMempoolTxs));
    ViewsShrink(ViewsOf(s), ViewsOf(s'), {}, spends);
  }

  lemma AskedMeans(s: State, s': State, block: Block)
    requires ParentBlockAsked(s, s', block)
    ensures s' == s.(blocksNeeded := s'.blocksNeeded, requests := s'.requests)
    ensures s'.blocksNeeded == Replace(s.blocksNeeded, block.Prev())
    ensures block.previousblockhash.Some? && block.Prev() !in s.blocks && block.Prev() in s'.blocksNeeded
    ensures NeedsKept(s.blocksNeeded, s'.blocksNeeded)
  {
    hide ReplaceToFront;
  }

  lemma MirrorGrows(s: State, s': State, txid: Txid, spends: Spends)
    requires s' == s.(mirror := s.mirror + {txid})
    ensures PooledStep(ViewsOf(s), ViewsOf(s'), spends)
  {
    hide PooledStep;
    PartSame(s.mempool);
    ViewsShrink(ViewsOf(s), ViewsOf(s'), {}, spends);
  }

  // ---- actions ----

  ghost predicate MessageApplied(s: State, s': State, g: Given, msg: SequenceMessage, rulings: Rulings) {
    match msg
    case Added(txid, _) => TxAdded(s, s', g, txid, rulings)
    case Removed(txid, _) =>
      && txid in s.mirror
      && s' == s.(mirror := s.mirror - {txid}, mempool := s.mempool - {txid},
                  abandoned := AbandonedTxs.AfterRemove(s.abandoned, txid))
    case Connected(hash) => hash in s.blocks && BlockConnected(s, s', s.blocks[hash], rulings.connect)
    case Disconnected(hash) =>
      if s.tips.chain != hash then hash in s.tips.rejected && s' == s
      else hash in s.blocks && BlockDisconnected(s, s', s.blocks[hash], rulings.disconnect)
  }

  ghost predicate MessageWaits(s: State, s': State, g: Given, msg: SequenceMessage) {
    match msg
    case Added(txid, _) => TxWaits(s, s', g, txid)
    case Removed(_, _) => false
    case Connected(hash) => hash !in s.blocks && s' == s
    case Disconnected(hash) =>
      if s.tips.chain != hash then hash !in s.tips.rejected && s' == s
      else if hash !in s.blocks then s' == s
      else ParentBlockAsked(s, s', s.blocks[hash])
  }

  ghost predicate ActionApplied(s: State, s': State, g: Given, action: SyncAction, rulings: Rulings) {
    match action
    case InsertTx(txid) => TxAdded(s, s', g, txid, rulings)
    case Sequence(msg) => MessageApplied(s, s', g, msg, rulings)
  }

  lemma AddedIsMessage(s: State, s': State, g: Given, txid: Txid, seqNo: nat, rulings: Rulings)
    ensures TxAdded(s, s', g, txid, rulings) <==> MessageApplied(s, s', g, Added(txid, seqNo), rulings)
    ensures TxWaits(s, s', g, txid) <==> MessageWaits(s, s', g, Added(txid, seqNo))
  {
    hide TxAdded, TxWaits;
  }

  lemma ActionIs(s: State, s': State, g: Given, action: SyncAction, rulings: Rulings)
    ensures action.InsertTx? ==>
              && (TxAdded(s, s', g, action.txid, rulings) <==> ActionApplied(s, s', g, action, rulings))
              && (TxWaits(s, s', g, action.txid) <==> ActionWaits(s, s', g, action))
    ensures action.Sequence? ==>
              && (MessageApplied(s, s', g, action.msg, rulings) <==> ActionApplied(s, s', g, action, rulings))
              && (MessageWaits(s, s', g, action.msg) <==> ActionWaits(s, s', g, action))
  {
    hide TxAdded, TxWaits, MessageApplied, MessageWaits;
  }

  ghost predicate ActionWaits(s: State, s': State, g: Given, action: SyncAction) {
    match action
    case InsertTx(txid) => TxWaits(s, s', g, txid)
    case Sequence(msg) => MessageWaits(s, s', g, msg)
  }

  /** An applied action moves the mirror by its effect on the node's mempool, leaves the views as they should be and the
      tip at hand, and forgets no block that is needed. */
  lemma ActionMeans(s: State, s': State, g: Given, action: SyncAction, rulings: Rulings, parentOf: Parentage,
                    spends: Spends)
    requires ActionApplied(s, s', g, action, rulings)
    requires CacheHashed(s.cache, spends) && BlocksKeyed(s.blocks, parentOf, spends)
    ensures BlockAtHand(action, s.blocks)
    ensures s'.mirror == MirrorStep(s.mirror, EffectOf(action, s.blocks, s.tips, HeightAt(s)))
    ensures PooledStep(ViewsOf(s), ViewsOf(s'), spends)
    ensures TipAtHand(s.tips.chain, s.blocks) ==> TipAtHand(s'.tips.chain, s.blocks)
    ensures s'.blocksNeeded == s.blocksNeeded && s'.blocks == s.blocks
  {
    hide PooledStep, TxAdded, BlockConnected, BlockDisconnected, AbandonedTxs.AfterRemove, CaseOf, Skipped, Part, IdsOf,
         CacheHashed, AfterDisconnect, AfterConnect, GoodBlock, TipAtHand;
    ViewsSame(ViewsOf(s), spends);
    match action {
      case InsertTx(txid) => AddedMeans(s, s', g, txid, rulings, spends);
      case Sequence(Added(txid, _)) => AddedMeans(s, s', g, txid, rulings, spends);
      case Sequence(Removed(txid, _)) =>
        PartSame(s.mempool);
        PartWithout(s.mempool, s.mempool, {txid});
        ViewsShrink(ViewsOf(s), ViewsOf(s'), {txid}, spends);
      case Sequence(Connected(hash)) =>
        ConnectedMeans(s, s', s.blocks[hash], rulings.connect, spends);
        ConnectedFrame(s, s', s.blocks[hash], rulings.connect);
      case Sequence(Disconnected(hash)) =>
        if s.tips.chain == hash {
          DisconnectedMeans(s, s', s.blocks[hash], rulings.disconnect, spends);
          DisconnectedFrame(s, s', s.blocks[hash], rulings.disconnect);
        }
    }
  }

  lemma AddedMeans(s: State, s': State, g: Given, txid: Txid, rulings: Rulings, spends: Spends)
    requires TxAdded(s, s', g, txid, rulings) && CacheHashed(s.cache, spends)
    ensures s'.mirror == s.mirror + {txid} && PooledStep(ViewsOf(s), ViewsOf(s'), spends)
    ensures s'.tips == s.tips && s'.blocks == s.blocks && s'.blocksNeeded == s.blocksNeeded
  {
    hide PooledStep, Resolves, TxSettled, AbandonedTxs.Hashed, Part;
    if Known(s, txid) {
      assert s' == s.(mirror := s.mirror + {txid});
      MirrorGrows(s, s', txid, spends);
    } else {
      var how :| Resolves(CachesOf(s, g), txid in g.fees, s.cache[txid].input, how)
                 && TxSettled(s, s'.(mirror := s.mirror), s.cache[txid], how, rulings);
      CachedHashed(s.cache, txid, spends);
      SettledMeans(s, s'.(mirror := s.mirror), s.cache[txid], how, rulings);
      ViewsGain(ViewsOf(s), ViewsOf(s'), s.cache[txid], spends);
    }
  }

  lemma ConnectedFrame(s: State, s': State, block: Block, answer: ConnectAnswer)
    requires BlockConnected(s, s', block, answer)
    ensures s'.blocks == s.blocks && s'.blocksNeeded == s.blocksNeeded
    ensures TipAtHand(s.tips.chain, s.blocks) && block.hash in s.blocks ==> TipAtHand(s'.tips.chain, s.blocks)
  {
    hide Downstream, CacheGains, IdsOf, CaseOf, Elements, ReplaceToFront;
  }

  lemma DisconnectedFrame(s: State, s': State, block: Block, answer: DisconnectAnswer)
    requires BlockDisconnected(s, s', block, answer)
    ensures s'.blocks == s.blocks && s'.mirror == s.mirror
    ensures TipAtHand(s'.tips.chain, s.blocks)
  {
    hide Downstream;
  }

  /** An action that has to wait changes nothing but what is needed and asked for. */
  lemma WaitsMeans(s: State, s': State, g: Given, action: SyncAction)
    requires ActionWaits(s, s', g, action)
    ensures s' == s.(txsNeeded := s'.txsNeeded, blocksNeeded := s'.blocksNeeded, requests := s'.requests)
    ensures NeedsKept(s.blocksNeeded, s'.blocksNeeded)
  {
    hide ReplaceToFront, Resolves, ParentsAsked, ParentBlockAsked;
    match action {
      case InsertTx(txid) => AddWaitsMeans(s, s', g, txid);
      case Sequence(Added(txid, _)) => AddWaitsMeans(s, s', g, txid);
      case Sequence(Disconnected(hash)) =>
        if s.tips.chain == hash && hash in s.blocks { AskedMeans(s, s', s.blocks[hash]); }
      case _ =>
    }
  }

  lemma AddWaitsMeans(s: State, s': State, g: Given, txid: Txid)
    requires TxWaits(s, s', g, txid)
    ensures s' == s.(txsNeeded := s'.txsNeeded, requests := s'.requests)
  {
    hide ReplaceToFront, Resolves, ParentsAsked;
    if txid in s.cache {
      var how :| Resolves(CachesOf(s, g), txid in g.fees, s.cache[txid].input, how) && ParentsAsked(s, s', how);
      ParentsMeans(s, s', how);
    }
  }

  /** The first action is applied and leaves the queue. */
  ghost predicate NextApplied(s: State, s': State, g: Given, rulings: Rulings) {
    && s.actions != [] && s'.actions == s.actions[1..]
    && ActionApplied(s, s'.(actions := s.actions), g, s.actions[0], rulings)
  }

  ghost predicate Applies(s: State, s': State, g: Given) {
    exists rulings :: NextApplied(s, s', g, rulings)
  }

  /** There is no action, or the first one has to wait. */
  ghost predicate NextWaits(s: State, s': State, g: Given) {
    if s.actions == [] then s' == s else s'.actions == s.actions && ActionWaits(s, s', g, s.actions[0])
  }

  lemma MakeNextApplied(s: State, tried: State, s': State, g: Given, rulings: Rulings)
    requires s.actions != [] && tried.actions == s.actions && s' == tried.(actions := s.actions[1..])
    requires ActionApplied(s, tried, g, s.actions[0], rulings)
    ensures NextApplied(s, s', g, rulings) && Applies(s, s', g)
  {
    hide ActionApplied;
    assert s'.(actions := s.actions) == tried;
    assert NextApplied(s, s', g, rulings);
  }

  lemma MakeNextWaits(s: State, s': State, g: Given)
    requires s.actions != [] && s'.actions == s.actions && ActionWaits(s, s', g, s.actions[0])
    ensures NextWaits(s, s', g)
  {
    hide ActionWaits;
  }

  lemma NothingNext(s: State, g: Given)
    requires s.actions == []
    ensures NextWaits(s, s, g)
  {
    hide ActionWaits;
  }

  /** Actions applied one after the other, until the next one has to wait. */
  ghost predicate IsRun(run: seq<State>, g: Given) {
    && |run| >= 2 && NextWaits(run[|run| - 2], run[|run| - 1], g)
    && forall i :: 0 <= i < |run| - 2 ==> Applies(run[i], run[i + 1], g)
  }

  ghost predicate Settled(s: State, s': State, g: Given) {
    exists run :: IsRun(run, g) && run[0] == s && run[|run| - 1] == s'
  }

  lemma MakeApplies(s: State, s': State, g: Given, rulings: Rulings)
    requires NextApplied(s, s', g, rulings)
    ensures Applies(s, s', g)
  {
    hide NextApplied;
  }

  /** Actions applied one after the other lead from `s` to `s'`. */
  ghost predicate RunsTo(run: seq<State>, s: State, s': State, g: Given) {
    && run != [] && run[0] == s && run[|run| - 1] == s'
    && forall i :: 0 <= i < |run| - 1 ==> Applies(run[i], run[i + 1], g)
  }

  lemma RunStarts(s: State, g: Given)
    ensures RunsTo([s], s, s, g)
  {
  }

  lemma RunMore(run: seq<State>, s: State, s': State, s'': State, g: Given)
    requires RunsTo(run, s, s', g) && Applies(s', s'', g)
    ensures RunsTo(run + [s''], s, s'', g)
  {
    hide Applies;
  }

  lemma RunSettles(run: seq<State>, s: State, s': State, s'': State, g: Given)
    requires RunsTo(run, s, s', g) && NextWaits(s', s'', g)
    ensures Settled(s, s'', g)
  {
    hide Applies, NextWaits;
    var all := run + [s''];
    assert all[|all| - 2] == s' && all[|all| - 1] == s'' && all[0] == s;
    assert IsRun(all, g);
  }

  /** The tx is missing and asked for, or it is at hand and a parent of it is needed. */
  ghost predicate TxAwaited(s: State, g: Given, txid: Txid) {
    && !Known(s, txid)
    && if txid !in s.cache then Pending(s.requests, s.inFlight, Tx(txid, true))
       else exists how ::
         && Resolves(CachesOf(s, g), txid in g.fees, s.cache[txid].input, how)
         && how.RequiredParents? && forall p :: p in how.txids ==> p in s.txsNeeded
  }

  /** The action cannot be applied yet. */
  ghost predicate HeadWaits(s: State, g: Given, action: SyncAction) {
    match action
    case InsertTx(txid) => TxAwaited(s, g, txid)
    case Sequence(Added(txid, _)) => TxAwaited(s, g, txid)
    case Sequence(Removed(_, _)) => false
    case Sequence(Connected(hash)) => hash !in s.blocks
    case Sequence(Disconnected(hash)) =>
      if s.tips.chain != hash then hash !in s.tips.rejected
      else hash in s.blocks ==> ParentMissing(s, s.blocks[hash]) && s.blocks[hash].Prev() in s.blocksNeeded
  }

  /** Nothing that is queued can be applied now. */
  ghost predicate Stuck(s: State, g: Given) {
    s.actions != [] ==> HeadWaits(s, g, s.actions[0])
  }

  lemma WaitsStuck(s: State, s': State, g: Given)
    requires NextWaits(s, s', g)
    ensures Stuck(s', g)
  {
    hide Resolves, ReplaceToFront, ParentsAsked;
    if s.actions != [] {
      WaitsMeans(s, s', g, s.actions[0]);
      match s.actions[0] {
        case InsertTx(txid) => WaitsAwaited(s, s', g, txid);
        case Sequence(Added(txid, _)) => WaitsAwaited(s, s', g, txid);
        case _ =>
      }
    }
  }

  lemma WaitsAwaited(s: State, s': State, g: Given, txid: Txid)
    requires TxWaits(s, s', g, txid)
    ensures TxAwaited(s', g, txid)
  {
    hide Resolves, ParentsAsked;
    AddWaitsMeans(s, s', g, txid);
    if txid in s.cache {
      var how :| Resolves(CachesOf(s, g), txid in g.fees, s.cache[txid].input, how) && ParentsAsked(s, s', how);
      ParentsMeans(s, s', how);
      assert CachesOf(s', g) == CachesOf(s, g);
      assert how.RequiredParents? by { ParentsRequired(s, s', how); }
    }
  }

  lemma ParentsRequired(s: State, s': State, how: ParentTxsResult)
    requires ParentsAsked(s, s', how)
    ensures how.RequiredParents?
  {
  }

  /** A request that answers the action's wait has been made and not been answered yet; only a disconnect of a block that
      is not the filtered tip waits for something else. */
  ghost predicate Asked(s: State, action: SyncAction) {
    match action
    case InsertTx(txid) => TxAsked(s, txid)
    case Sequence(Added(txid, _)) => TxAsked(s, txid)
    case Sequence(Removed(_, _)) => true
    case Sequence(Connected(hash)) => Pending(s.requests, s.inFlight, RequestItem.Block(hash))
    case Sequence(Disconnected(hash)) =>
      s.tips.chain == hash ==>
        Pending(s.requests, s.inFlight, RequestItem.Block(if hash in s.blocks then s.blocks[hash].Prev() else hash))
  }

  /** The tx, or a parent of it, is asked for. */
  ghost predicate TxAsked(s: State, txid: Txid) {
    if txid !in s.cache then Pending(s.requests, s.inFlight, Tx(txid, true))
    else exists p :: p in s.cache[txid].Parents() && ParentPending(s, p)
  }

  ghost predicate ParentPending(s: State, p: Txid) {
    Pending(s.requests, s.inFlight, Tx(p, true)) || Pending(s.requests, s.inFlight, Tx(p, false))
  }

  /** What the first action waits for is asked for: no block is waited for that nobody fetches. */
  lemma NothingStranded(s: State, g: Given)
    requires Stuck(s, g) && s.actions != []
    requires Served(s.blocksNeeded, s.txsNeeded, s.requests, s.inFlight)
    requires BlocksAwaited(s.actions, s.blocks, s.blocksNeeded)
    ensures Asked(s, s.actions[0])
  {
    hide Resolves, Known, Transaction.Parents;
    assert BlockAwaited(s.actions[0], s.blocks, s.blocksNeeded);
    match s.actions[0] {
      case InsertTx(txid) => AwaitedAsked(s, g, txid);
      case Sequence(Added(txid, _)) => AwaitedAsked(s, g, txid);
      case _ =>
    }
  }

  lemma AwaitedAsked(s: State, g: Given, txid: Txid)
    requires TxAwaited(s, g, txid) && TxsServed(s.txsNeeded, s.requests, s.inFlight)
    ensures TxAsked(s, txid)
  {
    hide Known, InVinOrder, NoneIn, Found;
    if txid in s.cache {
      var vin := s.cache[txid].input;
      var how :| Resolves(CachesOf(s, g), txid in g.fees, vin, how)
                 && how.RequiredParents? && forall p :: p in how.txids ==> p in s.txsNeeded;
      InVinOrderComplete(CachesOf(s, g), txid in g.fees, vin, IsNeeded);
      var p := how.txids[0];
      assert p in InVinOrder(CachesOf(s, g), txid in g.fees, vin, IsNeeded);
      var o :| o in vin && o.txid == p;
      InputIsParent(s.cache[txid], o);
      assert ParentPending(s, p);
    }
  }

  /** Handing out requests leaves them pending. */
  lemma SentPending(s: State, s': State)
    requires BatchSent(s, s')
    ensures s' == s.(requests := s'.requests, inFlight := s'.inFlight)
    ensures forall q :: Pending(s.requests, s.inFlight, q) ==> Pending(s'.requests, s'.inFlight, q)
  {
    hide MayTake, Items;
    if s.requests != [] {
      var batch :| IsBatchOf(batch, s.requests)
                   && s' == s.(requests := s.requests[|Items(batch)|..], inFlight := s.inFlight + Elements(Items(batch)));
      BatchSplits(batch, s.requests);
      forall q | q in s.requests ensures q in Items(batch) || q in s'.requests {
        assert q in Items(batch) + s'.requests;
      }
    }
  }

  lemma SentStuck(s: State, s': State, g: Given)
    requires BatchSent(s, s') && Stuck(s, g)
    ensures Stuck(s', g)
  {
    hide Resolves, BatchSent, Pending;
    SentPending(s, s');
    assert CachesOf(s', g) == CachesOf(s, g);
  }

  // ---- messages ----

  ghost function BlockWanted(s: State, hash: BlockHash): State {
    if hash in s.blocks then s
    else s.(blocksNeeded := Replace(s.blocksNeeded, hash), requests := Replace(s.requests, RequestItem.Block(hash)))
  }

  ghost function TxForgotten(s: State, txid: Txid): State {
    s.(first := None, txsNeeded := Without(s.txsNeeded, txid), unavailable := s.unavailable + {txid},
       requests := Without(s.requests, Tx(txid, true)))
  }

  /** The tx is needed and asked for. One that was unavailable is asked for first, and frees what waited for it alone. */
  ghost predicate TxWanted(s: State, s': State, txid: Txid) {
    var wanted := s.(first := None, txsNeeded := Replace(s.txsNeeded, txid));
    if txid !in s.unavailable then s' == wanted.(requests := Replace(s.requests, Tx(txid, true)))
    else exists restored: seq<Transaction> ::
      && RestoredFrom(s.abandoned, txid, restored, s'.abandoned)
      && CacheGains(s.cache, s'.cache, Elements(restored))
      && s' == wanted.(unavailable := s.unavailable - {txid}, requests := ReplaceToFront(s.requests, Tx(txid, true)),
                       abandoned := s'.abandoned, cache := s'.cache, actions := Insertions(restored) + s.actions)
  }

  lemma MakeWanted(s: State, needed: State, s': State, txid: Txid, restored: seq<Transaction>)
    requires txid in s.unavailable && s.first == None
    requires needed == s.(txsNeeded := Replace(s.txsNeeded, txid), unavailable := s.unavailable - {txid},
                          requests := ReplaceToFront(s.requests, Tx(txid, true)))
    requires s' == needed.(abandoned := s'.abandoned, cache := s'.cache, actions := Insertions(restored) + s.actions)
    requires RestoredFrom(s.abandoned, txid, restored, s'.abandoned)
    requires CacheGains(s.cache, s'.cache, Elements(restored))
    ensures TxWanted(s, s', txid)
  {
    hide RestoredFrom, CacheGains, Insertions, Replace, ReplaceToFront, Elements;
  }

  lemma WantedAnyhow(s: State, later: State, s': State, txid: Txid)
    requires later == s.(first := None) && TxWanted(later, s', txid)
    ensures TxWanted(s, s', txid)
  {
    hide RestoredFrom, CacheGains, Insertions, Replace, ReplaceToFront;
  }

  lemma ForgottenAnyhow(s: State, txid: Txid)
    ensures TxForgotten(s.(first := None), txid) == TxForgotten(s, txid)
  {
  }

  ghost predicate MessageNeeds(s: State, s': State, msg: SequenceMessage) {
    match msg
    case Connected(hash) => s' == BlockWanted(s, hash)
    case Disconnected(hash) => s' == BlockWanted(s, hash)
    case Added(txid, seqNo) =>
      if s.first.Some? && seqNo < s.first.value then s' == s
      else if txid in s.cache then s' == s.(first := None)
      else TxWanted(s, s', txid)
    case Removed(txid, seqNo) =>
      s' == if s.first.Some? && seqNo < s.first.value then s else TxForgotten(s, txid)
  }

  /** What the message needs is noted, and the message is queued last. */
  ghost predicate MessageNoted(s: State, s': State, msg: SequenceMessage) {
    s'.actions != [] && s'.actions[|s'.actions| - 1] == Sequence(msg)
    && MessageNeeds(s, s'.(actions := s'.actions[..|s'.actions| - 1]), msg)
  }

  /** The message came with or after the snapshot. */
  predicate Counts(first: Option<nat>, msg: SequenceMessage)
    requires msg.Added? || msg.Removed?
  {
    !(first.Some? && msg.mempoolSeq < first.value)
  }

  lemma MakeNoted(s: State, needed: State, s': State, msg: SequenceMessage)
    requires MessageNeeds(s, needed, msg) && s' == needed.(actions := needed.actions + [Sequence(msg)])
    ensures MessageNoted(s, s', msg)
  {
    hide MessageNeeds;
    assert s'.(actions := s'.actions[..|s'.actions| - 1]) == needed;
  }

  /** A noted message leaves its block at hand or needed and asked for, an added tx cached or needed and asked for, and a
      removed tx unavailable and forgotten. Nothing needed is lost, and only insertions overtake what was queued. */
  lemma NotedMeans(s: State, s': State, msg: SequenceMessage)
    requires MessageNoted(s, s', msg)
    ensures s'.tips == s.tips && s'.blocks == s.blocks && s'.mempool == s.mempool && s'.mirror == s.mirror
    ensures exists restored: seq<Transaction> :: s'.actions == Insertions(restored) + s.actions + [Sequence(msg)]
    ensures NeedsKept(s.blocksNeeded, s'.blocksNeeded) && BlockAwaited(Sequence(msg), s'.blocks, s'.blocksNeeded)
    ensures (msg.Connected? || msg.Disconnected?) && msg.hash !in s.blocks ==>
              msg.hash in s'.blocksNeeded && RequestItem.Block(msg.hash) in s'.requests
    ensures msg.Added? && Counts(s.first, msg) && msg.txid !in s.cache ==>
              msg.txid in s'.txsNeeded && Tx(msg.txid, true) in s'.requests && msg.txid !in s'.unavailable
    ensures msg.Removed? && Counts(s.first, msg) ==>
              msg.txid !in s'.txsNeeded && Tx(msg.txid, true) !in s'.requests && msg.txid in s'.unavailable
  {
    hide CacheGains, RestoredFrom, Insertions;
    var front := s'.actions[..|s'.actions| - 1];
    assert s'.actions == front + [Sequence(msg)];
    assert front == s.actions || (msg.Added? && exists restored: seq<Transaction> :: front == Insertions(restored) + s.actions);
    NoInsertions(s.actions);
    if front == s.actions {
      assert s'.actions == Insertions([]) + s.actions + [Sequence(msg)];
    }
  }

  lemma AwaitedMore(s: State, s': State, msg: SequenceMessage)
    requires BlocksAwaited(s.actions, s.blocks, s.blocksNeeded) && s'.blocks == s.blocks
    requires NeedsKept(s.blocksNeeded, s'.blocksNeeded) && BlockAwaited(Sequence(msg), s'.blocks, s'.blocksNeeded)
    requires exists restored: seq<Transaction> :: s'.actions == Insertions(restored) + s.actions + [Sequence(msg)]
    ensures BlocksAwaited(s'.actions, s'.blocks, s'.blocksNeeded)
  {
    var restored: seq<Transaction> :| s'.actions == Insertions(restored) + s.actions + [Sequence(msg)];
    forall a | a in s'.actions ensures BlockAwaited(a, s'.blocks, s'.blocksNeeded) {
      if a !in Insertions(restored) && a != Sequence(msg) {
        assert a in s.actions;
        assert BlockAwaited(a, s.blocks, s.blocksNeeded);
      }
    }
  }

  // ---- responses ----

  /** `restored` is what becomes available again with the txs, the last one first. */
  ghost predicate RestoredBelow(s: AbandonedTxs.Pool, txs: seq<Transaction>, restored: seq<Transaction>,
                                s': AbandonedTxs.Pool)
    decreases |txs|
  {
    if txs == [] then restored == [] && s' == s
    else exists middle, some, more: seq<Transaction> ::
      && RestoredBelow(s, txs[1..], more, middle) && RestoredFrom(middle, txs[0].txid, some, s')
      && restored == some + more
  }

  lemma RestoredNone(s: AbandonedTxs.Pool, txs: seq<Transaction>)
    ensures txs[0..] == txs && RestoredBelow(s, txs[|txs|..], [], s)
  {
    hide RestoredFrom;
  }

  lemma RestoredMore(s: AbandonedTxs.Pool, txs: seq<Transaction>, i: nat, more: seq<Transaction>,
                     middle: AbandonedTxs.Pool, some: seq<Transaction>, s': AbandonedTxs.Pool)
    requires i < |txs| && RestoredBelow(s, txs[i + 1..], more, middle)
    requires RestoredFrom(middle, txs[i].txid, some, s')
    ensures RestoredBelow(s, txs[i..], some + more, s')
  {
    hide RestoredFrom;
    assert txs[i..][1..] == txs[i + 1..];
  }

  lemma GainsJoin(cache: map<Txid, Transaction>, middle: map<Txid, Transaction>, cache': map<Txid, Transaction>,
                  more: seq<Transaction>, some: seq<Transaction>)
    requires CacheGains(cache, middle, Elements(more)) && CacheGains(middle, cache', Elements(some))
    ensures CacheGains(cache, cache', Elements(some + more))
  {
  }

  lemma GainsNone(cache: map<Txid, Transaction>)
    ensures CacheGains(cache, cache, Elements([]))
  {
  }

  ghost predicate BlockTaken(s: State, s': State, block: Block, batch: BatchedRequestItem) {
    exists restored: seq<Transaction> ::
      && RestoredBelow(s.abandoned, block.tx, restored, s'.abandoned)
      && CacheGains(s.cache, s'.cache, Elements(restored))
      && s' == s.(blocksNeeded := Without(s.blocksNeeded, block.hash), inFlight := s.inFlight - Elements(Items(batch)),
                  unavailable := s.unavailable - IdsOf(block.tx), abandoned := s'.abandoned, cache := s'.cache,
                  actions := Insertions(restored) + s.actions)
  }

  /** The first action is the block message that waited for this block, and it is applied. */
  ghost predicate WaitingApplied(s: State, s': State, block: Block, rulings: Rulings) {
    if s.actions != [] && s.actions[0] == Sequence(Connected(block.hash)) then
      s'.actions == s.actions[1..] && BlockConnected(s, s'.(actions := s.actions), block, rulings.connect)
    else if s.actions != [] && s.actions[0] == Sequence(Disconnected(block.hash)) && s.tips.chain == block.hash then
      || (s'.actions == s.actions[1..] && BlockDisconnected(s, s'.(actions := s.actions), block, rulings.disconnect))
      || ParentBlockAsked(s, s', block)
    else s' == s
  }

  lemma MakeBlockHandled(s: State, taken: State, applied: State, s': State, block: Block, batch: BatchedRequestItem,
                         rulings: Rulings)
    requires BlockTaken(s, taken, block, batch) && WaitingApplied(taken, applied, block, rulings)
    requires s' == applied.(blocks := applied.blocks[block.hash := block])
    ensures BlockHandled(s, s', block, batch)
  {
    hide BlockTaken, WaitingApplied;
  }

  lemma MakeConnected(s: State, tried: State, s': State, block: Block, rulings: Rulings)
    requires s.actions != [] && s.actions[0] == Sequence(Connected(block.hash)) && tried.actions == s.actions
    requires BlockConnected(s, tried, block, rulings.connect) && s' == tried.(actions := s.actions[1..])
    ensures WaitingApplied(s, s', block, rulings)
  {
    hide BlockConnected, BlockDisconnected, ParentBlockAsked;
    assert s'.(actions := s.actions) == tried;
  }

  lemma MakeDisconnected(s: State, tried: State, s': State, block: Block, rulings: Rulings)
    requires s.actions != [] && s.actions[0] == Sequence(Disconnected(block.hash)) && tried.actions == s.actions
    requires s.tips.chain == block.hash
    requires BlockDisconnected(s, tried, block, rulings.disconnect) && s' == tried.(actions := s.actions[1..])
    ensures WaitingApplied(s, s', block, rulings)
  {
    hide BlockConnected, BlockDisconnected, ParentBlockAsked;
    assert s'.(actions := s.actions) == tried;
  }

  lemma MakeAsked(s: State, s': State, block: Block, rulings: Rulings)
    requires s.actions != [] && s.actions[0] == Sequence(Disconnected(block.hash))
    requires s.tips.chain == block.hash && ParentBlockAsked(s, s', block)
    ensures WaitingApplied(s, s', block, rulings)
  {
    hide BlockConnected, BlockDisconnected, ParentBlockAsked;
  }

  lemma NothingWaits(s: State, block: Block, rulings: Rulings)
    requires s.actions != [] ==>
               && s.actions[0] != Sequence(Connected(block.hash))
               && !(s.actions[0] == Sequence(Disconnected(block.hash)) && s.tips.chain == block.hash)
    ensures WaitingApplied(s, s, block, rulings)
  {
    hide BlockConnected, BlockDisconnected, ParentBlockAsked;
  }

  /** The block arrived: what still waits for it finds it at hand. */
  lemma WaitingMeans(s: State, s': State, block: Block, rulings: Rulings, blocks: map<BlockHash, Block>)
    requires WaitingApplied(s, s', block, rulings) && BlocksAwaited(s.actions, blocks, s.blocksNeeded)
    ensures BlocksAwaited(s'.actions, blocks, s'.blocksNeeded)
  {
    hide BlockConnected, BlockDisconnected, ParentBlockAsked, BlocksAwaited, NeedsKept;
    NeedsSame(s.blocksNeeded);
    if s.actions != [] && s.actions[0] == Sequence(Connected(block.hash)) {
      ConnectedFrame(s, s'.(actions := s.actions), block, rulings.connect);
    } else if s.actions != [] && s.actions[0] == Sequence(Disconnected(block.hash)) && s.tips.chain == block.hash {
      if ParentBlockAsked(s, s', block) {
        AskedMeans(s, s', block);
      } else {
        DisconnectedNeeds(s, s'.(actions := s.actions), block, rulings.disconnect);
      }
    }
    AwaitedLess(s.actions, s'.actions, blocks, s.blocksNeeded, s'.blocksNeeded);
  }

  lemma DisconnectedNeeds(s: State, s': State, block: Block, answer: DisconnectAnswer)
    requires BlockDisconnected(s, s', block, answer)
    ensures s'.blocksNeeded == s.blocksNeeded
  {
    hide Downstream;
  }

  lemma AwaitedTaken(s: State, taken: State, block: Block, restored: seq<Transaction>)
    requires BlocksAwaited(s.actions, s.blocks, s.blocksNeeded)
    requires taken.blocksNeeded == Without(s.blocksNeeded, block.hash)
    requires taken.actions == Insertions(restored) + s.actions
    ensures BlocksAwaited(taken.actions, s.blocks[block.hash := block], taken.blocksNeeded)
  {
    WithoutHash(s.blocksNeeded, block.hash);
    forall a | a in taken.actions ensures BlockAwaited(a, s.blocks[block.hash := block], taken.blocksNeeded) {
      if a !in Insertions(restored) {
        assert a in s.actions;
        assert BlockAwaited(a, s.blocks, s.blocksNeeded);
      }
    }
  }

  ghost predicate BlockHandled(s: State, s': State, block: Block, batch: BatchedRequestItem) {
    exists taken, applied, rulings ::
      && BlockTaken(s, taken, block, batch) && WaitingApplied(taken, applied, block, rulings)
      && s' == applied.(blocks := applied.blocks[block.hash := block])
  }

  ghost function FetchedTxs(fetched: seq<(Transaction, bool)>): set<Transaction> {
    set f | f in fetched :: f.0
  }

  lemma GainsFetched(cache: map<Txid, Transaction>, cache': map<Txid, Transaction>, fetched: seq<(Transaction, bool)>,
                     i: nat)
    requires i < |fetched| && CacheGains(cache, cache', FetchedTxs(fetched[..i]))
    ensures CacheGains(cache, cache'[fetched[i].0.txid := fetched[i].0], FetchedTxs(fetched[..i + 1]))
  {
    hide CacheGains;
    GainsMore(cache, cache', FetchedTxs(fetched[..i]), fetched[i].0);
    assert fetched[..i + 1] == fetched[..i] + [fetched[i]];
    assert FetchedTxs(fetched[..i + 1]) == FetchedTxs(fetched[..i]) + {fetched[i].0};
  }

  lemma NoneFetched(cache: map<Txid, Transaction>, fetched: seq<(Transaction, bool)>)
    ensures CacheGains(cache, cache, FetchedTxs(fetched[..0]))
  {
  }

  /** Fetched txs enter the cache, the others are unavailable, and missing parents are needed and asked for. */
  ghost predicate TxsTaken(s: State, s': State, g: Given, fetched: seq<(Transaction, bool)>, unavailable: seq<Txid>,
                           batch: BatchedRequestItem) {
    && s' == s.(unavailable := s.unavailable + Elements(unavailable), inFlight := s.inFlight - Elements(Items(batch)),
                cache := s'.cache, txsNeeded := s'.txsNeeded, requests := s'.requests)
    && CacheGains(s.cache, s'.cache, FetchedTxs(fetched))
    && (forall t :: t in s'.txsNeeded <==>
          || Wanted(fetched, t, s.cache.Keys, g.fees.Keys, g.mempoolTxids)
          || (t in s.txsNeeded && t !in unavailable && t !in FetchedIds(fetched)))
    && (forall q :: q in s'.requests <==>
          || q in s.requests
          || (q.Tx? && !q.inMempool && Wanted(fetched, q.txid, s.cache.Keys, g.fees.Keys, g.mempoolTxids)))
  }

  lemma TakenFrame(s: State, s': State, g: Given, fetched: seq<(Transaction, bool)>, unavailable: seq<Txid>,
                   batch: BatchedRequestItem)
    requires TxsTaken(s, s', g, fetched, unavailable, batch)
    ensures s'.inFlight == s.inFlight - Elements(Items(batch)) && s'.tips == s.tips && s'.blocks == s.blocks
  {
    hide CacheGains, Wanted, Items, Elements;
  }

  ghost predicate ResponseTaken(s: State, s': State, g: Given, resp: Response, batch: BatchedRequestItem) {
    match resp
    case TxsResponse(fetched, unavailable) => TxsTaken(s, s', g, fetched, unavailable, batch)
    case BlockResponse(block) => BlockHandled(s, s', block, batch)
    case RejectResponse => s' == s.(inFlight := s.inFlight - Elements(Items(batch)))
  }

  ghost predicate BatchSent(s: State, s': State) {
    if s.requests == [] then s' == s
    else exists batch ::
      && IsBatchOf(batch, s.requests)
      && s' == s.(requests := s.requests[|Items(batch)|..], inFlight := s.inFlight + Elements(Items(batch)))
  }

  ghost predicate Handled(s: State, s': State, g: Given, m: Message) {
    match m
    case Announced(msg) => exists noted :: MessageNoted(s, noted, msg) && Settled(noted, s', g)
    case Responded(resp, batch) => exists taken :: ResponseTaken(s, taken, g, resp, batch) && Settled(taken, s', g)
    case Polled => BatchSent(s, s')
  }

  lemma MakeAnnounced(s: State, noted: State, s': State, g: Given, msg: SequenceMessage)
    requires MessageNoted(s, noted, msg) && Settled(noted, s', g)
    ensures Handled(s, s', g, Announced(msg))
  {
    hide MessageNoted, Settled;
  }

  lemma MakeResponded(s: State, taken: State, s': State, g: Given, resp: Response, batch: BatchedRequestItem)
    requires ResponseTaken(s, taken, g, resp, batch) && Settled(taken, s', g)
    ensures Handled(s, s', g, Responded(resp, batch))
  {
    hide ResponseTaken, Settled;
  }

  lemma MakePolled(s: State, s': State, g: Given)
    requires BatchSent(s, s')
    ensures Handled(s, s', g, Polled)
  {
    hide BatchSent;
  }

  /** The states of a run: each message in turn is handled. */
  ghost predicate HandledAll(states: seq<State>, messages: seq<Message>, g: Given) {
    && |states| == |messages| + 1
    && forall i :: 0 <= i < |messages| ==> Handled(states[i], states[i + 1], g, messages[i])
  }

  lemma HandledNone(s: State, g: Given)
    ensures HandledAll([s], [], g)
  {
    hide Handled;
  }

  lemma HandledMore(states: seq<State>, messages: seq<Message>, i: nat, s': State, g: Given)
    requires i < |messages| && HandledAll(states, messages[..i], g)
    requires Handled(states[|states| - 1], s', g, messages[i])
    ensures HandledAll(states + [s'], messages[..i + 1], g)
  {
    hide Handled;
    assert messages[..i + 1] == messages[..i] + [messages[i]];
  }
}
