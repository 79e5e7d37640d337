/** Facts about the values the sync keeps: what responses are, what hashing guarantees, and what a change to one of the
    caches, queues or records leaves intact. */
module SyncFacts {
  import opened Types
  import opened LinkedSets
  import opened SyncQueues
  import opened SyncRequests
  import opened SyncParents
  import opened SyncTips
  import opened SyncLogs
  import opened SyncPools
  import opened Enforcers
  import AbandonedTxs
  import AbandonedClosures

  datatype SyncError =
    | DisconnectTipMismatch(disconnected: BlockHash, unfiltered: BlockHash)
    | UnexpectedTip(tip: BlockHash, expected: BlockHash)
    | MissingTx(missing: Txid)
    | DecodeBlock(hash: BlockHash)
    | FeeError(fee: FeeResult)
    | OutputOutOfRange(spender: Txid)
    | EnforcerFailed
    | MempoolFailed

  datatype Outcome<+T> = Ok(value: T) | Err(error: SyncError)

  datatype Response =
    | TxsResponse(fetched: seq<(Transaction, bool)>, unavailable: seq<Txid>)
    | BlockResponse(block: Block)
    | RejectResponse

  /** A response answers a batch when it says something about each of its items. */
  ghost predicate Answers(resp: Response, batch: BatchedRequestItem) {
    forall r :: r in Items(batch) ==>
      match r
      case Block(h) => resp.BlockResponse? && resp.block.hash == h
      case Tx(t, _) => resp.TxsResponse? && (t in resp.unavailable || exists f :: f in resp.fetched && f.0.txid == t)
      case _ => resp.RejectResponse?
  }

  type Spends = AbandonedTxs.Spends

  ghost predicate AllHashed(txs: seq<Transaction>, spends: Spends) {
    forall t :: t in txs ==> AbandonedTxs.Hashed(t, spends)
  }

  /** What hashing guarantees of a block and its txs. */
  ghost predicate GoodBlock(b: Block, parentOf: Parentage, spends: Spends) {
    HashedBlock(b, parentOf) && AllHashed(b.tx, spends)
  }

  ghost predicate BlocksKeyed(blocks: map<BlockHash, Block>, parentOf: Parentage, spends: Spends) {
    forall h :: h in blocks ==> blocks[h].hash == h && GoodBlock(blocks[h], parentOf, spends)
  }

  /** The abandoned pool satisfies its invariant, and only real txs are cached. */
  ghost predicate Held(pool: AbandonedTxs.Pool, txCache: map<Txid, Transaction>, spends: Spends) {
    AbandonedTxs.Valid(pool, spends) && CacheHashed(txCache, spends)
  }

  ghost predicate CacheHashed(txCache: map<Txid, Transaction>, spends: Spends) {
    forall t :: t in txCache ==> txCache[t].txid == t && AbandonedTxs.Hashed(txCache[t], spends)
  }

  lemma CacheMore(txCache: map<Txid, Transaction>, txs: seq<Transaction>, i: nat, spends: Spends)
    requires i < |txs| && CacheHashed(txCache, spends) && AllHashed(txs, spends)
    ensures CacheHashed(txCache[txs[i].txid := txs[i]], spends)
  {
    hide AbandonedTxs.Hashed;
  }

  lemma CachedHashed(txCache: map<Txid, Transaction>, txid: Txid, spends: Spends)
    requires CacheHashed(txCache, spends) && txid in txCache
    ensures AbandonedTxs.Hashed(txCache[txid], spends) && txCache[txid].txid !in txCache[txid].Parents()
    ensures txCache[txid].txid == txid
  {
  }

  lemma CacheLess(txCache: map<Txid, Transaction>, txid: Txid, spends: Spends)
    requires CacheHashed(txCache, spends)
    ensures CacheHashed(txCache - {txid}, spends)
  {
    hide AbandonedTxs.Hashed;
  }

  lemma InsertHeld(s: AbandonedTxs.Pool, tx: Transaction, absentMaybe: set<Txid>, spends: Spends)
    requires AbandonedTxs.Valid(s, spends) && AbandonedTxs.Hashed(tx, spends)
    requires AbandonedTxs.HasBlocker(s, tx, absentMaybe)
    ensures AbandonedTxs.Valid(AbandonedTxs.AfterInsert(s, tx, absentMaybe), spends)
  {
    hide AbandonedTxs.Valid, AbandonedTxs.Hashed, AbandonedTxs.HasBlocker;
    if tx.txid !in s.abandoned {
      AbandonedTxs.InsertValidIff(s, tx, absentMaybe, spends);
    }
  }

  /** A tx that is to be abandoned has a parent that blocks it. */
  lemma AbandonedHasBlocker(s: AbandonedTxs.Pool, tx: Transaction, c: ParentCaches, feeKnown: bool, r: ParentTxsResult)
    requires Resolves(c, feeKnown, tx.input, r) && c.abandoned == s.abandoned.Keys
    ensures r.UnavailableParents? ==> AbandonedTxs.HasBlocker(s, tx, Elements(r.txids))
    ensures r.AbandonedParents? ==> AbandonedTxs.HasBlocker(s, tx, {})
  {
    hide InVinOrder, Found, NoneIn;
    if r.UnavailableParents? {
      InVinOrderComplete(c, feeKnown, tx.input, IsUnavailable);
      assert r.txids[0] in InVinOrder(c, feeKnown, tx.input, IsUnavailable);
      var o :| o in tx.input && o.txid == r.txids[0];
      assert o.txid in tx.Parents() * (Elements(r.txids) + s.abandoned.Keys);
    } else if r.AbandonedParents? {
      InVinOrderComplete(c, feeKnown, tx.input, IsAbandoned);
      InVinOrderState(c, feeKnown, tx.input, IsAbandoned);
      assert r.txids[0] in InVinOrder(c, feeKnown, tx.input, IsAbandoned);
      var o :| o in tx.input && o.txid == r.txids[0];
      assert StateOf(c, feeKnown, o.txid) == IsAbandoned;
      assert o.txid in tx.Parents() * ({} + s.abandoned.Keys);
    }
  }

  lemma InVinOrderState(c: ParentCaches, feeKnown: bool, vin: seq<OutPoint>, state: ParentState)
    ensures forall p :: p in InVinOrder(c, feeKnown, vin, state) ==> StateOf(c, feeKnown, p) == state
  {
  }

  /** What a cascading removal took out are the pooled members of the family, the root among them. */
  lemma TakenIds(s: AbandonedTxs.Pool, taken: seq<Transaction>, root: Txid)
    requires AbandonedClosures.TakenOut(s, taken, AbandonedClosures.Family(s, root))
    ensures IdsOf(taken) == AbandonedClosures.Family(s, root) * s.abandoned.Keys
    ensures root in s.abandoned ==> root in IdsOf(taken)
    ensures s.abandoned.Keys - AbandonedClosures.Family(s, root) == s.abandoned.Keys - (IdsOf(taken) + {root})
  {
    hide AbandonedClosures.FamilyGraph;
    var ids := AbandonedClosures.TxidsOf(taken);
    forall t ensures t in IdsOf(taken) <==> t in Elements(ids) {
      if t in Elements(ids) {
        var i :| 0 <= i < |ids| && ids[i] == t;
        assert taken[i].txid == t;
      }
      if t in IdsOf(taken) {
        var tx :| tx in taken && tx.txid == t;
        var i :| 0 <= i < |taken| && taken[i] == tx;
        assert ids[i] == t;
      }
    }
    assert root in AbandonedClosures.Family(s, root);
  }

  lemma PooledApart(s: AbandonedTxs.Pool, t: Txid, spends: Spends)
    requires AbandonedTxs.Valid(s, spends)
    ensures t in s.abandoned ==> t !in s.abandoned[t].tx.Parents()
  {
    AbandonedTxs.ValidParts(s, spends);
  }

  ghost predicate FetchedHashed(fetched: seq<(Transaction, bool)>, spends: Spends) {
    forall f :: f in fetched ==> AbandonedTxs.Hashed(f.0, spends)
  }

  /** What hashing guarantees of a response. */
  ghost predicate GoodResponse(resp: Response, parentOf: Parentage, spends: Spends) {
    match resp
    case TxsResponse(fetched, _) => FetchedHashed(fetched, spends)
    case BlockResponse(block) => GoodBlock(block, parentOf, spends)
    case RejectResponse => true
  }

  lemma HeldParts(pool: AbandonedTxs.Pool, txCache: map<Txid, Transaction>, spends: Spends)
    requires Held(pool, txCache, spends)
    ensures AbandonedTxs.Valid(pool, spends) && CacheHashed(txCache, spends)
  {
  }

  lemma MakeHeld(pool: AbandonedTxs.Pool, txCache: map<Txid, Transaction>, spends: Spends)
    requires AbandonedTxs.Valid(pool, spends) && CacheHashed(txCache, spends)
    ensures Held(pool, txCache, spends)
  {
  }

  /** Txs that come out of the abandoned pool are real ones. */
  lemma PooledHashed(s: AbandonedTxs.Pool, txs: seq<Transaction>, spends: Spends)
    requires AbandonedTxs.Valid(s, spends)
    requires forall tx :: tx in txs ==> tx.txid in s.abandoned && tx == s.abandoned[tx.txid].tx
    ensures AllHashed(txs, spends)
  {
    AbandonedTxs.ValidParts(s, spends);
  }

  /** `restored` is what becomes of `s` once `p` is available: the least set that waits for nothing else. */
  ghost predicate RestoredFrom(s: AbandonedTxs.Pool, p: Txid, restored: seq<Transaction>, s': AbandonedTxs.Pool) {
    var ids := AbandonedClosures.TxidsOf(restored);
    && AbandonedClosures.Released(s, p, ids)
    && AbandonedClosures.FreedBy(s, p, Elements(ids))
    && s' == AbandonedClosures.AfterRestore(s, p, Elements(ids))
  }

  lemma MakeRestored(s: AbandonedTxs.Pool, p: Txid, restored: seq<Transaction>, s': AbandonedTxs.Pool)
    requires AbandonedClosures.Released(s, p, AbandonedClosures.TxidsOf(restored))
    requires AbandonedClosures.FreedBy(s, p, Elements(AbandonedClosures.TxidsOf(restored)))
    requires s' == AbandonedClosures.AfterRestore(s, p, Elements(AbandonedClosures.TxidsOf(restored)))
    ensures RestoredFrom(s, p, restored, s')
  {
  }

  /** The filtered tip is a block at hand or one that is on its way. */
  ghost predicate TipKnown(tip: BlockHash, blocks: map<BlockHash, Block>, needed: seq<BlockHash>) {
    tip == ALL_ZEROS || tip in blocks || tip in needed
  }

  /** The block at the filtered tip is there to be looked up. */
  ghost predicate TipAtHand(tip: BlockHash, blocks: map<BlockHash, Block>) {
    tip == ALL_ZEROS || tip in blocks
  }

  ghost predicate StackAt(stack: seq<BlockHash>, parentOf: Parentage, tip: BlockHash) {
    ChainedStack(stack, parentOf) && TopOf(stack) == tip
  }

  function IdsOf(txs: seq<Transaction>): set<Txid> {
    set t | t in txs :: t.txid
  }

  lemma InsertionsStep(txs: seq<Transaction>, i: nat)
    requires i < |txs|
    ensures Insertions(txs[i..]) == [InsertTx(txs[i].txid)] + Insertions(txs[i + 1..])
    ensures IdsOf(txs[i..]) == IdsOf(txs[i + 1..]) + {txs[i].txid}
  {
    assert txs[i..] == [txs[i]] + txs[i + 1..];
  }

  lemma IdsStep(txs: seq<Transaction>, i: nat)
    requires i < |txs|
    ensures IdsOf(txs[..i + 1]) == IdsOf(txs[..i]) + {txs[i].txid}
  {
    assert txs[..i + 1] == txs[..i] + [txs[i]];
  }

  lemma WholeList(txs: seq<Transaction>)
    ensures txs[..|txs|] == txs && txs[0..] == txs
    ensures Insertions(txs[|txs|..]) == [] && IdsOf(txs[|txs|..]) == {} && IdsOf(txs[..0]) == {}
  {
  }

  /** What applying an action does to the node's mempool, and whether the mirror skips it. */
  ghost function EffectOf(action: SyncAction, blocks: map<BlockHash, Block>, tips: Tips, tipHeight: Option<nat>): Effect {
    match action
    case InsertTx(txid) => Enter(txid)
    case Sequence(Added(txid, _)) => Enter(txid)
    case Sequence(Removed(txid, _)) => Leave(txid)
    case Sequence(Disconnected(_)) => Nothing
    case Sequence(Connected(hash)) =>
      if hash in blocks then Mine(IdsOf(blocks[hash].tx), Skipped(CaseOf(tips, tipHeight, blocks[hash]))) else Nothing
  }

  function TxRequests(txids: seq<Txid>): seq<RequestItem> {
    seq(|txids|, i requires 0 <= i < |txids| => Tx(txids[i], false))
  }

  lemma TxRequestsStep(txids: seq<Txid>, i: nat)
    requires i < |txids|
    ensures TxRequests(txids[i..]) == [Tx(txids[i], false)] + TxRequests(txids[i + 1..])
    ensures txids[i..] == [txids[i]] + txids[i + 1..]
  {
  }

  lemma NoTxRequests(txids: seq<Txid>)
    ensures TxRequests(txids[|txids|..]) == [] && txids[|txids|..] == [] && txids[0..] == txids
  {
  }

  lemma FrontedNone<T(!new)>(queue: seq<T>)
    ensures Fronted(queue, []) == queue
  {
  }

  lemma FrontedMore<T(!new)>(queue: seq<T>, item: T, items: seq<T>)
    ensures Fronted(queue, [item] + items) == ReplaceToFront(Fronted(queue, items), item)
  {
    assert ([item] + items)[1..] == items;
  }

  lemma ServedFetch(blocks: seq<BlockHash>, txs: seq<Txid>, queue: seq<RequestItem>, inFlight: set<RequestItem>,
                    txid: Txid)
    requires Served(blocks, txs, queue, inFlight)
    ensures Served(blocks, ReplaceToFront(txs, txid), ReplaceToFront(queue, Tx(txid, false)), inFlight)
  {
    hide ReplaceToFront;
    FrontMembers(txs, txid);
    FrontMembers(queue, Tx(txid, false));
    ServedMore(blocks, txs, queue, inFlight, blocks, ReplaceToFront(txs, txid),
               ReplaceToFront(queue, Tx(txid, false)));
  }

  lemma FrontMembers<T(!new)>(queue: seq<T>, item: T)
    ensures forall x :: x in ReplaceToFront(queue, item) <==> x in queue || x == item
  {
  }

  lemma ServedMoreFront(blocks: seq<BlockHash>, txs: seq<Txid>, queue: seq<RequestItem>, inFlight: set<RequestItem>,
                        item: RequestItem)
    requires Served(blocks, txs, queue, inFlight)
    ensures Served(blocks, txs, ReplaceToFront(queue, item), inFlight)
  {
    hide ReplaceToFront;
    FrontMembers(queue, item);
    ServedMore(blocks, txs, queue, inFlight, blocks, txs, ReplaceToFront(queue, item));
  }

  /** A newly needed tx is served once its request stands at either end of the queue. */
  lemma ServedNeed(blocks: seq<BlockHash>, txs: seq<Txid>, queue: seq<RequestItem>, inFlight: set<RequestItem>,
                   txid: Txid)
    requires Served(blocks, txs, queue, inFlight)
    ensures txid in Replace(txs, txid)
    ensures Served(blocks, Replace(txs, txid), ReplaceToFront(queue, Tx(txid, true)), inFlight)
    ensures Tx(txid, true) in ReplaceToFront(queue, Tx(txid, true))
    ensures Served(blocks, Replace(txs, txid), Replace(queue, Tx(txid, true)), inFlight)
    ensures Tx(txid, true) in Replace(queue, Tx(txid, true))
  {
    hide ReplaceToFront, Replace;
    FrontMembers(queue, Tx(txid, true));
    BackMembers(queue, Tx(txid, true));
    BackMembers(txs, txid);
    ServedMore(blocks, txs, queue, inFlight, blocks, Replace(txs, txid), ReplaceToFront(queue, Tx(txid, true)));
    ServedMore(blocks, txs, queue, inFlight, blocks, Replace(txs, txid), Replace(queue, Tx(txid, true)));
  }

  lemma BackMembers<T(!new)>(queue: seq<T>, item: T)
    ensures forall x :: x in Replace(queue, item) <==> x in queue || x == item
  {
  }

  lemma NeededMore(needed: seq<BlockHash>, needed': seq<BlockHash>, tip: BlockHash, blocks: map<BlockHash, Block>)
    requires TipKnown(tip, blocks, needed) && NeedsKept(needed, needed')
    ensures TipKnown(tip, blocks, needed')
  {
  }

  lemma InsertionsJoin(a: seq<Transaction>, b: seq<Transaction>)
    ensures Insertions(a + b) == Insertions(a) + Insertions(b)
  {
  }

  lemma SettledByBlock(blocks: seq<BlockHash>, txs: seq<Txid>, block: Block, batch: BatchedRequestItem)
    requires Answers(BlockResponse(block), batch)
    ensures Settles(batch, Without(blocks, block.hash), txs)
    ensures forall h :: h in Without(blocks, block.hash) ==> h in blocks
  {
    hide Items;
    WithoutHash(blocks, block.hash);
  }

  lemma WithoutHash(blocks: seq<BlockHash>, hash: BlockHash)
    ensures forall h :: h in Without(blocks, hash) <==> h in blocks && h != hash
  {
  }

  /** The tip stays known when a block at last arrives. */
  lemma NeededLess(needed: seq<BlockHash>, tip: BlockHash, blocks: map<BlockHash, Block>, block: Block)
    requires TipKnown(tip, blocks, needed)
    ensures TipKnown(tip, blocks[block.hash := block], Without(needed, block.hash))
  {
    WithoutHash(needed, block.hash);
  }

  lemma KeyedWith(blocks: map<BlockHash, Block>, block: Block, parentOf: Parentage, spends: Spends)
    requires BlocksKeyed(blocks, parentOf, spends) && GoodBlock(block, parentOf, spends)
    ensures BlocksKeyed(blocks[block.hash := block], parentOf, spends)
  {
    hide GoodBlock;
  }

  function FetchedIds(fetched: seq<(Transaction, bool)>): set<Txid> {
    set f | f in fetched :: f.0.txid
  }

  lemma FetchedStep(fetched: seq<(Transaction, bool)>, i: nat)
    requires i < |fetched|
    ensures FetchedIds(fetched[..i + 1]) == FetchedIds(fetched[..i]) + {fetched[i].0.txid}
  {
    assert fetched[..i + 1] == fetched[..i] + [fetched[i]];
  }

  lemma FetchedAll(fetched: seq<(Transaction, bool)>)
    ensures FetchedIds(fetched[..0]) == {} && fetched[..|fetched|] == fetched
  {
  }

  lemma SettledByTxs(blocks: seq<BlockHash>, txs: seq<Txid>, fetched: seq<(Transaction, bool)>, unavailable: seq<Txid>,
                     batch: BatchedRequestItem)
    requires Answers(TxsResponse(fetched, unavailable), batch)
    requires forall t :: t in txs ==> t !in unavailable && t !in FetchedIds(fetched)
    ensures Settles(batch, blocks, txs)
  {
    hide Items;
    forall r | r in Items(batch) && r.Tx? ensures r.txid !in txs {
      if r.txid !in unavailable {
        var f :| f in fetched && f.0.txid == r.txid;
        assert f.0.txid in FetchedIds(fetched);
      }
    }
  }

  /** A fetched mempool tx at place `i` wants its parent `p`. */
  ghost predicate WantsAt(fetched: seq<(Transaction, bool)>, i: nat, p: Txid, cached: set<Txid>, feesKnown: set<Txid>,
                          mempoolTxids: set<Txid>)
    requires i < |fetched|
  {
    && fetched[i].1 && p in fetched[i].0.Parents()
    && p !in cached && p !in FetchedIds(fetched[..i])
    && (fetched[i].0.txid !in feesKnown || p in mempoolTxids)
  }

  ghost predicate Wanted(fetched: seq<(Transaction, bool)>, p: Txid, cached: set<Txid>, feesKnown: set<Txid>,
                         mempoolTxids: set<Txid>) {
    exists i :: 0 <= i < |fetched| && WantsAt(fetched, i, p, cached, feesKnown, mempoolTxids)
  }

  lemma WantedStep(fetched: seq<(Transaction, bool)>, i: nat, p: Txid, cached: set<Txid>, feesKnown: set<Txid>,
                   mempoolTxids: set<Txid>)
    requires i < |fetched|
    ensures Wanted(fetched[..i + 1], p, cached, feesKnown, mempoolTxids) <==>
              Wanted(fetched[..i], p, cached, feesKnown, mempoolTxids)
              || WantsAt(fetched, i, p, cached, feesKnown, mempoolTxids)
  {
    var more, less := fetched[..i + 1], fetched[..i];
    forall j | 0 <= j <= i
      ensures WantsAt(more, j, p, cached, feesKnown, mempoolTxids) <==>
                WantsAt(fetched, j, p, cached, feesKnown, mempoolTxids)
    {
      assert more[..j] == fetched[..j];
    }
    forall j | 0 <= j < i
      ensures WantsAt(less, j, p, cached, feesKnown, mempoolTxids) <==>
                WantsAt(more, j, p, cached, feesKnown, mempoolTxids)
    {
      assert more[..j] == less[..j];
    }
  }

  lemma WantsAtIs(fetched: seq<(Transaction, bool)>, i: nat, p: Txid, cached: set<Txid>, feesKnown: set<Txid>,
                  mempoolTxids: set<Txid>, txCache: map<Txid, Transaction>)
    requires i < |fetched| && txCache.Keys == cached + FetchedIds(fetched[..i])
    ensures WantsAt(fetched, i, p, cached, feesKnown, mempoolTxids) <==>
              fetched[i].1 && p in fetched[i].0.Parents()
              && NeedsParentFetch(txCache, mempoolTxids, fetched[i].0.txid in feesKnown, p)
  {
    hide FetchedIds, Transaction.Parents;
  }

  lemma NoneWanted(fetched: seq<(Transaction, bool)>, cached: set<Txid>, feesKnown: set<Txid>, mempoolTxids: set<Txid>)
    ensures forall p :: !Wanted(fetched[..0], p, cached, feesKnown, mempoolTxids)
  {
  }

  lemma ReplaceKeepsDistinct(l: seq<Txid>, x: Txid)
    requires Distinct(l)
    ensures Distinct(Replace(l, x))
  {
  }

  lemma AskMembers(txs: seq<Txid>, queue: seq<RequestItem>, parents: seq<Txid>)
    ensures forall p :: p in Extend(txs, parents) <==> p in txs || p in parents
    ensures forall r :: r in Fronted(queue, TxRequests(parents)) <==>
              r in queue || (r.Tx? && !r.inMempool && r.txid in parents)
  {
    hide Extend, Fronted;
    AskedFor(queue, parents);
    ExtendedBy(txs, parents);
  }

  lemma ExtendedBy(txs: seq<Txid>, parents: seq<Txid>)
    ensures forall p :: p in Extend(txs, parents) <==> p in txs || p in parents
  {
  }

  lemma AskedFor(queue: seq<RequestItem>, parents: seq<Txid>)
    ensures forall r :: r in Fronted(queue, TxRequests(parents)) <==> r in queue || r in TxRequests(parents)
    ensures forall r: RequestItem :: r in TxRequests(parents) <==> r.Tx? && !r.inMempool && r.txid in parents
  {
    forall r: RequestItem | r.Tx? && !r.inMempool && r.txid in parents ensures r in TxRequests(parents) {
      var i :| 0 <= i < |parents| && parents[i] == r.txid;
      assert TxRequests(parents)[i] == r;
    }
  }

  lemma ServedParents(blocks: seq<BlockHash>, txs: seq<Txid>, queue: seq<RequestItem>, inFlight: set<RequestItem>,
                      parents: seq<Txid>)
    requires Served(blocks, txs, queue, inFlight)
    ensures Served(blocks, Extend(txs, parents), Fronted(queue, TxRequests(parents)), inFlight)
  {
    hide Extend, Fronted, TxRequests, Served;
    AskMembers(txs, queue, parents);
    ServedMore(blocks, txs, queue, inFlight, blocks, Extend(txs, parents), Fronted(queue, TxRequests(parents)));
  }

  /** The block that the action connects, if it connects one, is at hand. */
  ghost predicate BlockAtHand(action: SyncAction, blocks: map<BlockHash, Block>) {
    action.Sequence? && action.msg.Connected? ==> action.msg.hash in blocks
  }

  /** The block that the action is about, if it is about one, is at hand or needed. */
  ghost predicate BlockAwaited(action: SyncAction, blocks: map<BlockHash, Block>, needed: seq<BlockHash>) {
    action.Sequence? && (action.msg.Connected? || action.msg.Disconnected?) ==>
      action.msg.hash in blocks || action.msg.hash in needed
  }

  ghost predicate BlocksAwaited(actions: seq<SyncAction>, blocks: map<BlockHash, Block>, needed: seq<BlockHash>) {
    forall a :: a in actions ==> BlockAwaited(a, blocks, needed)
  }

  ghost predicate NeedsKept(needed: seq<BlockHash>, needed': seq<BlockHash>) {
    forall h :: h in needed ==> h in needed'
  }

  lemma NeedsSame(needed: seq<BlockHash>)
    ensures NeedsKept(needed, needed)
  {
  }

  lemma AwaitedLess(actions: seq<SyncAction>, actions': seq<SyncAction>, blocks: map<BlockHash, Block>,
                    needed: seq<BlockHash>, needed': seq<BlockHash>)
    requires BlocksAwaited(actions, blocks, needed) && NeedsKept(needed, needed')
    requires actions' == actions || (actions != [] && actions' == actions[1..])
    ensures BlocksAwaited(actions', blocks, needed')
  {
  }

  /** Either the first action was applied, with its effect, or nothing was. */
  ghost predicate AppliedHeadOrNothing(actions: seq<SyncAction>, actions': seq<SyncAction>, effects: seq<Effect>,
                                       effects': seq<Effect>, blocks: map<BlockHash, Block>, tips: Tips,
                                       tipHeight: Option<nat>) {
    || (actions' == actions && effects' == effects)
    || (actions != [] && actions' == actions[1..] && BlockAtHand(actions[0], blocks)
        && effects' == effects + [EffectOf(actions[0], blocks, tips, tipHeight)])
  }

  lemma AppliedNothing(actions: seq<SyncAction>, effects: seq<Effect>, blocks: map<BlockHash, Block>, tips: Tips,
                       tipHeight: Option<nat>)
    ensures AppliedHeadOrNothing(actions, actions, effects, effects, blocks, tips, tipHeight)
  {
  }

  lemma EffectsGrow(actions: seq<SyncAction>, actions': seq<SyncAction>, effects: seq<Effect>, effects': seq<Effect>,
                    blocks: map<BlockHash, Block>, tips: Tips, tipHeight: Option<nat>)
    requires AppliedHeadOrNothing(actions, actions', effects, effects', blocks, tips, tipHeight)
    ensures effects <= effects'
  {
  }

  lemma LogLength(log: seq<Logged>, actions: seq<SyncAction>, effects: seq<Effect>, minings: Minings)
    requires Logs(log, actions, effects, minings)
    ensures |effects| <= |log|
  {
  }

  lemma AppliedHead(actions: seq<SyncAction>, effects: seq<Effect>, blocks: map<BlockHash, Block>, tips: Tips,
                    tipHeight: Option<nat>)
    requires actions != [] && BlockAtHand(actions[0], blocks)
    ensures AppliedHeadOrNothing(actions, actions[1..], effects,
                                 effects + [EffectOf(actions[0], blocks, tips, tipHeight)], blocks, tips, tipHeight)
  {
  }

  lemma TipAtHandMore(tip: BlockHash, blocks: map<BlockHash, Block>, block: Block)
    ensures TipAtHand(tip, blocks) ==> TipAtHand(tip, blocks[block.hash := block])
  {
  }

  /** A tip that stays, or moves to the arriving block, is at hand once the block is kept. */
  lemma TipMoves(tip: BlockHash, tip': BlockHash, blocks: map<BlockHash, Block>, block: Block, needed: seq<BlockHash>)
    requires tip' in {tip, block.hash}
    requires TipKnown(tip, blocks[block.hash := block], needed)
    ensures TipKnown(tip', blocks[block.hash := block], needed)
    ensures TipAtHand(tip, blocks) ==> TipAtHand(tip', blocks[block.hash := block])
  {
  }

  /** A tip that goes back to a block at hand. */
  lemma TipReturns(tip: BlockHash, blocks: map<BlockHash, Block>, block: Block, needed: seq<BlockHash>)
    requires tip == ALL_ZEROS || tip in blocks
    ensures TipKnown(tip, blocks[block.hash := block], needed) && TipAtHand(tip, blocks[block.hash := block])
  {
  }

  lemma TipStays(tip: BlockHash, blocks: map<BlockHash, Block>, block: Block, needed: seq<BlockHash>, needed': seq<BlockHash>)
    requires TipKnown(tip, blocks[block.hash := block], needed) && NeedsKept(needed, needed')
    ensures TipKnown(tip, blocks[block.hash := block], needed')
    ensures TipAtHand(tip, blocks) ==> TipAtHand(tip, blocks[block.hash := block])
  {
  }

  /** What connecting or disconnecting an arriving block does to the node's mempool. */
  lemma ArrivalEffect(block: Block, blocks: map<BlockHash, Block>, tips: Tips, tipHeight: Option<nat>, mirror: set<Txid>)
    ensures
      var action := Sequence(Connected(block.hash));
      var skipped := Skipped(CaseOf(tips, tipHeight, block));
      var e := Mine(IdsOf(block.tx), skipped);
      && BlockAtHand(action, blocks[block.hash := block])
      && EffectOf(action, blocks[block.hash := block], tips, tipHeight) == e
      && MirrorStep(mirror, e) == if skipped then mirror else mirror - IdsOf(block.tx)
    ensures
      var action := Sequence(Disconnected(block.hash));
      && BlockAtHand(action, blocks[block.hash := block])
      && EffectOf(action, blocks[block.hash := block], tips, tipHeight) == Nothing
      && MirrorStep(mirror, Nothing) == mirror
  {
    hide CaseOf, Skipped, IdsOf;
  }

  lemma ConnectKeepsTip(t: Tips, c: ConnectCase, b: Block, verdict: Verdict)
    ensures AfterConnect(t, c, b, verdict).chain in {t.chain, b.hash}
  {
  }

  lemma NoInsertions(actions: seq<SyncAction>)
    ensures Insertions([]) + actions == actions
  {
  }

  /** What the hash of a block says about its txs. */
  ghost predicate BlocksMined(blocks: map<BlockHash, Block>, minings: Minings) {
    forall h :: h in blocks ==> IdsOf(blocks[h].tx) == minings(h)
  }

  lemma MinedWith(blocks: map<BlockHash, Block>, block: Block, minings: Minings)
    requires BlocksMined(blocks, minings) && IdsOf(block.tx) == minings(block.hash)
    ensures BlocksMined(blocks[block.hash := block], minings)
  {
    hide IdsOf;
  }

  /** An action whose block, if it connects one, is at hand has the effect it should. */
  lemma EffectFits(action: SyncAction, blocks: map<BlockHash, Block>, tips: Tips, tipHeight: Option<nat>, minings: Minings)
    requires BlocksMined(blocks, minings) && BlockAtHand(action, blocks)
    ensures HasEffect(action, EffectOf(action, blocks, tips, tipHeight), minings)
  {
    hide IdsOf, CaseOf, Skipped;
  }

  /** Applying the first action, or nothing, is recorded by its effect. */
  lemma HeadRecorded(log: seq<Logged>, actions: seq<SyncAction>, actions': seq<SyncAction>, effects: seq<Effect>,
                     effects': seq<Effect>, blocks: map<BlockHash, Block>, tips: Tips, tipHeight: Option<nat>,
                     minings: Minings)
    requires Logs(log, actions, effects, minings) && BlocksMined(blocks, minings)
    requires AppliedHeadOrNothing(actions, actions', effects, effects', blocks, tips, tipHeight)
    ensures Logs(log, actions', effects', minings)
  {
    hide Logs, BlocksMined, BlockAtHand, EffectOf, HasEffect;
    if actions' != actions || effects' != effects {
      assert |actions'| < |actions|;
      EffectFits(actions[0], blocks, tips, tipHeight, minings);
      LogApplies(log, actions, effects, minings, EffectOf(actions[0], blocks, tips, tipHeight));
    }
  }

  /** What the filtered mempool is asked to insert. */
  datatype Handed = Handed(tx: Transaction, fee: nat, conflictsWith: set<Txid>, modifiedWeight: nat)

  /** The node's fee if it gave one, else what the inputs are worth above the outputs. */
  ghost predicate PaysFee(knownFees: map<Txid, nat>, txid: Txid, tx: Transaction, parentTxs: map<Txid, Transaction>,
                          fee: nat)
  {
    if txid in knownFees then fee == knownFees[txid]
    else Spendable(tx.input, parentTxs) && ValueOut(tx.output) + fee == ValueIn(tx.input, parentTxs) <= U64_MAX
  }

  /** A block response restores, and then applies the first action or nothing: the record and the views follow. */
  lemma BlockRecorded(before: seq<Logged>, log: seq<Logged>, restored: seq<Transaction>, actions: seq<SyncAction>,
                      actions': seq<SyncAction>, effects: seq<Effect>, effects': seq<Effect>, blocks: map<BlockHash, Block>,
                      tips: Tips, tipHeight: Option<nat>, v: Views, v': Views, childless: bool, minings: Minings,
                      spends: Spends)
    requires Logs(log, actions, effects, minings) && BlocksMined(blocks, minings)
    requires |effects| <= |before| && log == WithRestored(before, |effects|, restored)
    requires AnnouncedOf(log) == AnnouncedOf(before)
    requires AppliedHeadOrNothing(actions, actions', effects, effects', blocks, tips, tipHeight)
    requires Pooled(v, spends) && PooledStep(v, v', spends) && Led(before, effects, v.rejected, childless, minings, spends)
    ensures Logs(log, actions', effects', minings) && effects <= effects'
    ensures Pooled(v', spends) && Led(log, effects', v'.rejected, childless, minings, spends)
  {
    hide *;
    HeadRecorded(log, actions, actions', effects, effects', blocks, tips, tipHeight, minings);
    EffectsGrow(actions, actions', effects, effects', blocks, tips, tipHeight);
    StepPooled(v, v', spends);
    RestoredGrows(before, |effects|, restored, []);
    LedMore(before, log, effects, effects', v.rejected, v'.rejected, childless, minings, spends);
  }

  /** The txs of a block are those its hash commits to. */
  ghost predicate MinedResponse(resp: Response, minings: Minings) {
    resp.BlockResponse? ==> IdsOf(resp.block.tx) == minings(resp.block.hash)
  }

  /** What the messages of a run announce. */
  ghost function MessagesOf(messages: seq<Message>): seq<SyncAction> {
    if messages == [] then [] else
    var last := messages[|messages| - 1];
    MessagesOf(messages[..|messages| - 1]) + if last.Announced? then [Sequence(last.msg)] else []
  }

  lemma NoMessages(messages: seq<Message>, before: seq<SyncAction>)
    ensures messages[..0] == [] && MessagesOf(messages[..0]) == [] && before == before + []
  {
  }

  lemma MoreMessages(messages: seq<Message>, i: nat, before: seq<SyncAction>)
    requires i < |messages|
    ensures messages[i] in messages
    ensures before + MessagesOf(messages[..i + 1]) ==
            before + MessagesOf(messages[..i]) + if messages[i].Announced? then [Sequence(messages[i].msg)] else []
  {
    assert messages[..i + 1][..i] == messages[..i];
  }

  lemma WholeMessages(messages: seq<Message>)
    ensures messages[..|messages|] == messages
  {
  }

  lemma SettledByReject(blocks: seq<BlockHash>, txs: seq<Txid>, batch: BatchedRequestItem)
    requires Answers(RejectResponse, batch)
    ensures Settles(batch, blocks, txs)
  {
    hide Items;
  }

  datatype Message =
    | Announced(msg: SequenceMessage)
    | Responded(resp: Response, ghost batch: BatchedRequestItem)
    | Polled
}
