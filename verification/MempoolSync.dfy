/** The sync task: block and tx messages are queued as actions, wait for responses, and move two tips and two views
    of the node's mempool. */
module MempoolSyncs {
  import opened Types
  import opened LinkedSets
  import opened SyncQueues
  import opened SyncRequests
  import opened SyncParents
  import opened SyncTips
  import opened SyncLogs
  import opened SyncPools
  import opened Enforcers
  import opened SyncFacts
  import opened SyncSteps
  import AbandonedTxs
  import AbandonedClosures
  import AbandonedPools

  class MempoolSync {
    const enforcer: Enforcer
    const requestQueue: RequestQueue
    const actionQueue: SyncActionQueue
    const abandonedPool: AbandonedPools.AbandonedPool
    const knownFees: map<Txid, nat>
    const mempoolTxids: set<Txid>

    var chainTip: BlockHash
    var tipWatch: BlockHash
    var blocks: map<BlockHash, Block>
    var mempoolTxs: map<Txid, Transaction>
    var unfilteredTip: BlockHash
    var unfilteredTxs: set<Txid>

    var blocksNeeded: seq<BlockHash>
    var firstMempoolSequence: Option<nat>
    var rejectedBlocks: set<BlockHash>
    var rejectedTxs: set<Txid>
    var txCache: map<Txid, Transaction>
    var txsNeeded: seq<Txid>
    var unavailableTxs: set<Txid>

    /** The inputs that each txid commits to. */
    ghost const spends: Spends
    /** Requests sent to the node and not answered yet. */
    ghost var inFlight: set<RequestItem>
    /** The txids that each block hash commits to. */
    ghost const minings: Minings
    /** What the actions applied so far did to the node's mempool. */
    ghost var effects: seq<Effect>
    /** All actions so far, applied or queued. */
    ghost var log: seq<Logged>
    /** No tx was inserted into the filtered mempool after one that spends it. */
    ghost var childless: bool

    function TipsNow(): Tips
      reads this
    {
      Tips(chainTip, unfilteredTip, rejectedBlocks)
    }

    function TipHeight(): Option<nat>
      reads this
    {
      if unfilteredTip in blocks then Some(blocks[unfilteredTip].height) else None
    }

    function Caches(): ParentCaches
      reads this, abandonedPool
    {
      ParentCaches(abandonedPool.abandonedTxs.Keys, mempoolTxs, rejectedTxs, txCache, unavailableTxs, mempoolTxids)
    }

    /** All of the state but its history. */
    ghost function Now(): State
      reads this, enforcer, requestQueue, actionQueue, abandonedPool
    {
      State(TipsNow(), enforcer.stack, blocks, blocksNeeded, mempoolTxs, unfilteredTxs, abandonedPool.Contents(),
            rejectedTxs, txCache, unavailableTxs, txsNeeded, firstMempoolSequence, requestQueue.queue, inFlight,
            actionQueue.Actions())
    }

    ghost function Told(): Given {
      Given(knownFees, mempoolTxids)
    }

    /** The enforcer's stack ends at the filtered tip, which observers see; the mirrored tip is coherent with it. */
    ghost predicate ChainValid()
      reads this, enforcer
    {
      && StackAt(enforcer.stack, enforcer.parentOf, chainTip)
      && tipWatch == chainTip
      && Coherent(TipsNow())
      && BlocksKeyed(blocks, enforcer.parentOf, spends)
    }

    ghost predicate QueuesValid()
      reads this, requestQueue, actionQueue
    {
      && requestQueue.Valid() && actionQueue.Valid()
      && Served(blocksNeeded, txsNeeded, requestQueue.queue, inFlight)
    }

    ghost predicate Valid()
      reads this, enforcer, requestQueue, actionQueue, abandonedPool
    {
      && ChainValid() && QueuesValid()
      && Held(abandonedPool.Contents(), txCache, spends)
      && TipKnown(chainTip, blocks, blocksNeeded)
      && unfilteredTxs == MirrorTxs({}, effects)
    }

    /** The log holds what was applied, with its effects, and what is queued. */
    ghost predicate Recorded()
      reads this, actionQueue
    {
      Logs(log, actionQueue.Actions(), effects, minings) && BlocksMined(blocks, minings)
    }

    /** The filtered mempool lies within the mirror, and insertions are childless, as far as the run allows. The block of
        every queued message is at hand or needed. */
    ghost predicate Composed()
      reads this, actionQueue
    {
      && Pooled(Views(rejectedBlocks, mempoolTxs, unfilteredTxs), spends)
      && Led(log, effects, rejectedBlocks, childless, minings, spends)
      && BlocksAwaited(actionQueue.Actions(), blocks, blocksNeeded)
    }

    constructor (enforcer: Enforcer, bestBlock: BlockHash, txids: seq<Txid>, mempoolSequence: nat,
                 knownFees: map<Txid, nat>, seeded: map<Txid, Transaction>, ghost spends: Spends, ghost minings: Minings,
                 now: nat)
      requires StackAt(enforcer.stack, enforcer.parentOf, bestBlock)
      requires forall t :: t in seeded ==> seeded[t].txid == t && AbandonedTxs.Hashed(seeded[t], spends)
      ensures Valid() && this.enforcer == enforcer && this.spends == spends
      ensures fresh(requestQueue) && fresh(actionQueue) && fresh(abandonedPool)
      ensures chainTip == unfilteredTip == bestBlock && effects == [] && inFlight == {}
      ensures firstMempoolSequence == Some(mempoolSequence + 1)
      ensures actionQueue.Actions() == seq(|txids|, i requires 0 <= i < |txids| => InsertTx(txids[i]))
      ensures Recorded() && NoneRestored(log) && AnnouncedOf(log) == actionQueue.Actions() && this.minings == minings
      ensures Composed() && childless
      ensures forall t :: t in txsNeeded <==> t in txids && t !in txCache
    {
      hide Served, StackAt, Distinct, AbandonedTxs.Valid, AbandonedTxs.Hashed, Logs, AnnouncedOf;
      var cache := map t | t in seeded && t in txids :: seeded[t];
      var requests, needed := RequestSnapshot(bestBlock, txids, cache.Keys);
      var actions := new SyncActionQueue();
      actions.FromActions(seq(|txids|, i requires 0 <= i < |txids| => InsertTx(txids[i])), now);
      var pool := new AbandonedPools.AbandonedPool();
      AbandonedTxs.EmptyValid(spends);
      this.enforcer, this.knownFees, this.spends := enforcer, knownFees, spends;
      requestQueue, actionQueue, abandonedPool := requests, actions, pool;
      mempoolTxids := set t | t in txids;
      chainTip, tipWatch, unfilteredTip := bestBlock, bestBlock, bestBlock;
      blocks, mempoolTxs, unfilteredTxs := map[], map[], {};
      blocksNeeded, rejectedBlocks, rejectedTxs, unavailableTxs := [bestBlock], {}, {}, {};
      firstMempoolSequence := Some(mempoolSequence + 1);
      txCache, txsNeeded := cache, needed;
      LogStarts(txids, minings);
      inFlight, effects := {}, [];
      log := seq(|txids|, i requires 0 <= i < |txids| => Logged(InsertTx(txids[i]), false));
      this.minings, childless := minings, true;
    }

    /** The best block and every snapshot tx that was not seeded are requested, in order. */
    static method RequestSnapshot(bestBlock: BlockHash, txids: seq<Txid>, seeded: set<Txid>)
      returns (requests: RequestQueue, needed: seq<Txid>)
      ensures fresh(requests) && requests.Valid() && Served([bestBlock], needed, requests.queue, {})
      ensures forall t :: t in needed <==> t in txids && t !in seeded
    {
      hide Distinct;
      requests := new RequestQueue();
      needed := [];
      requests.PushBack(RequestItem.Block(bestBlock));
      for i := 0 to |txids|
        invariant fresh(requests) && requests.Valid() && Served([bestBlock], needed, requests.queue, {})
        invariant forall t :: t in needed <==> t in txids[..i] && t !in seeded
      {
        assert txids[..i + 1] == txids[..i] + [txids[i]];
        if txids[i] !in seeded {
          requests.PushBack(Tx(txids[i], true));
          needed := InsertBack(needed, txids[i]);
        }
      }
      assert txids[..|txids|] == txids;
    }

    /** Nothing is outstanding, and both views stand at the same block. */
    predicate IsSynced()
      reads this, actionQueue, abandonedPool
    {
      && abandonedPool.abandonedTxs == map[] && blocksNeeded == [] && txsNeeded == []
      && actionQueue.head.None? && chainTip == unfilteredTip
    }

    /** Once synced, the block at the filtered tip is at hand. */
    lemma SyncedTipAtHand()
      requires Valid() && IsSynced() && chainTip != ALL_ZEROS
      ensures chainTip in blocks && blocks[chainTip].hash == chainTip
    {
    }

    // -------------------------------------------------------------- blocks

    /** `remove_with_descendants` of the filtered mempool: the tx and whatever was below it are gone. */
    method RemoveSubtree(txid: Txid) returns (r: Outcome<set<Txid>>)
      modifies this`mempoolTxs
      ensures r.Ok? ==>
                && r.value == Downstream(old(mempoolTxs), {txid}) && r.value <= old(mempoolTxs).Keys
                && mempoolTxs == old(mempoolTxs) - r.value
      ensures r.Err? ==> r == Err(MempoolFailed)
    {
      hide Transaction.Parents, Downstream;
      if * {
        return Err(MempoolFailed);
      }
      DownstreamWithin(mempoolTxs, {txid});
      var removed := if txid in mempoolTxs then {txid} else {};
      while exists t :: t in mempoolTxs.Keys - removed && mempoolTxs[t].Parents() * ({txid} + removed) != {}
        invariant removed <= Downstream(mempoolTxs, {txid})
        invariant txid in mempoolTxs ==> txid in removed
        decreases mempoolTxs.Keys - removed
      {
        var t :| t in mempoolTxs.Keys - removed && mempoolTxs[t].Parents() * ({txid} + removed) != {};
        assert mempoolTxs[t].Parents() * ({txid} + removed) <=
               mempoolTxs[t].Parents() * ({txid} + Downstream(mempoolTxs, {txid}));
        removed := removed + {t};
      }
      DownstreamLeast(mempoolTxs, {txid}, removed);
      mempoolTxs := mempoolTxs - removed;
      return Ok(removed);
    }

    /** The txs of an accepted block leave the mempool, which may fail, the needs and the request queue, and enter the cache. */
    method TakeMined(block: Block) returns (r: Outcome<()>)
      requires QueuesValid() && AllHashed(block.tx, spends) && Held(abandonedPool.Contents(), txCache, spends)
      modifies this`mempoolTxs, this`txsNeeded, this`txCache, requestQueue
      ensures QueuesValid() && Held(abandonedPool.Contents(), txCache, spends)
      ensures r.Ok? ==> mempoolTxs == old(mempoolTxs) - IdsOf(block.tx)
      ensures r.Ok? ==> forall t :: t in txsNeeded <==> t in old(txsNeeded) && t !in IdsOf(block.tx)
      ensures r.Ok? ==> txCache.Keys == old(txCache).Keys + IdsOf(block.tx)
      ensures r.Ok? ==> CacheGains(old(txCache), txCache, Elements(block.tx))
      ensures r.Ok? ==>
                forall q :: q in requestQueue.queue <==>
                  q in old(requestQueue.queue) && !(q.Tx? && q.inMempool && q.txid in IdsOf(block.tx))
      ensures r.Err? ==> r == Err(MempoolFailed)
    {
      hide Served, IdsOf, Without, Replace, Distinct, AbandonedTxs.Valid, AbandonedTxs.Hashed, CacheGains;
      WholeList(block.tx);
      GainsNothing(txCache, block.tx);
      for i := 0 to |block.tx|
        invariant QueuesValid() && Held(abandonedPool.Contents(), txCache, spends)
        invariant mempoolTxs == old(mempoolTxs) - IdsOf(block.tx[..i])
        invariant forall t :: t in txsNeeded <==> t in old(txsNeeded) && t !in IdsOf(block.tx[..i])
        invariant txCache.Keys == old(txCache).Keys + IdsOf(block.tx[..i])
        invariant CacheGains(old(txCache), txCache, Elements(block.tx[..i]))
        invariant forall q :: q in requestQueue.queue <==>
                    q in old(requestQueue.queue) && !(q.Tx? && q.inMempool && q.txid in IdsOf(block.tx[..i]))
      {
        var tx := block.tx[i];
        ServedForget(blocksNeeded, txsNeeded, requestQueue.queue, inFlight, tx.txid);
        IdsStep(block.tx, i);
        var removed: bool := *;
        if !removed {
          return Err(MempoolFailed);
        }
        mempoolTxs := mempoolTxs - {tx.txid};
        WithoutTx(txsNeeded, tx.txid);
        txsNeeded := Without(txsNeeded, tx.txid);
        WithoutRequest(requestQueue.queue, Tx(tx.txid, true));
        requestQueue.Remove(Tx(tx.txid, true));
        GainsFront(old(txCache), txCache, block.tx, i);
        txCache := txCache[tx.txid := tx];
      }
      return Ok(());
    }

    /** The txs an accepted block conflicts with leave the mempool; those it did not mine are deprioritised. */
    method DropConflicting(remove: set<Txid>, mined: set<Txid>) returns (r: Outcome<()>)
      requires QueuesValid()
      modifies this`mempoolTxs, this`rejectedTxs, requestQueue
      ensures QueuesValid()
      ensures r.Ok? ==> mempoolTxs == old(mempoolTxs) - Downstream(old(mempoolTxs), remove)
      ensures r.Ok? ==> rejectedTxs == old(rejectedTxs) + (remove - mined)
      ensures r.Ok? ==>
                forall q :: q in requestQueue.queue <==>
                  q in old(requestQueue.queue) || (q.RejectTx? && q.txid in remove - mined)
      ensures r.Err? ==> r == Err(MempoolFailed)
    {
      hide Served, ReplaceToFront, Distinct, Downstream;
      var rest := remove;
      assert remove - rest == {};
      DownstreamOfNone(mempoolTxs);
      while rest != {}
        invariant QueuesValid() && rest <= remove
        invariant mempoolTxs == old(mempoolTxs) - Downstream(old(mempoolTxs), remove - rest)
        invariant rejectedTxs == old(rejectedTxs) + (remove - rest - mined)
        invariant forall q :: q in requestQueue.queue <==>
                    q in old(requestQueue.queue) || (q.RejectTx? && q.txid in remove - rest - mined)
        decreases rest
      {
        var txid :| txid in rest;
        FrontMembers(requestQueue.queue, RequestItem.RejectTx(txid));
        ServedMoreFront(blocksNeeded, txsNeeded, requestQueue.queue, inFlight, RequestItem.RejectTx(txid));
        DownstreamMore(old(mempoolTxs), remove - rest, txid);
        assert remove - (rest - {txid}) == remove - rest + {txid};
        rest := rest - {txid};
        var removed := RemoveSubtree(txid);
        match removed {
          case Err(error) => return Err(error);
          case Ok(_) =>
        }
        if txid !in mined {
          rejectedTxs := rejectedTxs + {txid};
          requestQueue.PushFront(RejectTx(txid));
        }
      }
      assert remove - rest == remove;
      return Ok(());
    }

    /** Connects a block to the views, asking the enforcer only about a block that extends the filtered tip. */
    method ConnectBlock(block: Block) returns (r: Outcome<()>, ghost verdict: Verdict)
      requires ChainValid() && QueuesValid() && GoodBlock(block, enforcer.parentOf, spends)
      requires Held(abandonedPool.Contents(), txCache, spends)
      modifies this`chainTip, this`tipWatch, this`unfilteredTip, this`unfilteredTxs, this`rejectedBlocks,
               this`rejectedTxs, this`mempoolTxs, this`txsNeeded, this`txCache, enforcer, requestQueue
      ensures r.Ok? ==> ChainValid() && QueuesValid() && Held(abandonedPool.Contents(), txCache, spends)
      ensures r.Ok? ==> BlockConnected(old(Now()), Now(), block, enforcer.rulings.connect)
      ensures r.Ok? ==>
                TipsNow() == AfterConnect(old(TipsNow()), CaseOf(old(TipsNow()), old(TipHeight()), block), block, verdict)
      ensures r.Ok? ==>
                unfilteredTxs == if Skipped(CaseOf(old(TipsNow()), old(TipHeight()), block)) then old(unfilteredTxs)
                                 else old(unfilteredTxs) - IdsOf(block.tx)
      ensures r.Ok? ==>
                enforcer.stack == old(enforcer.stack) +
                  if CaseOf(old(TipsNow()), old(TipHeight()), block) == AskEnforcer && verdict == Accepted
                  then [block.hash] else []
      ensures CaseOf(old(TipsNow()), old(TipHeight()), block) == TipMismatch <==>
                r == Err(UnexpectedTip(old(unfilteredTip), block.Prev()))
      ensures r.Ok? ==>
                PooledStep(old(Views(rejectedBlocks, mempoolTxs, unfilteredTxs)),
                           Views(rejectedBlocks, mempoolTxs, unfilteredTxs), spends)
      ensures r.Err? ==> !r.error.MissingTx?
    {
      hide Served, ChainedStack, Distinct, ReplaceToFront, BlocksKeyed, IdsOf, MirrorTxs, GoodBlock, Held, PooledStep, Part,
           AllHashed, BlockRuledOn, AfterConnect, Skipped;
      ghost var s := Now();
      r := PlaceBlock(block);
      verdict := VerdictOf(enforcer.rulings.connect);
      if r.Ok? {
        ConnectedMeans(s, Now(), block, enforcer.rulings.connect, spends);
        TipsStayCoherent(s.tips, HeightAt(s), block, verdict);
      }
    }

    /** The case analysis of `connect_block`. */
    method PlaceBlock(block: Block) returns (r: Outcome<()>)
      requires StackAt(enforcer.stack, enforcer.parentOf, chainTip) && tipWatch == chainTip && QueuesValid()
      requires GoodBlock(block, enforcer.parentOf, spends) && Held(abandonedPool.Contents(), txCache, spends)
      modifies this`chainTip, this`tipWatch, this`unfilteredTip, this`unfilteredTxs, this`rejectedBlocks,
               this`rejectedTxs, this`mempoolTxs, this`txsNeeded, this`txCache, enforcer, requestQueue
      ensures r.Ok? ==> QueuesValid() && StackAt(enforcer.stack, enforcer.parentOf, chainTip) && tipWatch == chainTip
      ensures r.Ok? ==> Held(abandonedPool.Contents(), txCache, spends)
      ensures r.Ok? ==> BlockConnected(old(Now()), Now(), block, enforcer.rulings.connect)
      ensures CaseOf(old(TipsNow()), old(TipHeight()), block) == TipMismatch <==>
                r == Err(UnexpectedTip(old(unfilteredTip), block.Prev()))
      ensures r.Err? ==> !r.error.MissingTx?
    {
      hide Served, Distinct, ReplaceToFront, IdsOf, GoodBlock, Held, BlockRuledOn, StackAt, SyncActionQueue.Actions;
      var prev := block.Prev();
      if prev != unfilteredTip {
        if block.hash == unfilteredTip {
          return Ok(());
        }
        if block.confirmations > 0 && unfilteredTip in blocks && block.height < blocks[unfilteredTip].height {
          return Ok(());
        }
        if prev != chainTip {
          return Err(UnexpectedTip(unfilteredTip, prev));
        }
        unfilteredTip := prev;
      }
      ForgetMined(block);
      unfilteredTip := block.hash;
      if prev != chainTip {
        RejectBlock(block.hash);
        return Ok(());
      }
      r := AskAbout(block);
    }

    /** The enforcer rules on a block that extends the filtered tip. */
    method AskAbout(block: Block) returns (r: Outcome<()>)
      requires StackAt(enforcer.stack, enforcer.parentOf, chainTip) && tipWatch == chainTip && QueuesValid()
      requires GoodBlock(block, enforcer.parentOf, spends) && block.Prev() == chainTip
      requires Held(abandonedPool.Contents(), txCache, spends)
      modifies this`chainTip, this`tipWatch, this`rejectedBlocks, this`rejectedTxs, this`mempoolTxs, this`txsNeeded,
               this`txCache, enforcer, requestQueue
      ensures r.Ok? ==> QueuesValid() && StackAt(enforcer.stack, enforcer.parentOf, chainTip) && tipWatch == chainTip
      ensures r.Ok? ==> Held(abandonedPool.Contents(), txCache, spends)
      ensures r.Ok? ==> BlockRuledOn(old(Now()), Now(), block, enforcer.rulings.connect)
      ensures r.Err? ==> !r.error.UnexpectedTip? && !r.error.MissingTx?
    {
      hide Served, Distinct, ReplaceToFront, StackAt, IdsOf, GoodBlock, Held, SyncActionQueue.Actions,
           BlockAccepted, MinedTaken;
      if !block.decodes {
        return Err(DecodeBlock(block.hash));
      }
      ghost var s := Now();
      var answer := RequestRuling(block);
      ghost var ruled := Now();
      match answer {
        case ConnectFailed => r := Err(EnforcerFailed);
        case ConnectAccept(remove) =>
          r := TakeAccepted(block, remove);
          if r.Ok? {
            ghost var taken := Now();
            chainTip, tipWatch := block.hash, block.hash;
            MakeAccepted(s, ruled, taken, Now(), block, remove);
          }
        case ConnectReject =>
          RejectBlock(block.hash);
          r := Ok(());
      }
    }

    method RequestRuling(block: Block) returns (answer: ConnectAnswer)
      requires StackAt(enforcer.stack, enforcer.parentOf, chainTip) && block.Prev() == chainTip
      requires GoodBlock(block, enforcer.parentOf, spends)
      modifies enforcer
      ensures AllHashed(block.tx, spends) && enforcer.rulings.connect == answer
      ensures answer.ConnectAccept? ==>
                enforcer.stack == old(enforcer.stack) + [block.hash]
                && StackAt(enforcer.stack, enforcer.parentOf, block.hash)
      ensures answer.ConnectReject? ==>
                enforcer.stack == old(enforcer.stack) && StackAt(enforcer.stack, enforcer.parentOf, chainTip)
    {
      hide ChainedStack, AllHashed;
      PushChained(enforcer.stack, block, enforcer.parentOf);
      answer := enforcer.ConnectBlock(block);
    }

    /** The txs of an accepted block are taken in, and then what it conflicts with is dropped. */
    method TakeAccepted(block: Block, remove: set<Txid>) returns (r: Outcome<()>)
      requires QueuesValid() && AllHashed(block.tx, spends) && Held(abandonedPool.Contents(), txCache, spends)
      modifies this`mempoolTxs, this`rejectedTxs, this`txsNeeded, this`txCache, requestQueue
      ensures r.Ok? ==> QueuesValid() && Held(abandonedPool.Contents(), txCache, spends)
      ensures r.Ok? ==> MinedTaken(old(Now()), Now(), block, remove)
      ensures r.Err? ==> r == Err(MempoolFailed)
    {
      hide Served, Distinct, IdsOf, AllHashed, Held, Downstream, CacheGains;
      var taken := TakeMined(block);
      match taken {
        case Err(error) => return Err(error);
        case Ok(_) => r := DropConflicting(remove, IdsOf(block.tx));
      }
    }

    /** The mirror forgets the txs of a block. */
    method ForgetMined(block: Block)
      modifies this`unfilteredTxs
      ensures unfilteredTxs == old(unfilteredTxs) - IdsOf(block.tx)
    {
      hide IdsOf;
      WholeList(block.tx);
      for i := 0 to |block.tx|
        invariant unfilteredTxs == old(unfilteredTxs) - IdsOf(block.tx[..i])
      {
        IdsStep(block.tx, i);
        unfilteredTxs := unfilteredTxs - {block.tx[i].txid};
      }
    }

    method RejectBlock(hash: BlockHash)
      requires QueuesValid()
      modifies this`rejectedBlocks, requestQueue
      ensures QueuesValid() && rejectedBlocks == old(rejectedBlocks) + {hash}
      ensures requestQueue.queue == ReplaceToFront(old(requestQueue.queue), RequestItem.RejectBlock(hash))
    {
      rejectedBlocks := rejectedBlocks + {hash};
      requestQueue.PushFront(RequestItem.RejectBlock(hash));
    }

    method DropSubtrees(remove: set<Txid>) returns (r: Outcome<()>)
      modifies this`mempoolTxs
      ensures r.Ok? ==> mempoolTxs == old(mempoolTxs) - Downstream(old(mempoolTxs), remove)
      ensures r.Err? ==> r == Err(MempoolFailed)
    {
      hide Downstream;
      var rest := remove;
      assert remove - rest == {};
      DownstreamOfNone(mempoolTxs);
      while rest != {}
        invariant rest <= remove && mempoolTxs == old(mempoolTxs) - Downstream(old(mempoolTxs), remove - rest)
        decreases rest
      {
        var txid :| txid in rest;
        DownstreamMore(old(mempoolTxs), remove - rest, txid);
        assert remove - (rest - {txid}) == remove - rest + {txid};
        rest := rest - {txid};
        var removed := RemoveSubtree(txid);
        match removed {
          case Err(error) => return Err(error);
          case Ok(_) =>
        }
      }
      assert remove - rest == remove;
      return Ok(());
    }

    /** Rolls both tips back to the parent of the filtered tip, or first asks for the parent block. A block that only the
        mirror stands at is rolled back there alone. */
    method HandleDisconnectedBlock(block: Block) returns (r: Outcome<bool>)
      requires ChainValid() && QueuesValid() && GoodBlock(block, enforcer.parentOf, spends)
      modifies this`chainTip, this`tipWatch, this`unfilteredTip, this`mempoolTxs, this`blocksNeeded, enforcer, requestQueue
      ensures r.Ok? ==> QueuesValid() && tipWatch == chainTip
      ensures r.Ok? && old(chainTip) == block.hash ==> ChainValid()
      ensures r == Ok(true) && old(chainTip) == block.hash ==>
                && TipsNow() == AfterDisconnect(old(TipsNow()), block) && chainTip == block.Prev()
                && enforcer.stack == old(enforcer.stack)[..|old(enforcer.stack)| - 1]
                && (chainTip == ALL_ZEROS || chainTip in blocks)
                && BlockDisconnected(old(Now()), Now(), block, enforcer.rulings.disconnect)
      ensures r.Ok? && old(chainTip) != block.hash ==>
                && r == Ok(true) && old(unfilteredTip) == block.hash
                && TipsNow() == old(TipsNow()).(unfiltered := block.Prev())
                && enforcer.stack == old(enforcer.stack) && mempoolTxs == old(mempoolTxs)
      ensures r.Ok? ==> Part(mempoolTxs, old(mempoolTxs))
      ensures r == Ok(true) ==> blocksNeeded == old(blocksNeeded)
      ensures r == Ok(false) ==> ParentBlockAsked(old(Now()), Now(), block)
      ensures r == Ok(false) ==>
                && TipsNow() == old(TipsNow()) && enforcer.stack == old(enforcer.stack)
                && mempoolTxs == old(mempoolTxs) && block.previousblockhash.Some? && block.Prev() !in blocks
                && blocksNeeded == Replace(old(blocksNeeded), block.Prev())
      ensures old(unfilteredTip) != block.hash <==> r == Err(DisconnectTipMismatch(block.hash, old(unfilteredTip)))
      ensures r.Err? ==> !r.error.MissingTx?
    {
      hide ChainedStack, Distinct, BlocksKeyed, MirrorTxs, AllHashed, Served, BlockDisconnected, Part, AfterDisconnect;
      ghost var s := Now();
      PartSame(mempoolTxs);
      var prev := block.Prev();
      if unfilteredTip != block.hash {
        return Err(DisconnectTipMismatch(block.hash, unfilteredTip));
      }
      if chainTip == block.hash {
        if block.previousblockhash.Some? && prev !in blocks {
          AskForBlock(prev);
          return Ok(false);
        }
        var rolled := RollBack(block);
        match rolled {
          case Err(error) => return Err(error);
          case Ok(_) =>
            DisconnectedMeans(s, Now(), block, enforcer.rulings.disconnect, spends);
            return Ok(true);
        }
      }
      unfilteredTip := prev;
      return Ok(true);
    }

    method AskForBlock(hash: BlockHash)
      requires QueuesValid()
      modifies this`blocksNeeded, requestQueue
      ensures QueuesValid() && blocksNeeded == Replace(old(blocksNeeded), hash)
      ensures requestQueue.queue == if hash in old(blocksNeeded) then old(requestQueue.queue)
                                    else ReplaceToFront(old(requestQueue.queue), RequestItem.Block(hash))
    {
      hide Served, Distinct;
      if hash !in blocksNeeded {
        ServedMore(blocksNeeded, txsNeeded, requestQueue.queue, inFlight, Replace(blocksNeeded, hash), txsNeeded,
                   ReplaceToFront(requestQueue.queue, RequestItem.Block(hash)));
        blocksNeeded := Replace(blocksNeeded, hash);
        requestQueue.PushFront(RequestItem.Block(hash));
      }
    }

    /** The enforcer pops the filtered tip, and both tips go back to its parent. */
    method RollBack(block: Block) returns (r: Outcome<()>)
      requires StackAt(enforcer.stack, enforcer.parentOf, chainTip) && tipWatch == chainTip
      requires GoodBlock(block, enforcer.parentOf, spends) && chainTip == unfilteredTip == block.hash
      requires block.previousblockhash.Some? ==> block.Prev() in blocks
      modifies this`chainTip, this`tipWatch, this`unfilteredTip, this`mempoolTxs, enforcer
      ensures r.Ok? ==> tipWatch == chainTip && StackAt(enforcer.stack, enforcer.parentOf, chainTip)
      ensures r.Ok? ==> BlockDisconnected(old(Now()), Now(), block, enforcer.rulings.disconnect)
      ensures r.Err? ==> !r.error.MissingTx? && !r.error.DisconnectTipMismatch?
    {
      hide StackAt, GoodBlock, Downstream;
      r := PopTip(block);
      if r.Ok? {
        chainTip, tipWatch := block.Prev(), block.Prev();
        unfilteredTip := block.Prev();
      }
    }

    /** The enforcer disconnects the block on top; what it asks for leaves the mempool. */
    method PopTip(block: Block) returns (r: Outcome<()>)
      requires StackAt(enforcer.stack, enforcer.parentOf, block.hash) && GoodBlock(block, enforcer.parentOf, spends)
      modifies this`mempoolTxs, enforcer
      ensures r.Ok? ==>
                && StackAt(enforcer.stack, enforcer.parentOf, block.Prev()) && old(enforcer.stack) != []
                && enforcer.stack == old(enforcer.stack)[..|old(enforcer.stack)| - 1]
                && enforcer.rulings.disconnect.DisconnectDone?
                && mempoolTxs == old(mempoolTxs) -
                   Downstream(old(mempoolTxs), enforcer.rulings.disconnect.removeMempoolTxs)
      ensures r.Err? ==> !r.error.MissingTx? && !r.error.DisconnectTipMismatch?
    {
      hide ChainedStack, AllHashed, Downstream;
      PopChained(enforcer.stack, block, enforcer.parentOf);
      var answer := enforcer.DisconnectBlock(block.hash);
      match answer {
        case DisconnectFailed => return Err(EnforcerFailed);
        case DisconnectDone(remove) => r := DropSubtrees(remove);
      }
    }

    // -------------------------------------------------------------- messages

    method HandleBlockHashMsg(hash: BlockHash)
      requires QueuesValid()
      modifies this`blocksNeeded, requestQueue
      ensures QueuesValid()
      ensures hash in blocks ==> blocksNeeded == old(blocksNeeded) && requestQueue.queue == old(requestQueue.queue)
      ensures hash !in blocks ==>
                && blocksNeeded == Replace(old(blocksNeeded), hash)
                && requestQueue.queue == Replace(old(requestQueue.queue), RequestItem.Block(hash))
    {
      if hash !in blocks {
        blocksNeeded := Replace(blocksNeeded, hash);
        requestQueue.PushBack(RequestItem.Block(hash));
      }
    }

    /** What waited only for `txid` leaves the abandoned pool and is queued for insertion, parents first. */
    method RestoreBelow(txid: Txid, now: nat) returns (restored: seq<Transaction>)
      requires actionQueue.Valid() && Held(abandonedPool.Contents(), txCache, spends)
      modifies this`txCache, abandonedPool, actionQueue
      ensures actionQueue.Valid() && Held(abandonedPool.Contents(), txCache, spends)
      ensures RestoredFrom(old(abandonedPool.Contents()), txid, restored, abandonedPool.Contents())
      ensures actionQueue.Actions() == Insertions(restored) + old(actionQueue.Actions())
      ensures txCache.Keys == old(txCache).Keys + IdsOf(restored)
      ensures CacheGains(old(txCache), txCache, Elements(restored))
    {
      hide *;
      HeldParts(abandonedPool.Contents(), txCache, spends);
      ghost var s := abandonedPool.Contents();
      abandonedPool.Unfold();
      restored := abandonedPool.RestoreDescendantTxs(txid, spends);
      MakeRestored(s, txid, restored, abandonedPool.Contents());
      PooledHashed(s, restored, spends);
      QueueRestored(restored, now);
      MakeHeld(abandonedPool.Contents(), txCache, spends);
    }

    /** Restored txs go to the cache and, in order, to the front of the action queue. */
    method QueueRestored(restored: seq<Transaction>, now: nat)
      requires actionQueue.Valid() && AllHashed(restored, spends) && CacheHashed(txCache, spends)
      modifies this`txCache, actionQueue
      ensures actionQueue.Valid() && CacheHashed(txCache, spends)
      ensures actionQueue.Actions() == Insertions(restored) + old(actionQueue.Actions())
      ensures txCache.Keys == old(txCache).Keys + IdsOf(restored)
      ensures CacheGains(old(txCache), txCache, Elements(restored))
    {
      hide *;
      WholeList(restored);
      GainsNothing(txCache, restored);
      for i := |restored| downto 0
        invariant actionQueue.Valid() && CacheHashed(txCache, spends)
        invariant actionQueue.Actions() == Insertions(restored[i..]) + old(actionQueue.Actions())
        invariant txCache.Keys == old(txCache).Keys + IdsOf(restored[i..])
        invariant CacheGains(old(txCache), txCache, Elements(restored[i..]))
      {
        InsertionsStep(restored, i);
        CacheMore(txCache, restored, i, spends);
        GainsBack(old(txCache), txCache, restored, i);
        txCache := txCache[restored[i].txid := restored[i]];
        actionQueue.PushFront(InsertTx(restored[i].txid), now);
      }
    }

    // -------------------------------------------------------------- applying actions

    /** Parents that must be fetched go, in vin order, to the front of the needs and of the request queue. */
    method RequireParents(txids: seq<Txid>)
      requires QueuesValid()
      modifies this`txsNeeded, requestQueue
      ensures QueuesValid()
      ensures txsNeeded == Fronted(old(txsNeeded), txids)
      ensures requestQueue.queue == Fronted(old(requestQueue.queue), TxRequests(txids))
    {
      hide Served, Fronted, TxRequests, ReplaceToFront, Distinct;
      NoTxRequests(txids);
      FrontedNone(txsNeeded);
      FrontedNone(requestQueue.queue);
      for i := |txids| downto 0
        invariant QueuesValid()
        invariant txsNeeded == Fronted(old(txsNeeded), txids[i..])
        invariant requestQueue.queue == Fronted(old(requestQueue.queue), TxRequests(txids[i..]))
      {
        TxRequestsStep(txids, i);
        FrontedMore(old(txsNeeded), txids[i], txids[i + 1..]);
        FrontedMore(old(requestQueue.queue), Tx(txids[i], false), TxRequests(txids[i + 1..]));
        ServedFetch(blocksNeeded, txsNeeded, requestQueue.queue, inFlight, txids[i]);
        txsNeeded := ReplaceToFront(txsNeeded, txids[i]);
        requestQueue.PushFront(Tx(txids[i], false));
      }
    }

    /** A tx with a missing parent waits in the abandoned pool, blocked by its pooled and the given absent parents. */
    method Abandon(txid: Txid, absentMaybe: set<Txid>)
      requires txid in txCache && Held(abandonedPool.Contents(), txCache, spends)
      requires AbandonedTxs.HasBlocker(abandonedPool.Contents(), txCache[txid], absentMaybe)
      modifies this`txCache, abandonedPool
      ensures Held(abandonedPool.Contents(), txCache, spends)
      ensures txCache == old(txCache) - {txid}
      ensures abandonedPool.Contents() ==
              AbandonedTxs.AfterInsert(old(abandonedPool.Contents()), old(txCache)[txid], absentMaybe)
    {
      hide *;
      HeldParts(abandonedPool.Contents(), txCache, spends);
      CachedHashed(txCache, txid, spends);
      var tx := txCache[txid];
      InsertHeld(abandonedPool.Contents(), tx, absentMaybe, spends);
      CacheLess(txCache, txid, spends);
      txCache := txCache - {txid};
      var existing := abandonedPool.Insert(tx, absentMaybe);
      MakeHeld(abandonedPool.Contents(), txCache, spends);
    }

    /** A tx the enforcer turns down takes everything below it along, in both pools. */
    method RejectFamily(txid: Txid) returns (r: Outcome<()>)
      requires QueuesValid() && Held(abandonedPool.Contents(), txCache, spends)
      modifies this`mempoolTxs, this`rejectedTxs, requestQueue, abandonedPool
      ensures QueuesValid() && Held(abandonedPool.Contents(), txCache, spends)
      ensures r.Ok? ==> FamilyRejected(old(Now()), Now(), txid)
      ensures r.Err? ==> r == Err(MempoolFailed)
    {
      hide Held, Distinct, Served, RejectedWith, Downstream;
      var removed := RemoveSubtree(txid);
      match removed {
        case Err(error) => return Err(error);
        case Ok(gone) =>
          var rejected := RemoveAbandoned(gone + {txid});
          MarkRejected(rejected);
          return Ok(());
      }
    }

    /** Each of the roots leaves the abandoned pool with everything below it; returns the roots and what left. */
    method RemoveAbandoned(roots: set<Txid>) returns (rejected: set<Txid>)
      requires Held(abandonedPool.Contents(), txCache, spends)
      modifies abandonedPool
      ensures Held(abandonedPool.Contents(), txCache, spends)
      ensures rejected == RejectedWith(old(abandonedPool.Contents()), roots)
      ensures abandonedPool.abandonedTxs.Keys == old(abandonedPool.abandonedTxs).Keys - rejected
    {
      hide Held, AbandonedClosures.Family, AbandonedClosures.Families, AbandonedClosures.TakenOut, AbandonedClosures.Thinned,
           AbandonedClosures.SameBlockers, AbandonedClosures.AvailableKept, AbandonedClosures.Pruned, AbandonedTxs.Valid, IdsOf;
      rejected := {};
      var rest := roots;
      ghost var before, gone, dropped := abandonedPool.Contents(), {}, {};
      AbandonedClosures.PrunedNothing(before);
      AbandonedClosures.FamiliesMore(before, {}, 0);
      while rest != {}
        invariant Held(abandonedPool.Contents(), txCache, spends)
        invariant rest !! dropped && rest + dropped == roots
        invariant AbandonedClosures.Pruned(before, abandonedPool.Contents(), gone, dropped)
        invariant gone == AbandonedClosures.Families(before, dropped)
        invariant rejected == dropped + gone * before.abandoned.Keys
        decreases rest
      {
        var root :| root in rest;
        rest := rest - {root};
        ghost var s := abandonedPool.Contents();
        HeldParts(s, txCache, spends);
        var below := abandonedPool.RemoveDescendantTxs(root, spends);
        TakenIds(s, below, root);
        PruneFurther(before, s, abandonedPool.Contents(), gone, dropped, root);
        gone, dropped := gone + AbandonedClosures.Family(before, root), dropped + {root};
        rejected := rejected + IdsOf(below) + {root};
        MakeHeld(abandonedPool.Contents(), txCache, spends);
      }
      PrunedKeys(before, abandonedPool.Contents(), gone, roots);
    }

    method MarkRejected(txids: set<Txid>)
      requires QueuesValid()
      modifies this`rejectedTxs, requestQueue
      ensures QueuesValid() && rejectedTxs == old(rejectedTxs) + txids
      ensures forall q :: q in requestQueue.queue <==>
                q in old(requestQueue.queue) || (q.RejectTx? && q.txid in txids)
    {
      var rest := txids;
      while rest != {}
        invariant QueuesValid() && rest <= txids && rejectedTxs == old(rejectedTxs) + (txids - rest)
        invariant forall q :: q in requestQueue.queue <==>
                    q in old(requestQueue.queue) || (q.RejectTx? && q.txid in txids - rest)
        decreases rest
      {
        var txid :| txid in rest;
        rest := rest - {txid};
        rejectedTxs := rejectedTxs + {txid};
        requestQueue.PushFront(RequestItem.RejectTx(txid));
      }
    }

    /** The fee of a tx whose parents are at hand. */
    method FeeFor(txid: Txid, tx: Transaction, parentTxs: map<Txid, Transaction>) returns (r: Outcome<nat>)
      ensures r.Ok? ==> PaysFee(knownFees, txid, tx, parentTxs, r.value)
      ensures r.Ok? <==>
                || txid in knownFees
                || (Spendable(tx.input, parentTxs) && ValueOut(tx.output) <= ValueIn(tx.input, parentTxs) <= U64_MAX)
      ensures r.Err? ==> r.error.OutputOutOfRange? || r.error.FeeError?
    {
      hide Spendable, ValueIn, ValueOut;
      if txid in knownFees {
        return Ok(knownFees[txid]);
      }
      if !Spendable(tx.input, parentTxs) {
        return Err(OutputOutOfRange(txid));
      }
      var fee := FeeDelta(tx, parentTxs);
      if !fee.Fee? {
        return Err(FeeError(fee));
      }
      return Ok(fee.value);
    }

    /** Adds an announced tx whose body is at hand, as its parents and then the enforcer allow; `handed` is what the filtered
        mempool was asked to insert. */
    method AddCached(txid: Txid) returns (r: Outcome<bool>, ghost how: ParentTxsResult, ghost handed: Option<Handed>)
      requires QueuesValid() && txid in txCache && Held(abandonedPool.Contents(), txCache, spends)
      modifies this`rejectedTxs, this`mempoolTxs, this`txCache, this`txsNeeded, requestQueue, abandonedPool,
               this`childless, enforcer`rulings
      ensures r.Ok? ==> QueuesValid() && Held(abandonedPool.Contents(), txCache, spends)
      ensures AbandonedTxs.Hashed(old(txCache)[txid], spends) && old(txCache)[txid].txid == txid
      ensures Resolves(CachesOf(old(Now()), Told()), txid in knownFees, old(txCache)[txid].input, how)
      ensures r.Ok? && how.RequiredParents? ==> !r.value && ParentsAsked(old(Now()), Now(), how)
      ensures r.Ok? && !how.RequiredParents? ==>
                r.value && TxSettled(old(Now()), Now(), old(txCache)[txid], how, enforcer.rulings)
      ensures r.Ok? ==>
                childless == (old(childless) && (Part(mempoolTxs, old(mempoolTxs)) || NoSpender(old(mempoolTxs), txid)))
      ensures r.Ok? && how.AvailableParents? && enforcer.rulings.tx.TxAccept? ==>
                var tx := old(txCache)[txid];
                && handed.Some? && PaysFee(knownFees, txid, tx, how.txs, handed.value.fee)
                && handed.value == Handed(tx, handed.value.fee, enforcer.rulings.tx.conflictsWith,
                                          ModifiedWeight(tx.weight, enforcer.rulings.tx.weightTweak))
      ensures r.Ok? && !(how.AvailableParents? && enforcer.rulings.tx.TxAccept?) ==> handed.None?
      ensures r.Err? ==> !r.error.MissingTx?
    {
      hide Served, Fronted, TxRequests, ReplaceToFront, Distinct, Resolves, Held, AbandonedTxs.HasBlocker,
           AbandonedTxs.AfterInsert, AbandonedTxs.Hashed, CacheHashed, PaysFee, NoSpender, FamilyRejected, Part;
      var tx := txCache[txid];
      HeldParts(abandonedPool.Contents(), txCache, spends);
      CachedHashed(txCache, txid, spends);
      PartSame(mempoolTxs);
      var parents := TryGetParentTxsFromCaches(Caches(), tx.input, txid in knownFees);
      how, handed := parents, None;
      AbandonedHasBlocker(abandonedPool.Contents(), tx, Caches(), txid in knownFees, parents);
      match parents {
        case RejectedParent(_) =>
          rejectedTxs := rejectedTxs + {txid};
          QueueRejection(txid);
          r := Ok(true);
        case UnavailableParents(unavailable) =>
          Abandon(txid, Elements(unavailable));
          r := Ok(true);
        case RequiredParents(required) =>
          RequireParents(required);
          r := Ok(false);
        case AbandonedParents(_) =>
          Abandon(txid, {});
          r := Ok(true);
        case AvailableParents(parentTxs) =>
          var added;
          added, handed := AddAvailable(tx, parentTxs);
          r := match added case Err(error) => Err(error) case Ok(_) => Ok(true);
      }
    }

    /** The enforcer rules on a tx whose parents are at hand. */
    method AddAvailable(tx: Transaction, parentTxs: map<Txid, Transaction>)
      returns (r: Outcome<()>, ghost handed: Option<Handed>)
      requires QueuesValid() && Held(abandonedPool.Contents(), txCache, spends)
      modifies this`rejectedTxs, this`mempoolTxs, requestQueue, abandonedPool, this`childless, enforcer`rulings
      ensures QueuesValid() && Held(abandonedPool.Contents(), txCache, spends)
      ensures r.Ok? ==> TxSettled(old(Now()), Now(), tx, AvailableParents(parentTxs), enforcer.rulings)
      ensures r.Ok? ==>
                childless ==
                (old(childless) && (Part(mempoolTxs, old(mempoolTxs)) || NoSpender(old(mempoolTxs), tx.txid)))
      ensures r.Ok? ==>
                match enforcer.rulings.tx
                case TxAccept(conflictsWith, weightTweak) =>
                  && handed.Some? && PaysFee(knownFees, tx.txid, tx, parentTxs, handed.value.fee)
                  && handed.value == Handed(tx, handed.value.fee, conflictsWith, ModifiedWeight(tx.weight, weightTweak))
                case _ => handed.None?
      ensures r.Err? ==> !r.error.MissingTx?
    {
      hide Served, Distinct, Held, PaysFee, NoSpender, FamilyRejected, Downstream;
      handed := None;
      var fee := FeeFor(tx.txid, tx, parentTxs);
      if fee.Err? {
        return Err(fee.error), handed;
      }
      var answer := enforcer.AcceptTx(tx);
      match answer {
        case TxFailed => return Err(EnforcerFailed), handed;
        case TxAccept(conflictsWith, weightTweak) =>
          handed := Some(Handed(tx, fee.value, conflictsWith, ModifiedWeight(tx.weight, weightTweak)));
          r := InsertNew(tx);
        case TxReject =>
          r := RejectFamily(tx.txid);
          if r.Ok? {
            FamilyLeaves(old(Now()), Now(), tx.txid);
          }
      }
    }

    /** Inserts a tx into the filtered mempool, unless it is there already. */
    method InsertNew(tx: Transaction) returns (r: Outcome<()>)
      modifies this`mempoolTxs, this`childless
      ensures r.Ok? ==>
                mempoolTxs == if tx.txid in old(mempoolTxs) then old(mempoolTxs) else old(mempoolTxs)[tx.txid := tx]
      ensures r.Ok? ==>
                childless ==
                (old(childless) && (Part(mempoolTxs, old(mempoolTxs)) || NoSpender(old(mempoolTxs), tx.txid)))
      ensures r.Err? ==> r == Err(MempoolFailed)
    {
      hide NoSpender;
      if tx.txid !in mempoolTxs {
        var inserted: bool := *;
        if !inserted {
          return Err(MempoolFailed);
        }
        childless := childless && NoSpender(mempoolTxs, tx.txid);
        mempoolTxs := mempoolTxs[tx.txid := tx];
      }
      return Ok(());
    }

    method QueueRejection(txid: Txid)
      requires QueuesValid()
      modifies requestQueue
      ensures QueuesValid()
      ensures requestQueue.queue == ReplaceToFront(old(requestQueue.queue), RequestItem.RejectTx(txid))
    {
      requestQueue.PushFront(RequestItem.RejectTx(txid));
    }

    /** Applies an addition: `true` once the tx is mirrored, `false` while it or a parent is still awaited. */
    method TryAddTxFromCaches(txid: Txid) returns (r: Outcome<bool>)
      requires QueuesValid() && Held(abandonedPool.Contents(), txCache, spends)
      modifies this`unfilteredTxs, this`rejectedTxs, this`mempoolTxs, this`txCache, this`txsNeeded, requestQueue,
               this`childless, abandonedPool, enforcer`rulings
      ensures r.Ok? ==> QueuesValid() && Held(abandonedPool.Contents(), txCache, spends)
      ensures r.Ok? && r.value ==> TxAdded(old(Now()), Now(), Told(), txid, enforcer.rulings)
      ensures r.Ok? && !r.value ==> TxWaits(old(Now()), Now(), Told(), txid)
      ensures Known(old(Now()), txid) ==> r == Ok(true)
      ensures !Known(old(Now()), txid) && txid !in old(txCache) ==> r == Ok(false)
      ensures r.Ok? && r.value ==> unfilteredTxs == old(unfilteredTxs) + {txid}
      ensures r.Ok? && !r.value ==>
                unfilteredTxs == old(unfilteredTxs) && mempoolTxs == old(mempoolTxs) && childless == old(childless)
      ensures r.Ok? ==>
                PooledStep(old(Views(rejectedBlocks, mempoolTxs, unfilteredTxs)),
                           Views(rejectedBlocks, mempoolTxs, unfilteredTxs), spends)
      ensures r.Ok? && old(childless) && NoSpender(old(mempoolTxs), txid) ==> childless
      ensures r.Err? ==> !r.error.MissingTx?
    {
      hide Served, ReplaceToFront, Distinct, Resolves, Held, PooledStep, AbandonedTxs.Hashed, NoSpender, PaysFee, TxSettled,
           ParentsAsked, Part;
      ghost var s := Now();
      ViewsSame(ViewsOf(s), spends);
      if txid in unfilteredTxs {
        return Ok(true);
      }
      if txid !in txCache {
        if txid in unavailableTxs {
          unfilteredTxs := unfilteredTxs + {txid};
          MirrorGrows(s, Now(), txid, spends);
          return Ok(true);
        }
        ServedMoreFront(blocksNeeded, txsNeeded, requestQueue.queue, inFlight, Tx(txid, true));
        requestQueue.PushFront(Tx(txid, true));
        return Ok(false);
      }
      ghost var how, handed;
      r, how, handed := AddCached(txid);
      if r.Ok? {
        if r.value {
          SettledMeans(s, Now(), s.cache[txid], how, enforcer.rulings);
          unfilteredTxs := unfilteredTxs + {txid};
          ViewsGain(ViewsOf(s), ViewsOf(Now()), s.cache[txid], spends);
        } else {
          ParentsMeans(s, Now(), how);
          PartSame(s.mempool);
        }
      }
    }

    /** A disconnect rolls back the filtered tip, is ignored for a block that was rejected, or waits. */
    method ApplyDisconnected(hash: BlockHash) returns (r: Outcome<bool>)
      requires ChainValid() && QueuesValid() && TipKnown(chainTip, blocks, blocksNeeded)
      modifies this`chainTip, this`tipWatch, this`unfilteredTip, this`mempoolTxs, this`blocksNeeded, enforcer, requestQueue
      ensures r.Ok? ==> ChainValid() && QueuesValid() && TipKnown(chainTip, blocks, blocksNeeded)
      ensures r == Ok(false) ==> TipsNow() == old(TipsNow())
      ensures r == Ok(true) ==>
                || (hash in blocks && TipsNow() == AfterDisconnect(old(TipsNow()), blocks[hash]))
                || (DisconnectCaseOf(old(TipsNow()), hash) == NeverConnected && TipsNow() == old(TipsNow()))
      ensures DisconnectCaseOf(old(TipsNow()), hash) == NeverConnected ==> r == Ok(true)
      ensures DisconnectCaseOf(old(TipsNow()), hash) == NotYet ==> r == Ok(false)
      ensures r.Ok? && TipAtHand(old(chainTip), blocks) ==> TipAtHand(chainTip, blocks)
      ensures r.Ok? && r.value ==>
                MessageApplied(old(Now()), Now(), Told(), Disconnected(hash), enforcer.rulings)
      ensures r.Ok? && !r.value ==> MessageWaits(old(Now()), Now(), Told(), Disconnected(hash))
      ensures r.Ok? ==>
                PooledStep(old(Views(rejectedBlocks, mempoolTxs, unfilteredTxs)),
                           Views(rejectedBlocks, mempoolTxs, unfilteredTxs), spends)
      ensures r.Err? ==> !r.error.MissingTx?
    {
      hide Served, StackAt, Distinct, Coherent, GoodBlock, PooledStep, BlockDisconnected, ParentBlockAsked;
      ghost var views := Views(rejectedBlocks, mempoolTxs, unfilteredTxs);
      ViewsSame(views, spends);
      if chainTip != hash {
        return Ok(hash in rejectedBlocks);
      }
      if hash !in blocks {
        return Ok(false);
      }
      var applied := HandleDisconnectedBlock(blocks[hash]);
      match applied {
        case Err(error) => return Err(error);
        case Ok(done) =>
          ViewsShrink(views, Views(rejectedBlocks, mempoolTxs, unfilteredTxs), {}, spends);
          if done { return Ok(true); } else { return Ok(false); }
      }
    }

    /** A tx leaves the mirror, and with it the filtered mempool or the abandoned pool. */
    method ApplyRemoved(txid: Txid, ghost seqNo: nat) returns (r: Outcome<bool>)
      requires Held(abandonedPool.Contents(), txCache, spends)
      modifies this`unfilteredTxs, this`mempoolTxs, abandonedPool
      ensures Held(abandonedPool.Contents(), txCache, spends)
      ensures txid !in old(unfilteredTxs) <==> r == Err(MissingTx(txid))
      ensures r.Err? && txid in old(unfilteredTxs) ==> r == Err(MempoolFailed)
      ensures r != Ok(false)
      ensures r.Ok? ==>
                PooledStep(old(Views(rejectedBlocks, mempoolTxs, unfilteredTxs)),
                           Views(rejectedBlocks, mempoolTxs, unfilteredTxs), spends)
      ensures r.Ok? ==>
                MessageApplied(old(Now()), Now(), Told(), SequenceMessage.Removed(txid, seqNo), enforcer.rulings)
      ensures r == Ok(true) ==>
                && unfilteredTxs == old(unfilteredTxs) - {txid} && mempoolTxs == old(mempoolTxs) - {txid}
                && abandonedPool.Contents() == AbandonedTxs.AfterRemove(old(abandonedPool.Contents()), txid)
    {
      hide Held, AbandonedTxs.Valid, AbandonedTxs.AfterRemove, PooledStep;
      ghost var views := Views(rejectedBlocks, mempoolTxs, unfilteredTxs);
      if txid !in unfilteredTxs {
        return Err(MissingTx(txid));
      }
      unfilteredTxs := unfilteredTxs - {txid};
      var removed: bool := *;
      if !removed {
        return Err(MempoolFailed);
      }
      mempoolTxs := mempoolTxs - {txid};
      ViewsShrink(views, Views(rejectedBlocks, mempoolTxs, unfilteredTxs), {txid}, spends);
      HeldParts(abandonedPool.Contents(), txCache, spends);
      PooledApart(abandonedPool.Contents(), txid, spends);
      AbandonedTxs.RemoveValid(abandonedPool.Contents(), txid, spends);
      var entry := abandonedPool.Remove(txid);
      MakeHeld(abandonedPool.Contents(), txCache, spends);
      return Ok(true);
    }

    /** A connect waits for its block. */
    method ApplyConnected(hash: BlockHash) returns (r: Outcome<bool>)
      requires ChainValid() && QueuesValid() && TipKnown(chainTip, blocks, blocksNeeded)
      requires Held(abandonedPool.Contents(), txCache, spends)
      modifies this`chainTip, this`tipWatch, this`unfilteredTip, this`unfilteredTxs, this`rejectedBlocks,
               this`rejectedTxs, this`mempoolTxs, this`txsNeeded, this`txCache, enforcer, requestQueue
      ensures r.Ok? ==> ChainValid() && QueuesValid() && TipKnown(chainTip, blocks, blocksNeeded)
      ensures r.Ok? ==> Held(abandonedPool.Contents(), txCache, spends)
      ensures r.Ok? && r.value ==> MessageApplied(old(Now()), Now(), Told(), Connected(hash), enforcer.rulings)
      ensures r.Ok? && !r.value ==> MessageWaits(old(Now()), Now(), Told(), Connected(hash))
      ensures r == Ok(false) ==> hash !in blocks && unfilteredTxs == old(unfilteredTxs) && TipsNow() == old(TipsNow())
      ensures r == Ok(true) ==> hash in blocks
      ensures r == Ok(true) ==>
                unfilteredTxs == if Skipped(CaseOf(old(TipsNow()), old(TipHeight()), blocks[hash])) then old(unfilteredTxs)
                                 else old(unfilteredTxs) - IdsOf(blocks[hash].tx)
      ensures r.Ok? && TipAtHand(old(chainTip), blocks) ==> TipAtHand(chainTip, blocks)
      ensures r.Ok? ==>
                PooledStep(old(Views(rejectedBlocks, mempoolTxs, unfilteredTxs)),
                           Views(rejectedBlocks, mempoolTxs, unfilteredTxs), spends)
      ensures r.Err? ==> !r.error.MissingTx?
    {
      hide Served, StackAt, Distinct, Coherent, GoodBlock, IdsOf, CaseOf, Skipped, Held, PooledStep, BlockConnected;
      ViewsSame(Views(rejectedBlocks, mempoolTxs, unfilteredTxs), spends);
      if hash !in blocks {
        return Ok(false);
      }
      ghost var tips, height := TipsNow(), TipHeight();
      var connected, verdict := ConnectBlock(blocks[hash]);
      match connected {
        case Err(error) => return Err(error);
        case Ok(_) =>
          ConnectKeepsTip(tips, CaseOf(tips, height, blocks[hash]), blocks[hash], verdict);
          return Ok(true);
      }
    }

    /** Tries to apply a message; `false` leaves it at the head, to be tried again. */
    method TryApplySeqMessage(msg: SequenceMessage) returns (r: Outcome<bool>)
      requires ChainValid() && QueuesValid() && TipKnown(chainTip, blocks, blocksNeeded)
      requires Held(abandonedPool.Contents(), txCache, spends)
      modifies this`chainTip, this`tipWatch, this`unfilteredTip, this`unfilteredTxs, this`rejectedBlocks, this`rejectedTxs,
               this`mempoolTxs, this`txsNeeded, this`txCache, this`blocksNeeded, this`childless, enforcer, requestQueue,
               abandonedPool
      ensures r.Ok? && r.value ==> MessageApplied(old(Now()), Now(), Told(), msg, enforcer.rulings)
      ensures r.Ok? && !r.value ==> MessageWaits(old(Now()), Now(), Told(), msg)
      ensures r.Ok? ==> ChainValid() && QueuesValid() && TipKnown(chainTip, blocks, blocksNeeded)
      ensures r.Ok? ==> Held(abandonedPool.Contents(), txCache, spends)
      ensures r.Ok? ==> StaysChildless(old(childless), childless, Sequence(msg), old(mempoolTxs))
      ensures r.Ok? && !r.value ==> childless == old(childless)
      ensures forall t :: r == Err(MissingTx(t)) ==> msg.Removed? && msg.txid == t && t !in old(unfilteredTxs)
      ensures msg.Removed? && msg.txid !in old(unfilteredTxs) ==> r == Err(MissingTx(msg.txid))
    {
      hide Served, StackAt, Distinct, Coherent, BlocksKeyed, Held, TipKnown, NoSpender, StaysChildless, MessageApplied,
           MessageWaits, TxAdded, TxWaits, Known, MirrorTxs, PooledStep, CaseOf, Skipped, Now, AbandonedTxs.AfterRemove,
           DisconnectCaseOf, AfterDisconnect, IdsOf, TipAtHand;
      NothingEnters(childless, Sequence(msg), mempoolTxs);
      match msg {
        case Disconnected(hash) => r := ApplyDisconnected(hash);
        case Added(txid, seqNo) =>
          r := TryAddTxFromCaches(txid);
          if r.Ok? {
            SomethingEnters(old(childless), childless, Sequence(msg), txid, old(mempoolTxs)) by { EntersWith(txid, seqNo); }
            AddedIsMessage(old(Now()), Now(), Told(), txid, seqNo, enforcer.rulings);
          }
        case Removed(txid, seqNo) => r := ApplyRemoved(txid, seqNo);
        case Connected(hash) => r := ApplyConnected(hash);
      }
    }

    /** Tries one action. */
    method TryApply(action: SyncAction) returns (r: Outcome<bool>)
      requires ChainValid() && QueuesValid() && TipKnown(chainTip, blocks, blocksNeeded)
      requires Held(abandonedPool.Contents(), txCache, spends)
      modifies this`chainTip, this`tipWatch, this`unfilteredTip, this`unfilteredTxs, this`rejectedBlocks, this`rejectedTxs,
               this`mempoolTxs, this`txsNeeded, this`txCache, this`blocksNeeded, this`childless, enforcer, requestQueue,
               abandonedPool
      ensures r.Ok? && r.value ==> ActionApplied(old(Now()), Now(), Told(), action, enforcer.rulings)
      ensures r.Ok? && !r.value ==> ActionWaits(old(Now()), Now(), Told(), action)
      ensures r.Ok? ==> ChainValid() && QueuesValid() && TipKnown(chainTip, blocks, blocksNeeded)
      ensures r.Ok? ==> Held(abandonedPool.Contents(), txCache, spends)
      ensures r.Ok? ==> StaysChildless(old(childless), childless, action, old(mempoolTxs))
      ensures r.Ok? && !r.value ==> childless == old(childless)
      ensures forall t :: r == Err(MissingTx(t)) ==>
                t !in old(unfilteredTxs) && exists n :: action == Sequence(Removed(t, n))
      ensures forall t, n :: action == Sequence(Removed(t, n)) && t !in old(unfilteredTxs) ==> r == Err(MissingTx(t))
    {
      hide Served, StackAt, Distinct, Coherent, BlocksKeyed, Held, TipKnown, NoSpender, StaysChildless, MessageApplied,
           MessageWaits, TxAdded, TxWaits, Known, MirrorTxs, PooledStep, CaseOf, Skipped, Now, AbandonedTxs.AfterRemove,
           DisconnectCaseOf, AfterDisconnect, IdsOf, TipAtHand;
      match action {
        case InsertTx(txid) =>
          r := TryAddTxFromCaches(txid);
          if r.Ok? {
            SomethingEnters(old(childless), childless, action, txid, old(mempoolTxs)) by { EntersWith(txid, 0); }
          }
        case Sequence(msg) => r := TryApplySeqMessage(msg);
      }
      ActionIs(old(Now()), Now(), Told(), action, enforcer.rulings);
    }

    lemma EntersWith(txid: Txid, seqNo: nat)
      ensures Entering(InsertTx(txid)) == Some(txid) == Entering(Sequence(Added(txid, seqNo)))
    {
    }

    /** Tries the action at the head of the queue, and takes it off once it is applied. */
    method TryApplyNextSyncAction(now: nat) returns (r: Outcome<bool>)
      requires Valid()
      modifies this, enforcer, requestQueue, actionQueue, abandonedPool
      ensures r.Ok? ==> Valid() && inFlight == old(inFlight)
      ensures blocks == old(blocks) && log == old(log)
      ensures r == Ok(true) ==> old(actionQueue.Actions()) != [] && BlockAtHand(old(actionQueue.Actions())[0], blocks)
      ensures r.Err? ==> effects == old(effects) && actionQueue.Actions() == old(actionQueue.Actions())
      ensures r.Ok? && r.value ==> NextApplied(old(Now()), Now(), Told(), enforcer.rulings)
      ensures r.Ok? && !r.value ==> NextWaits(old(Now()), Now(), Told())
      ensures r == Ok(true) ==>
                && old(actionQueue.Actions()) != [] && actionQueue.Actions() == old(actionQueue.Actions())[1..]
                && effects == old(effects) + [EffectOf(old(actionQueue.Actions())[0], old(blocks), old(TipsNow()),
                                                       old(TipHeight()))]
      ensures r == Ok(false) ==>
                && actionQueue.Actions() == old(actionQueue.Actions()) && effects == old(effects)
                && unfilteredTxs == old(unfilteredTxs) && chainTip == old(chainTip) && unfilteredTip == old(unfilteredTip)
      ensures r == Ok(true) ==>
                PooledStep(old(Views(rejectedBlocks, mempoolTxs, unfilteredTxs)),
                           Views(rejectedBlocks, mempoolTxs, unfilteredTxs), spends)
                && StaysChildless(old(childless), childless, old(actionQueue.Actions())[0], old(mempoolTxs))
      ensures r == Ok(false) ==>
                PooledStep(old(Views(rejectedBlocks, mempoolTxs, unfilteredTxs)),
                           Views(rejectedBlocks, mempoolTxs, unfilteredTxs), spends)
                && childless == old(childless)
      ensures forall t :: r == Err(MissingTx(t)) ==>
                && t !in old(unfilteredTxs) && old(actionQueue.Actions()) != []
                && exists n :: old(actionQueue.Actions())[0] == Sequence(Removed(t, n))
      ensures r.Ok? && TipAtHand(old(chainTip), blocks) ==> TipAtHand(chainTip, blocks)
      ensures r.Ok? ==> NeedsKept(old(blocksNeeded), blocksNeeded)
    {
      hide *;
      NeedsSame(blocksNeeded);
      HeadIsFirst();
      Unfold();
      NowIs();
      ghost var s := Now();
      if actionQueue.head.None? {
        NothingNext(s, Told());
        ViewsSame(ViewsOf(s), spends);
        return Ok(false);
      }
      var action := actionQueue.head.value.action;
      ghost var e := EffectOf(action, blocks, TipsNow(), TipHeight());
      KeptKeyed();
      r := TryApply(action);
      NowIs();
      ghost var tried := Now();
      EffectsStep({}, effects, e);
      match r {
        case Err(_) =>
        case Ok(done) =>
          if done {
            ActionMeans(s, tried, Told(), action, enforcer.rulings, enforcer.parentOf, spends);
            PopOne(e, now);
            NowIs();
            MakeNextApplied(s, tried, Now(), Told(), enforcer.rulings);
          } else {
            WaitsMeans(s, tried, Told(), action);
            MakeNextWaits(s, tried, Told());
            ViewsSame(ViewsOf(s), spends);
          }
      }
      Unfold();
    }

    lemma NowIs()
      ensures Now() == State(TipsNow(), enforcer.stack, blocks, blocksNeeded, mempoolTxs, unfilteredTxs,
                             abandonedPool.Contents(), rejectedTxs, txCache, unavailableTxs, txsNeeded,
                             firstMempoolSequence, requestQueue.queue, inFlight, actionQueue.Actions())
      ensures TipsNow() == Tips(chainTip, unfilteredTip, rejectedBlocks)
      ensures HeightAt(Now()) == TipHeight() && ViewsOf(Now()) == Views(rejectedBlocks, mempoolTxs, unfilteredTxs)
    {
    }

    lemma KeptKeyed()
      requires Valid()
      ensures CacheHashed(txCache, spends) && BlocksKeyed(blocks, enforcer.parentOf, spends)
    {
      hide CacheHashed, BlocksKeyed, QueuesValid, StackAt, Coherent, TipKnown, MirrorTxs;
    }

    /** The applied action leaves the queue, and its effect joins the history. */
    method PopOne(ghost e: Effect, now: nat)
      requires ChainValid() && QueuesValid() && actionQueue.Actions() != []
      modifies this`effects, actionQueue
      ensures ChainValid() && QueuesValid() && actionQueue.Actions() == old(actionQueue.Actions())[1..]
      ensures effects == old(effects) + [e]
    {
      hide Distinct, Served, StackAt, Coherent, BlocksKeyed;
      var popped := actionQueue.PopFront(now);
      effects := effects + [e];
    }

    /** While nothing was restored and no skipped block held a tx of the node, the mirror is the fold of the snapshot and
        the announcements applied so far, and no removal that such a node announces can miss. */
    lemma MirrorExact()
      requires Valid() && Recorded() && NoneRestored(log) && SkipsHarmless({}, effects)
      ensures |effects| <= |AnnouncedOf(log)|
      ensures unfilteredTxs == NodeMempool(AnnouncedOf(log)[..|effects|], minings)
      ensures forall t :: Misses(log, effects, t) ==> !WellFormedStream(AnnouncedOf(log), minings)
    {
      hide Logs, ChainValid, QueuesValid, Held, TipKnown, MirrorTxs, NodeMempool, Misses, WellFormedStream, AnnouncedOf;
      MirrorOfStream(log, actionQueue.Actions(), effects, minings);
    }

    lemma RecordedParts()
      ensures Recorded() <==> Logs(log, actionQueue.Actions(), effects, minings) && BlocksMined(blocks, minings)
    {
    }

    lemma ComposedParts()
      ensures Composed() <==>
                && Pooled(Views(rejectedBlocks, mempoolTxs, unfilteredTxs), spends)
                && Led(log, effects, rejectedBlocks, childless, minings, spends)
                && BlocksAwaited(actionQueue.Actions(), blocks, blocksNeeded)
    {
    }

    /** A removal that fails for want of its tx. */
    lemma MissAt(t: Txid)
      requires Recorded() && t !in MirrorTxs({}, effects) && actionQueue.Actions() != []
      requires exists n :: actionQueue.Actions()[0] == Sequence(Removed(t, n))
      ensures Misses(log, effects, t)
    {
      hide MirrorTxs, HasEffect;
      assert log[|effects|..][0] == log[|effects|];
    }

    lemma Unfold()
      ensures Valid() <==> ChainValid() && QueuesValid() && TipKnown(chainTip, blocks, blocksNeeded)
                           && Held(abandonedPool.Contents(), txCache, spends)
                           && unfilteredTxs == MirrorTxs({}, effects)
    {
      hide ChainValid, QueuesValid, TipKnown, MirrorTxs, Held;
    }

    /** Applies actions until the head of the queue has to wait. */
    method ApplySyncActions(now: nat) returns (r: Outcome<()>)
      requires Valid() && Recorded() && Composed()
      modifies this, enforcer, requestQueue, actionQueue, abandonedPool
      ensures r.Ok? ==> Valid() && Composed() && inFlight == old(inFlight)
      ensures r.Ok? ==> Settled(old(Now()), Now(), Told()) && Stuck(Now(), Told())
      ensures blocks == old(blocks) && log == old(log) && Recorded() && old(effects) <= effects
      ensures r.Err? && r.error.MissingTx? ==> Misses(log, effects, r.error.missing)
      ensures r.Ok? && TipAtHand(old(chainTip), blocks) ==> TipAtHand(chainTip, blocks)
    {
      hide *;
      var applied := true;
      ghost var start, run := Now(), [Now()];
      RunStarts(start, Told());
      while applied
        invariant Valid() && Recorded() && Composed() && inFlight == old(inFlight) && blocks == old(blocks)
        invariant log == old(log) && old(effects) <= effects
        invariant TipAtHand(old(chainTip), blocks) ==> TipAtHand(chainTip, blocks)
        invariant applied ==> RunsTo(run, start, Now(), Told())
        invariant !applied ==> Settled(start, Now(), Told()) && Stuck(Now(), Told())
        decreases |actionQueue.Actions()|, applied
      {
        ghost var s := Now();
        var next := ApplyRecorded(now);
        match next {
          case Err(error) => return Err(error);
          case Ok(done) =>
            if done {
              RunMore(run, start, s, Now(), Told());
              run := run + [Now()];
            } else {
              RunSettles(run, start, s, Now(), Told());
              WaitsStuck(s, Now(), Told());
            }
            applied := done;
        }
      }
      return Ok(());
    }

    /** One turn of that loop, with its place in the record of the run. */
    method ApplyRecorded(now: nat) returns (r: Outcome<bool>)
      requires Valid() && Recorded() && Composed()
      modifies this, enforcer, requestQueue, actionQueue, abandonedPool
      ensures r.Ok? ==> Valid() && Composed() && inFlight == old(inFlight)
      ensures r.Ok? && r.value ==> Applies(old(Now()), Now(), Told()) && |actionQueue.Actions()| < |old(actionQueue.Actions())|
      ensures r.Ok? && !r.value ==> NextWaits(old(Now()), Now(), Told()) && actionQueue.Actions() == old(actionQueue.Actions())
      ensures blocks == old(blocks) && log == old(log) && Recorded() && old(effects) <= effects
      ensures r.Err? && r.error.MissingTx? ==> Misses(log, effects, r.error.missing)
      ensures r.Ok? && TipAtHand(old(chainTip), blocks) ==> TipAtHand(chainTip, blocks)
    {
      hide *;
      ghost var s := Now();
      ghost var e, actions, tips, height := effects, actionQueue.Actions(), TipsNow(), TipHeight();
      ghost var views, was := Views(rejectedBlocks, mempoolTxs, unfilteredTxs), childless;
      RecordedParts();
      ComposedParts();
      Unfold();
      r := TryApplyNextSyncAction(now);
      match r {
        case Err(error) =>
          RecordedParts();
          if error.MissingTx? {
            MissAt(error.missing);
          }
        case Ok(done) =>
          StepPooled(views, Views(rejectedBlocks, mempoolTxs, unfilteredTxs), spends);
          AwaitedLess(actions, actionQueue.Actions(), blocks, old(blocksNeeded), blocksNeeded);
          if done {
            AppliedHead(actions, e, blocks, tips, height);
            HeadRecorded(log, actions, actionQueue.Actions(), e, effects, blocks, tips, height, minings);
            LedStep(log, actions, e, EffectOf(actions[0], blocks, tips, height), views, rejectedBlocks, was, childless,
                    minings, spends);
            MakeApplies(s, Now(), Told(), enforcer.rulings);
          } else {
            LedMore(log, log, e, effects, views.rejected, rejectedBlocks, childless, minings, spends);
          }
          RecordedParts();
          ComposedParts();
      }
    }

    /** A tx message updates the needs at once; the change to the views waits for its turn in the queue. */
    method HandleTxHashMsg(msg: SequenceMessage, now: nat)
      requires QueuesValid() && Held(abandonedPool.Contents(), txCache, spends) && (msg.Added? || msg.Removed?)
      modifies this`firstMempoolSequence, this`txsNeeded, this`unavailableTxs, this`txCache,
               abandonedPool, requestQueue, actionQueue
      ensures QueuesValid() && Held(abandonedPool.Contents(), txCache, spends)
      ensures MessageNeeds(old(Now()), Now(), msg)
    {
      hide Served, Distinct, Held, TxWanted, TxForgotten, SyncActionQueue.Actions;
      if firstMempoolSequence.Some? {
        if msg.mempoolSeq < firstMempoolSequence.value {
          return;
        }
        firstMempoolSequence := None;
      }
      if msg.Added? {
        if msg.txid !in txCache {
          WantTx(msg.txid, now);
          WantedAnyhow(old(Now()), old(Now()).(first := None), Now(), msg.txid);
        }
      } else {
        ForgetTx(msg.txid);
        ForgottenAnyhow(old(Now()), msg.txid);
      }
    }

    /** An added tx is needed; if it was unavailable, what waited for it alone is restored. */
    method WantTx(txid: Txid, now: nat)
      requires QueuesValid() && Held(abandonedPool.Contents(), txCache, spends) && firstMempoolSequence == None
      modifies this`txsNeeded, this`unavailableTxs, this`txCache, abandonedPool, requestQueue, actionQueue
      ensures QueuesValid() && Held(abandonedPool.Contents(), txCache, spends)
      ensures TxWanted(old(Now()), Now(), txid)
    {
      hide Served, Replace, ReplaceToFront, Distinct, Insertions, IdsOf, Held, RestoredFrom, CacheGains,
           SyncActionQueue.Actions;
      ghost var s := Now();
      if txid in unavailableTxs {
        unavailableTxs := unavailableTxs - {txid};
        NeedTx(txid, true);
        ghost var needed := Now();
        var restored := RestoreBelow(txid, now);
        MakeWanted(s, needed, Now(), txid, restored);
      } else {
        NeedTx(txid, false);
      }
    }

    /** The tx is needed, and asked for at one of the ends of the request queue. */
    method NeedTx(txid: Txid, urgent: bool)
      requires QueuesValid()
      modifies this`txsNeeded, requestQueue
      ensures QueuesValid() && txsNeeded == Replace(old(txsNeeded), txid)
      ensures requestQueue.queue == if urgent then ReplaceToFront(old(requestQueue.queue), Tx(txid, true))
                                    else Replace(old(requestQueue.queue), Tx(txid, true))
    {
      hide Served, Replace, ReplaceToFront, Distinct;
      ServedNeed(blocksNeeded, txsNeeded, requestQueue.queue, inFlight, txid);
      txsNeeded := Replace(txsNeeded, txid);
      if urgent {
        requestQueue.PushFront(Tx(txid, true));
      } else {
        requestQueue.PushBack(Tx(txid, true));
      }
    }

    method ForgetTx(txid: Txid)
      requires QueuesValid() && firstMempoolSequence == None
      modifies this`txsNeeded, this`unavailableTxs, requestQueue
      ensures QueuesValid() && Now() == TxForgotten(old(Now()), txid)
    {
      hide Served, Without, Distinct;
      ServedForget(blocksNeeded, txsNeeded, requestQueue.queue, inFlight, txid);
      WithoutTx(txsNeeded, txid);
      WithoutRequest(requestQueue.queue, Tx(txid, true));
      txsNeeded := Without(txsNeeded, txid);
      unavailableTxs := unavailableTxs + {txid};
      requestQueue.Remove(Tx(txid, true));
    }

    /** What a message needs is noted and asked for. */
    method NoteNeeds(msg: SequenceMessage, now: nat)
      requires QueuesValid() && Held(abandonedPool.Contents(), txCache, spends)
      modifies this`blocksNeeded, this`firstMempoolSequence, this`txsNeeded, this`unavailableTxs,
               this`txCache, abandonedPool, requestQueue, actionQueue
      ensures Held(abandonedPool.Contents(), txCache, spends) && QueuesValid()
      ensures MessageNeeds(old(Now()), Now(), msg)
    {
      hide Served, Distinct, Insertions, Replace, ReplaceToFront, Held, RestoredFrom, TxWanted, TxForgotten;
      match msg {
        case Connected(hash) => HandleBlockHashMsg(hash);
        case Disconnected(hash) => HandleBlockHashMsg(hash);
        case Added(_, _) => HandleTxHashMsg(msg, now);
        case Removed(_, _) => HandleTxHashMsg(msg, now);
      }
    }

    /** The message is queued behind what it restored. */
    method NoteMessage(msg: SequenceMessage, now: nat)
      requires QueuesValid() && Held(abandonedPool.Contents(), txCache, spends)
      modifies this`blocksNeeded, this`firstMempoolSequence, this`txsNeeded, this`unavailableTxs,
               this`txCache, abandonedPool, requestQueue, actionQueue
      ensures Held(abandonedPool.Contents(), txCache, spends) && QueuesValid()
      ensures MessageNoted(old(Now()), Now(), msg)
    {
      hide Served, Distinct, Held, MessageNeeds, MessageNoted, SyncActionQueue.Actions;
      NoteNeeds(msg, now);
      ghost var needed := Now();
      actionQueue.PushBack(Sequence(msg), now);
      MakeNoted(old(Now()), needed, Now(), msg);
    }

    /** The message is noted, which loses no need and leaves its block awaited. */
    method AdmitMessage(msg: SequenceMessage, now: nat)
      requires Valid() && BlocksAwaited(actionQueue.Actions(), blocks, blocksNeeded)
      modifies this`blocksNeeded, this`firstMempoolSequence, this`txsNeeded, this`unavailableTxs,
               this`txCache, abandonedPool, requestQueue, actionQueue
      ensures Valid() && BlocksAwaited(actionQueue.Actions(), blocks, blocksNeeded)
      ensures MessageNoted(old(Now()), Now(), msg)
      ensures exists restored: seq<Transaction> ::
                actionQueue.Actions() == Insertions(restored) + old(actionQueue.Actions()) + [Sequence(msg)]
      ensures (msg.Connected? || msg.Disconnected?) && msg.hash !in blocks ==>
                msg.hash in blocksNeeded && RequestItem.Block(msg.hash) in requestQueue.queue
      ensures msg.Added? && Counts(old(firstMempoolSequence), msg) && msg.txid !in old(txCache) ==>
                msg.txid in txsNeeded && Tx(msg.txid, true) in requestQueue.queue && msg.txid !in unavailableTxs
      ensures msg.Removed? && Counts(old(firstMempoolSequence), msg) ==>
                msg.txid !in txsNeeded && Tx(msg.txid, true) !in requestQueue.queue && msg.txid in unavailableTxs
    {
      hide Served, Distinct, StackAt, MirrorTxs, Coherent, BlocksKeyed, TipKnown, SyncActionQueue.Actions, Held,
           MessageNoted, BlocksAwaited, BlockAwaited, NeedsKept;
      ghost var s := Now();
      NoteMessage(msg, now);
      NotedMeans(s, Now(), msg);
      AwaitedMore(s, Now(), msg);
      NeededMore(s.blocksNeeded, blocksNeeded, chainTip, blocks);
    }

    /** Every message is queued, even one that precedes the snapshot. */
    method HandleSeqMessage(msg: SequenceMessage, now: nat)
      requires Valid() && Recorded() && Composed()
      modifies this, requestQueue, actionQueue, abandonedPool
      ensures Valid() && effects == old(effects) && chainTip == old(chainTip) && unfilteredTip == old(unfilteredTip)
      ensures rejectedBlocks == old(rejectedBlocks) && blocks == old(blocks) && unfilteredTxs == old(unfilteredTxs)
      ensures Composed() && MessageNoted(old(Now()), Now(), msg)
      ensures (msg.Connected? || msg.Disconnected?) && msg.hash !in blocks ==>
                msg.hash in blocksNeeded && RequestItem.Block(msg.hash) in requestQueue.queue
      ensures msg.Added? && Counts(old(firstMempoolSequence), msg) && msg.txid !in old(txCache) ==>
                msg.txid in txsNeeded && Tx(msg.txid, true) in requestQueue.queue && msg.txid !in unavailableTxs
      ensures msg.Removed? && Counts(old(firstMempoolSequence), msg) ==>
                msg.txid !in txsNeeded && Tx(msg.txid, true) !in requestQueue.queue && msg.txid in unavailableTxs
      ensures Recorded() && AnnouncedOf(log) == AnnouncedOf(old(log)) + [Sequence(msg)]
      ensures exists restored: seq<Transaction> ::
                && actionQueue.Actions() == Insertions(restored) + old(actionQueue.Actions()) + [Sequence(msg)]
                && |effects| <= |old(log)|
                && log == WithRestored(old(log), |effects|, restored) + [Logged(Sequence(msg), false)]
    {
      hide Served, Distinct, StackAt, MirrorTxs, Coherent, BlocksKeyed, Insertions, TipKnown, SyncActionQueue.Actions, Held, Logs,
           AnnouncedOf, WithRestored, BlocksMined, Pooled, Led, NoneRestored, MessageNoted, BlocksAwaited, Counts;
      LogLength(log, actionQueue.Actions(), effects, minings);
      AdmitMessage(msg, now);
      ghost var restored: seq<Transaction> :|
        actionQueue.Actions() == Insertions(restored) + old(actionQueue.Actions()) + [Sequence(msg)];
      LogRestores(log, old(actionQueue.Actions()), effects, minings, restored);
      LogAnnounces(WithRestored(log, |effects|, restored), Insertions(restored) + old(actionQueue.Actions()), effects,
                   minings, Sequence(msg));
      log := WithRestored(log, |effects|, restored) + [Logged(Sequence(msg), false)];
      RestoredGrows(old(log), |effects|, restored, [Logged(Sequence(msg), false)]);
      LedMore(old(log), log, effects, effects, rejectedBlocks, rejectedBlocks, childless, minings, spends);
    }

    // -------------------------------------------------------------- responses

    /** The txs of an arriving block are available again, and so is what waited for them. */
    method RestoreBelowBlock(block: Block, now: nat) returns (ghost restored: seq<Transaction>)
      requires actionQueue.Valid() && Held(abandonedPool.Contents(), txCache, spends)
      modifies this`unavailableTxs, this`txCache, abandonedPool, actionQueue
      ensures Held(abandonedPool.Contents(), txCache, spends)
      ensures actionQueue.Valid() && unavailableTxs == old(unavailableTxs) - IdsOf(block.tx)
      ensures RestoredBelow(old(abandonedPool.Contents()), block.tx, restored, abandonedPool.Contents())
      ensures CacheGains(old(txCache), txCache, Elements(restored))
      ensures actionQueue.Actions() == Insertions(restored) + old(actionQueue.Actions())
    {
      hide *;
      NoInsertions(actionQueue.Actions());
      WholeList(block.tx);
      RestoredNone(abandonedPool.Contents(), block.tx);
      GainsNone(txCache);
      restored := [];
      for i := |block.tx| downto 0
        invariant Held(abandonedPool.Contents(), txCache, spends)
        invariant actionQueue.Valid() && unavailableTxs == old(unavailableTxs) - IdsOf(block.tx[i..])
        invariant RestoredBelow(old(abandonedPool.Contents()), block.tx[i..], restored, abandonedPool.Contents())
        invariant CacheGains(old(txCache), txCache, Elements(restored))
        invariant actionQueue.Actions() == Insertions(restored) + old(actionQueue.Actions())
      {
        InsertionsStep(block.tx, i);
        unavailableTxs := unavailableTxs - {block.tx[i].txid};
        ghost var pool, cache := abandonedPool.Contents(), txCache;
        var some := RestoreBelow(block.tx[i].txid, now);
        InsertionsJoin(some, restored);
        RestoredMore(old(abandonedPool.Contents()), block.tx, i, restored, pool, some, abandonedPool.Contents());
        GainsJoin(old(txCache), cache, txCache, restored, some);
        restored := some + restored;
      }
    }

    /** The head of the queue connects this block. */
    method ConnectWaiting(block: Block, now: nat) returns (r: Outcome<()>)
      requires actionQueue.Actions() != [] && actionQueue.Actions()[0] == Sequence(Connected(block.hash))
      requires ChainValid() && QueuesValid() && GoodBlock(block, enforcer.parentOf, spends)
      requires TipKnown(chainTip, blocks[block.hash := block], blocksNeeded)
      requires Held(abandonedPool.Contents(), txCache, spends)
      requires unfilteredTxs == MirrorTxs({}, effects)
      modifies this, enforcer, requestQueue, actionQueue, abandonedPool
      ensures blocks == old(blocks) && inFlight == old(inFlight) && log == old(log) && childless == old(childless)
      ensures r.Ok? ==>
                PooledStep(old(Views(rejectedBlocks, mempoolTxs, unfilteredTxs)),
                           Views(rejectedBlocks, mempoolTxs, unfilteredTxs), spends)
      ensures r.Ok? ==> ChainValid() && QueuesValid() && TipKnown(chainTip, blocks[block.hash := block], blocksNeeded)
      ensures r.Ok? ==> Held(abandonedPool.Contents(), txCache, spends)
      ensures r.Ok? ==> unfilteredTxs == MirrorTxs({}, effects)
      ensures r.Ok? && TipAtHand(old(chainTip), blocks) ==> TipAtHand(chainTip, blocks[block.hash := block])
      ensures r.Err? ==> !r.error.MissingTx?
      ensures r.Ok? ==> AppliedHeadOrNothing(old(actionQueue.Actions()), actionQueue.Actions(), old(effects), effects,
                                             old(blocks)[block.hash := block], old(TipsNow()), old(TipHeight()))
      ensures r.Ok? ==> WaitingApplied(old(Now()), Now(), block, enforcer.rulings)
    {
      hide *;
      NowIs();
      ghost var s, tips, height := Now(), TipsNow(), TipHeight();
      ghost var e := Mine(IdsOf(block.tx), Skipped(CaseOf(tips, height, block)));
      var connected, verdict := ConnectBlock(block);
      match connected {
        case Err(error) => return Err(error);
        case Ok(_) =>
      }
      ConnectKeepsTip(tips, CaseOf(tips, height, block), block, verdict);
      NowIs();
      ghost var tried := Now();
      TipMoves(old(chainTip), chainTip, blocks, block, blocksNeeded);
      ArrivalEffect(block, blocks, tips, height, old(unfilteredTxs));
      EffectsStep({}, effects, e);
      PopOne(e, now);
      NowIs();
      MakeConnected(s, tried, Now(), block, enforcer.rulings);
      AppliedHead(s.actions, old(effects), blocks[block.hash := block], tips, height);
      return Ok(());
    }

    /** The head of the queue disconnects this block, which is the filtered tip. */
    method DisconnectWaiting(block: Block, now: nat) returns (r: Outcome<()>)
      requires actionQueue.Actions() != [] && actionQueue.Actions()[0] == Sequence(Disconnected(block.hash))
      requires chainTip == block.hash
      requires ChainValid() && QueuesValid() && GoodBlock(block, enforcer.parentOf, spends)
      requires TipKnown(chainTip, blocks[block.hash := block], blocksNeeded)
      requires Held(abandonedPool.Contents(), txCache, spends)
      requires unfilteredTxs == MirrorTxs({}, effects)
      modifies this, enforcer, requestQueue, actionQueue, abandonedPool
      ensures blocks == old(blocks) && inFlight == old(inFlight) && log == old(log) && childless == old(childless)
      ensures r.Ok? ==>
                PooledStep(old(Views(rejectedBlocks, mempoolTxs, unfilteredTxs)),
                           Views(rejectedBlocks, mempoolTxs, unfilteredTxs), spends)
      ensures r.Ok? ==> ChainValid() && QueuesValid() && TipKnown(chainTip, blocks[block.hash := block], blocksNeeded)
      ensures r.Ok? ==> Held(abandonedPool.Contents(), txCache, spends)
      ensures r.Ok? ==> unfilteredTxs == MirrorTxs({}, effects)
      ensures r.Ok? && TipAtHand(old(chainTip), blocks) ==> TipAtHand(chainTip, blocks[block.hash := block])
      ensures r.Err? ==> !r.error.MissingTx?
      ensures r.Ok? ==> AppliedHeadOrNothing(old(actionQueue.Actions()), actionQueue.Actions(), old(effects), effects,
                                             old(blocks)[block.hash := block], old(TipsNow()), old(TipHeight()))
      ensures r.Ok? ==> WaitingApplied(old(Now()), Now(), block, enforcer.rulings)
    {
      hide *;
      NowIs();
      ghost var s, tips, height := Now(), TipsNow(), TipHeight();
      ArrivalEffect(block, blocks, tips, height, old(unfilteredTxs));
      EffectsStep({}, effects, Nothing);
      var applied := RollBackWaiting(block);
      NowIs();
      ghost var tried := Now();
      match applied {
        case Err(error) => return Err(error);
        case Ok(done) =>
          if done {
            PopOne(Nothing, now);
            NowIs();
            MakeDisconnected(s, tried, Now(), block, enforcer.rulings);
            AppliedHead(s.actions, old(effects), blocks[block.hash := block], tips, height);
          } else {
            MakeAsked(s, tried, block, enforcer.rulings);
            AppliedNothing(s.actions, effects, blocks[block.hash := block], tips, height);
          }
      }
      return Ok(());
    }

    /** The disconnect itself, of a block that is not kept yet. */
    method RollBackWaiting(block: Block) returns (r: Outcome<bool>)
      requires chainTip == block.hash && GoodBlock(block, enforcer.parentOf, spends)
      requires ChainValid() && QueuesValid() && TipKnown(chainTip, blocks[block.hash := block], blocksNeeded)
      modifies this`chainTip, this`tipWatch, this`unfilteredTip, this`mempoolTxs, this`blocksNeeded, enforcer, requestQueue
      ensures r.Ok? ==> ChainValid() && QueuesValid() && TipKnown(chainTip, blocks[block.hash := block], blocksNeeded)
      ensures r.Ok? && TipAtHand(old(chainTip), blocks) ==> TipAtHand(chainTip, blocks[block.hash := block])
      ensures r.Ok? ==>
                PooledStep(old(Views(rejectedBlocks, mempoolTxs, unfilteredTxs)),
                           Views(rejectedBlocks, mempoolTxs, unfilteredTxs), spends)
      ensures r.Ok? && r.value ==> BlockDisconnected(old(Now()), Now(), block, enforcer.rulings.disconnect)
      ensures r.Ok? && !r.value ==> ParentBlockAsked(old(Now()), Now(), block)
      ensures r.Err? ==> !r.error.MissingTx?
    {
      hide *;
      NowIs();
      ghost var s := Now();
      r := HandleDisconnectedBlock(block);
      NowIs();
      if r.Ok? && r.value {
        DisconnectedMeans(s, Now(), block, enforcer.rulings.disconnect, spends);
        TipReturns(chainTip, blocks, block, blocksNeeded);
      } else if r.Ok? {
        AskedMeans(s, Now(), block);
        TipStays(chainTip, blocks, block, s.blocksNeeded, blocksNeeded);
        ViewsSame(ViewsOf(s), spends);
      }
    }

    /** Applies the block message at the head of the queue if it was waiting for this block. */
    method ApplyWaiting(block: Block, now: nat) returns (r: Outcome<()>)
      requires ChainValid() && QueuesValid() && GoodBlock(block, enforcer.parentOf, spends)
      requires TipKnown(chainTip, blocks[block.hash := block], blocksNeeded)
      requires Held(abandonedPool.Contents(), txCache, spends)
      requires unfilteredTxs == MirrorTxs({}, effects)
      modifies this, enforcer, requestQueue, actionQueue, abandonedPool
      ensures blocks == old(blocks) && inFlight == old(inFlight) && log == old(log) && childless == old(childless)
      ensures r.Ok? ==>
                PooledStep(old(Views(rejectedBlocks, mempoolTxs, unfilteredTxs)),
                           Views(rejectedBlocks, mempoolTxs, unfilteredTxs), spends)
      ensures r.Ok? ==> ChainValid() && QueuesValid() && TipKnown(chainTip, blocks[block.hash := block], blocksNeeded)
      ensures r.Ok? ==> Held(abandonedPool.Contents(), txCache, spends)
      ensures r.Ok? ==> unfilteredTxs == MirrorTxs({}, effects)
      ensures r.Ok? && TipAtHand(old(chainTip), blocks) ==> TipAtHand(chainTip, blocks[block.hash := block])
      ensures r.Err? ==> !r.error.MissingTx?
      ensures r.Ok? ==> AppliedHeadOrNothing(old(actionQueue.Actions()), actionQueue.Actions(), old(effects), effects,
                                             old(blocks)[block.hash := block], old(TipsNow()), old(TipHeight()))
      ensures r.Ok? ==> WaitingApplied(old(Now()), Now(), block, enforcer.rulings)
    {
      hide *;
      HeadIsFirst();
      NowIs();
      if actionQueue.head.Some? && actionQueue.head.value.action == Sequence(Connected(block.hash)) {
        r := ConnectWaiting(block, now);
      } else if actionQueue.head.Some? && actionQueue.head.value.action == Sequence(Disconnected(block.hash))
                && chainTip == block.hash {
        r := DisconnectWaiting(block, now);
      } else {
        AppliedNothing(actionQueue.Actions(), effects, blocks[block.hash := block], TipsNow(), TipHeight());
        TipAtHandMore(chainTip, blocks, block);
        NothingWaits(Now(), block, enforcer.rulings);
        ViewsSame(Views(rejectedBlocks, mempoolTxs, unfilteredTxs), spends);
        r := Ok(());
      }
    }

    lemma HeadIsFirst()
      ensures actionQueue.head.None? <==> actionQueue.Actions() == []
      ensures actionQueue.head.Some? ==>
                actionQueue.Actions() != [] && actionQueue.Actions()[0] == actionQueue.head.value.action
    {
    }

    /** The block is needed no more, and what it makes available again is queued. */
    method TakeInBlock(block: Block, ghost batch: BatchedRequestItem, now: nat) returns (ghost restored: seq<Transaction>)
      requires QueuesValid() && Held(abandonedPool.Contents(), txCache, spends) && Answers(BlockResponse(block), batch)
      modifies this`blocksNeeded, this`inFlight, this`unavailableTxs, this`txCache, abandonedPool, actionQueue
      ensures QueuesValid() && Held(abandonedPool.Contents(), txCache, spends)
      ensures BlockTaken(old(Now()), Now(), block, batch)
      ensures blocksNeeded == Without(old(blocksNeeded), block.hash) && inFlight == old(inFlight) - Elements(Items(batch))
      ensures actionQueue.Actions() == Insertions(restored) + old(actionQueue.Actions())
    {
      hide Served, Distinct, IdsOf, Insertions, Without, Items, Answers, Held, Elements, RestoredBelow, CacheGains,
           SyncActionQueue.Actions;
      SettledByBlock(blocksNeeded, txsNeeded, block, batch);
      ServedAnswer(blocksNeeded, txsNeeded, requestQueue.queue, inFlight, batch, Without(blocksNeeded, block.hash),
                   txsNeeded);
      blocksNeeded := Without(blocksNeeded, block.hash);
      inFlight := inFlight - Elements(Items(batch));
      restored := RestoreBelowBlock(block, now);
    }

    /** While the queue waits, what its head waits for has been asked for. */
    lemma HeadIsServed()
      requires Valid() && Composed() && Stuck(Now(), Told()) && actionQueue.Actions() != []
      ensures Asked(Now(), actionQueue.Actions()[0])
    {
      hide *;
      NowIs();
      ServedNow();
      ComposedParts();
      NothingStranded(Now(), Told());
    }

    lemma ServedNow()
      requires Valid()
      ensures Served(blocksNeeded, txsNeeded, requestQueue.queue, inFlight)
    {
      hide Served, Distinct, StackAt, MirrorTxs, Coherent, BlocksKeyed, Held, TipKnown;
    }

    /** What was put in front of the queued actions is logged as restored. */
    ghost method LogRestored(actions: seq<SyncAction>, restored: seq<Transaction>)
      requires Logs(log, actions, effects, minings) && actionQueue.Actions() == Insertions(restored) + actions
      modifies this`log
      ensures |effects| <= |old(log)| && log == WithRestored(old(log), |effects|, restored)
      ensures Logs(log, actionQueue.Actions(), effects, minings) && AnnouncedOf(log) == AnnouncedOf(old(log))
    {
      hide *;
      LogLength(log, actions, effects, minings);
      LogRestores(log, actions, effects, minings, restored);
      log := WithRestored(log, |effects|, restored);
    }

    /** The block is taken in, and what that restores is logged. */
    method AdmitBlock(block: Block, ghost batch: BatchedRequestItem, now: nat) returns (ghost restored: seq<Transaction>)
      requires Valid() && GoodBlock(block, enforcer.parentOf, spends) && Answers(BlockResponse(block), batch)
      requires Logs(log, actionQueue.Actions(), effects, minings)
      modifies this`blocksNeeded, this`inFlight, this`unavailableTxs, this`txCache, this`log, abandonedPool, actionQueue
      ensures ChainValid() && QueuesValid() && TipKnown(chainTip, blocks[block.hash := block], blocksNeeded)
      ensures Held(abandonedPool.Contents(), txCache, spends) && unfilteredTxs == MirrorTxs({}, effects)
      ensures BlockTaken(old(Now()), Now(), block, batch)
      ensures blocksNeeded == Without(old(blocksNeeded), block.hash) && inFlight == old(inFlight) - Elements(Items(batch))
      ensures TipsNow() == old(TipsNow()) && TipHeight() == old(TipHeight())
      ensures actionQueue.Actions() == Insertions(restored) + old(actionQueue.Actions())
      ensures |effects| <= |old(log)| && log == WithRestored(old(log), |effects|, restored)
      ensures Logs(log, actionQueue.Actions(), effects, minings) && AnnouncedOf(log) == AnnouncedOf(old(log))
    {
      hide Served, Distinct, StackAt, MirrorTxs, IdsOf, Coherent, Insertions, Without, GoodBlock, Items, Answers;
      hide BlocksKeyed, TipKnown, Held, Elements, Logs, AnnouncedOf, WithRestored, BlockTaken, SyncActionQueue.Actions;
      NeededLess(blocksNeeded, chainTip, blocks, block);
      restored := TakeInBlock(block, batch, now);
      LogRestored(old(actionQueue.Actions()), restored);
    }

    /** The block is at hand from now on. */
    method KeepBlock(block: Block)
      requires ChainValid() && QueuesValid() && TipKnown(chainTip, blocks[block.hash := block], blocksNeeded)
      requires Held(abandonedPool.Contents(), txCache, spends) && unfilteredTxs == MirrorTxs({}, effects)
      requires GoodBlock(block, enforcer.parentOf, spends)
      modifies this`blocks
      ensures Valid() && blocks == old(blocks)[block.hash := block]
    {
      hide Served, Distinct, StackAt, MirrorTxs, Coherent, GoodBlock, BlocksKeyed, TipKnown, Held;
      KeyedWith(blocks, block, enforcer.parentOf, spends);
      blocks := blocks[block.hash := block];
    }

    /** A block response: what it restores is queued, the message that waited for it is applied, and it is kept. */
    method HandleRespBlock(block: Block, ghost batch: BatchedRequestItem, now: nat) returns (r: Outcome<()>)
      requires Valid() && GoodBlock(block, enforcer.parentOf, spends) && Answers(BlockResponse(block), batch)
      requires Recorded() && Composed() && IdsOf(block.tx) == minings(block.hash)
      modifies this, enforcer, requestQueue, actionQueue, abandonedPool
      ensures r.Ok? ==> Valid() && blocks == old(blocks)[block.hash := block]
      ensures r.Ok? ==> inFlight == old(inFlight) - Elements(Items(batch))
      ensures r.Ok? ==> BlockHandled(old(Now()), Now(), block, batch)
      ensures r.Ok? && TipAtHand(old(chainTip), old(blocks)) ==> TipAtHand(chainTip, blocks)
      ensures r.Ok? ==> Recorded() && AnnouncedOf(log) == AnnouncedOf(old(log)) && old(effects) <= effects
      ensures r.Ok? ==> Composed()
      ensures r.Ok? ==> exists restored: seq<Transaction> ::
                && |old(effects)| <= |old(log)| && log == WithRestored(old(log), |old(effects)|, restored)
                && AppliedHeadOrNothing(Insertions(restored) + old(actionQueue.Actions()), actionQueue.Actions(),
                                        old(effects), effects, blocks, old(TipsNow()), old(TipHeight()))
      ensures r.Err? ==> !r.error.MissingTx?
    {
      hide *;
      RecordedParts();
      ComposedParts();
      ghost var views := Views(rejectedBlocks, mempoolTxs, unfilteredTxs);
      NowIs();
      ghost var restored := AdmitBlock(block, batch, now);
      NowIs();
      ghost var taken, actions := Now(), actionQueue.Actions();
      AwaitedTaken(old(Now()), taken, block, restored);
      var applied := ApplyWaiting(block, now);
      match applied {
        case Err(error) => return Err(error);
        case Ok(_) =>
      }
      MinedWith(blocks, block, minings);
      NowIs();
      ghost var kept := Now();
      WaitingMeans(taken, kept, block, enforcer.rulings, old(blocks)[block.hash := block]);
      KeepBlock(block);
      NowIs();
      MakeBlockHandled(old(Now()), taken, kept, Now(), block, batch, enforcer.rulings);
      BlockRecorded(old(log), log, restored, actions, actionQueue.Actions(), old(effects), effects, blocks, old(TipsNow()),
                    old(TipHeight()), views, Views(rejectedBlocks, mempoolTxs, unfilteredTxs), childless, minings, spends);
      RecordedParts();
      ComposedParts();
      return Ok(());
    }

    method MarkUnavailable(unavailable: seq<Txid>)
      modifies this`txsNeeded, this`unavailableTxs
      ensures unavailableTxs == old(unavailableTxs) + Elements(unavailable)
      ensures forall t :: t in txsNeeded <==> t in old(txsNeeded) && t !in unavailable
    {
      for i := 0 to |unavailable|
        invariant unavailableTxs == old(unavailableTxs) + Elements(unavailable[..i])
        invariant forall t :: t in txsNeeded <==> t in old(txsNeeded) && t !in unavailable[..i]
      {
        assert unavailable[..i + 1] == unavailable[..i] + [unavailable[i]];
        txsNeeded := Without(txsNeeded, unavailable[i]);
        unavailableTxs := unavailableTxs + {unavailable[i]};
      }
      assert unavailable[..|unavailable|] == unavailable;
    }

    /** The parents of a fetched tx that must be fetched too, added to those already wanted. */
    method WantParents(tx: Transaction, wanted: seq<Txid>) returns (wanted': seq<Txid>)
      requires Distinct(wanted)
      ensures Distinct(wanted')
      ensures forall p :: p in wanted' <==>
                p in wanted || (p in tx.Parents() && NeedsParentFetch(txCache, mempoolTxids, tx.txid in knownFees, p))
    {
      hide Replace, NeedsParentFetch;
      wanted' := wanted;
      for i := 0 to |tx.input|
        invariant Distinct(wanted')
        invariant forall p :: p in wanted' <==>
                    p in wanted || (exists j :: 0 <= j < i && tx.input[j].txid == p &&
                                      NeedsParentFetch(txCache, mempoolTxids, tx.txid in knownFees, p))
      {
        var p := tx.input[i].txid;
        if NeedsParentFetch(txCache, mempoolTxids, tx.txid in knownFees, p) {
          BackMembers(wanted', p);
          ReplaceKeepsDistinct(wanted', p);
          wanted' := Replace(wanted', p);
        }
      }
    }

    method CacheFetched(fetched: seq<(Transaction, bool)>) returns (parents: seq<Txid>)
      requires FetchedHashed(fetched, spends) && CacheHashed(txCache, spends)
      modifies this`txsNeeded, this`txCache
      ensures CacheHashed(txCache, spends)
      ensures txCache.Keys == old(txCache).Keys + FetchedIds(fetched)
      ensures CacheGains(old(txCache), txCache, FetchedTxs(fetched))
      ensures forall t :: t in txsNeeded <==> t in old(txsNeeded) && t !in FetchedIds(fetched)
      ensures Distinct(parents)
      ensures forall p :: p in parents <==> Wanted(fetched, p, old(txCache).Keys, knownFees.Keys, mempoolTxids)
    {
      hide Wanted, WantsAt, FetchedIds, Transaction.Parents, Without, AbandonedTxs.Hashed, CacheGains, FetchedTxs;
      parents := [];
      NoneFetched(txCache, fetched);
      FetchedAll(fetched);
      NoneWanted(fetched, txCache.Keys, knownFees.Keys, mempoolTxids);
      for i := 0 to |fetched|
        invariant txCache.Keys == old(txCache).Keys + FetchedIds(fetched[..i]) && CacheHashed(txCache, spends)
        invariant CacheGains(old(txCache), txCache, FetchedTxs(fetched[..i]))
        invariant forall t :: t in txsNeeded <==> t in old(txsNeeded) && t !in FetchedIds(fetched[..i])
        invariant Distinct(parents)
        invariant forall p :: p in parents <==>
                    Wanted(fetched[..i], p, old(txCache).Keys, knownFees.Keys, mempoolTxids)
      {
        var tx := fetched[i].0;
        FetchedStep(fetched, i);
        forall p
          ensures Wanted(fetched[..i + 1], p, old(txCache).Keys, knownFees.Keys, mempoolTxids) <==>
                    Wanted(fetched[..i], p, old(txCache).Keys, knownFees.Keys, mempoolTxids)
                    || (fetched[i].1 && p in tx.Parents()
                        && NeedsParentFetch(txCache, mempoolTxids, tx.txid in knownFees, p))
        {
          WantedStep(fetched, i, p, old(txCache).Keys, knownFees.Keys, mempoolTxids);
          WantsAtIs(fetched, i, p, old(txCache).Keys, knownFees.Keys, mempoolTxids, txCache);
        }
        if fetched[i].1 {
          parents := WantParents(tx, parents);
        }
        WithoutTx(txsNeeded, tx.txid);
        txsNeeded := Without(txsNeeded, tx.txid);
        GainsFetched(old(txCache), txCache, fetched, i);
        txCache := txCache[tx.txid := tx];
      }
    }

    /** Missing parents join the needs and are asked for before everything else. */
    method AskForParents(parents: seq<Txid>)
      requires QueuesValid()
      modifies this`txsNeeded, requestQueue
      ensures QueuesValid()
      ensures txsNeeded == Extend(old(txsNeeded), parents)
      ensures requestQueue.queue == Fronted(old(requestQueue.queue), TxRequests(parents))
    {
      hide Served, Fronted, TxRequests, ReplaceToFront, Distinct, Extend;
      NoTxRequests(parents);
      FrontedNone(requestQueue.queue);
      ghost var before := txsNeeded;
      txsNeeded := Extend(txsNeeded, parents);
      for i := |parents| downto 0
        invariant requestQueue.Valid()
        invariant requestQueue.queue == Fronted(old(requestQueue.queue), TxRequests(parents[i..]))
        modifies requestQueue
      {
        TxRequestsStep(parents, i);
        FrontedMore(old(requestQueue.queue), Tx(parents[i], false), TxRequests(parents[i + 1..]));
        requestQueue.PushFront(Tx(parents[i], false));
      }
      ServedParents(blocksNeeded, before, old(requestQueue.queue), inFlight, parents);
    }

    /** Fetched txs enter the cache; the parents they lack are asked for first, and are needed from then on. */
    method HandleRespTxs(fetched: seq<(Transaction, bool)>, unavailable: seq<Txid>, ghost batch: BatchedRequestItem)
      requires QueuesValid() && Answers(TxsResponse(fetched, unavailable), batch)
      requires Held(abandonedPool.Contents(), txCache, spends) && FetchedHashed(fetched, spends)
      modifies this`txsNeeded, this`unavailableTxs, this`txCache, this`inFlight, requestQueue
      ensures Held(abandonedPool.Contents(), txCache, spends)
      ensures QueuesValid() && TxsTaken(old(Now()), Now(), Told(), fetched, unavailable, batch)
    {
      hide Served, Fronted, TxRequests, Distinct, Extend, Wanted, FetchedIds, Answers, Items, Settles, CacheHashed;
      hide AbandonedTxs.Valid, FetchedHashed, CacheGains, FetchedTxs, Elements;
      MarkUnavailable(unavailable);
      var parents := CacheFetched(fetched);
      SettledByTxs(blocksNeeded, txsNeeded, fetched, unavailable, batch);
      ServedAnswer(blocksNeeded, old(txsNeeded), requestQueue.queue, inFlight, batch, blocksNeeded, txsNeeded);
      inFlight := inFlight - Elements(Items(batch));
      AskMembers(txsNeeded, requestQueue.queue, parents);
      AskForParents(parents);
    }

    /** A response is taken in; nothing queued is tried yet, but for a block message that waited for this block. */
    method TakeResponse(resp: Response, ghost batch: BatchedRequestItem, now: nat) returns (r: Outcome<()>)
      requires Valid() && Answers(resp, batch) && GoodResponse(resp, enforcer.parentOf, spends)
      requires Recorded() && Composed() && MinedResponse(resp, minings)
      modifies this, enforcer, requestQueue, actionQueue, abandonedPool
      ensures r.Ok? ==> Valid() && Recorded() && Composed()
      ensures r.Ok? ==> ResponseTaken(old(Now()), Now(), Told(), resp, batch)
      ensures r.Ok? ==> inFlight == old(inFlight) - Elements(Items(batch))
      ensures r.Ok? ==> blocks == if resp.BlockResponse? then old(blocks)[resp.block.hash := resp.block] else old(blocks)
      ensures r.Ok? && TipAtHand(old(chainTip), old(blocks)) ==> TipAtHand(chainTip, blocks)
      ensures r.Ok? ==> AnnouncedOf(log) == AnnouncedOf(old(log)) && old(effects) <= effects
      ensures r.Err? ==> !r.error.MissingTx?
    {
      hide Served, StackAt, Distinct, MirrorTxs, Coherent, BlocksKeyed, Items, Answers, GoodBlock, Elements, Held, Logs,
           FetchedHashed, AnnouncedOf, WithRestored, AppliedHeadOrNothing, Insertions, BlocksMined, IdsOf, Pooled, Led,
           BlockHandled, TxsTaken, BlocksAwaited, SyncActionQueue.Actions;
      match resp {
        case TxsResponse(fetched, unavailable) =>
          HandleRespTxs(fetched, unavailable, batch);
          TakenFrame(old(Now()), Now(), Told(), fetched, unavailable, batch);
          r := Ok(());
        case BlockResponse(block) => r := HandleRespBlock(block, batch, now);
        case RejectResponse =>
          SettledByReject(blocksNeeded, txsNeeded, batch);
          ServedAnswer(blocksNeeded, txsNeeded, requestQueue.queue, inFlight, batch, blocksNeeded, txsNeeded);
          inFlight := inFlight - Elements(Items(batch));
          r := Ok(());
      }
    }

    /** A response is taken in, and then every action that no longer has to wait is applied. */
    method HandleResp(resp: Response, ghost batch: BatchedRequestItem, now: nat) returns (r: Outcome<()>)
      requires Valid() && Answers(resp, batch) && GoodResponse(resp, enforcer.parentOf, spends)
      requires Recorded() && Composed() && MinedResponse(resp, minings)
      modifies this, enforcer, requestQueue, actionQueue, abandonedPool
      ensures r.Ok? ==> Valid() && Composed() && inFlight == old(inFlight) - Elements(Items(batch))
      ensures r.Ok? ==> Handled(old(Now()), Now(), Told(), Responded(resp, batch)) && Stuck(Now(), Told())
      ensures r.Ok? ==> blocks == if resp.BlockResponse? then old(blocks)[resp.block.hash := resp.block] else old(blocks)
      ensures r.Ok? && TipAtHand(old(chainTip), old(blocks)) ==> TipAtHand(chainTip, blocks)
      ensures r.Ok? || r.error.MissingTx? ==>
                Recorded() && AnnouncedOf(log) == AnnouncedOf(old(log)) && old(effects) <= effects
      ensures r.Err? && r.error.MissingTx? ==> Misses(log, effects, r.error.missing)
    {
      hide *;
      r := TakeResponse(resp, batch, now);
      if r.Ok? {
        ghost var taken := Now();
        r := ApplySyncActions(now);
        if r.Ok? {
          MakeResponded(old(Now()), taken, Now(), Told(), resp, batch);
        }
      }
    }

    /** The request stream takes the next batch; it is in flight until its response comes. */
    method NextRequest() returns (batch: Option<BatchedRequestItem>)
      requires Valid()
      modifies this`inFlight, requestQueue
      ensures Valid()
      ensures old(Recorded() && Composed()) ==> Recorded() && Composed()
      ensures BatchSent(old(Now()), Now())
      ensures batch.None? <==> old(requestQueue.queue) == []
      ensures batch.Some? ==>
                && IsBatchOf(batch.value, old(requestQueue.queue))
                && inFlight == old(inFlight) + Elements(Items(batch.value))
    {
      hide Distinct, MirrorTxs, IsBatchOf, Items, Served, Elements, Held;
      batch := requestQueue.PollNext();
      if batch.Some? {
        ServedDispatch(blocksNeeded, txsNeeded, old(requestQueue.queue), inFlight, batch.value);
        inFlight := inFlight + Elements(Items(batch.value));
      }
    }

    /** What a run of the sync meets: a message, a response to some batch, or the request stream asking for work. As far
        as the run gets, what is logged and not restored is what was announced, in order; a run that ends for want of a
        tx to remove has met a removal that no node announces, or restored a tx, or skipped a block with txs of the node. */
    method TaskInner(messages: seq<Message>, now: nat)
      returns (r: Outcome<()>, ghost met: nat, ghost states: seq<State>)
      requires Valid() && Recorded() && Composed()
      requires forall m :: m in messages && m.Responded? ==>
                 Answers(m.resp, m.batch) && GoodResponse(m.resp, enforcer.parentOf, spends) && MinedResponse(m.resp, minings)
      modifies this, enforcer, requestQueue, actionQueue, abandonedPool
      ensures r.Ok? ==> Valid() && Composed() && met == |messages|
      ensures r.Ok? ==>
                HandledAll(states, messages, Told()) && states[0] == old(Now()) && states[|messages|] == Now()
      ensures r.Ok? && (old(Stuck(Now(), Told())) || exists m :: m in messages && !m.Polled?) ==> Stuck(Now(), Told())
      ensures r.Ok? && NoneRestored(log) && SkipsHarmless({}, effects) && rejectedBlocks == {}
              && ParentsLead(AnnouncedOf(log), minings, spends) ==>
                mempoolTxs.Keys <= unfilteredTxs && childless
      ensures r.Ok? && TipAtHand(old(chainTip), old(blocks)) ==> TipAtHand(chainTip, blocks)
      ensures r.Ok? || r.error.MissingTx? ==>
                && Recorded() && met <= |messages| && old(effects) <= effects
                && AnnouncedOf(log) == old(AnnouncedOf(log)) + MessagesOf(messages[..met])
      ensures r.Ok? && NoneRestored(log) && SkipsHarmless({}, effects) ==>
                && |effects| <= |AnnouncedOf(log)|
                && unfilteredTxs == NodeMempool(AnnouncedOf(log)[..|effects|], minings)
      ensures r.Err? && r.error.MissingTx? ==> Misses(log, effects, r.error.missing)
      ensures r.Err? && r.error.MissingTx? && NoneRestored(log) && WellFormedStream(AnnouncedOf(log), minings) ==>
                !SkipsHarmless({}, effects)
    {
      hide *;
      NoMessages(messages, AnnouncedOf(log));
      met, states := 0, [Now()];
      HandledNone(Now(), Told());
      ghost var settled := Stuck(Now(), Told());
      for i := 0 to |messages|
        invariant Valid() && Recorded() && Composed() && met == i && old(effects) <= effects
        invariant AnnouncedOf(log) == old(AnnouncedOf(log)) + MessagesOf(messages[..i])
        invariant TipAtHand(old(chainTip), old(blocks)) ==> TipAtHand(chainTip, blocks)
        invariant |states| == i + 1 && states[0] == old(Now()) && states[i] == Now()
        invariant HandledAll(states, messages[..i], Told())
        invariant settled ==> Stuck(Now(), Told())
        invariant old(Stuck(Now(), Told())) || (exists j :: 0 <= j < i && !messages[j].Polled?) ==> settled
      {
        MoreMessages(messages, i, old(AnnouncedOf(log)));
        met := i + 1;
        ghost var s := Now();
        match messages[i] {
          case Announced(msg) =>
            HandleSeqMessage(msg, now);
            ghost var noted := Now();
            r := ApplySyncActions(now);
            if r.Ok? {
              MakeAnnounced(s, noted, Now(), Told(), msg);
            }
            settled := true;
          case Responded(resp, batch) =>
            r := HandleResp(resp, batch, now);
            settled := true;
          case Polled =>
            var batch := NextRequest();
            MakePolled(s, Now(), Told());
            if settled {
              SentStuck(s, Now(), Told());
            }
            r := Ok(());
        }
        if r.Err? {
          NoStreamMisses();
          return;
        }
        HandledMore(states, messages, i, Now(), Told());
        states := states + [Now()];
      }
      WholeMessages(messages);
      MirrorFolds();
      ComposedMeans();
      return Ok(()), met, states;
    }

    lemma ComposedMeans()
      requires Composed()
      ensures NoneRestored(log) && SkipsHarmless({}, effects) && rejectedBlocks == {}
              && ParentsLead(AnnouncedOf(log), minings, spends) ==>
                mempoolTxs.Keys <= unfilteredTxs && childless
    {
      hide NoneRestored, SkipsHarmless, ParentsLead, AnnouncedOf;
    }

    lemma NoStreamMisses()
      ensures Recorded() && NoneRestored(log) && WellFormedStream(AnnouncedOf(log), minings) && SkipsHarmless({}, effects) ==>
                forall t :: !Misses(log, effects, t)
    {
      hide Logs, MirrorTxs, NodeMempool, Misses, WellFormedStream, AnnouncedOf, NoneRestored, SkipsHarmless, BlocksMined;
      if Recorded() && NoneRestored(log) && SkipsHarmless({}, effects) {
        MirrorOfStream(log, actionQueue.Actions(), effects, minings);
      }
    }

    lemma MirrorFolds()
      requires Valid() && Recorded()
      ensures NoneRestored(log) && SkipsHarmless({}, effects) ==>
                && |effects| <= |AnnouncedOf(log)|
                && unfilteredTxs == NodeMempool(AnnouncedOf(log)[..|effects|], minings)
    {
      hide Valid, Recorded, NodeMempool, AnnouncedOf, NoneRestored, SkipsHarmless, Misses;
      if NoneRestored(log) && SkipsHarmless({}, effects) {
        MirrorExact();
      }
    }
  }
}
