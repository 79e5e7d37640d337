/** The two queues of the mempool sync: requests to the node, and actions waiting to be applied. */
module SyncQueues {
  import opened Types
  import opened LinkedSets

  const MAX_TX_REQUESTS_PER_BATCH: nat := 1000

  datatype RequestItem =
    | Block(hash: BlockHash)
    | RejectBlock(hash: BlockHash)
    | RejectTx(txid: Txid)
    | Tx(txid: Txid, inMempool: bool)

  datatype BatchedRequestItem =
    | BatchRejectTx(txids: seq<Txid>)
    | BatchTx(txs: seq<(Txid, bool)>)
    | Single(item: RequestItem)

  /** The requests a batch stands for, in order. */
  function Items(batch: BatchedRequestItem): seq<RequestItem> {
    match batch
    case BatchRejectTx(txids) => seq(|txids|, i requires 0 <= i < |txids| => RejectTx(txids[i]))
    case BatchTx(txs) => seq(|txs|, i requires 0 <= i < |txs| => Tx(txs[i].0, txs[i].1))
    case Single(item) => [item]
  }

  /** How many requests of one kind may travel together, or `None` when the batch is unbounded. */
  function BatchCap(item: RequestItem): Option<nat> {
    match item
    case Block(_) => Some(1)
    case RejectBlock(_) => Some(1)
    case RejectTx(_) => None
    case Tx(_, _) => Some(MAX_TX_REQUESTS_PER_BATCH)
  }

  predicate SameKind(a: RequestItem, b: RequestItem) {
    (a.RejectTx? && b.RejectTx?) || (a.Tx? && b.Tx?) || (a.Block? && b.Block?) || (a.RejectBlock? && b.RejectBlock?)
  }

  /** The request at place `i` may join a batch that starts at the front of the queue. */
  ghost predicate MayTake(queue: seq<RequestItem>, i: int) {
    && 0 < i < |queue| && SameKind(queue[i], queue[0])
    && (BatchCap(queue[0]).Some? ==> i < BatchCap(queue[0]).value)
  }

  /** A batch is as long as its kind allows: it ends at its cap, at another kind, or with the queue. */
  ghost predicate IsBatchOf(batch: BatchedRequestItem, queue: seq<RequestItem>) {
    var n := |Items(batch)|;
    && 0 < n <= |queue| && Items(batch) == queue[..n]
    && (forall i :: 0 < i < n ==> MayTake(queue, i))
    && !MayTake(queue, n)
    && (batch.Single? <==> n == 1)
  }

  /** The queue fixes the batch: there is only one that is as long as allowed. */
  lemma BatchUnique(a: BatchedRequestItem, b: BatchedRequestItem, queue: seq<RequestItem>)
    requires IsBatchOf(a, queue) && IsBatchOf(b, queue)
    ensures Items(a) == Items(b)
  {
    hide MayTake, Items;
    assert |Items(a)| < |Items(b)| ==> MayTake(queue, |Items(a)|);
    assert |Items(b)| < |Items(a)| ==> MayTake(queue, |Items(b)|);
  }

  lemma SingleBatch(queue: seq<RequestItem>)
    requires queue != [] && (queue[0].Block? || queue[0].RejectBlock?)
    ensures IsBatchOf(Single(queue[0]), queue)
  {
  }

  lemma BatchIs(batch: BatchedRequestItem, queue: seq<RequestItem>)
    requires Items(batch) != [] && Items(batch) <= queue && (batch.Single? <==> |Items(batch)| == 1)
    requires forall i :: 0 < i < |Items(batch)| ==> SameKind(Items(batch)[i], queue[0])
    requires BatchCap(queue[0]).Some? ==> |Items(batch)| <= BatchCap(queue[0]).value
    requires !MayTake(queue, |Items(batch)|)
    ensures IsBatchOf(batch, queue)
    ensures queue == Items(batch) + queue[|Items(batch)|..]
  {
    hide Items;
  }

  /** Everything that the batches ask for, in order. */
  ghost function Flatten(batches: seq<BatchedRequestItem>): seq<RequestItem> {
    if batches == [] then [] else Items(batches[0]) + Flatten(batches[1..])
  }

  /** `batches` is what repeated polling returns until the queue is empty. */
  ghost predicate Drains(queue: seq<RequestItem>, batches: seq<BatchedRequestItem>) {
    if batches == [] then queue == [] else
    IsBatchOf(batches[0], queue) && Drains(queue[|Items(batches[0])|..], batches[1..])
  }

  /** Draining hands out the queued requests in order, each once. */
  lemma {:induction false} DrainInOrder(queue: seq<RequestItem>, batches: seq<BatchedRequestItem>)
    requires Drains(queue, batches)
    ensures Flatten(batches) == queue
    ensures Distinct(queue) ==> Distinct(Flatten(batches))
    ensures forall b :: b in batches && b.BatchTx? ==> |b.txs| <= MAX_TX_REQUESTS_PER_BATCH
    decreases |batches|
  {
    hide IsBatchOf, Items, Distinct;
    if batches != [] {
      BatchSplits(batches[0], queue);
      DrainInOrder(queue[|Items(batches[0])|..], batches[1..]);
      assert batches == [batches[0]] + batches[1..];
    }
  }

  lemma BatchSplits(batch: BatchedRequestItem, queue: seq<RequestItem>)
    requires IsBatchOf(batch, queue)
    ensures |Items(batch)| <= |queue| && Items(batch) + queue[|Items(batch)|..] == queue
    ensures batch.BatchTx? ==> |batch.txs| <= MAX_TX_REQUESTS_PER_BATCH
  {
    if batch.BatchTx? {
      assert Items(batch)[0].Tx? && queue[0] == Items(batch)[0];
      assert !MayTake(queue, MAX_TX_REQUESTS_PER_BATCH);
    }
  }

  class RequestQueue {
    var queue: seq<RequestItem>

    ghost predicate Valid()
      reads this
    {
      Distinct(queue)
    }

    constructor ()
      ensures queue == [] && Valid()
    {
      queue := [];
    }

    method Remove(request: RequestItem)
      requires Valid()
      modifies this
      ensures queue == Without(old(queue), request) && Valid()
    {
      WithoutDistinct(queue, request);
      queue := Without(queue, request);
    }

    method PushBack(request: RequestItem)
      requires Valid()
      modifies this
      ensures queue == Replace(old(queue), request) && Valid()
    {
      queue := Replace(queue, request);
    }

    method PushFront(request: RequestItem)
      requires Valid()
      modifies this
      ensures queue == ReplaceToFront(old(queue), request) && Valid()
    {
      ReplaceToFrontDistinct(queue, request);
      queue := ReplaceToFront(queue, request);
    }

    method PollNext() returns (batch: Option<BatchedRequestItem>)
      requires Valid()
      modifies this
      ensures Valid()
      ensures batch.None? <==> old(queue) == []
      ensures batch.None? ==> queue == []
      ensures batch.Some? ==>
                IsBatchOf(batch.value, old(queue)) && queue == old(queue)[|Items(batch.value)|..]
    {
      hide IsBatchOf;
      if queue == [] {
        return None;
      }
      assert queue == [queue[0]] + queue[1..];
      var request := queue[0];
      queue := queue[1..];
      match request {
        case Block(_) =>
          SingleBatch(old(queue));
          return Some(Single(request));
        case RejectBlock(_) =>
          SingleBatch(old(queue));
          return Some(Single(request));
        case RejectTx(txid) =>
          var full := TakeRejects(txid);
          return Some(full);
        case Tx(txid, inMempool) =>
          var full := TakeTxs(txid, inMempool);
          return Some(full);
      }
    }

    /** Gathers the rejections that follow at the front of the queue. */
    method TakeRejects(txid: Txid) returns (batch: BatchedRequestItem)
      requires Distinct([RejectTx(txid)] + queue)
      modifies this
      ensures Valid() && IsBatchOf(batch, [RejectTx(txid)] + old(queue))
      ensures Items(batch) + queue == [RejectTx(txid)] + old(queue)
    {
      hide IsBatchOf;
      ghost var all := [RejectTx(txid)] + queue;
      var txids := [txid];
      while queue != [] && queue[0].RejectTx?
        invariant |txids| >= 1 && Items(BatchRejectTx(txids)) + queue == all
        decreases |queue|
      {
        RejectsMore(txids, queue);
        txids := txids + [queue[0].txid];
        queue := queue[1..];
      }
      batch := if |txids| == 1 then Single(RejectTx(txids[0])) else BatchRejectTx(txids);
      assert Items(batch) == Items(BatchRejectTx(txids));
      assert forall i :: 0 < i < |txids| ==> Items(batch)[i] == RejectTx(txids[i]);
      BatchIs(batch, all);
    }

    /** Gathers the tx fetches that follow at the front of the queue, up to the cap. */
    method TakeTxs(txid: Txid, inMempool: bool) returns (batch: BatchedRequestItem)
      requires Distinct([Tx(txid, inMempool)] + queue)
      modifies this
      ensures Valid() && IsBatchOf(batch, [Tx(txid, inMempool)] + old(queue))
      ensures Items(batch) + queue == [Tx(txid, inMempool)] + old(queue)
    {
      hide IsBatchOf;
      ghost var all := [Tx(txid, inMempool)] + queue;
      var txs := [(txid, inMempool)];
      while |txs| < MAX_TX_REQUESTS_PER_BATCH && queue != [] && queue[0].Tx?
        invariant 1 <= |txs| <= MAX_TX_REQUESTS_PER_BATCH
        invariant Items(BatchTx(txs)) + queue == all
        decreases |queue|
      {
        TxsMore(txs, queue);
        txs := txs + [(queue[0].txid, queue[0].inMempool)];
        queue := queue[1..];
      }
      batch := if |txs| == 1 then Single(Tx(txs[0].0, txs[0].1)) else BatchTx(txs);
      assert Items(batch) == Items(BatchTx(txs));
      assert forall i :: 0 < i < |txs| ==> Items(batch)[i] == Tx(txs[i].0, txs[i].1);
      BatchIs(batch, all);
    }
  }

  lemma RejectsMore(txids: seq<Txid>, queue: seq<RequestItem>)
    requires queue != [] && queue[0].RejectTx?
    ensures Items(BatchRejectTx(txids + [queue[0].txid])) + queue[1..] == Items(BatchRejectTx(txids)) + queue
  {
  }

  lemma TxsMore(txs: seq<(Txid, bool)>, queue: seq<RequestItem>)
    requires queue != [] && queue[0].Tx?
    ensures Items(BatchTx(txs + [(queue[0].txid, queue[0].inMempool)])) + queue[1..] == Items(BatchTx(txs)) + queue
  {
  }

  datatype SequenceMessage =
    | Connected(hash: BlockHash)
    | Disconnected(hash: BlockHash)
    | Added(txid: Txid, mempoolSeq: nat)
    | Removed(txid: Txid, mempoolSeq: nat)

  datatype SyncAction = InsertTx(txid: Txid) | Sequence(msg: SequenceMessage)

  /** The action at the head, with the time at which it got there. */
  datatype Head = Head(action: SyncAction, reachedHeadTime: nat)

  class SyncActionQueue {
    var head: Option<Head>
    var tail: seq<SyncAction>

    ghost predicate Valid()
      reads this
    {
      head.None? ==> tail == []
    }

    function Actions(): seq<SyncAction>
      reads this
    {
      if head.None? then [] else [head.value.action] + tail
    }

    constructor ()
      ensures Valid() && Actions() == []
    {
      head, tail := None, [];
    }

    method PopFront(now: nat) returns (action: Option<SyncAction>)
      requires Valid()
      modifies this
      ensures Valid()
      ensures old(Actions()) == [] ==> action == None && Actions() == []
      ensures old(Actions()) != [] ==> action == Some(old(Actions())[0]) && Actions() == old(Actions())[1..]
      ensures head.Some? ==> head.value.reachedHeadTime == now
    {
      action := if head.None? then None else Some(head.value.action);
      if tail == [] {
        head := None;
      } else {
        head, tail := Some(Head(tail[0], now)), tail[1..];
      }
    }

    /** Appending leaves the head, and the time it has waited, alone. */
    method PushBack(action: SyncAction, now: nat)
      requires Valid()
      modifies this
      ensures Valid()
      ensures Actions() == old(Actions()) + [action]
      ensures head == if old(head).None? then Some(Head(action, now)) else old(head)
    {
      if head.None? {
        assert tail == [];
        head := Some(Head(action, now));
      } else {
        tail := tail + [action];
      }
    }

    method PushFront(action: SyncAction, now: nat)
      requires Valid()
      modifies this
      ensures Valid()
      ensures Actions() == [action] + old(Actions())
      ensures head == Some(Head(action, now))
    {
      if head.Some? {
        tail := [head.value.action] + tail;
      }
      head := Some(Head(action, now));
    }

    method FromActions(actions: seq<SyncAction>, now: nat)
      requires Valid() && Actions() == []
      modifies this
      ensures Valid() && Actions() == actions
    {
      for i := 0 to |actions|
        invariant Valid() && Actions() == actions[..i]
      {
        PushBack(actions[i], now);
      }
      assert actions[..|actions|] == actions;
    }
  }
}
