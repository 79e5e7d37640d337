/** Why no needed block or tx is ever forgotten: each one has a request queued or in flight. */
module SyncRequests {
  import opened Types
  import opened LinkedSets
  import opened SyncQueues

  ghost predicate Pending(queue: seq<RequestItem>, inFlight: set<RequestItem>, item: RequestItem) {
    item in queue || item in inFlight
  }

  ghost predicate BlocksServed(needed: seq<BlockHash>, queue: seq<RequestItem>, inFlight: set<RequestItem>) {
    forall h :: h in needed ==> Pending(queue, inFlight, Block(h))
  }

  ghost predicate TxsServed(needed: seq<Txid>, queue: seq<RequestItem>, inFlight: set<RequestItem>) {
    forall t :: t in needed ==> Pending(queue, inFlight, Tx(t, true)) || Pending(queue, inFlight, Tx(t, false))
  }

  ghost predicate Served(blocks: seq<BlockHash>, txs: seq<Txid>, queue: seq<RequestItem>, inFlight: set<RequestItem>) {
    BlocksServed(blocks, queue, inFlight) && TxsServed(txs, queue, inFlight)
  }

  /** More requests, or fewer needs, never hurt. */
  lemma ServedMore(blocks: seq<BlockHash>, txs: seq<Txid>, queue: seq<RequestItem>, inFlight: set<RequestItem>,
                   blocks': seq<BlockHash>, txs': seq<Txid>, queue': seq<RequestItem>)
    requires Served(blocks, txs, queue, inFlight)
    requires forall r :: r in queue ==> r in queue'
    requires forall h :: h in blocks' ==> h in blocks || Block(h) in queue'
    requires forall t :: t in txs' ==> t in txs || Tx(t, true) in queue' || Tx(t, false) in queue'
    ensures Served(blocks', txs', queue', inFlight)
  {
  }

  /** A tx that is no longer needed takes its request with it. */
  lemma ServedForget(blocks: seq<BlockHash>, txs: seq<Txid>, queue: seq<RequestItem>, inFlight: set<RequestItem>,
                     txid: Txid)
    requires Served(blocks, txs, queue, inFlight)
    ensures Served(blocks, Without(txs, txid), Without(queue, Tx(txid, true)), inFlight)
  {
    hide Without;
    WithoutRequest(queue, Tx(txid, true));
    WithoutTx(txs, txid);
  }

  lemma WithoutRequest(queue: seq<RequestItem>, item: RequestItem)
    ensures forall r :: r in Without(queue, item) <==> r in queue && r != item
  {
  }

  lemma WithoutTx(txs: seq<Txid>, txid: Txid)
    ensures forall t :: t in Without(txs, txid) <==> t in txs && t != txid
  {
  }

  /** A dispatched batch moves from the queue to the requests in flight. */
  lemma ServedDispatch(blocks: seq<BlockHash>, txs: seq<Txid>, queue: seq<RequestItem>, inFlight: set<RequestItem>,
                       batch: BatchedRequestItem)
    requires Served(blocks, txs, queue, inFlight) && IsBatchOf(batch, queue)
    ensures Served(blocks, txs, queue[|Items(batch)|..], inFlight + Elements(Items(batch)))
  {
    hide Items, MayTake;
    var rest := queue[|Items(batch)|..];
    assert queue == Items(batch) + rest;
    forall r | r in queue ensures Pending(rest, inFlight + Elements(Items(batch)), r) {
    }
  }

  /** A response settles every need its batch was sent for. */
  ghost predicate Settles(batch: BatchedRequestItem, blocks: seq<BlockHash>, txs: seq<Txid>) {
    forall r :: r in Items(batch) ==> (r.Block? ==> r.hash !in blocks) && (r.Tx? ==> r.txid !in txs)
  }

  lemma ServedAnswer(blocks: seq<BlockHash>, txs: seq<Txid>, queue: seq<RequestItem>, inFlight: set<RequestItem>,
                     batch: BatchedRequestItem, blocks': seq<BlockHash>, txs': seq<Txid>)
    requires Served(blocks, txs, queue, inFlight)
    requires forall h :: h in blocks' ==> h in blocks
    requires forall t :: t in txs' ==> t in txs
    requires Settles(batch, blocks', txs')
    ensures Served(blocks', txs', queue, inFlight - Elements(Items(batch)))
  {
    hide Items;
    forall h | h in blocks' ensures Pending(queue, inFlight - Elements(Items(batch)), Block(h)) {
      assert Pending(queue, inFlight, Block(h));
    }
    forall t | t in txs'
      ensures
        || Pending(queue, inFlight - Elements(Items(batch)), Tx(t, true))
        || Pending(queue, inFlight - Elements(Items(batch)), Tx(t, false))
    {
      assert Pending(queue, inFlight, Tx(t, true)) || Pending(queue, inFlight, Tx(t, false));
    }
  }

  /** `items` pushed to the front one by one, last first. */
  function Fronted<T(==,!new)>(queue: seq<T>, items: seq<T>): (r: seq<T>)
    ensures forall x :: x in r <==> x in queue || x in items
  {
    if items == [] then queue else
    assert items == [items[0]] + items[1..];
    ReplaceToFront(Fronted(queue, items[1..]), items[0])
  }

  lemma {:induction false} FrontedDistinct<T(!new)>(queue: seq<T>, items: seq<T>)
    requires Distinct(queue)
    ensures Distinct(Fronted(queue, items))
  {
    if items != [] {
      FrontedDistinct(queue, items[1..]);
      ReplaceToFrontDistinct(Fronted(queue, items[1..]), items[0]);
    }
  }

  /** Pushed that way, distinct items end up first and in their own order. */
  lemma {:induction false} FrontedFirst<T(!new)>(queue: seq<T>, items: seq<T>)
    requires Distinct(items)
    ensures |items| <= |Fronted(queue, items)| && Fronted(queue, items)[..|items|] == items
    decreases |items|
  {
    hide *;
    if items != [] {
      var head, tail := items[0], items[1..];
      DistinctTail(items);
      FrontedFirst(queue, tail);
      FrontedUnfold(queue, items);
      FrontStep(Fronted(queue, tail), head, tail, Without(Fronted(queue, tail), head));
    }
  }

  lemma FrontStep<T(!new)>(rest: seq<T>, head: T, tail: seq<T>, less: seq<T>)
    requires |tail| <= |rest| && rest[..|tail|] == tail && head !in tail
    requires less == Without(rest, head)
    ensures |tail| <= |less| && ([head] + less)[..|tail| + 1] == [head] + tail
  {
    hide *;
    WithoutAfter(tail, rest[|tail|..], head);
    assert rest == tail + rest[|tail|..];
  }

  lemma FrontedUnfold<T(!new)>(queue: seq<T>, items: seq<T>)
    requires items != []
    ensures Fronted(queue, items) == [items[0]] + Without(Fronted(queue, items[1..]), items[0])
  {
    hide Without;
  }

  lemma DistinctTail<T>(items: seq<T>)
    requires Distinct(items) && items != []
    ensures Distinct(items[1..]) && items[0] !in items[1..] && items == [items[0]] + items[1..]
  {
  }

  lemma {:induction false} WithoutAfter<T(!new)>(front: seq<T>, back: seq<T>, x: T)
    requires x !in front
    ensures Without(front + back, x) == front + Without(back, x)
    decreases |back|
  {
    if back == [] {
      assert front + back == front;
    } else {
      hide Without;
      var all, last := front + back, back[|back| - 1];
      assert all == (front + back[..|back| - 1]) + [last];
      assert back == back[..|back| - 1] + [last];
      WithoutAfter(front, back[..|back| - 1], x);
      WithoutLast(front + back[..|back| - 1], last, x);
      WithoutLast(back[..|back| - 1], last, x);
    }
  }

  lemma WithoutLast<T(!new)>(s: seq<T>, last: T, x: T)
    ensures Without(s + [last], x) == if last == x then Without(s, x) else Without(s, x) + [last]
  {
    assert (s + [last])[..|s|] == s;
  }
}
