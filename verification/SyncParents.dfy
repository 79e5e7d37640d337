/** Where the parents of an announced tx are found, and the fee that follows from them. */
module SyncParents {
  import opened Types
  import opened LinkedSets

  /** Everything consulted when the parents of a tx are resolved. */
  datatype ParentCaches = ParentCaches(abandoned: set<Txid>, mempool: map<Txid, Transaction>, rejected: set<Txid>,
                                       txCache: map<Txid, Transaction>, unavailable: set<Txid>,
                                       mempoolTxids: set<Txid>)

  datatype ParentTxsResult =
    | RejectedParent(txid: Txid)
    | RequiredParents(txids: seq<Txid>)
    | UnavailableParents(txids: seq<Txid>)
    | AbandonedParents(txids: seq<Txid>)
    | AvailableParents(txs: map<Txid, Transaction>)

  datatype ParentState = IsRejected | IsCached | InMempool | IsAbandoned | IsUnavailable | NotNeeded | IsNeeded

  function StateOf(c: ParentCaches, feeKnown: bool, p: Txid): ParentState {
    if p in c.rejected then IsRejected
    else if p in c.txCache then IsCached
    else if p in c.mempool then InMempool
    else if p in c.abandoned then IsAbandoned
    else if p in c.unavailable then IsUnavailable
    else if feeKnown && p !in c.mempoolTxids then NotNeeded
    else IsNeeded
  }

  /** The parents in a given state, each once, in the order of the inputs that first name them. */
  function InVinOrder(c: ParentCaches, feeKnown: bool, vin: seq<OutPoint>, state: ParentState): (r: seq<Txid>)
    ensures Distinct(r)
    ensures forall p :: p in r ==> StateOf(c, feeKnown, p) == state
  {
    if vin == [] then [] else
    var r := InVinOrder(c, feeKnown, vin[..|vin| - 1], state);
    var p := vin[|vin| - 1].txid;
    if StateOf(c, feeKnown, p) == state then Replace(r, p) else r
  }

  lemma {:induction false} InVinOrderComplete(c: ParentCaches, feeKnown: bool, vin: seq<OutPoint>, state: ParentState)
    ensures forall o :: o in vin && StateOf(c, feeKnown, o.txid) == state ==>
              o.txid in InVinOrder(c, feeKnown, vin, state)
    ensures forall p :: p in InVinOrder(c, feeKnown, vin, state) ==> exists o :: o in vin && o.txid == p
  {
    if vin != [] {
      var front, last := vin[..|vin| - 1], vin[|vin| - 1];
      assert vin == front + [last];
      InVinOrderComplete(c, feeKnown, front, state);
      forall p | p in InVinOrder(c, feeKnown, vin, state) ensures exists o :: o in vin && o.txid == p {
        if p in InVinOrder(c, feeKnown, front, state) {
          var o :| o in front && o.txid == p;
          assert o in vin;
        } else {
          assert last in vin && last.txid == p;
        }
      }
    }
  }

  /** The parent txs at hand: from the cache first, else from the mempool. */
  ghost function Found(c: ParentCaches, vin: seq<OutPoint>): map<Txid, Transaction> {
    map o | o in vin && (o.txid in c.txCache || o.txid in c.mempool) ::
      o.txid := if o.txid in c.txCache then c.txCache[o.txid] else c.mempool[o.txid]
  }

  ghost predicate NoneIn(c: ParentCaches, feeKnown: bool, vin: seq<OutPoint>, state: ParentState) {
    forall o :: o in vin ==> StateOf(c, feeKnown, o.txid) != state
  }

  /** The first of rejected, required, unavailable, abandoned parents that exist decides; else what was found. */
  ghost predicate Resolves(c: ParentCaches, feeKnown: bool, vin: seq<OutPoint>, r: ParentTxsResult) {
    match r
    case RejectedParent(p) =>
      exists i :: 0 <= i < |vin| && vin[i].txid == p && p in c.rejected && NoneIn(c, feeKnown, vin[..i], IsRejected)
    case RequiredParents(l) =>
      NoneIn(c, feeKnown, vin, IsRejected) && l != [] && l == InVinOrder(c, feeKnown, vin, IsNeeded)
    case UnavailableParents(l) =>
      && NoneIn(c, feeKnown, vin, IsRejected) && NoneIn(c, feeKnown, vin, IsNeeded)
      && l != [] && l == InVinOrder(c, feeKnown, vin, IsUnavailable)
    case AbandonedParents(l) =>
      && NoneIn(c, feeKnown, vin, IsRejected) && NoneIn(c, feeKnown, vin, IsNeeded)
      && NoneIn(c, feeKnown, vin, IsUnavailable)
      && l != [] && l == InVinOrder(c, feeKnown, vin, IsAbandoned)
    case AvailableParents(txs) =>
      && txs == Found(c, vin)
      && forall o :: o in vin ==> StateOf(c, feeKnown, o.txid) in {IsCached, InMempool, NotNeeded}
  }

  /** The caches decide how the parents resolve. */
  lemma ResolvesOneWay(c: ParentCaches, feeKnown: bool, vin: seq<OutPoint>, a: ParentTxsResult, b: ParentTxsResult)
    requires Resolves(c, feeKnown, vin, a) && Resolves(c, feeKnown, vin, b)
    ensures a == b
  {
    hide InVinOrder, Found;
    FirstDecides(c, feeKnown, vin, a);
    FirstDecides(c, feeKnown, vin, b);
    if a.RejectedParent? && b.RejectedParent? {
      var i :| 0 <= i < |vin| && vin[i].txid == a.txid && a.txid in c.rejected && NoneIn(c, feeKnown, vin[..i], IsRejected);
      var j :| 0 <= j < |vin| && vin[j].txid == b.txid && b.txid in c.rejected && NoneIn(c, feeKnown, vin[..j], IsRejected);
      NotBefore(c, feeKnown, vin, i, j);
      NotBefore(c, feeKnown, vin, j, i);
    }
  }

  lemma NotBefore(c: ParentCaches, feeKnown: bool, vin: seq<OutPoint>, i: nat, j: nat)
    requires i < |vin| && j < |vin| && vin[i].txid in c.rejected && NoneIn(c, feeKnown, vin[..j], IsRejected)
    ensures j <= i
  {
    forall k | 0 <= k < j ensures vin[k].txid !in c.rejected {
      assert vin[..j][k] == vin[k];
    }
  }

  /** Which way the parents resolve is a matter of which states occur among them. */
  lemma FirstDecides(c: ParentCaches, feeKnown: bool, vin: seq<OutPoint>, r: ParentTxsResult)
    requires Resolves(c, feeKnown, vin, r)
    ensures r.RejectedParent? <==> !NoneIn(c, feeKnown, vin, IsRejected)
    ensures r.RequiredParents? <==> NoneIn(c, feeKnown, vin, IsRejected) && !NoneIn(c, feeKnown, vin, IsNeeded)
    ensures r.UnavailableParents? <==>
              && NoneIn(c, feeKnown, vin, IsRejected) && NoneIn(c, feeKnown, vin, IsNeeded)
              && !NoneIn(c, feeKnown, vin, IsUnavailable)
    ensures r.AbandonedParents? <==>
              && NoneIn(c, feeKnown, vin, IsRejected) && NoneIn(c, feeKnown, vin, IsNeeded)
              && NoneIn(c, feeKnown, vin, IsUnavailable) && !NoneIn(c, feeKnown, vin, IsAbandoned)
  {
    hide InVinOrder, Found, StateOf;
    match r {
      case RejectedParent(p) => RejectedOccurs(c, feeKnown, vin, p);
      case RequiredParents(l) => ListedOccurs(c, feeKnown, vin, IsNeeded, l);
      case UnavailableParents(l) => ListedOccurs(c, feeKnown, vin, IsUnavailable, l);
      case AbandonedParents(l) => ListedOccurs(c, feeKnown, vin, IsAbandoned, l);
      case AvailableParents(_) =>
    }
  }

  lemma RejectedOccurs(c: ParentCaches, feeKnown: bool, vin: seq<OutPoint>, p: Txid)
    requires exists i :: 0 <= i < |vin| && vin[i].txid == p && p in c.rejected && NoneIn(c, feeKnown, vin[..i], IsRejected)
    ensures !NoneIn(c, feeKnown, vin, IsRejected)
  {
    var i :| 0 <= i < |vin| && vin[i].txid == p && p in c.rejected && NoneIn(c, feeKnown, vin[..i], IsRejected);
    assert vin[i] in vin && StateOf(c, feeKnown, vin[i].txid) == IsRejected;
  }

  lemma ListedOccurs(c: ParentCaches, feeKnown: bool, vin: seq<OutPoint>, state: ParentState, l: seq<Txid>)
    requires l != [] && l == InVinOrder(c, feeKnown, vin, state)
    ensures !NoneIn(c, feeKnown, vin, state)
  {
    InVinOrderComplete(c, feeKnown, vin, state);
    assert l[0] in InVinOrder(c, feeKnown, vin, state);
    var o :| o in vin && o.txid == l[0];
  }

  /** A cached parent counts as available although it is not pooled. Then a tx enters the mempool before its parent `p`,
      and if `p` is announced later, a pooled tx spends it already. */
  lemma CachedParentMayFollow(c: ParentCaches, feeKnown: bool, child: Transaction, p: Txid)
    requires p in child.Parents() && p !in c.mempool && p != child.txid
    requires forall q :: q in child.Parents() ==> q in c.txCache && q !in c.rejected
    ensures Resolves(c, feeKnown, child.input, AvailableParents(Found(c, child.input)))
    ensures
      var pool := c.mempool[child.txid := child];
      p !in pool && exists t :: t in pool && p in pool[t].Parents()
  {
    hide Transaction.Parents;
    forall o | o in child.input ensures StateOf(c, feeKnown, o.txid) == IsCached {
      InputIsParent(child, o);
    }
    assert child.txid in c.mempool[child.txid := child];
  }

  lemma InputIsParent(tx: Transaction, o: OutPoint)
    requires o in tx.input
    ensures o.txid in tx.Parents()
  {
  }

  lemma EmptyMeansNone(c: ParentCaches, feeKnown: bool, vin: seq<OutPoint>, state: ParentState)
    requires InVinOrder(c, feeKnown, vin, state) == []
    ensures NoneIn(c, feeKnown, vin, state)
  {
    InVinOrderComplete(c, feeKnown, vin, state);
  }

  lemma FoundStep(c: ParentCaches, vin: seq<OutPoint>, o: OutPoint)
    ensures o.txid in c.txCache ==> Found(c, vin + [o]) == Found(c, vin)[o.txid := c.txCache[o.txid]]
    ensures o.txid !in c.txCache && o.txid in c.mempool ==>
              Found(c, vin + [o]) == Found(c, vin)[o.txid := c.mempool[o.txid]]
    ensures o.txid !in c.txCache && o.txid !in c.mempool ==> Found(c, vin + [o]) == Found(c, vin)
  {
  }

  lemma OrderStep(c: ParentCaches, feeKnown: bool, vin: seq<OutPoint>, o: OutPoint, state: ParentState)
    ensures InVinOrder(c, feeKnown, vin + [o], state) ==
            if StateOf(c, feeKnown, o.txid) == state then Replace(InVinOrder(c, feeKnown, vin, state), o.txid)
            else InVinOrder(c, feeKnown, vin, state)
  {
    assert (vin + [o])[..|vin|] == vin;
  }

  method TryGetParentTxsFromCaches(c: ParentCaches, vin: seq<OutPoint>, feeKnown: bool) returns (r: ParentTxsResult)
    ensures Resolves(c, feeKnown, vin, r)
  {
    hide InVinOrder, Found, Replace;
    var abandoned: seq<Txid>, needed: seq<Txid>, unavailable: seq<Txid> := [], [], [];
    var found: map<Txid, Transaction> := map[];
    NothingFound(c, feeKnown);
    for i := 0 to |vin|
      invariant NoneIn(c, feeKnown, vin[..i], IsRejected)
      invariant needed == InVinOrder(c, feeKnown, vin[..i], IsNeeded)
      invariant unavailable == InVinOrder(c, feeKnown, vin[..i], IsUnavailable)
      invariant abandoned == InVinOrder(c, feeKnown, vin[..i], IsAbandoned)
      invariant found == Found(c, vin[..i])
    {
      var txid := vin[i].txid;
      assert vin[..i + 1] == vin[..i] + [vin[i]];
      FoundStep(c, vin[..i], vin[i]);
      OrderStep(c, feeKnown, vin[..i], vin[i], IsNeeded);
      OrderStep(c, feeKnown, vin[..i], vin[i], IsUnavailable);
      OrderStep(c, feeKnown, vin[..i], vin[i], IsAbandoned);
      if txid in c.rejected {
        return RejectedParent(txid);
      } else if txid in c.txCache {
        found := found[txid := c.txCache[txid]];
      } else if txid in c.mempool {
        found := found[txid := c.mempool[txid]];
      } else if txid in c.abandoned {
        abandoned := Replace(abandoned, txid);
      } else if txid in c.unavailable {
        unavailable := Replace(unavailable, txid);
      } else if feeKnown && txid !in c.mempoolTxids {
      } else {
        needed := Replace(needed, txid);
      }
    }
    assert vin[..|vin|] == vin;
    if needed != [] { return RequiredParents(needed); }
    EmptyMeansNone(c, feeKnown, vin, IsNeeded);
    if unavailable != [] { return UnavailableParents(unavailable); }
    EmptyMeansNone(c, feeKnown, vin, IsUnavailable);
    if abandoned != [] { return AbandonedParents(abandoned); }
    EmptyMeansNone(c, feeKnown, vin, IsAbandoned);
    return AvailableParents(found);
  }

  lemma NothingFound(c: ParentCaches, feeKnown: bool)
    ensures Found(c, []) == map[]
    ensures forall state :: InVinOrder(c, feeKnown, [], state) == []
  {
  }

  /** Without a fee from the node every parent must be at hand, so the fee can be summed over all inputs. */
  lemma FeeUnknownNeedsEveryParent(c: ParentCaches, vin: seq<OutPoint>, r: ParentTxsResult)
    requires Resolves(c, false, vin, r) && r.AvailableParents?
    ensures forall o :: o in vin ==> o.txid in r.txs
  {
    assert forall o :: o in vin ==> StateOf(c, false, o.txid) in {IsCached, InMempool, NotNeeded};
  }

  /** An arriving tx asks for a parent exactly when no cache holds it and its value or its state still matters. */
  predicate NeedsParentFetch(txCache: map<Txid, Transaction>, mempoolTxids: set<Txid>, feeKnown: bool, p: Txid) {
    p !in txCache && (!feeKnown || p in mempoolTxids)
  }

  /** Every parent that resolution would later call needed is fetched when its child arrives. */
  lemma FetchedEarly(c: ParentCaches, feeKnown: bool, p: Txid)
    ensures StateOf(c, feeKnown, p) == IsNeeded ==> NeedsParentFetch(c.txCache, c.mempoolTxids, feeKnown, p)
    ensures NeedsParentFetch(c.txCache, c.mempoolTxids, feeKnown, p) ==>
              StateOf(c, feeKnown, p) in {IsRejected, InMempool, IsAbandoned, IsUnavailable, IsNeeded}
  {
  }

  // ---------------------------------------------------------------- fees

  datatype FeeResult = Fee(value: nat) | ValueInOverflow | ValueOutOverflow | FeeOverflow

  predicate Spendable(vin: seq<OutPoint>, inputTxs: map<Txid, Transaction>) {
    forall o :: o in vin ==> o.txid in inputTxs && o.vout < |inputTxs[o.txid].output|
  }

  ghost function ValueIn(vin: seq<OutPoint>, inputTxs: map<Txid, Transaction>): nat
    requires Spendable(vin, inputTxs)
  {
    if vin == [] then 0 else
    var o := vin[|vin| - 1];
    ValueIn(vin[..|vin| - 1], inputTxs) + inputTxs[o.txid].output[o.vout]
  }

  ghost function ValueOut(output: seq<nat>): nat {
    if output == [] then 0 else ValueOut(output[..|output| - 1]) + output[|output| - 1]
  }

  lemma {:induction false} ValueInPrefix(vin: seq<OutPoint>, inputTxs: map<Txid, Transaction>, i: nat)
    requires Spendable(vin, inputTxs) && i <= |vin|
    ensures Spendable(vin[..i], inputTxs) && ValueIn(vin[..i], inputTxs) <= ValueIn(vin, inputTxs)
  {
    if i < |vin| {
      ValueInPrefix(vin[..|vin| - 1], inputTxs, i);
      assert vin[..|vin| - 1][..i] == vin[..i];
    } else {
      assert vin[..i] == vin;
    }
  }

  lemma {:induction false} ValueOutPrefix(output: seq<nat>, i: nat)
    requires i <= |output|
    ensures ValueOut(output[..i]) <= ValueOut(output)
  {
    if i < |output| {
      ValueOutPrefix(output[..|output| - 1], i);
      assert output[..|output| - 1][..i] == output[..i];
    } else {
      assert output[..i] == output;
    }
  }

  /** The fee is what comes in less what goes out, unless a sum overflows or more goes out than comes in. */
  method FeeDelta(tx: Transaction, inputTxs: map<Txid, Transaction>) returns (r: FeeResult)
    requires Spendable(tx.input, inputTxs)
    ensures r.Fee? ==> ValueOut(tx.output) + r.value == ValueIn(tx.input, inputTxs)
    ensures r.Fee? <==> ValueOut(tx.output) <= ValueIn(tx.input, inputTxs) <= U64_MAX
    ensures r.ValueInOverflow? <==> ValueIn(tx.input, inputTxs) > U64_MAX
    ensures r.ValueOutOverflow? <==> ValueIn(tx.input, inputTxs) <= U64_MAX < ValueOut(tx.output)
  {
    var valueIn: nat := 0;
    for i := 0 to |tx.input|
      invariant Spendable(tx.input[..i], inputTxs) && valueIn == ValueIn(tx.input[..i], inputTxs) <= U64_MAX
    {
      var o := tx.input[i];
      assert tx.input[..i + 1][..i] == tx.input[..i];
      valueIn := valueIn + inputTxs[o.txid].output[o.vout];
      ValueInPrefix(tx.input, inputTxs, i + 1);
      if valueIn > U64_MAX {
        return ValueInOverflow;
      }
    }
    assert tx.input[..|tx.input|] == tx.input;
    var valueOut: nat := 0;
    for i := 0 to |tx.output|
      invariant valueOut == ValueOut(tx.output[..i]) <= U64_MAX
    {
      assert tx.output[..i + 1][..i] == tx.output[..i];
      valueOut := valueOut + tx.output[i];
      ValueOutPrefix(tx.output, i + 1);
      if valueOut > U64_MAX {
        return ValueOutOverflow;
      }
    }
    assert tx.output[..|tx.output|] == tx.output;
    if valueIn < valueOut {
      return FeeOverflow;
    }
    return Fee(valueIn - valueOut);
  }
}
