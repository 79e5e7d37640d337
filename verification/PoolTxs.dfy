/** Pool entries, the graphs they span, and what every reachable pool satisfies. */
module PoolTxs {
  import opened Types
  import opened Graph
  import opened TotalsSums
  import opened FeeRates
  import opened FeeRateIndex

  /**
   * Per-transaction bookkeeping. `own` holds the fee, virtual size and modified weight of the
   * transaction itself; `ancestor` and `descendant` are the cached totals over the
   * transaction together with its ancestors, respectively its descendants.
   */
  datatype TxInfo = TxInfo(
    own: Totals,
    ancestor: Totals,
    descendant: Totals,
    depends: set<Txid>,
    spentBy: set<Txid>,
    conflictsWith: set<Txid>)

  datatype Entry = Entry(tx: Transaction, info: TxInfo)

  type Txs = map<Txid, Entry>

  ghost function DependsGraph(txs: Txs): Edges {
    map t | t in txs :: txs[t].info.depends
  }

  ghost function SpenderGraph(txs: Txs): Edges {
    map t | t in txs :: txs[t].info.spentBy
  }

  ghost function Ancestors(txs: Txs, t: Txid): set<Txid> {
    ReachSet(DependsGraph(txs), t)
  }

  ghost function Descendants(txs: Txs, t: Txid): set<Txid> {
    ReachSet(SpenderGraph(txs), t)
  }

  ghost function Own(txs: Txs): Measure {
    map t | t in txs :: txs[t].info.own
  }

  /** Pool transactions that spend an output of `t`, which need not be in the pool itself. */
  ghost function Spenders(txs: Txs, t: Txid): set<Txid> {
    set c | c in txs && t in txs[c].tx.Parents()
  }

  /** The exact totals over `t` and its ancestors. */
  ghost function AncestorTotals(txs: Txs, t: Txid): Totals {
    Add(At(Own(txs), t), Sum(Ancestors(txs, t), Own(txs)))
  }

  /** The exact totals over `t` and its descendants. */
  ghost function DescendantTotals(txs: Txs, t: Txid): Totals {
    Add(At(Own(txs), t), Sum(Descendants(txs, t), Own(txs)))
  }

  /** The fee rate under which an entry is indexed. */
  function RateOf(info: TxInfo): FeeRate {
    FeeRate(info.ancestor.fee, VbytesCeil(info.ancestor.weight))
  }

  /** The rates under which the entries of a pool are indexed. */
  ghost function Rates(txs: Txs): set<FeeRate> {
    set t | t in txs :: RateOf(txs[t].info)
  }

  /** The rates of a pool are lawfully ordered unless two entries whose cached weight is zero cache different fees. */
  lemma RatesLawfulIff(txs: Txs)
    ensures Lawful(Rates(txs)) <==>
              forall t, u :: t in txs && u in txs && txs[t].info.ancestor.weight == 0 && txs[u].info.ancestor.weight == 0 ==>
                txs[t].info.ancestor.fee == txs[u].info.ancestor.fee
  {
    hide Lawful;
    LawfulIff(Rates(txs));
    forall t | t in txs
      ensures RateOf(txs[t].info) in Rates(txs)
      ensures RateOf(txs[t].info).vsize == 0 <==> txs[t].info.ancestor.weight == 0
    {
    }
  }

  /** A tweak takes a transaction's modified weight to zero exactly when it takes off at least all of its weight. */
  lemma WeightVanishesIff(tx: Transaction, tweak: int, fee: nat)
    requires tx.weight > 0
    ensures var own := Totals(fee, tx.Vsize(), ModifiedWeight(tx.weight, tweak));
            FeeRate(fee, VbytesCeil(own.weight)).vsize == 0 <==> tx.weight + tweak <= 0
  {
  }

  /** The index contents that agree with the cached totals: one slot per transaction. */
  ghost function SlotsFor(txs: Txs): set<Slot> {
    set t | t in txs :: Slot(RateOf(txs[t].info), t)
  }

  ghost predicate Keyed(txs: Txs) {
    forall t :: t in txs ==> txs[t].tx.txid == t
  }

  /** The two edge sets are the in-pool parents and the in-pool spenders. */
  ghost predicate Wired(txs: Txs) {
    forall t :: t in txs ==>
      && txs[t].info.depends == txs[t].tx.Parents() * txs.Keys
      && txs[t].info.spentBy == Spenders(txs, t)
  }

  ghost predicate Sized(txs: Txs) {
    forall t :: t in txs ==> txs[t].info.own.vsize == txs[t].tx.Vsize() && 0 < txs[t].info.own.weight
  }

  /** No cached total is below the exact total it caches. */
  ghost predicate Covered(txs: Txs) {
    forall t :: t in txs ==>
      && Leq(AncestorTotals(txs, t), txs[t].info.ancestor)
      && Leq(DescendantTotals(txs, t), txs[t].info.descendant)
  }

  /** The cached ancestor totals are the exact ones. */
  ghost predicate AncestorsExact(txs: Txs) {
    forall t :: t in txs ==> txs[t].info.ancestor == AncestorTotals(txs, t)
  }

  /** The modified weights of the whole pool add up within a u64, so no partial sum saturates. */
  ghost predicate WeightBounded(txs: Txs) {
    Sum(txs.Keys, Own(txs)).weight <= U64_MAX
  }

  ghost predicate PoolValid(txs: Txs) {
    && Keyed(txs)
    && Wired(txs)
    && Sized(txs)
    && Acyclic(DependsGraph(txs))
    && Covered(txs)
    && WeightBounded(txs)
  }

  lemma GraphsAreConverse(txs: Txs)
    requires Wired(txs)
    ensures Converse(DependsGraph(txs), SpenderGraph(txs))
  {
    forall a, b ensures b in Out(DependsGraph(txs), a) <==> a in Out(SpenderGraph(txs), b) {
    }
  }

  lemma SpendersAcyclic(txs: Txs)
    requires Wired(txs) && Acyclic(DependsGraph(txs))
    ensures Acyclic(SpenderGraph(txs))
  {
    GraphsAreConverse(txs);
    ConverseAcyclic(DependsGraph(txs), SpenderGraph(txs));
  }

  lemma AncestorIffDescendant(txs: Txs, a: Txid, d: Txid)
    requires Wired(txs)
    ensures a in Ancestors(txs, d) <==> d in Descendants(txs, a)
  {
    GraphsAreConverse(txs);
    ConverseReaches(DependsGraph(txs), SpenderGraph(txs), d, a);
    InReachSet(DependsGraph(txs), d, a);
    InReachSet(SpenderGraph(txs), a, d);
  }

  lemma RelativesInPool(txs: Txs, t: Txid)
    requires Wired(txs)
    ensures Ancestors(txs, t) <= txs.Keys
    ensures Descendants(txs, t) <= txs.Keys
  {
    ReachSetLeast(DependsGraph(txs), t, txs.Keys);
    ReachSetLeast(SpenderGraph(txs), t, txs.Keys);
  }

  lemma NotOwnRelative(txs: Txs, t: Txid)
    requires Wired(txs) && Acyclic(DependsGraph(txs))
    ensures t !in Ancestors(txs, t) && t !in Descendants(txs, t)
  {
    InReachSet(DependsGraph(txs), t, t);
    AncestorIffDescendant(txs, t, t);
  }

  lemma ParentIsAncestor(txs: Txs, t: Txid, p: Txid)
    requires Wired(txs) && t in txs && p in txs[t].info.depends
    ensures p in Ancestors(txs, t) && t in Descendants(txs, p)
  {
    EdgeReaches(DependsGraph(txs), t, p);
    InReachSet(DependsGraph(txs), t, p);
    AncestorIffDescendant(txs, p, t);
  }

  /** The cached ancestor totals of a transaction cover itself and any one ancestor. */
  lemma AncestorCovers(txs: Txs, d: Txid, x: Txid)
    requires PoolValid(txs) && d in txs && x in Ancestors(txs, d)
    ensures x in txs && Leq(Add(txs[d].info.own, txs[x].info.own), txs[d].info.ancestor)
  {
    RelativesInPool(txs, d);
    SumSplit(Ancestors(txs, d), Own(txs), x);
  }

  lemma DescendantCovers(txs: Txs, a: Txid, x: Txid)
    requires PoolValid(txs) && a in txs && x in Descendants(txs, a)
    ensures x in txs && Leq(Add(txs[a].info.own, txs[x].info.own), txs[a].info.descendant)
  {
    RelativesInPool(txs, a);
    SumSplit(Descendants(txs, a), Own(txs), x);
  }

  /** Totals over a transaction and its relatives stay within the weight of the whole pool. */
  lemma RelativesWithinPool(txs: Txs, t: Txid)
    requires Wired(txs) && Acyclic(DependsGraph(txs)) && t in txs
    ensures Leq(AncestorTotals(txs, t), Sum(txs.Keys, Own(txs)))
    ensures Leq(DescendantTotals(txs, t), Sum(txs.Keys, Own(txs)))
  {
    RelativesInPool(txs, t);
    NotOwnRelative(txs, t);
    SumInsert(Ancestors(txs, t), Own(txs), t);
    SumMonotone(Ancestors(txs, t) + {t}, txs.Keys, Own(txs));
    SumInsert(Descendants(txs, t), Own(txs), t);
    SumMonotone(Descendants(txs, t) + {t}, txs.Keys, Own(txs));
  }

  lemma EmptyPoolValid()
    ensures PoolValid(map[]) && AncestorsExact(map[])
  {
    forall a ensures !Reaches(DependsGraph(map[]), a, a) {
      assert Closed(DependsGraph(map[]), {});
    }
  }

  lemma SlotsUpdated(txs: Txs, d: Txid, entry: Entry)
    requires d in txs
    ensures SlotsFor(txs[d := entry]) == SlotsFor(txs) - {Slot(RateOf(txs[d].info), d)} + {Slot(RateOf(entry.info), d)}
  {
    var after := txs[d := entry];
    forall slot ensures slot in SlotsFor(after) <==>
      slot in SlotsFor(txs) - {Slot(RateOf(txs[d].info), d)} + {Slot(RateOf(entry.info), d)}
    {
      SlotIn(txs, slot);
      SlotIn(after, slot);
    }
  }

  lemma SlotIn(txs: Txs, slot: Slot)
    ensures slot in SlotsFor(txs) <==> slot.txid in txs && slot.rate == RateOf(txs[slot.txid].info)
  {
    if slot.txid in txs && slot.rate == RateOf(txs[slot.txid].info) {
      assert slot == Slot(RateOf(txs[slot.txid].info), slot.txid);
    }
  }

  lemma SlotsWithout(txs: Txs, x: Txid)
    requires x in txs
    ensures SlotsFor(txs - {x}) == SlotsFor(txs) - {Slot(RateOf(txs[x].info), x)}
  {
    forall slot ensures slot in SlotsFor(txs - {x}) <==> slot in SlotsFor(txs) - {Slot(RateOf(txs[x].info), x)} {
      SlotIn(txs, slot);
      SlotIn(txs - {x}, slot);
    }
  }

  /** Entries with the same cached ancestor totals occupy the same slots. */
  lemma SlotsSame(txs: Txs, after: Txs)
    requires after.Keys == txs.Keys
    requires forall t :: t in txs ==> after[t].info.ancestor == txs[t].info.ancestor
    ensures SlotsFor(after) == SlotsFor(txs)
  {
    forall slot ensures slot in SlotsFor(after) <==> slot in SlotsFor(txs) {
      SlotIn(txs, slot);
      SlotIn(after, slot);
    }
  }
}
