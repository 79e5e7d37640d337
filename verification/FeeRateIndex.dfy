/** The mempool's index of txids by ancestor fee rate. */
module FeeRateIndex {
  import opened Types
  import opened LinkedSets
  import opened FeeRates

  datatype Bucket = Bucket(rate: FeeRate, txids: seq<Txid>)

  datatype Slot = Slot(rate: FeeRate, txid: Txid)

  ghost predicate WellFormed(buckets: seq<Bucket>) {
    && (forall i, j :: 0 <= i < j < |buckets| ==> Below(buckets[i].rate, buckets[j].rate))
    && (forall i :: 0 <= i < |buckets| ==> buckets[i].txids != [] && Distinct(buckets[i].txids))
  }

  /** No bucket has a different rate of vsize zero, so the rates together are ordered. */
  ghost predicate Orderable(buckets: seq<Bucket>, rate: FeeRate) {
    rate.vsize == 0 ==> forall i :: 0 <= i < |buckets| && buckets[i].rate.vsize == 0 ==> buckets[i].rate == rate
  }

  /** The rates of a well-formed index and a rate that fits in are lawfully ordered. */
  lemma OrderableIff(buckets: seq<Bucket>, rate: FeeRate)
    requires WellFormed(buckets)
    ensures Orderable(buckets, rate) <==> Lawful((set i | 0 <= i < |buckets| :: buckets[i].rate) + {rate})
  {
    hide RefinementCmp, Below;
    var rates := (set i | 0 <= i < |buckets| :: buckets[i].rate) + {rate};
    LawfulIff(rates);
    forall i | 0 <= i < |buckets| ensures buckets[i].rate in rates {
    }
    forall i, j | 0 <= i < j < |buckets| ensures !(buckets[i].rate.vsize == 0 && buckets[j].rate.vsize == 0) {
      BelowAtZero(buckets[i].rate, buckets[j].rate);
    }
  }

  ghost predicate InBucket(buckets: seq<Bucket>, slot: Slot) {
    exists i :: 0 <= i < |buckets| && buckets[i].rate == slot.rate && slot.txid in buckets[i].txids
  }

  ghost function SlotsOf(buckets: seq<Bucket>): set<Slot> {
    set i, j | 0 <= i < |buckets| && 0 <= j < |buckets[i].txids| :: Slot(buckets[i].rate, buckets[i].txids[j])
  }

  lemma InSlots(buckets: seq<Bucket>, slot: Slot)
    ensures slot in SlotsOf(buckets) <==> InBucket(buckets, slot)
  {
    if InBucket(buckets, slot) {
      var i :| 0 <= i < |buckets| && buckets[i].rate == slot.rate && slot.txid in buckets[i].txids;
      var j :| 0 <= j < |buckets[i].txids| && buckets[i].txids[j] == slot.txid;
      assert Slot(buckets[i].rate, buckets[i].txids[j]) == slot;
    }
  }

  /** Two buckets never share a rate. */
  lemma RatesDiffer(buckets: seq<Bucket>, i: nat, j: nat)
    requires WellFormed(buckets) && i < |buckets| && j < |buckets| && i != j
    ensures buckets[i].rate != buckets[j].rate
  {
    EqualIff(buckets[i].rate, buckets[j].rate);
    Reversed(buckets[i].rate, buckets[j].rate);
  }

  /** Whether the txs of a rate fit: `Weight::from_vb(rate.vsize)` exists and is within the remaining weight. */
  predicate Fits(rate: FeeRate, remaining: nat) {
    var weight := WeightFromVb(rate.vsize);
    weight.Some? && weight.value <= remaining
  }

  /** No slot that fits has a higher rate. */
  ghost predicate Best(slots: set<Slot>, slot: Slot, remaining: nat) {
    && slot in slots
    && Fits(slot.rate, remaining)
    && forall other :: other in slots && Fits(other.rate, remaining) ==> !Below(slot.rate, other.rate)
  }

  class ByAncestorFeeRate {
    /** Ascending in the refinement order of the rates; txids in insertion order. */
    var buckets: seq<Bucket>

    ghost predicate Valid()
      reads this
    {
      WellFormed(buckets)
    }

    ghost function Slots(): set<Slot>
      reads this
    {
      SlotsOf(buckets)
    }

    constructor ()
      ensures Valid() && Slots() == {}
    {
      buckets := [];
    }

    constructor Clone(other: ByAncestorFeeRate)
      requires other.Valid()
      ensures Valid() && buckets == other.buckets
    {
      buckets := other.buckets;
    }

    /** The place of `rate`: everything before is lower, everything after is higher. */
    method Position(rate: FeeRate) returns (i: nat, found: bool)
      requires Valid() && Orderable(buckets, rate)
      ensures i <= |buckets|
      ensures forall k :: 0 <= k < i ==> Below(buckets[k].rate, rate)
      ensures found ==> i < |buckets| && buckets[i].rate == rate
      ensures !found ==> forall k :: i <= k < |buckets| ==> Below(rate, buckets[k].rate)
    {
      i := 0;
      while i < |buckets| && Below(buckets[i].rate, rate)
        invariant i <= |buckets|
        invariant forall k :: 0 <= k < i ==> Below(buckets[k].rate, rate)
      {
        i := i + 1;
      }
      found := i < |buckets| && RefinementCmp(buckets[i].rate, rate) == Equal;
      if i < |buckets| {
        EqualIff(buckets[i].rate, rate);
        Reversed(buckets[i].rate, rate);
        if !found {
          forall k | i < k < |buckets| ensures Below(rate, buckets[k].rate) {
            BelowTransitiveIff(rate, buckets[i].rate, buckets[k].rate);
          }
        }
      }
    }

    method Insert(rate: FeeRate, txid: Txid)
      requires Valid() && Orderable(buckets, rate)
      modifies this
      ensures Valid()
      ensures Slots() == old(Slots()) + {Slot(rate, txid)}
      ensures exists i: nat, found: bool :: Grown(old(buckets), buckets, i, found, rate, txid)
    {
      var i, found := Position(rate);
      ghost var before := buckets;
      if found {
        InsertBackDistinct(buckets[i].txids, txid);
        buckets := buckets[i := Bucket(rate, InsertBack(buckets[i].txids, txid))];
      } else {
        buckets := buckets[..i] + [Bucket(rate, [txid])] + buckets[i..];
        assert forall k :: 0 <= k < |buckets| ==>
          buckets[k] == if k < i then before[k] else if k == i then Bucket(rate, [txid]) else before[k - 1];
      }
      assert Grown(before, buckets, i, found, rate, txid);
      InsertSlots(before, buckets, i, found, rate, txid);
    }

    /** Returns whether the rate has a bucket; an emptied bucket is dropped. */
    method Remove(rate: FeeRate, txid: Txid) returns (removed: bool)
      requires Valid() && Orderable(buckets, rate)
      modifies this
      ensures Valid()
      ensures removed <==> exists other :: other in old(Slots()) && other.rate == rate
      ensures Slots() == old(Slots()) - {Slot(rate, txid)}
      ensures removed ==>
                exists i: nat :: i < |old(buckets)| && old(buckets)[i].rate == rate
                                 && Shrunk(old(buckets), buckets, i, txid)
      ensures !removed ==> buckets == old(buckets)
    {
      var i, found := Position(rate);
      ghost var before := buckets;
      removed := found;
      NoBucket(before, i, found, rate);
      if found {
        var txids := Without(buckets[i].txids, txid);
        WithoutDistinct(buckets[i].txids, txid);
        if txids == [] {
          buckets := buckets[..i] + buckets[i + 1..];
        } else {
          buckets := buckets[i := Bucket(rate, txids)];
        }
        assert Shrunk(before, buckets, i, txid);
        RemoveSlots(before, buckets, i, rate, txid);
      } else {
        assert Slot(rate, txid) !in SlotsOf(buckets) by { InSlots(buckets, Slot(rate, txid)); }
      }
    }

    /** The first entry, from high to low rate and in insertion order, whose rate fits the remaining weight. */
    method FindBest(remaining: nat) returns (best: Option<Slot>)
      requires Valid()
      ensures best.Some? ==> Best(Slots(), best.value, remaining)
      ensures best.Some? ==> exists i :: 0 <= i < |buckets| && buckets[i].rate == best.value.rate && buckets[i].txids[0] == best.value.txid
      ensures best.None? ==> forall slot :: slot in Slots() ==> !Fits(slot.rate, remaining)
    {
      var i := |buckets|;
      while i > 0
        invariant 0 <= i <= |buckets|
        invariant forall k :: i <= k < |buckets| ==> !Fits(buckets[k].rate, remaining)
      {
        i := i - 1;
        if Fits(buckets[i].rate, remaining) {
          var slot := Slot(buckets[i].rate, buckets[i].txids[0]);
          InSlots(buckets, slot);
          forall other | other in Slots() && Fits(other.rate, remaining) ensures !Below(slot.rate, other.rate) {
            InSlots(buckets, other);
            var k :| 0 <= k < |buckets| && buckets[k].rate == other.rate;
            Reversed(buckets[k].rate, buckets[i].rate);
            EqualIff(buckets[k].rate, buckets[i].rate);
          }
          return Some(slot);
        }
      }
      forall slot | slot in Slots() ensures !Fits(slot.rate, remaining) {
        InSlots(buckets, slot);
      }
      return None;
    }
  }

  lemma NoBucket(buckets: seq<Bucket>, i: nat, found: bool, rate: FeeRate)
    requires WellFormed(buckets) && i <= |buckets|
    requires forall k :: 0 <= k < i ==> Below(buckets[k].rate, rate)
    requires found ==> i < |buckets| && buckets[i].rate == rate
    requires !found ==> forall k :: i <= k < |buckets| ==> Below(rate, buckets[k].rate)
    ensures found <==> exists other :: other in SlotsOf(buckets) && other.rate == rate
  {
    if found {
      var slot := Slot(rate, buckets[i].txids[0]);
      InSlots(buckets, slot);
    } else if other :| other in SlotsOf(buckets) && other.rate == rate {
      InSlots(buckets, other);
      var k :| 0 <= k < |buckets| && buckets[k].rate == rate;
      EqualIff(rate, rate);
    }
  }

  /** `after` is `before` with `txid` moved to the back of bucket `i`, or alone in a new bucket `i`. */
  ghost predicate Grown(before: seq<Bucket>, after: seq<Bucket>, i: nat, found: bool, rate: FeeRate, txid: Txid) {
    && i <= |before|
    && (found ==> i < |before| && before[i].rate == rate &&
                  after == before[i := Bucket(rate, InsertBack(before[i].txids, txid))])
    && (!found ==> after == before[..i] + [Bucket(rate, [txid])] + before[i..])
  }

  lemma InsertSlots(before: seq<Bucket>, after: seq<Bucket>, i: nat, found: bool, rate: FeeRate, txid: Txid)
    requires Grown(before, after, i, found, rate, txid)
    ensures SlotsOf(after) == SlotsOf(before) + {Slot(rate, txid)}
  {
    hide SlotsOf, InBucket, Grown;
    forall slot ensures slot in SlotsOf(after) <==> slot in SlotsOf(before) + {Slot(rate, txid)} {
      InSlots(before, slot);
      InSlots(after, slot);
      if InBucket(before, slot) || slot == Slot(rate, txid) { GrownKeeps(before, after, i, found, rate, txid, slot); }
      if InBucket(after, slot) { GrownAddsOne(before, after, i, found, rate, txid, slot); }
    }
  }

  lemma GrownKeeps(before: seq<Bucket>, after: seq<Bucket>, i: nat, found: bool, rate: FeeRate, txid: Txid, slot: Slot)
    requires Grown(before, after, i, found, rate, txid)
    requires InBucket(before, slot) || slot == Slot(rate, txid)
    ensures InBucket(after, slot)
  {
    if slot == Slot(rate, txid) {
      assert after[i].rate == rate && txid in after[i].txids;
    } else {
      var k :| 0 <= k < |before| && before[k].rate == slot.rate && slot.txid in before[k].txids;
      var l := if found || k < i then k else k + 1;
      assert after[l].rate == slot.rate && slot.txid in after[l].txids;
    }
  }

  lemma GrownAddsOne(before: seq<Bucket>, after: seq<Bucket>, i: nat, found: bool, rate: FeeRate, txid: Txid, slot: Slot)
    requires Grown(before, after, i, found, rate, txid)
    requires InBucket(after, slot)
    ensures InBucket(before, slot) || slot == Slot(rate, txid)
  {
    if slot != Slot(rate, txid) {
      var k :| 0 <= k < |after| && after[k].rate == slot.rate && slot.txid in after[k].txids;
      var l := if found || k < i then k else k - 1;
      assert before[l].rate == slot.rate && slot.txid in before[l].txids;
    }
  }

  lemma RemoveSlots(before: seq<Bucket>, after: seq<Bucket>, i: nat, rate: FeeRate, txid: Txid)
    requires WellFormed(before) && i < |before| && before[i].rate == rate
    requires Shrunk(before, after, i, txid)
    ensures SlotsOf(after) == SlotsOf(before) - {Slot(rate, txid)}
  {
    forall k | 0 <= k < |before| && k != i ensures before[k].rate != rate {
      RatesDiffer(before, i, k);
    }
    hide WellFormed, SlotsOf, InBucket, Shrunk;
    forall slot ensures slot in SlotsOf(after) <==> slot in SlotsOf(before) - {Slot(rate, txid)} {
      InSlots(before, slot);
      InSlots(after, slot);
      if InBucket(before, slot) && slot != Slot(rate, txid) { ShrunkKeeps(before, after, i, txid, slot); }
      if InBucket(after, slot) { ShrunkAddsNone(before, after, i, txid, slot); }
    }
  }

  /** `after` is `before` with `txid` taken out of bucket `i`, and the bucket dropped if that empties it. */
  ghost predicate Shrunk(before: seq<Bucket>, after: seq<Bucket>, i: nat, txid: Txid)
    requires i < |before|
  {
    after == if Without(before[i].txids, txid) == [] then before[..i] + before[i + 1..]
             else before[i := Bucket(before[i].rate, Without(before[i].txids, txid))]
  }

  lemma ShrunkKeeps(before: seq<Bucket>, after: seq<Bucket>, i: nat, txid: Txid, slot: Slot)
    requires i < |before| && Shrunk(before, after, i, txid)
    requires InBucket(before, slot) && slot != Slot(before[i].rate, txid)
    ensures InBucket(after, slot)
  {
    var k :| 0 <= k < |before| && before[k].rate == slot.rate && slot.txid in before[k].txids;
    assert k == i ==> slot.txid in Without(before[i].txids, txid);
    var l := if Without(before[i].txids, txid) != [] || k < i then k else k - 1;
    assert after[l].rate == slot.rate && slot.txid in after[l].txids;
  }

  lemma ShrunkAddsNone(before: seq<Bucket>, after: seq<Bucket>, i: nat, txid: Txid, slot: Slot)
    requires i < |before| && Shrunk(before, after, i, txid)
    requires forall k :: 0 <= k < |before| && k != i ==> before[k].rate != before[i].rate
    requires InBucket(after, slot)
    ensures InBucket(before, slot) && slot != Slot(before[i].rate, txid)
  {
    var k :| 0 <= k < |after| && after[k].rate == slot.rate && slot.txid in after[k].txids;
    var dropped := Without(before[i].txids, txid) == [];
    var l := if !dropped || k < i then k else k + 1;
    assert l == i ==> !dropped && slot.txid in Without(before[i].txids, txid);
    assert before[l].rate == slot.rate && slot.txid in before[l].txids;
  }
}
