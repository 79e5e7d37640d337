/** Fee, virtual size and weight of sets of transactions. */
module TotalsSums {
  import opened Types

  /** A fee, a virtual size and a modified weight, the three quantities the mempool caches per transaction. */
  datatype Totals = Totals(fee: nat, vsize: nat, weight: nat)

  const ZERO: Totals := Totals(0, 0, 0)

  function Add(a: Totals, b: Totals): Totals {
    Totals(a.fee + b.fee, a.vsize + b.vsize, a.weight + b.weight)
  }

  predicate Leq(a: Totals, b: Totals) {
    a.fee <= b.fee && a.vsize <= b.vsize && a.weight <= b.weight
  }

  /** Weights are u64 values that saturate. */
  function Cap(a: Totals): Totals {
    a.(weight := Min(a.weight, U64_MAX))
  }

  /** `+=` on fee and vsize, `saturating_add_weight` on the weight. */
  function Credit(a: Totals, b: Totals): Totals {
    Totals(a.fee + b.fee, a.vsize + b.vsize, SaturatingAdd(a.weight, b.weight))
  }

  /** Whether the checked subtractions in `Debit` succeed. */
  predicate CanDebit(a: Totals, b: Totals) {
    b.fee <= a.fee && b.vsize <= a.vsize
  }

  /** `-=` on fee and vsize (which must not underflow, see `CanDebit`), `saturating_sub_weight` on the weight. */
  function Debit(a: Totals, b: Totals): Totals {
    Totals(SaturatingSub(a.fee, b.fee), SaturatingSub(a.vsize, b.vsize), SaturatingSub(a.weight, b.weight))
  }

  type Measure = map<Txid, Totals>

  ghost function At(f: Measure, x: Txid): Totals {
    if x in f then f[x] else ZERO
  }

  /** The exact total of `f` over the set `s`. */
  ghost function Sum(s: set<Txid>, f: Measure): Totals
    decreases |s|
  {
    if s == {} then ZERO else
    var x :| x in s;
    Add(At(f, x), Sum(s - {x}, f))
  }

  lemma AddSwap(a: Totals, b: Totals, c: Totals)
    ensures Add(a, Add(b, c)) == Add(b, Add(a, c))
  {
  }

  lemma {:induction false} SumSplit(s: set<Txid>, f: Measure, x: Txid)
    requires x in s
    ensures Sum(s, f) == Add(At(f, x), Sum(s - {x}, f))
    decreases |s|
  {
    var y := SumChoice(s, f);
    hide Sum, Add, At;
    if y != x {
      var rest := s - {x} - {y};
      assert s - {y} - {x} == rest;
      SumSplit(s - {y}, f, x);
      SumSplit(s - {x}, f, y);
      AddSwap(At(f, y), At(f, x), Sum(rest, f));
    }
  }

  lemma SumChoice(s: set<Txid>, f: Measure) returns (y: Txid)
    requires s != {}
    ensures y in s && Sum(s, f) == Add(At(f, y), Sum(s - {y}, f))
  {
    y :| y in s && Sum(s, f) == Add(At(f, y), Sum(s - {y}, f));
  }

  lemma SumInsert(s: set<Txid>, f: Measure, x: Txid)
    requires x !in s
    ensures Sum(s + {x}, f) == Add(At(f, x), Sum(s, f))
  {
    SumSplit(s + {x}, f, x);
    assert s + {x} - {x} == s;
  }

  lemma {:induction false} SumMonotone(s: set<Txid>, t: set<Txid>, f: Measure)
    requires s <= t
    ensures Leq(Sum(s, f), Sum(t, f))
    decreases |s|
  {
    if s != {} {
      var x :| x in s;
      SumSplit(s, f, x);
      SumSplit(t, f, x);
      SumMonotone(s - {x}, t - {x}, f);
    }
  }

  /** A set that lacks a member of positive weight weighs less. */
  lemma SumStrict(s: set<Txid>, t: set<Txid>, f: Measure, y: Txid)
    requires s <= t && y in t && y !in s && At(f, y).weight > 0
    ensures Sum(s, f).weight < Sum(t, f).weight
  {
    hide Sum, At;
    SumSplit(t, f, y);
    SumMonotone(s, t - {y}, f);
  }

  lemma {:induction false} SumAgree(s: set<Txid>, f: Measure, g: Measure)
    requires forall x :: x in s ==> At(f, x) == At(g, x)
    ensures Sum(s, f) == Sum(s, g)
    decreases |s|
  {
    if s != {} {
      var x :| x in s;
      SumSplit(s, f, x);
      SumSplit(s, g, x);
      SumAgree(s - {x}, f, g);
    }
  }
}
