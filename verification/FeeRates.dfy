/** Fee rates and their refinement order. */
module FeeRates {
  import opened Types

  datatype FeeRate = FeeRate(fee: nat, vsize: nat)

  datatype Ordering = Less | Equal | Greater

  function Compare(a: nat, b: nat): Ordering {
    if a < b then Less else if a > b then Greater else Equal
  }

  /** Cross-multiplied quotient comparison; ties are broken by vsize. */
  function RefinementCmp(a: FeeRate, b: FeeRate): Ordering {
    match Compare(a.fee * b.vsize, b.fee * a.vsize)
    case Equal => Compare(a.vsize, b.vsize)
    case ordering => ordering
  }

  predicate Below(a: FeeRate, b: FeeRate) {
    RefinementCmp(a, b) == Less
  }

  lemma MulCancel(a: nat, b: nat, c: nat)
    requires c > 0 && a * c <= b * c
    ensures a <= b
    ensures a * c < b * c ==> a < b
  {
  }

  /** Two rates compare equal exactly when they are the same rate or both have vsize zero. */
  lemma EqualIff(a: FeeRate, b: FeeRate)
    ensures RefinementCmp(a, b) == Equal <==> a == b || (a.vsize == 0 && b.vsize == 0)
  {
    if a.vsize == b.vsize && a.vsize > 0 {
      if a.fee * b.vsize == b.fee * a.vsize {
        MulCancel(a.fee, b.fee, a.vsize);
        MulCancel(b.fee, a.fee, a.vsize);
      }
    }
  }

  lemma Reversed(a: FeeRate, b: FeeRate)
    ensures RefinementCmp(a, b) == Less <==> RefinementCmp(b, a) == Greater
    ensures RefinementCmp(a, b) == Equal <==> RefinementCmp(b, a) == Equal
  {
  }

  /** How a rate of vsize zero compares: above every positive rate if it has a fee, below them all if not. */
  lemma BelowAtZero(a: FeeRate, b: FeeRate)
    ensures a.vsize == 0 ==> (Below(a, b) <==> a.fee == 0 && b.vsize > 0)
    ensures b.vsize == 0 ==> (Below(a, b) <==> b.fee > 0 && a.vsize > 0)
  {
    if a.vsize == 0 && b.vsize > 0 && a.fee > 0 {
      MulMonotone(1, a.fee, b.vsize);
    }
    if b.vsize == 0 && a.vsize > 0 && b.fee > 0 {
      MulMonotone(1, b.fee, a.vsize);
    }
  }

  /** Two steps up the order make one, unless they lead from a rate of vsize zero to another. */
  lemma BelowTransitiveIff(a: FeeRate, b: FeeRate, c: FeeRate)
    requires Below(a, b) && Below(b, c)
    ensures Below(a, c) <==> !(a.vsize == 0 && c.vsize == 0)
  {
    if a.vsize > 0 && b.vsize > 0 && c.vsize > 0 {
      CrossChain(a.fee * b.vsize, b.fee * a.vsize, b.fee * c.vsize, c.fee * b.vsize, a, b, c);
    } else {
      hide Below;
      BelowAtZero(a, b);
      BelowAtZero(b, c);
      BelowAtZero(a, c);
    }
  }

  lemma CrossChain(ab: nat, ba: nat, bc: nat, cb: nat, a: FeeRate, b: FeeRate, c: FeeRate)
    requires a.vsize > 0 && b.vsize > 0 && c.vsize > 0
    requires ab == a.fee * b.vsize && ba == b.fee * a.vsize && bc == b.fee * c.vsize && cb == c.fee * b.vsize
    requires ab < ba || (ab == ba && a.vsize < b.vsize)
    requires bc < cb || (bc == cb && b.vsize < c.vsize)
    ensures Below(a, c)
  {
    var ac, ca := a.fee * c.vsize, c.fee * a.vsize;
    Reorder(a.fee, b.vsize, c.vsize);
    Reorder(b.fee, a.vsize, c.vsize);
    Reorder(c.fee, b.vsize, a.vsize);
    assert ac * b.vsize == ab * c.vsize;
    assert ba * c.vsize == bc * a.vsize;
    assert ca * b.vsize == cb * a.vsize;
    MulMonotone(ab, ba, c.vsize);
    MulMonotone(bc, cb, a.vsize);
    MulCancel(ac, ca, b.vsize);
    hide Below;
    assert ac < ca || (ac == ca && a.vsize < c.vsize);
    BelowByCross(a, c);
  }

  lemma BelowByCross(a: FeeRate, c: FeeRate)
    requires a.fee * c.vsize < c.fee * a.vsize || (a.fee * c.vsize == c.fee * a.vsize && a.vsize < c.vsize)
    ensures Below(a, c)
  {
  }

  lemma Reorder(x: nat, y: nat, z: nat)
    ensures (x * y) * z == (x * z) * y
  {
  }

  lemma MulMonotone(x: nat, y: nat, z: nat)
    requires x <= y && z > 0
    ensures x * z <= y * z
    ensures x < y ==> x * z < y * z
  {
  }

  lemma MulBound(a: nat, b: nat, c: nat, d: nat)
    requires a <= c && b <= d
    ensures a * b <= c * d
  {
    assert a * b <= c * b <= c * d;
  }

  /** u64 fees and sizes multiply without overflowing u128. */
  lemma ProductsFitU128(a: FeeRate, b: FeeRate)
    requires a.fee <= U64_MAX && b.vsize <= U64_MAX
    ensures a.fee * b.vsize < 0x1_0000_0000_0000_0000_0000_0000_0000_0000
  {
    MulBound(a.fee, b.vsize, U64_MAX, U64_MAX);
  }

  /** The order refines the order of the quotients fee / vsize, and sorts equal quotients by vsize. */
  lemma RefinesQuotient(a: FeeRate, b: FeeRate)
    requires a.vsize > 0 && b.vsize > 0
    ensures var qa, qb := a.fee as real / a.vsize as real, b.fee as real / b.vsize as real;
            Below(a, b) <==> qa < qb || (qa == qb && a.vsize < b.vsize)
  {
    var qa, qb := a.fee as real / a.vsize as real, b.fee as real / b.vsize as real;
    var va, vb := a.vsize as real, b.vsize as real;
    assert qa * va == a.fee as real && qb * vb == b.fee as real;
    assert (a.fee * b.vsize) as real == qa * (va * vb);
    assert (b.fee * a.vsize) as real == qb * (va * vb);
    RealMulOrder(qa, qb, va * vb);
  }

  lemma RealMulOrder(x: real, y: real, z: real)
    requires z > 0.0
    ensures x < y <==> x * z < y * z
  {
    if x < y {
      assert (y - x) * z > 0.0;
    } else {
      assert (x - y) * z >= 0.0;
    }
  }

  /** On these rates the comparison is a strict total order. */
  ghost predicate Lawful(rates: set<FeeRate>) {
    && (forall a, b :: a in rates && b in rates && RefinementCmp(a, b) == Equal ==> a == b)
    && (forall a, b, c :: a in rates && b in rates && c in rates && Below(a, b) && Below(b, c) ==> Below(a, c))
  }

  /** No two different rates have vsize zero. */
  ghost predicate AtMostOneZero(rates: set<FeeRate>) {
    forall a, b :: a in rates && b in rates && a.vsize == 0 && b.vsize == 0 ==> a == b
  }

  /** The comparison is an order on exactly those sets of rates that hold at most one of vsize zero. */
  lemma LawfulIff(rates: set<FeeRate>)
    ensures Lawful(rates) <==> AtMostOneZero(rates)
  {
    hide RefinementCmp, Below;
    if AtMostOneZero(rates) {
      forall a, b | a in rates && b in rates && RefinementCmp(a, b) == Equal ensures a == b {
        EqualIff(a, b);
      }
      forall a, b, c | a in rates && b in rates && c in rates && Below(a, b) && Below(b, c) ensures Below(a, c) {
        BelowTransitiveIff(a, b, c);
        NotBelowItself(a, b);
      }
    } else {
      var a, b :| a in rates && b in rates && a.vsize == 0 && b.vsize == 0 && a != b;
      EqualIff(a, b);
    }
  }

  lemma NotBelowItself(a: FeeRate, b: FeeRate)
    ensures !(Below(a, b) && Below(b, a))
  {
    Reversed(a, b);
  }

  /** Between two different rates of vsize zero, one of them without a fee, lie all positive rates, yet they tie. */
  lemma ZeroVsizeTies(a: FeeRate, b: FeeRate, c: FeeRate)
    requires a.vsize == 0 && a.fee == 0 && c.vsize == 0 && c.fee > 0 && b.vsize > 0
    ensures Below(a, b) && Below(b, c) && RefinementCmp(a, c) == Equal
  {
    BelowAtZero(a, b);
    BelowAtZero(b, c);
  }
}
