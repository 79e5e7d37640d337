/** What the cascading removal and the restoration of the abandoned pool take out, and what they leave. */
module AbandonedClosures {
  import opened Types
  import opened LinkedSets
  import opened Graph
  import opened AbandonedTxs

  function TxidsOf(txs: seq<Transaction>): (ids: seq<Txid>)
    ensures |ids| == |txs|
  {
    seq(|txs|, i requires 0 <= i < |txs| => txs[i].txid)
  }

  lemma TxidsOfMore(txs: seq<Transaction>, tx: Transaction)
    ensures TxidsOf(txs + [tx]) == TxidsOf(txs) + [tx.txid]
  {
  }

  lemma ElementsMore(s: seq<Txid>, x: Txid)
    ensures Elements(s + [x]) == Elements(s) + {x}
    ensures Distinct(s) && x !in s ==> Distinct(s + [x])
  {
  }

  // ---------------------------------------------------------------- cascading removal

  /** `l` without the members of `gone`, the order of the rest unchanged. */
  ghost function Filter(l: seq<Txid>, gone: set<Txid>): (r: seq<Txid>)
    ensures forall x :: x in r <==> x in l && x !in gone
  {
    if l == [] then [] else
    var front := Filter(l[..|l| - 1], gone);
    var last := l[|l| - 1];
    assert l == l[..|l| - 1] + [last];
    if last in gone then front else front + [last]
  }

  lemma {:induction false} FilterDistinct(l: seq<Txid>, gone: set<Txid>)
    requires Distinct(l)
    ensures Distinct(Filter(l, gone))
  {
    if l != [] {
      FilterDistinct(l[..|l| - 1], gone);
      assert l[|l| - 1] !in l[..|l| - 1];
    }
  }

  lemma {:induction false} FilterNothing(l: seq<Txid>, gone: set<Txid>)
    requires forall x :: x in l ==> x !in gone
    ensures Filter(l, gone) == l
  {
    if l != [] {
      FilterNothing(l[..|l| - 1], gone);
    }
  }

  lemma {:induction false} FilterStep(l: seq<Txid>, gone: set<Txid>, t: Txid)
    ensures Without(Filter(l, gone), t) == Filter(l, gone + {t})
  {
    if l != [] {
      var front := l[..|l| - 1];
      FilterStep(front, gone, t);
      if l[|l| - 1] !in gone {
        assert (Filter(front, gone) + [l[|l| - 1]])[..|Filter(front, gone)|] == Filter(front, gone);
      }
    }
  }

  lemma {:induction false} FilterSame(l: seq<Txid>, gone: set<Txid>, t: Txid)
    requires t !in l
    ensures Filter(l, gone) == Filter(l, gone + {t})
  {
    if l != [] {
      FilterSame(l[..|l| - 1], gone, t);
    }
  }

  /** The txs directly below `x`: its children if it is pooled, else those waiting for it. */
  ghost function Below(s: Pool, x: Txid): set<Txid> {
    if x in s.abandoned then Elements(s.abandoned[x].childs) else Elements(LinksOf(s.absent, x))
  }

  ghost function FamilyGraph(s: Pool, t: Txid): Edges {
    map x | x in s.abandoned.Keys + s.absent.Keys + {t} ::
      if x == t then Below(s, t) + Elements(LinksOf(s.available, t)) else Below(s, x)
  }

  /** A tx and everything below it. */
  ghost function Family(s: Pool, t: Txid): set<Txid> {
    {t} + ReachSet(FamilyGraph(s, t), t)
  }

  /** An entry after the pooled txs of `gone` were removed one by one. */
  ghost function ThinEntry(a: AbandonedTx, gone: set<Txid>): AbandonedTx {
    a.(childs := Filter(a.childs, gone), abandonedParents := a.abandonedParents - gone,
       absentParents := a.absentParents + a.abandonedParents * gone)
  }

  ghost function ThinEntries(m: map<Txid, AbandonedTx>, gone: set<Txid>): map<Txid, AbandonedTx> {
    map u | u in m && u !in gone :: ThinEntry(m[u], gone)
  }

  ghost function ThinLinks(m: Links, seen: set<Txid>, gone: set<Txid>): Links {
    map p | p in m && p !in seen && Filter(m[p], gone) != [] :: Filter(m[p], gone)
  }

  /** `s'` is `s` after the txids of `seen` were visited and the pooled ones among them removed. */
  ghost predicate Thinned(s: Pool, s': Pool, seen: set<Txid>) {
    var gone := seen * s.abandoned.Keys;
    s'.abandoned == ThinEntries(s.abandoned, gone) && s'.absent == ThinLinks(s.absent, seen, gone)
  }

  /** Links to available parents only ever lose removed txs, and the list of the rejected tx. */
  ghost predicate AvailableKept(m: Links, m': Links, gone: set<Txid>, dropped: set<Txid>) {
    && (forall p, c :: c in LinksOf(m', p) ==> c in LinksOf(m, p))
    && (forall p, c {:trigger c in LinksOf(m, p)} ::
          c in LinksOf(m, p) && c !in gone && p !in dropped ==> c in LinksOf(m', p))
  }

  /** The txs handed back so far: each visited pooled tx, once. */
  ghost predicate TakenOut(s: Pool, removed: seq<Transaction>, seen: set<Txid>) {
    && Distinct(TxidsOf(removed))
    && Elements(TxidsOf(removed)) == seen * s.abandoned.Keys
    && forall tx :: tx in removed ==> tx.txid in s.abandoned && tx == s.abandoned[tx.txid].tx
  }

  lemma TakenNothing(s: Pool)
    ensures TakenOut(s, [], {})
  {
  }

  lemma TakenMore(s: Pool, removed: seq<Transaction>, seen: set<Txid>, t: Txid, spends: Spends)
    requires TakenOut(s, removed, seen) && Keyed(s, spends) && t in s.abandoned && t !in seen
    ensures TakenOut(s, removed + [s.abandoned[t].tx], seen + {t})
  {
    hide TxidsOf, Elements, Distinct;
    TxidsOfMore(removed, s.abandoned[t].tx);
    ElementsMore(TxidsOf(removed), t);
    InElements(TxidsOf(removed), t);
  }

  lemma InElements(l: seq<Txid>, t: Txid)
    ensures t in l <==> t in Elements(l)
  {
  }

  lemma TakenSame(s: Pool, removed: seq<Transaction>, seen: set<Txid>, t: Txid)
    requires TakenOut(s, removed, seen) && (t in seen || t !in s.abandoned)
    ensures TakenOut(s, removed, seen + {t})
    ensures (seen + {t}) * s.abandoned.Keys == seen * s.abandoned.Keys
  {
    assert (seen + {t}) * s.abandoned.Keys == seen * s.abandoned.Keys;
  }

  lemma AvailableStep(m: Links, m': Links, gone: set<Txid>, dropped: set<Txid>, ps: set<Txid>, t: Txid)
    requires AvailableKept(m, m', gone, dropped)
    ensures AvailableKept(m, Unlinked(m', ps, t), gone + {t}, dropped)
  {
    hide Unlinked, LinksOf;
    var m'' := Unlinked(m', ps, t);
    forall p, c | c in LinksOf(m'', p) ensures c in LinksOf(m, p) {
      UnlinkedMembers(m', ps, t, p, c);
    }
    forall p, c | c in LinksOf(m, p) && c !in gone + {t} && p !in dropped ensures c in LinksOf(m'', p) {
      UnlinkedMembers(m', ps, t, p, c);
    }
  }

  lemma AvailableRoot(m: Links, m': Links, gone: set<Txid>, root: Txid)
    requires AvailableKept(m, m', gone, {})
    ensures AvailableKept(m, m' - {root}, gone, {root})
  {
  }

  lemma ThinnedNothing(s: Pool, spends: Spends)
    requires Valid(s, spends)
    ensures Thinned(s, s, {})
  {
    hide Filter, Distinct, LinksFollowSpends, AbandonedAgree, AbsentLinked, AllBlocked, ChildsFollowSpends;
    assert {} * s.abandoned.Keys == {};
    forall u | u in s.abandoned ensures ThinEntry(s.abandoned[u], {}) == s.abandoned[u] {
      FilterNothing(s.abandoned[u].childs, {});
    }
    forall p | p in s.absent ensures Filter(s.absent[p], {}) == s.absent[p] {
      FilterNothing(s.absent[p], {});
    }
  }

  lemma FilterEither(l: seq<Txid>, gone: set<Txid>, t: Txid, spender: bool)
    requires !spender ==> t !in l
    ensures (if spender then Without(Filter(l, gone), t) else Filter(l, gone)) == Filter(l, gone + {t})
  {
    hide Filter;
    if spender { FilterStep(l, gone, t); } else { FilterSame(l, gone, t); }
  }

  lemma VisitPooledEntry(s: Pool, s1: Pool, gone: set<Txid>, t: Txid, u: Txid, spends: Spends)
    requires Keyed(s, spends) && ChildsFollowSpends(s, spends) && AbandonedAgree(s)
    requires s1.abandoned == ThinEntries(s.abandoned, gone)
    requires t in s1.abandoned && u in s1.abandoned && u != t
    ensures
      var s2 := AfterRemove(s1, t);
      u in s2.abandoned && s2.abandoned[u] == ThinEntry(s.abandoned[u], gone + {t})
  {
    hide AfterRemove, Distinct, Without, Filter;
    RemovedEntry(s1, t, u);
    FilterMembers(s.abandoned[t].childs, gone);
    FilterEither(s.abandoned[u].childs, gone, t, u in s.abandoned[t].tx.Parents());
    assert t in s.abandoned[u].abandonedParents <==> u in s.abandoned[t].childs;
    assert u in Elements(s1.abandoned[t].childs) <==> u in s.abandoned[t].childs;
  }

  lemma ThinLinksStep(m: Links, seen: set<Txid>, gone: set<Txid>, t: Txid, ps: set<Txid>)
    requires forall p :: p in m && p !in seen && t in m[p] ==> p in ps
    ensures Unlinked(ThinLinks(m, seen, gone), ps, t) - {t} == ThinLinks(m, seen + {t}, gone + {t})
  {
    hide Filter, Without;
    forall p | p in m && p !in seen
      ensures (if p in ps then Without(Filter(m[p], gone), t) else Filter(m[p], gone)) == Filter(m[p], gone + {t})
    {
      FilterEither(m[p], gone, t, p in ps);
    }
    forall p | p in m && p !in seen && Filter(m[p], gone) == [] ensures Filter(m[p], gone + {t}) == [] {
      FilterEmpty(m[p], gone, t);
    }
  }

  lemma FilterEmpty(l: seq<Txid>, gone: set<Txid>, t: Txid)
    requires Filter(l, gone) == []
    ensures Filter(l, gone + {t}) == []
  {
    FilterStep(l, gone, t);
  }

  /** Visiting a pooled tx: it leaves, and the children it still has are what becomes absent with it. */
  lemma VisitPooled(s: Pool, s1: Pool, seen: set<Txid>, t: Txid, spends: Spends)
    requires Valid(s, spends) && Thinned(s, s1, seen) && t in s1.abandoned
    ensures
      var s2 := AfterRemove(s1, t);
      && Thinned(s, s2.(absent := s2.absent - {t}), seen + {t})
      && Elements(LinksOf(s2.absent, t)) == Below(s, t) - seen * s.abandoned.Keys
  {
    hide AfterRemove, Filter, Distinct, Unlinked, ThinLinks, ThinEntry, LinksFollowSpends, ChildsFollowSpends;
    hide AllBlocked, AbsentLinked;
    var gone := seen * s.abandoned.Keys;
    assert (seen + {t}) * s.abandoned.Keys == gone + {t};
    var s2 := AfterRemove(s1, t);
    RemovedPool(s1, t);
    forall u | u in s1.abandoned && u != t
      ensures u in s2.abandoned && s2.abandoned[u] == ThinEntry(s.abandoned[u], gone + {t})
    {
      VisitPooledEntry(s, s1, gone, t, u, spends);
    }
    assert s2.abandoned == ThinEntries(s.abandoned, gone + {t});
    VisitPooledLinks(s, s1, seen, t, spends);
  }

  lemma VisitPooledLinks(s: Pool, s1: Pool, seen: set<Txid>, t: Txid, spends: Spends)
    requires Valid(s, spends) && Thinned(s, s1, seen) && t in s1.abandoned
    ensures
      var gone := seen * s.abandoned.Keys;
      var s2 := AfterRemove(s1, t);
      && s2.absent - {t} == ThinLinks(s.absent, seen + {t}, gone + {t})
      && Elements(LinksOf(s2.absent, t)) == Below(s, t) - gone
  {
    hide AfterRemove, Filter, Distinct, Unlinked, AllBlocked, AbsentLinked, AbandonedAgree, ChildsFollowSpends;
    var gone := seen * s.abandoned.Keys;
    RemovedLinks(s1, t);
    var ps := s.abandoned[t].tx.Parents() - s1.abandoned.Keys;
    ThinLinksStep(s.absent, seen, gone, t, ps);
    var l := Unlinked(s1.absent, ps, t);
    assert t !in l by { UnlinkedMembers(s1.absent, ps, t, t, t); }
    PutThenTake(l, t, s1.abandoned[t].childs);
    FilterMembers(s.abandoned[t].childs, gone);
  }

  lemma FilterMembers(l: seq<Txid>, gone: set<Txid>)
    ensures Elements(Filter(l, gone)) == Elements(l) - gone
  {
  }

  lemma PutThenTake(m: Links, t: Txid, l: seq<Txid>)
    requires t !in m
    ensures
      var m' := if l == [] then m else m[t := l];
      m' - {t} == m - {t} && LinksOf(m', t) == l
  {
  }

  /** Visiting any other txid only takes the list of txs waiting for it. */
  lemma VisitOther(s: Pool, s1: Pool, seen: set<Txid>, t: Txid)
    requires Thinned(s, s1, seen) && t !in s1.abandoned
    ensures Thinned(s, s1.(absent := s1.absent - {t}), seen + {t})
    ensures t !in seen ==> Elements(LinksOf(s1.absent, t)) == Below(s, t) - seen * s.abandoned.Keys
    ensures Elements(LinksOf(s1.absent, t)) <= Below(s, t)
  {
    hide Filter;
    var gone := seen * s.abandoned.Keys;
    assert (seen + {t}) * s.abandoned.Keys == gone;
    if t in s.absent { FilterMembers(s.absent[t], gone); }
  }

  /** The visited txids form a family once nothing below them is left to visit. */
  ghost predicate Swept(s: Pool, t: Txid, seen: set<Txid>, todo: seq<Txid>) {
    var g := FamilyGraph(s, t);
    && t in seen && seen <= Family(s, t) && Elements(todo) <= Family(s, t)
    && forall x :: x in seen ==> Out(g, x) <= seen + Elements(todo)
  }

  lemma SweepStart(s: Pool, t: Txid, below: seq<Txid>, waiting: seq<Txid>)
    requires Elements(below) == Below(s, t)
    requires Elements(waiting) == Elements(LinksOf(s.available, t))
    ensures Swept(s, t, {t}, Extend(Extend([], below), waiting))
  {
    hide *;
    ExtendMembers([], below);
    ExtendMembers(Extend([], below), waiting);
    FamilyClosed(s, t);
    RootOut(s, t);
    NoElements();
    MakeSwept(s, t, {t}, Extend(Extend([], below), waiting));
  }

  lemma NoElements()
    ensures Elements<Txid>([]) == {}
  {
  }

  lemma RootOut(s: Pool, t: Txid)
    ensures t in Family(s, t)
    ensures Out(FamilyGraph(s, t), t) == Below(s, t) + Elements(LinksOf(s.available, t))
  {
    hide Below, LinksOf;
  }

  lemma SweepStep(s: Pool, t: Txid, seen: set<Txid>, x: Txid, todo: seq<Txid>, below: seq<Txid>)
    requires Swept(s, t, seen, [x] + todo) && (t in s.abandoned ==> t !in s.available)
    requires Elements(below) <= Below(s, x)
    requires x !in seen ==> Below(s, x) - seen <= Elements(below)
    ensures Swept(s, t, seen + {x}, Extend(todo, below))
  {
    hide *;
    SweptFacts(s, t, seen, x, todo);
    var g := FamilyGraph(s, t);
    ExtendMembers(todo, below);
    FamilyClosed(s, t);
    OutBelow(s, t, x);
    assert Out(g, x) <= Family(s, t);
    assert Below(s, x) <= Out(g, x);
    forall y | y in seen + {x} ensures Out(g, y) <= seen + {x} + Elements(Extend(todo, below)) {
      if y in seen {
        assert Out(g, y) <= seen + ({x} + Elements(todo));
      } else {
        assert Out(g, y) == Below(s, x);
      }
    }
    MakeSwept(s, t, seen + {x}, Extend(todo, below));
  }

  lemma SweptFacts(s: Pool, t: Txid, seen: set<Txid>, x: Txid, todo: seq<Txid>)
    requires Swept(s, t, seen, [x] + todo)
    ensures t in seen && seen <= Family(s, t) && x in Family(s, t) && Elements(todo) <= Family(s, t)
    ensures forall y :: y in seen ==> Out(FamilyGraph(s, t), y) <= seen + ({x} + Elements(todo))
  {
    hide Family, FamilyGraph, Out;
    assert Elements([x] + todo) == {x} + Elements(todo);
  }

  lemma MakeSwept(s: Pool, t: Txid, seen: set<Txid>, todo: seq<Txid>)
    requires t in seen && seen <= Family(s, t) && Elements(todo) <= Family(s, t)
    requires forall x :: x in seen ==> Out(FamilyGraph(s, t), x) <= seen + Elements(todo)
    ensures Swept(s, t, seen, todo)
  {
    hide Family, FamilyGraph, Out, Elements;
  }

  lemma FamilyClosed(s: Pool, t: Txid)
    ensures forall x :: x in Family(s, t) ==> Out(FamilyGraph(s, t), x) <= Family(s, t)
  {
    hide FamilyGraph, Out, ReachSet;
    ReachSetClosed(FamilyGraph(s, t), t);
  }

  lemma OutBelow(s: Pool, t: Txid, x: Txid)
    ensures Below(s, x) <= Out(FamilyGraph(s, t), x)
    ensures x != t ==> Out(FamilyGraph(s, t), x) == Below(s, x)
  {
    hide Below, LinksOf;
    BelowKnown(s, x);
  }

  lemma BelowKnown(s: Pool, x: Txid)
    ensures Below(s, x) != {} ==> x in s.abandoned || x in s.absent
  {
  }

  /** Whatever state a parent was in, a later rejection of that parent takes the inserted tx along. */
  lemma InsertedInFamily(s: Pool, tx: Transaction, absentMaybe: set<Txid>, v: Txid)
    requires tx.txid !in tx.Parents() && tx.txid !in s.abandoned && v in tx.Parents()
    ensures tx.txid in Family(AfterInsert(s, tx, absentMaybe), v)
  {
    hide AfterInsert, FamilyGraph, Below, LinksOf;
    var s' := AfterInsert(s, tx, absentMaybe);
    RootOut(s', v);
    FamilyClosed(s', v);
    InsertedNew(s, tx, absentMaybe);
    InsertedBelow(s, tx, absentMaybe, v);
  }

  lemma InsertedBelow(s: Pool, tx: Transaction, absentMaybe: set<Txid>, v: Txid)
    requires tx.txid !in tx.Parents() && tx.txid !in s.abandoned && v in tx.Parents()
    ensures
      var s' := AfterInsert(s, tx, absentMaybe);
      tx.txid in Below(s', v) + Elements(LinksOf(s'.available, v))
  {
    hide AfterInsert, LinksOf;
    InsertedNew(s, tx, absentMaybe);
    if v in s.abandoned {
      InsertedOld(s, tx, absentMaybe, v);
    } else {
      InsertedAbsent(s, tx, absentMaybe, v, tx.txid);
      InsertedAvailable(s, tx, absentMaybe, v, tx.txid);
    }
  }

  lemma ExtendMembers(l: seq<Txid>, more: seq<Txid>)
    ensures Elements(Extend(l, more)) == Elements(l) + Elements(more)
  {
  }

  lemma SweepDone(s: Pool, t: Txid, seen: set<Txid>)
    requires Swept(s, t, seen, [])
    ensures seen == Family(s, t)
    ensures forall x :: x in seen ==> Below(s, x) <= seen
  {
    hide Below, LinksOf;
    var g := FamilyGraph(s, t);
    assert Elements<Txid>([]) == {};
    ReachSetLeast(g, t, seen);
    forall x | x in seen ensures Below(s, x) <= seen {
      BelowKnown(s, x);
      assert Below(s, x) <= Out(g, x);
    }
  }

  /** A survivor of a cascading removal is not below anything that was visited. */
  lemma SurvivorApart(s: Pool, seen: set<Txid>, u: Txid)
    requires AbandonedAgree(s) && AbsentLinked(s) && TidyLinks(s.absent, s.abandoned.Keys)
    requires u in s.abandoned && u !in seen
    requires forall x :: x in seen ==> Below(s, x) <= seen
    ensures s.abandoned[u].abandonedParents !! seen && s.abandoned[u].absentParents !! seen
  {
    hide Distinct;
    forall p | p in s.abandoned[u].abandonedParents ensures p !in seen {
      assert p in s.abandoned && u in s.abandoned[p].childs;
      assert p in seen ==> u in Below(s, p);
    }
    forall p | p in s.abandoned[u].absentParents ensures p !in seen {
      assert p in s.absent && u in s.absent[p];
      assert p in seen ==> u in Below(s, p);
    }
  }

  /** `s'` holds only survivors, each blocked by exactly what blocked it before. */
  ghost predicate SameBlockers(s: Pool, s': Pool, gone: set<Txid>) {
    forall u :: u in s'.abandoned ==>
      && u in s.abandoned && u !in gone
      && s'.abandoned[u].tx == s.abandoned[u].tx
      && s'.abandoned[u].abandonedParents == s.abandoned[u].abandonedParents
      && s'.abandoned[u].absentParents == s.abandoned[u].absentParents
      && Elements(s'.abandoned[u].childs) == Elements(s.abandoned[u].childs) - gone
      && Distinct(s'.abandoned[u].childs)
  }

  /** The survivors keep exactly the parents that blocked them. */
  lemma SurvivorsStayBlocked(s: Pool, s': Pool, seen: set<Txid>, spends: Spends)
    requires Valid(s, spends) && Thinned(s, s', seen)
    requires forall x :: x in seen ==> Below(s, x) <= seen
    ensures s'.abandoned.Keys == s.abandoned.Keys - seen
    ensures SameBlockers(s, s', seen * s.abandoned.Keys)
  {
    hide Filter, LinksFollowSpends, AllBlocked, ChildsFollowSpends, Below;
    forall u | u in s'.abandoned
      ensures
        && s'.abandoned[u].abandonedParents == s.abandoned[u].abandonedParents
        && s'.abandoned[u].absentParents == s.abandoned[u].absentParents
        && Elements(s'.abandoned[u].childs) == Elements(s.abandoned[u].childs) - seen * s.abandoned.Keys
        && Distinct(s'.abandoned[u].childs)
    {
      SurvivorApart(s, seen, u);
      FilterMembers(s.abandoned[u].childs, seen * s.abandoned.Keys);
      FilterDistinct(s.abandoned[u].childs, seen * s.abandoned.Keys);
    }
  }

  lemma ThinnedAbsent(s: Pool, s': Pool, seen: set<Txid>, p: Txid, u: Txid)
    requires Thinned(s, s', seen)
    ensures u in LinksOf(s'.absent, p) <==>
              p !in seen && u in LinksOf(s.absent, p) && !(u in seen && u in s.abandoned)
    ensures p in s'.absent ==> p in s.absent && s'.absent[p] != []
    ensures p in s'.absent && Distinct(s.absent[p]) ==> Distinct(s'.absent[p])
  {
    hide Filter;
    if p in s.absent {
      FilterMembers(s.absent[p], seen * s.abandoned.Keys);
      assert u in Elements(Filter(s.absent[p], seen * s.abandoned.Keys)) <==>
             u in Elements(s.absent[p]) - seen * s.abandoned.Keys;
      if Distinct(s.absent[p]) {
        FilterDistinct(s.absent[p], seen * s.abandoned.Keys);
      }
    }
  }

  lemma ThinnedValid(s: Pool, s': Pool, seen: set<Txid>, spends: Spends)
    requires Valid(s, spends) && Thinned(s, s', seen)
    requires forall x :: x in seen ==> Below(s, x) <= seen
    requires LinksFollowSpends(s'.available, spends) && TidyLinks(s'.available, s.abandoned.Keys)
    ensures Valid(s', spends)
  {
    hide *;
    ValidParts(s, spends);
    SurvivorsStayBlocked(s, s', seen, spends);
    ThinnedAgree(s, s', seen);
    ThinnedTidy(s, s', seen, spends);
    TidyForFewer(s'.available, s.abandoned.Keys, s'.abandoned.Keys);
    ThinnedKeyed(s, s', seen, spends);
    MakeValid(s', spends);
  }

  lemma ThinnedTidy(s: Pool, s': Pool, seen: set<Txid>, spends: Spends)
    requires LinksFollowSpends(s.absent, spends) && TidyLinks(s.absent, s.abandoned.Keys)
    requires Thinned(s, s', seen) && s'.abandoned.Keys <= s.abandoned.Keys
    ensures LinksFollowSpends(s'.absent, spends) && TidyLinks(s'.absent, s'.abandoned.Keys)
  {
    hide Thinned, Distinct;
    forall p, u | p in s'.absent && u in s'.absent[p] ensures p in spends(u) {
      ThinnedAbsent(s, s', seen, p, u);
      assert p in s.absent && u in s.absent[p];
    }
    forall p | p in s'.absent
      ensures p in s.absent && s'.absent[p] != [] && Distinct(s'.absent[p])
    {
      ThinnedAbsent(s, s', seen, p, 0);
    }
  }

  lemma ThinnedKeyed(s: Pool, s': Pool, seen: set<Txid>, spends: Spends)
    requires Keyed(s, spends) && ChildsFollowSpends(s, spends) && AllBlocked(s)
    requires s'.abandoned.Keys == s.abandoned.Keys - seen && SameBlockers(s, s', seen * s.abandoned.Keys)
    ensures Keyed(s', spends) && ChildsFollowSpends(s', spends) && AllBlocked(s')
  {
    hide Distinct;
    forall u, c | u in s'.abandoned && c in s'.abandoned[u].childs ensures c in s.abandoned[u].childs {
      assert c in Elements(s'.abandoned[u].childs);
    }
  }

  lemma ThinnedAgree(s: Pool, s': Pool, seen: set<Txid>)
    requires AbandonedAgree(s) && AbsentLinked(s) && TidyLinks(s.absent, s.abandoned.Keys) && Thinned(s, s', seen)
    requires forall x :: x in seen ==> Below(s, x) <= seen
    requires s'.abandoned.Keys == s.abandoned.Keys - seen && SameBlockers(s, s', seen * s.abandoned.Keys)
    ensures AbandonedAgree(s') && AbsentLinked(s') && (AbsentAgree(s) ==> AbsentAgree(s'))
  {
    hide Thinned, TidyLinks, Below;
    forall u, p | u in s'.abandoned
      ensures p in s'.abandoned[u].abandonedParents <==> p in s'.abandoned && u in s'.abandoned[p].childs
      ensures p in s'.abandoned[u].absentParents ==> p in s'.absent && u in s'.absent[p]
      ensures AbsentAgree(s) && p in s'.absent && u in s'.absent[p] ==> p in s'.abandoned[u].absentParents
    {
      SurvivorApart(s, seen, u);
      ThinnedAbsent(s, s', seen, p, u);
      assert p in s.abandoned[u].abandonedParents <==> p in s.abandoned && u in s.abandoned[p].childs;
      assert p in s.abandoned[u].absentParents ==> p in s.absent && u in s.absent[p];
      assert AbsentAgree(s) && p in s.absent && u in s.absent[p] ==> p in s.abandoned[u].absentParents;
      if p in s'.abandoned {
        assert u in Elements(s'.abandoned[p].childs) <==> u in Elements(s.abandoned[p].childs);
      }
    }
  }

  /** A cascading removal keeps the links exact. */
  lemma ThinnedExact(s: Pool, s': Pool, seen: set<Txid>, spends: Spends)
    requires Exact(s, spends) && Thinned(s, s', seen) && Valid(s', spends)
    requires forall x :: x in seen ==> Below(s, x) <= seen
    ensures Exact(s', spends)
  {
    hide *;
    ExactParts(s, spends);
    ValidParts(s, spends);
    SurvivorsStayBlocked(s, s', seen, spends);
    ThinnedAgree(s, s', seen);
    MakeExact(s', spends);
  }

  lemma MakeExact(s: Pool, spends: Spends)
    requires Valid(s, spends) && AbsentAgree(s)
    ensures Exact(s, spends)
  {
  }

  // ---------------------------------------------------------------- several removals in a row

  /** Everything below any of the roots, with the roots. */
  ghost function Families(s: Pool, roots: set<Txid>): set<Txid> {
    set r, x | r in roots && x in Family(s, r) :: x
  }

  /** `s'` is `s` without the txs of `gone`, as far as families go; `dropped` are the roots removed so far. */
  ghost predicate Pruned(s: Pool, s': Pool, gone: set<Txid>, dropped: set<Txid>) {
    && s'.abandoned.Keys == s.abandoned.Keys - gone
    && (forall x :: x in gone ==> Below(s, x) <= gone)
    && (forall x :: Below(s', x) <= Below(s, x))
    && (forall x :: x !in gone ==> Below(s, x) - gone <= Below(s', x))
    && AvailableKept(s.available, s'.available, gone, dropped)
  }

  lemma PrunedNothing(s: Pool)
    ensures Pruned(s, s, {}, {})
  {
    hide Below, LinksOf;
  }

  lemma FamiliesMore(s: Pool, roots: set<Txid>, r: Txid)
    ensures Families(s, {}) == {}
    ensures Families(s, roots + {r}) == Families(s, roots) + Family(s, r)
  {
    hide Family;
  }

  lemma FamilyLeast(s: Pool, t: Txid, x: set<Txid>)
    requires t in x && Elements(LinksOf(s.available, t)) <= x
    requires forall y :: y in x ==> Below(s, y) <= x
    ensures Family(s, t) <= x
  {
    hide Below, LinksOf, FamilyGraph, Elements;
    RootOut(s, t);
    forall y | y in x ensures Out(FamilyGraph(s, t), y) <= x {
      OutBelow(s, t, y);
    }
    ReachSetLeast(FamilyGraph(s, t), t, x);
  }

  lemma FamilyHolds(s: Pool, t: Txid)
    ensures t in Family(s, t) && Elements(LinksOf(s.available, t)) <= Family(s, t)
    ensures forall y :: y in Family(s, t) ==> Below(s, y) <= Family(s, t)
  {
    hide *;
    RootOut(s, t);
    FamilyClosed(s, t);
    forall y | y in Family(s, t) ensures Below(s, y) <= Family(s, t) {
      OutBelow(s, t, y);
    }
  }

  /** One cascading removal. */
  lemma ThinnedPrunes(s: Pool, s': Pool, t: Txid)
    requires Thinned(s, s', Family(s, t))
    requires AvailableKept(s.available, s'.available, Family(s, t) * s.abandoned.Keys, {t})
    ensures Pruned(s, s', Family(s, t), {t})
  {
    hide Family, AvailableKept, Filter;
    var gone := Family(s, t);
    FamilyHolds(s, t);
    forall x
      ensures Below(s', x) <= Below(s, x)
      ensures x !in gone ==> Below(s, x) - gone <= Below(s', x)
    {
      if x in s.abandoned {
        FilterMembers(s.abandoned[x].childs, gone * s.abandoned.Keys);
      } else if x in s.absent {
        FilterMembers(s.absent[x], gone * s.abandoned.Keys);
      }
    }
    AvailableLess(s.available, s'.available, gone * s.abandoned.Keys, gone, {t});
  }

  lemma AvailableLess(m: Links, m': Links, gone: set<Txid>, more: set<Txid>, dropped: set<Txid>)
    requires AvailableKept(m, m', gone, dropped) && gone <= more
    ensures AvailableKept(m, m', more, dropped)
  {
  }

  /** What later removals see of a family is what the earlier ones left of it. */
  lemma PrunedFamily(s: Pool, s': Pool, gone: set<Txid>, dropped: set<Txid>, t: Txid)
    requires Pruned(s, s', gone, dropped) && t !in dropped
    ensures Family(s', t) <= Family(s, t) && gone + Family(s', t) == gone + Family(s, t)
  {
    hide Family, Below, LinksOf;
    FamilyHolds(s, t);
    FamilyHolds(s', t);
    AvailableMembers(s.available, s'.available, gone, dropped, t);
    FamilyLeast(s', t, Family(s, t));
    forall y | y in gone + Family(s', t) ensures Below(s, y) <= gone + Family(s', t) {
      assert y !in gone ==> Below(s, y) - gone <= Below(s', y) && Below(s', y) <= Family(s', t);
    }
    FamilyLeast(s, t, gone + Family(s', t));
  }

  lemma AvailableMembers(m: Links, m': Links, gone: set<Txid>, dropped: set<Txid>, t: Txid)
    requires AvailableKept(m, m', gone, dropped) && t !in dropped
    ensures Elements(LinksOf(m', t)) <= Elements(LinksOf(m, t))
    ensures Elements(LinksOf(m, t)) - gone <= Elements(LinksOf(m', t))
  {
    hide LinksOf;
  }

  lemma PrunedMore(s: Pool, s1: Pool, s2: Pool, gone: set<Txid>, dropped: set<Txid>, t: Txid)
    requires Pruned(s, s1, gone, dropped) && Pruned(s1, s2, Family(s1, t), {t}) && t !in dropped
    ensures Pruned(s, s2, gone + Family(s, t), dropped + {t})
  {
    hide Family, Below, LinksOf;
    PrunedFamily(s, s1, gone, dropped, t);
    FamilyHolds(s, t);
    assert s2.abandoned.Keys == s.abandoned.Keys - (gone + Family(s, t));
    forall x | x !in gone + Family(s, t) ensures Below(s, x) - (gone + Family(s, t)) <= Below(s2, x) {
      assert Below(s, x) - gone <= Below(s1, x);
    }
    forall x ensures Below(s2, x) <= Below(s, x) {
      assert Below(s2, x) <= Below(s1, x);
    }
    AvailableTwice(s.available, s1.available, s2.available, gone, Family(s1, t), dropped, {t});
    assert gone + Family(s1, t) == gone + Family(s, t);
  }

  lemma AvailableTwice(m: Links, m1: Links, m2: Links, gone: set<Txid>, more: set<Txid>, dropped: set<Txid>, roots: set<Txid>)
    requires AvailableKept(m, m1, gone, dropped) && AvailableKept(m1, m2, more, roots)
    ensures AvailableKept(m, m2, gone + more, dropped + roots)
  {
    hide LinksOf;
  }

  // ---------------------------------------------------------------- restoration

  /** `x` holds every pooled tx whose absent parents are within {p} and whose abandoned parents are within `x`. */
  ghost predicate FreedBy(s: Pool, p: Txid, x: set<Txid>) {
    forall u :: u in s.abandoned && s.abandoned[u].absentParents <= {p} && s.abandoned[u].abandonedParents <= x ==>
      u in x
  }

  /** Pooled txs without repetition, each blocked by no absent tx but `p` and only by txs earlier in the list. */
  ghost predicate Released(s: Pool, p: Txid, r: seq<Txid>) {
    && Distinct(r)
    && forall i :: 0 <= i < |r| ==>
         && r[i] in s.abandoned
         && s.abandoned[r[i]].absentParents <= {p}
         && s.abandoned[r[i]].abandonedParents <= Elements(r[..i])
  }

  /** A released list stays within every set the rule generates, so one that the rule generates is the least. */
  lemma {:induction false} ReleasedWithin(s: Pool, p: Txid, r: seq<Txid>, x: set<Txid>)
    requires Released(s, p, r) && FreedBy(s, p, x)
    ensures Elements(r) <= x
    decreases |r|
  {
    if r != [] {
      var front := r[..|r| - 1];
      assert forall i :: 0 <= i < |front| ==> front[..i] == r[..i];
      ReleasedWithin(s, p, front, x);
      assert r == front + [r[|r| - 1]];
    }
  }

  lemma ReleasedMore(s: Pool, p: Txid, r: seq<Txid>, u: Txid)
    requires Released(s, p, r) && u in s.abandoned && u !in r
    requires s.abandoned[u].absentParents <= {p} && s.abandoned[u].abandonedParents <= Elements(r)
    ensures Released(s, p, r + [u])
  {
    ElementsMore(r, u);
    var r' := r + [u];
    forall i | 0 <= i < |r'|
      ensures
        && r'[i] in s.abandoned && s.abandoned[r'[i]].absentParents <= {p}
        && s.abandoned[r'[i]].abandonedParents <= Elements(r'[..i])
    {
      if i < |r| {
        assert r'[..i] == r[..i];
      } else {
        assert r'[..i] == r;
      }
    }
  }

  ghost function LessAbsent(m: map<Txid, AbandonedTx>, cs: set<Txid>, p: Txid): map<Txid, AbandonedTx> {
    map u | u in m :: if u in cs then m[u].(absentParents := m[u].absentParents - {p}) else m[u]
  }

  ghost function LessAbandoned(m: map<Txid, AbandonedTx>, cs: set<Txid>, p: Txid): map<Txid, AbandonedTx> {
    map u | u in m :: if u in cs then m[u].(abandonedParents := m[u].abandonedParents - {p}) else m[u]
  }

  ghost function FreeOf(a: AbandonedTx, p: Txid, gone: set<Txid>): AbandonedTx {
    a.(absentParents := a.absentParents - {p}, abandonedParents := a.abandonedParents - gone)
  }

  ghost function FreeAll(m: map<Txid, AbandonedTx>, p: Txid, gone: set<Txid>): map<Txid, AbandonedTx> {
    map u | u in m :: FreeOf(m[u], p, gone)
  }

  /** The pool once `p` is available and the txs of `gone` have been handed back. */
  ghost function AfterRestore(s: Pool, p: Txid, gone: set<Txid>): Pool {
    Pool(s.absent - {p}, s.available, FreeAll(s.abandoned, p, gone) - gone)
  }

  lemma EmptyDistinct()
    ensures Distinct<Txid>([])
  {
  }

  lemma RestoreNothing(s: Pool, p: Txid, spends: Spends)
    requires Valid(s, spends) && p !in s.absent
    ensures AfterRestore(s, p, {}) == s && Released(s, p, []) && FreedBy(s, p, {})
  {
    hide Distinct, TidyLinks, LinksFollowSpends, ChildsFollowSpends, Keyed, AbandonedAgree;
    forall u | u in s.abandoned ensures FreeOf(s.abandoned[u], p, {}) == s.abandoned[u] && Blocked(s.abandoned[u]) {
      assert p in s.abandoned[u].absentParents ==> u in LinksOf(s.absent, p);
    }
    EmptyDistinct();
  }

  /** What is left behind still waits for something. */
  lemma RestoreFrees(s: Pool, p: Txid, r: seq<Txid>)
    requires AllBlocked(AfterRestore(s, p, Elements(r)))
    ensures FreedBy(s, p, Elements(r))
  {
    var s' := AfterRestore(s, p, Elements(r));
    forall u | u in s.abandoned && u !in Elements(r)
      ensures !(s.abandoned[u].absentParents <= {p} && s.abandoned[u].abandonedParents <= Elements(r))
    {
      assert u in s'.abandoned;
      assert Blocked(s'.abandoned[u]);
      var q :| q in s'.abandoned[u].abandonedParents + s'.abandoned[u].absentParents;
      assert q in s.abandoned[u].abandonedParents - Elements(r) || q in s.abandoned[u].absentParents - {p};
    }
  }

  lemma RestoreValid(s: Pool, p: Txid, gone: set<Txid>, spends: Spends)
    requires Valid(s, spends) && AllBlocked(AfterRestore(s, p, gone))
    ensures Valid(AfterRestore(s, p, gone), spends)
  {
    hide *;
    ValidParts(s, spends);
    RestoreKeepsLinks(s, p, gone, spends);
    RestoreKeepsParents(s, p, gone);
    MakeValid(AfterRestore(s, p, gone), spends);
  }

  lemma RestoreKeepsParents(s: Pool, p: Txid, gone: set<Txid>)
    requires AbandonedAgree(s) && AbsentLinked(s)
    ensures AbandonedAgree(AfterRestore(s, p, gone)) && AbsentLinked(AfterRestore(s, p, gone))
  {
    var s' := AfterRestore(s, p, gone);
    forall u, q | u in s'.abandoned
      ensures q in s'.abandoned[u].abandonedParents <==> q in s'.abandoned && u in s'.abandoned[q].childs
      ensures q in s'.abandoned[u].absentParents ==> q in s'.absent && u in s'.absent[q]
    {
      assert q in s.abandoned[u].abandonedParents <==> q in s.abandoned && u in s.abandoned[q].childs;
      assert q in s.abandoned[u].absentParents ==> q in s.absent && u in s.absent[q];
    }
  }

  /** A restoration keeps the links exact. */
  lemma RestoreExact(s: Pool, p: Txid, gone: set<Txid>, spends: Spends)
    requires Exact(s, spends) && Valid(AfterRestore(s, p, gone), spends)
    ensures Exact(AfterRestore(s, p, gone), spends)
  {
    hide Valid;
    var s' := AfterRestore(s, p, gone);
    forall u, q | u in s'.abandoned
      ensures q in s'.abandoned[u].absentParents <==> q in s'.absent && u in s'.absent[q]
    {
      assert q in s.abandoned[u].absentParents <==> q in s.absent && u in s.absent[q];
    }
  }

  lemma RestoreKeepsLinks(s: Pool, p: Txid, gone: set<Txid>, spends: Spends)
    requires Keyed(s, spends) && ChildsFollowSpends(s, spends)
    requires LinksFollowSpends(s.absent, spends) && TidyLinks(s.absent, s.abandoned.Keys)
    requires LinksFollowSpends(s.available, spends) && TidyLinks(s.available, s.abandoned.Keys)
    ensures
      var s' := AfterRestore(s, p, gone);
      && Keyed(s', spends) && ChildsFollowSpends(s', spends)
      && LinksFollowSpends(s'.absent, spends) && TidyLinks(s'.absent, s'.abandoned.Keys)
      && LinksFollowSpends(s'.available, spends) && TidyLinks(s'.available, s'.abandoned.Keys)
  {
    hide Distinct;
  }

  lemma LessAbsentStep(m: map<Txid, AbandonedTx>, cs: set<Txid>, p: Txid, c: Txid, gone: set<Txid>)
    ensures
      var m' := LessAbsent(m, cs, p) - gone;
      LessAbsent(m, cs + {c}, p) - gone ==
        if c in m' then m'[c := m'[c].(absentParents := m'[c].absentParents - {p})] else m'
  {
    if c in m {
      assert m[c].absentParents - {p} - {p} == m[c].absentParents - {p};
    }
  }

  lemma LessAbandonedStep(m: map<Txid, AbandonedTx>, cs: set<Txid>, p: Txid, c: Txid, gone: set<Txid>)
    ensures
      var m' := LessAbandoned(m, cs, p) - gone;
      LessAbandoned(m, cs + {c}, p) - gone ==
        if c in m' then m'[c := m'[c].(abandonedParents := m'[c].abandonedParents - {p})] else m'
  {
    if c in m {
      assert m[c].abandonedParents - {p} - {p} == m[c].abandonedParents - {p};
    }
  }

  /** All children of the new arrival have been told: the same as telling everyone. */
  lemma AbsentTold(s: Pool, p: Txid)
    requires AbsentLinked(s)
    ensures LessAbsent(s.abandoned, Elements(LinksOf(s.absent, p)), p) == FreeAll(s.abandoned, p, {})
  {
    forall u | u in s.abandoned
      ensures
        FreeOf(s.abandoned[u], p, {}) ==
        if u in Elements(LinksOf(s.absent, p)) then
          s.abandoned[u].(absentParents := s.abandoned[u].absentParents - {p})
        else s.abandoned[u]
    {
      assert p in s.abandoned[u].absentParents ==> p in s.absent && u in s.absent[p];
      assert s.abandoned[u].abandonedParents - {} == s.abandoned[u].abandonedParents;
    }
  }

  lemma AbandonedTold(s: Pool, p: Txid, told: set<Txid>, r: Txid)
    requires AbandonedAgree(s) && r in s.abandoned
    ensures LessAbandoned(FreeAll(s.abandoned, p, told), Elements(s.abandoned[r].childs), r) ==
            FreeAll(s.abandoned, p, told + {r})
  {
    forall u | u in s.abandoned
      ensures
        var a := FreeOf(s.abandoned[u], p, told);
        FreeOf(s.abandoned[u], p, told + {r}) ==
        if u in Elements(s.abandoned[r].childs) then a.(abandonedParents := a.abandonedParents - {r}) else a
    {
      assert r in s.abandoned[u].abandonedParents <==> r in s.abandoned && u in s.abandoned[r].childs;
      var a := FreeOf(s.abandoned[u], p, told);
      assert s.abandoned[u].abandonedParents - (told + {r}) == a.abandonedParents - {r};
    }
  }

  type Waiting = seq<(Txid, seq<Txid>)>

  /** Progress of a restoration: what was handed back and the queue of those whose children are still to be told. */
  ghost predicate Restoring(s: Pool, p: Txid, m: map<Txid, AbandonedTx>, restored: seq<Transaction>, queue: Waiting,
                            told: nat) {
    var ids := TxidsOf(restored);
    && Released(s, p, ids)
    && told + |queue| == |ids|
    && (forall i :: told <= i < |ids| ==> queue[i - told] == (ids[i], s.abandoned[ids[i]].childs))
    && (forall tx :: tx in restored ==> tx.txid in s.abandoned && tx == s.abandoned[tx.txid].tx)
    && forall u :: u in m ==> Blocked(m[u])
  }

  /** An entry that lost at most the parents that are available again. */
  ghost predicate Loosened(s: Pool, p: Txid, ids: seq<Txid>, c: Txid, a: AbandonedTx) {
    && c in s.abandoned && c !in ids
    && a.tx == s.abandoned[c].tx && a.childs == s.abandoned[c].childs
    && s.abandoned[c].absentParents - {p} <= a.absentParents
    && s.abandoned[c].abandonedParents - Elements(ids) <= a.abandonedParents
  }

  /** A child whose last blocking parent went leaves the pool and joins the queue. */
  lemma ReleaseStep(s: Pool, p: Txid, m: map<Txid, AbandonedTx>, restored: seq<Transaction>, queue: Waiting, told: nat,
                    c: Txid, a: AbandonedTx, spends: Spends)
    requires Restoring(s, p, m, restored, queue, told) && Keyed(s, spends)
    requires Loosened(s, p, TxidsOf(restored), c, a) && !Blocked(a)
    ensures Restoring(s, p, m - {c}, restored + [a.tx], queue + [(c, a.childs)], told)
    ensures Elements(TxidsOf(restored + [a.tx])) == Elements(TxidsOf(restored)) + {c}
  {
    hide TxidsOf, Distinct, Released;
    var ids := TxidsOf(restored);
    TxidsOfMore(restored, a.tx);
    ElementsMore(ids, c);
    ReleasedMore(s, p, ids, c);
    assert a.abandonedParents + a.absentParents == {};
    var ids', queue' := ids + [c], queue + [(c, a.childs)];
    ReleasedPooled(s, p, ids');
    forall i | told <= i < |ids'| ensures queue'[i - told] == (ids'[i], s.abandoned[ids'[i]].childs) {
      if i < |ids| {
        assert queue'[i - told] == queue[i - told];
      }
    }
  }

  lemma ReleasedPooled(s: Pool, p: Txid, ids: seq<Txid>)
    requires Released(s, p, ids)
    ensures forall i :: 0 <= i < |ids| ==> ids[i] in s.abandoned
  {
  }

  /** A child that is still blocked stays, with one parent fewer. */
  lemma KeepStep(s: Pool, p: Txid, m: map<Txid, AbandonedTx>, restored: seq<Transaction>, queue: Waiting, told: nat,
                 c: Txid, a: AbandonedTx)
    requires Restoring(s, p, m, restored, queue, told) && Blocked(a)
    ensures Restoring(s, p, m[c := a], restored, queue, told)
  {
    hide TxidsOf, Released, Blocked;
  }

  lemma RestoringStart(s: Pool, p: Txid)
    requires AllBlocked(s)
    ensures Restoring(s, p, s.abandoned, [], [], 0) && Elements(TxidsOf([])) == {}
    ensures LessAbsent(s.abandoned, {}, p) - {} == s.abandoned
  {
  }

  lemma LessAbsentLoosens(s: Pool, p: Txid, cs: set<Txid>, ids: seq<Txid>, c: Txid, a: AbandonedTx)
    requires
      var m := LessAbsent(s.abandoned, cs, p) - Elements<Txid>(ids);
      c in m && a == m[c].(absentParents := m[c].absentParents - {p})
    ensures Loosened(s, p, ids, c, a)
  {
  }

  lemma LessAbandonedLoosens(s: Pool, p: Txid, told: seq<Txid>, cs: set<Txid>, r: Txid, ids: seq<Txid>, c: Txid,
                             a: AbandonedTx)
    requires Elements(told) + {r} <= Elements(ids)
    requires
      var m := LessAbandoned(FreeAll(s.abandoned, p, Elements(told)), cs, r) - Elements<Txid>(ids);
      c in m && a == m[c].(abandonedParents := m[c].abandonedParents - {r})
    ensures Loosened(s, p, ids, c, a)
  {
    InElements(ids, c);
    assert a.abandonedParents == s.abandoned[c].abandonedParents - Elements(told) - (if c in cs then {r} else {}) - {r};
  }

  lemma QueueHead(s: Pool, p: Txid, m: map<Txid, AbandonedTx>, restored: seq<Transaction>, queue: Waiting, told: nat)
    requires Restoring(s, p, m, restored, queue, told) && queue != []
    ensures
      var ids := TxidsOf(restored);
      && told < |ids| && ids[told] in s.abandoned
      && queue[0] == (ids[told], s.abandoned[ids[told]].childs)
      && Restoring(s, p, m, restored, queue[1..], told + 1)
      && Elements(ids[..told + 1]) == Elements(ids[..told]) + {ids[told]}
      && Elements(ids[..told + 1]) <= Elements(ids)
  {
    hide TxidsOf, Distinct, Blocked;
    var ids := TxidsOf(restored);
    assert ids[..told + 1] == ids[..told] + [ids[told]];
    forall i | told + 1 <= i < |ids| ensures queue[1..][i - (told + 1)] == (ids[i], s.abandoned[ids[i]].childs) {
      assert queue[1..][i - (told + 1)] == queue[i - told];
    }
  }

  lemma RestoringDone(s: Pool, p: Txid, m: map<Txid, AbandonedTx>, restored: seq<Transaction>, told: nat, spends: Spends)
    requires Valid(s, spends) && Restoring(s, p, m, restored, [], told)
    requires
      var ids := TxidsOf(restored);
      told == |ids| && m == FreeAll(s.abandoned, p, Elements(ids[..told])) - Elements<Txid>(ids)
    ensures
      var gone := Elements(TxidsOf(restored));
      && m == AfterRestore(s, p, gone).abandoned
      && FreedBy(s, p, gone) && Valid(AfterRestore(s, p, gone), spends)
  {
    hide TxidsOf, Elements, Distinct, Blocked, FreedBy, Valid;
    var ids := TxidsOf(restored);
    assert ids[..told] == ids;
    RestoreFrees(s, p, ids);
    RestoreValid(s, p, Elements(ids), spends);
  }

  // ---------------------------------------------------------------- what a restoration forgets

  /** Every pooled tx stands below each of its parents, so a rejection of any of them takes it along. */
  ghost predicate ParentsLinked(s: Pool) {
    forall u, p :: u in s.abandoned && p in s.abandoned[u].tx.Parents() ==> LinkedTo(s, u, p)
  }

  ghost predicate LinkedTo(s: Pool, u: Txid, p: Txid) {
    u in Below(s, p) + Elements(LinksOf(s.available, p))
  }

  lemma EmptyLinked()
    ensures ParentsLinked(Pool(map[], map[], map[]))
  {
  }

  /** An insertion links the new tx to its parents, and the txs that spend it to it. */
  lemma InsertKeepsLinked(s: Pool, tx: Transaction, absentMaybe: set<Txid>)
    requires ParentsLinked(s) && tx.txid !in tx.Parents() && tx.txid !in s.abandoned
    ensures ParentsLinked(AfterInsert(s, tx, absentMaybe))
  {
    hide AfterInsert, Below, LinksOf, Transaction.Parents;
    var s' := AfterInsert(s, tx, absentMaybe);
    InsertedNew(s, tx, absentMaybe);
    forall u, p | u in s'.abandoned && p in s'.abandoned[u].tx.Parents() ensures LinkedTo(s', u, p) {
      if u == tx.txid {
        InsertedBelow(s, tx, absentMaybe, p);
      } else {
        InsertedOld(s, tx, absentMaybe, u);
        assert LinkedTo(s, u, p);
        InsertKeepsLink(s, tx, absentMaybe, u, p);
      }
    }
  }

  lemma InsertKeepsLink(s: Pool, tx: Transaction, absentMaybe: set<Txid>, u: Txid, p: Txid)
    requires LinkedTo(s, u, p) && tx.txid !in s.abandoned
    ensures LinkedTo(AfterInsert(s, tx, absentMaybe), u, p)
  {
    hide AfterInsert, LinksOf, KnownChilds;
    var s' := AfterInsert(s, tx, absentMaybe);
    InsertedNew(s, tx, absentMaybe);
    KnownChildsMembers(s, tx.txid);
    InsertedAbsent(s, tx, absentMaybe, p, u);
    InsertedAvailable(s, tx, absentMaybe, p, u);
    if p in s.abandoned {
      InsertedOld(s, tx, absentMaybe, p);
    }
  }

  /** So does a single removal, whose children wait for the tx from then on. */
  lemma RemoveKeepsParentsLinked(s: Pool, t: Txid, spends: Spends)
    requires ParentsLinked(s) && Valid(s, spends) && t in s.abandoned
    ensures ParentsLinked(AfterRemove(s, t))
  {
    hide AfterRemove, Below, LinksOf, Transaction.Parents, Valid;
    var s' := AfterRemove(s, t);
    RemovedPool(s, t);
    ValidParts(s, spends);
    PooledNotAbsent(s.absent, s.abandoned.Keys, t);
    PooledNotAbsent(s.available, s.abandoned.Keys, t);
    forall u, p | u in s'.abandoned && p in s'.abandoned[u].tx.Parents() ensures LinkedTo(s', u, p) {
      RemovedEntry(s, t, u);
      assert LinkedTo(s, u, p);
      RemoveKeepsLink(s, t, u, p);
    }
  }

  lemma RemoveKeepsLink(s: Pool, t: Txid, u: Txid, p: Txid)
    requires LinkedTo(s, u, p) && t in s.abandoned && u != t && t !in s.absent && t !in s.available
    ensures LinkedTo(AfterRemove(s, t), u, p)
  {
    hide AfterRemove, LinksOf, Unlinked;
    RemovedPool(s, t);
    RemovedAbsent(s, t, p, u);
    RemovedLinks(s, t);
    UnlinkedMembers(s.available, s.abandoned[t].tx.Parents() - s.abandoned.Keys - s.absent.Keys, t, p, u);
    NoLinks(s.available, t);
    if p in s.abandoned && p != t {
      RemovedEntry(s, t, p);
      WithoutMembers(s.abandoned[p].childs, t, u);
    }
  }

  lemma NoLinks(m: Links, t: Txid)
    requires t !in m
    ensures LinksOf(m, t) == []
  {
  }

  /** A cascading removal leaves the survivors linked to all their parents. */
  lemma RemovalKeepsLinked(s: Pool, s': Pool, t: Txid, spends: Spends)
    requires ParentsLinked(s) && Valid(s, spends)
    requires Thinned(s, s', Family(s, t))
    requires AvailableKept(s.available, s'.available, Family(s, t) * s.abandoned.Keys, {t})
    ensures ParentsLinked(s')
  {
    hide Family, Below, LinksOf, Thinned, Filter, Valid, AvailableKept, Pruned;
    var gone := Family(s, t);
    FamilyHolds(s, t);
    ThinnedPrunes(s, s', t);
    PrunedMeans(s, s', gone, t);
    SurvivorsStayBlocked(s, s', gone, spends);
    forall u, p | u in s'.abandoned && p in s'.abandoned[u].tx.Parents() ensures LinkedTo(s', u, p) {
      assert u in s.abandoned && u !in gone && s'.abandoned[u].tx == s.abandoned[u].tx;
      assert LinkedTo(s, u, p);
    }
  }

  lemma PrunedMeans(s: Pool, s': Pool, gone: set<Txid>, t: Txid)
    requires Pruned(s, s', gone, {t}) && Elements(LinksOf(s.available, t)) <= gone
    ensures s'.abandoned.Keys == s.abandoned.Keys - gone
    ensures forall u, p {:trigger LinkedTo(s', u, p)} :: u !in gone && LinkedTo(s, u, p) ==> LinkedTo(s', u, p)
  {
    hide Below, LinksOf;
    forall u, p | u !in gone && LinkedTo(s, u, p) ensures LinkedTo(s', u, p) {
      if u in Below(s, p) {
        assert p !in gone;
        assert Below(s, p) - gone <= Below(s', p);
      } else {
        assert p != t;
        AvailableMembers(s.available, s'.available, gone, {t}, p);
      }
    }
  }

  lemma LinkedInFamily(s: Pool, u: Txid, p: Txid)
    requires LinkedTo(s, u, p)
    ensures u in Family(s, p)
  {
    hide Below, Family, LinksOf, Elements;
    FamilyHolds(s, p);
  }

  /** The tx waited neither for `p`, unless it is also known to spend it as available, nor for a tx handed back. */
  ghost predicate WaitedElsewhere(s: Pool, p: Txid, gone: set<Txid>, u: Txid)
    requires u in s.abandoned
  {
    && (p in s.abandoned[u].absentParents ==> u in LinksOf(s.available, p))
    && s.abandoned[u].abandonedParents !! gone
  }

  /** A restoration keeps the txs it leaves behind linked to their parents exactly if they waited for other ones. */
  lemma RestoreLinkedIff(s: Pool, p: Txid, gone: set<Txid>, spends: Spends)
    requires Exact(s, spends) && ParentsLinked(s) && gone <= s.abandoned.Keys && p !in s.abandoned
    ensures ParentsLinked(AfterRestore(s, p, gone)) <==>
              forall u :: u in s.abandoned && u !in gone ==> WaitedElsewhere(s, p, gone, u)
  {
    hide Exact, Distinct, Below, Elements, LinksOf;
    ExactParts(s, spends);
    var s' := AfterRestore(s, p, gone);
    forall u | u in s.abandoned && u !in gone
      ensures u in s'.abandoned && s'.abandoned[u].tx == s.abandoned[u].tx
      ensures WaitedElsewhere(s, p, gone, u) <==>
                forall q :: q in s'.abandoned[u].tx.Parents() ==> LinkedTo(s', u, q)
    {
      forall q | q in s.abandoned[u].tx.Parents()
        ensures LinkedTo(s', u, q) <==>
                  (q == p ==> p !in s.abandoned[u].absentParents || u in LinksOf(s.available, p))
                  && !(q in gone && q in s.abandoned[u].abandonedParents)
      {
        assert LinkedTo(s, u, q);
        RestoredLink(s, p, gone, u, q, spends);
      }
      WaitsForParents(s, u, spends);
    }
  }

  lemma WaitsForParents(s: Pool, u: Txid, spends: Spends)
    requires Valid(s, spends) && u in s.abandoned
    ensures s.abandoned[u].abandonedParents + s.abandoned[u].absentParents <= s.abandoned[u].tx.Parents()
  {
    ValidParts(s, spends);
    forall p | p in s.abandoned[u].abandonedParents ensures p in spends(u) {
      assert p in s.abandoned && u in s.abandoned[p].childs;
    }
    forall p | p in s.abandoned[u].absentParents ensures p in spends(u) {
      assert p in s.absent && u in s.absent[p];
    }
    assert s.abandoned[u].tx.Parents() == spends(u);
  }

  lemma RestoredLink(s: Pool, p: Txid, gone: set<Txid>, u: Txid, q: Txid, spends: Spends)
    requires Valid(s, spends) && AbsentAgree(s) && gone <= s.abandoned.Keys && p !in s.abandoned
    requires u in s.abandoned && u !in gone && LinkedTo(s, u, q)
    ensures
      LinkedTo(AfterRestore(s, p, gone), u, q) <==>
        && (q == p ==> p !in s.abandoned[u].absentParents || u in LinksOf(s.available, p))
        && !(q in gone && q in s.abandoned[u].abandonedParents)
  {
    hide Distinct, LinksFollowSpends, ChildsFollowSpends, Keyed, AllBlocked;
    var s' := AfterRestore(s, p, gone);
    assert q in s.abandoned[u].abandonedParents <==> q in s.abandoned && u in s.abandoned[q].childs;
    assert q in s.abandoned[u].absentParents <==> q in s.absent && u in s.absent[q];
    assert q in s.available ==> q !in s.abandoned;
    assert q in s.absent ==> q !in s.abandoned;
  }

  /** Once `p` counts as available again, a later rejection of it takes along nothing that waited for it. */
  lemma RestoredIsForgotten(s: Pool, p: Txid, gone: set<Txid>)
    requires p !in s.abandoned && p !in s.available
    ensures Family(AfterRestore(s, p, gone), p) == {p}
  {
    hide Family;
    var s' := AfterRestore(s, p, gone);
    FamilyLeast(s', p, {p});
    FamilyHolds(s', p);
  }
}
