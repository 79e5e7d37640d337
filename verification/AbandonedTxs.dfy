/** The abandoned pool as a value: what each operation makes of it and the invariant they keep. */
module AbandonedTxs {
  import opened Types
  import opened LinkedSets

  datatype AbandonedTx = AbandonedTx(abandonedParents: set<Txid>, absentParents: set<Txid>,
                                     childs: seq<Txid>, tx: Transaction)

  type Links = map<Txid, seq<Txid>>

  datatype Pool = Pool(absent: Links, available: Links, abandoned: map<Txid, AbandonedTx>)

  /** The inputs a txid commits to: two transactions with one txid spend the same parents. */
  type Spends = Txid -> set<Txid>

  ghost predicate Hashed(tx: Transaction, spends: Spends) {
    tx.Parents() == spends(tx.txid) && tx.txid !in spends(tx.txid)
  }

  function LinksOf(m: Links, p: Txid): seq<Txid> {
    if p in m then m[p] else []
  }

  ghost predicate Keyed(s: Pool, spends: Spends) {
    forall t :: t in s.abandoned ==>
      s.abandoned[t].tx.txid == t && Hashed(s.abandoned[t].tx, spends) && Distinct(s.abandoned[t].childs)
  }

  ghost predicate LinksFollowSpends(m: Links, spends: Spends) {
    forall p, c :: p in m && c in m[p] ==> p in spends(c)
  }

  ghost predicate ChildsFollowSpends(s: Pool, spends: Spends) {
    forall p, c :: p in s.abandoned && c in s.abandoned[p].childs ==> p in spends(c)
  }

  /** A pooled tx is blocked by exactly the pooled txs that list it as a child. */
  ghost predicate AbandonedAgree(s: Pool) {
    forall t, p :: t in s.abandoned ==>
      (p in s.abandoned[t].abandonedParents <==> p in s.abandoned && t in s.abandoned[p].childs)
  }

  /** Every absent tx that blocks a pooled tx is linked to it. */
  ghost predicate AbsentLinked(s: Pool) {
    forall t, p :: t in s.abandoned && p in s.abandoned[t].absentParents ==> p in s.absent && t in s.absent[p]
  }

  /** A pooled tx is blocked by exactly the absent txs that are linked to it. */
  ghost predicate AbsentAgree(s: Pool) {
    forall t, p :: t in s.abandoned ==>
      (p in s.abandoned[t].absentParents <==> p in s.absent && t in s.absent[p])
  }

  ghost predicate Blocked(a: AbandonedTx) {
    a.abandonedParents + a.absentParents != {}
  }

  ghost predicate AllBlocked(s: Pool) {
    forall t :: t in s.abandoned ==> Blocked(s.abandoned[t])
  }

  ghost predicate TidyLinks(m: Links, pooled: set<Txid>) {
    forall p :: p in m ==> m[p] != [] && Distinct(m[p]) && p !in pooled
  }

  ghost predicate Valid(s: Pool, spends: Spends) {
    && Keyed(s, spends)
    && LinksFollowSpends(s.absent, spends)
    && LinksFollowSpends(s.available, spends)
    && ChildsFollowSpends(s, spends)
    && AbandonedAgree(s)
    && AbsentLinked(s)
    && AllBlocked(s)
    && TidyLinks(s.absent, s.abandoned.Keys)
    && TidyLinks(s.available, s.abandoned.Keys)
  }

  /** The invariant, and no absent link to a pooled tx that does not block it. */
  ghost predicate Exact(s: Pool, spends: Spends) {
    Valid(s, spends) && AbsentAgree(s)
  }

  lemma EmptyValid(spends: Spends)
    ensures Exact(Pool(map[], map[], map[]), spends)
  {
  }

  // ---------------------------------------------------------------- insert

  /** `m` with `t` linked below every txid of `ps`. */
  function Linked(m: Links, ps: set<Txid>, t: Txid): Links {
    map p | p in m.Keys + ps :: if p in ps then Replace(LinksOf(m, p), t) else m[p]
  }

  function WithChild(a: AbandonedTx, t: Txid): AbandonedTx {
    a.(childs := Replace(a.childs, t))
  }

  function BlockedByPooled(a: AbandonedTx, t: Txid): AbandonedTx {
    a.(abandonedParents := a.abandonedParents + {t}, absentParents := a.absentParents - {t})
  }

  /** Children that the pool already knew for a txid, absent links first. */
  function KnownChilds(s: Pool, t: Txid): seq<Txid> {
    Extend(LinksOf(s.absent, t), LinksOf(s.available, t))
  }

  function NewEntry(s: Pool, tx: Transaction, absentMaybe: set<Txid>): AbandonedTx {
    AbandonedTx(tx.Parents() * s.abandoned.Keys, tx.Parents() * absentMaybe - s.abandoned.Keys,
                KnownChilds(s, tx.txid), tx)
  }

  function OldEntry(s: Pool, tx: Transaction, u: Txid): AbandonedTx
    requires u in s.abandoned
  {
    var a := if u in tx.Parents() then WithChild(s.abandoned[u], tx.txid) else s.abandoned[u];
    if u in KnownChilds(s, tx.txid) then BlockedByPooled(a, tx.txid) else a
  }

  function AfterInsert(s: Pool, tx: Transaction, absentMaybe: set<Txid>): Pool {
    if tx.txid in s.abandoned then s else
    var pooled := s.abandoned.Keys;
    Pool(Linked(s.absent, tx.Parents() * absentMaybe - pooled, tx.txid) - {tx.txid},
         Linked(s.available, tx.Parents() - absentMaybe - pooled, tx.txid) - {tx.txid},
         map u | u in pooled + {tx.txid} ::
           if u == tx.txid then NewEntry(s, tx, absentMaybe) else OldEntry(s, tx, u))
  }

  /** Some parent of the tx is pooled or given as absent. */
  ghost predicate HasBlocker(s: Pool, tx: Transaction, absentMaybe: set<Txid>) {
    tx.Parents() * (absentMaybe + s.abandoned.Keys) != {}
  }

  /** Every absent tx that is already linked to the tx is given as absent. */
  ghost predicate MarksLinked(s: Pool, tx: Transaction, absentMaybe: set<Txid>) {
    forall p :: p in s.absent && tx.txid in s.absent[p] ==> p in absentMaybe
  }

  /** Inserting a new tx keeps the invariant exactly when something blocks it. */
  lemma InsertValidIff(s: Pool, tx: Transaction, absentMaybe: set<Txid>, spends: Spends)
    requires Valid(s, spends) && Hashed(tx, spends) && tx.txid !in s.abandoned
    ensures Valid(AfterInsert(s, tx, absentMaybe), spends) <==> HasBlocker(s, tx, absentMaybe)
  {
    hide *;
    if HasBlocker(s, tx, absentMaybe) {
      ValidParts(s, spends);
      InsertKeepsLinks(s, tx, absentMaybe, spends);
      InsertKeepsAbandoned(s, tx, absentMaybe, spends);
      NotItsOwnParent(tx, spends);
      InsertKeepsLinked(s, tx, absentMaybe);
      InsertKeepsBlocked(s, tx, absentMaybe);
      MakeValid(AfterInsert(s, tx, absentMaybe), spends);
    } else {
      UnblockedBreaks(s, tx, absentMaybe, spends);
    }
  }

  /** It also keeps the links exact exactly when no absent link to the tx goes unmarked. */
  lemma InsertExactIff(s: Pool, tx: Transaction, absentMaybe: set<Txid>, spends: Spends)
    requires Exact(s, spends) && Hashed(tx, spends) && tx.txid !in s.abandoned
    ensures Exact(AfterInsert(s, tx, absentMaybe), spends) <==>
              HasBlocker(s, tx, absentMaybe) && MarksLinked(s, tx, absentMaybe)
  {
    hide AfterInsert, HasBlocker, MarksLinked, Valid, AbsentAgree;
    InsertValidIff(s, tx, absentMaybe, spends);
    if MarksLinked(s, tx, absentMaybe) {
      InsertKeepsAbsent(s, tx, absentMaybe, spends);
    } else {
      ValidParts(s, spends);
      UnmarkedBreaks(s, tx, absentMaybe, spends);
    }
  }

  lemma NotItsOwnParent(tx: Transaction, spends: Spends)
    requires Hashed(tx, spends)
    ensures tx.txid !in tx.Parents()
  {
  }

  lemma KnownChildsFacts(s: Pool, t: Txid, spends: Spends)
    requires Valid(s, spends)
    ensures forall c :: c in KnownChilds(s, t) <==> c in LinksOf(s.absent, t) || c in LinksOf(s.available, t)
    ensures Distinct(KnownChilds(s, t))
    ensures forall c :: c in KnownChilds(s, t) ==> t in spends(c)
  {
    hide *;
    KnownChildsMembers(s, t);
    LinksFacts(s.absent, t, s.abandoned.Keys, spends) by { ValidParts(s, spends); }
    LinksFacts(s.available, t, s.abandoned.Keys, spends) by { ValidParts(s, spends); }
    KnownChildsDistinct(s, t);
  }

  lemma KnownChildsMembers(s: Pool, t: Txid)
    ensures forall c :: c in KnownChilds(s, t) <==> c in LinksOf(s.absent, t) || c in LinksOf(s.available, t)
  {
  }

  lemma KnownChildsDistinct(s: Pool, t: Txid)
    requires Distinct(LinksOf(s.absent, t))
    ensures Distinct(KnownChilds(s, t))
  {
    ExtendDistinct(LinksOf(s.absent, t), LinksOf(s.available, t));
  }

  lemma LinksFacts(m: Links, t: Txid, pooled: set<Txid>, spends: Spends)
    requires LinksFollowSpends(m, spends) && TidyLinks(m, pooled)
    ensures Distinct(LinksOf(m, t))
    ensures forall c :: c in LinksOf(m, t) ==> t in spends(c)
  {
  }

  lemma ValidParts(s: Pool, spends: Spends)
    requires Valid(s, spends)
    ensures Keyed(s, spends) && ChildsFollowSpends(s, spends)
    ensures LinksFollowSpends(s.absent, spends) && TidyLinks(s.absent, s.abandoned.Keys)
    ensures LinksFollowSpends(s.available, spends) && TidyLinks(s.available, s.abandoned.Keys)
    ensures AbandonedAgree(s) && AbsentLinked(s) && AllBlocked(s)
  {
  }

  lemma MakeValid(s: Pool, spends: Spends)
    requires Keyed(s, spends) && ChildsFollowSpends(s, spends)
    requires LinksFollowSpends(s.absent, spends) && TidyLinks(s.absent, s.abandoned.Keys)
    requires LinksFollowSpends(s.available, spends) && TidyLinks(s.available, s.abandoned.Keys)
    requires AbandonedAgree(s) && AbsentLinked(s) && AllBlocked(s)
    ensures Valid(s, spends)
  {
  }

  lemma LinkedTidy(m: Links, ps: set<Txid>, t: Txid, pooled: set<Txid>, spends: Spends)
    requires LinksFollowSpends(m, spends) && TidyLinks(m, pooled)
    requires ps <= spends(t) && ps !! pooled
    ensures LinksFollowSpends(Linked(m, ps, t) - {t}, spends)
    ensures TidyLinks(Linked(m, ps, t) - {t}, pooled + {t})
  {
  }

  /** How each entry looks to the invariant after an insertion. */
  lemma InsertedOld(s: Pool, tx: Transaction, absentMaybe: set<Txid>, u: Txid)
    requires u in s.abandoned && tx.txid !in s.abandoned
    ensures
      var s' := AfterInsert(s, tx, absentMaybe);
      var known := u in LinksOf(s.absent, tx.txid) || u in LinksOf(s.available, tx.txid);
      && u in s'.abandoned && s'.abandoned[u].tx == s.abandoned[u].tx
      && (s'.abandoned[u].childs == if u in tx.Parents() then Replace(s.abandoned[u].childs, tx.txid)
                                    else s.abandoned[u].childs)
      && (s'.abandoned[u].abandonedParents ==
            if known then s.abandoned[u].abandonedParents + {tx.txid} else s.abandoned[u].abandonedParents)
      && (s'.abandoned[u].absentParents ==
            if known then s.abandoned[u].absentParents - {tx.txid} else s.abandoned[u].absentParents)
  {
    hide Extend;
    KnownChildsMembers(s, tx.txid);
  }

  lemma InsertedNew(s: Pool, tx: Transaction, absentMaybe: set<Txid>)
    requires tx.txid !in s.abandoned
    ensures
      var s' := AfterInsert(s, tx, absentMaybe);
      s'.abandoned.Keys == s.abandoned.Keys + {tx.txid} && s'.abandoned[tx.txid] == NewEntry(s, tx, absentMaybe)
  {
    hide Extend, KnownChilds;
  }

  lemma InsertedAbsent(s: Pool, tx: Transaction, absentMaybe: set<Txid>, p: Txid, c: Txid)
    requires tx.txid !in s.abandoned
    ensures
      var s' := AfterInsert(s, tx, absentMaybe);
      c in LinksOf(s'.absent, p) <==>
        p != tx.txid && (c in LinksOf(s.absent, p) ||
                         (c == tx.txid && p in tx.Parents() && p in absentMaybe && p !in s.abandoned))
  {
    hide Extend, KnownChilds;
  }

  lemma InsertedAvailable(s: Pool, tx: Transaction, absentMaybe: set<Txid>, p: Txid, c: Txid)
    requires tx.txid !in s.abandoned
    ensures
      var s' := AfterInsert(s, tx, absentMaybe);
      c in LinksOf(s'.available, p) <==>
        p != tx.txid && (c in LinksOf(s.available, p) ||
                         (c == tx.txid && p in tx.Parents() && p !in absentMaybe && p !in s.abandoned))
  {
    hide Extend, KnownChilds;
  }

  lemma InsertKeepsLinks(s: Pool, tx: Transaction, absentMaybe: set<Txid>, spends: Spends)
    requires Valid(s, spends) && Hashed(tx, spends) && tx.txid !in s.abandoned
    ensures
      var s' := AfterInsert(s, tx, absentMaybe);
      && Keyed(s', spends) && ChildsFollowSpends(s', spends)
      && LinksFollowSpends(s'.absent, spends) && LinksFollowSpends(s'.available, spends)
      && TidyLinks(s'.absent, s'.abandoned.Keys) && TidyLinks(s'.available, s'.abandoned.Keys)
  {
    hide Extend, KnownChilds, Linked, TidyLinks, LinksFollowSpends, Distinct;
    var pooled := s.abandoned.Keys;
    LinkedTidy(s.absent, tx.Parents() * absentMaybe - pooled, tx.txid, pooled, spends);
    LinkedTidy(s.available, tx.Parents() - absentMaybe - pooled, tx.txid, pooled, spends);
    InsertedNew(s, tx, absentMaybe);
    InsertKeepsKeyed(s, tx, absentMaybe, spends);
  }

  lemma InsertKeepsKeyed(s: Pool, tx: Transaction, absentMaybe: set<Txid>, spends: Spends)
    requires Valid(s, spends) && Hashed(tx, spends) && tx.txid !in s.abandoned
    ensures
      var s' := AfterInsert(s, tx, absentMaybe);
      Keyed(s', spends) && ChildsFollowSpends(s', spends)
  {
    hide AfterInsert, KnownChilds, TidyLinks, LinksFollowSpends, AbandonedAgree, AbsentLinked, AllBlocked;
    var s' := AfterInsert(s, tx, absentMaybe);
    KnownChildsFacts(s, tx.txid, spends);
    InsertedNew(s, tx, absentMaybe);
    forall u | u in s.abandoned
      ensures s'.abandoned[u].tx == s.abandoned[u].tx && Distinct(s'.abandoned[u].childs)
      ensures forall c :: c in s'.abandoned[u].childs ==> u in spends(c)
    {
      InsertedOld(s, tx, absentMaybe, u);
    }
  }

  lemma InsertKeepsAbandoned(s: Pool, tx: Transaction, absentMaybe: set<Txid>, spends: Spends)
    requires Valid(s, spends) && Hashed(tx, spends) && tx.txid !in s.abandoned
    ensures AbandonedAgree(AfterInsert(s, tx, absentMaybe))
  {
    hide AfterInsert, KnownChilds, TidyLinks, Distinct, AbsentLinked, AllBlocked;
    var s' := AfterInsert(s, tx, absentMaybe);
    KnownChildsFacts(s, tx.txid, spends);
    InsertedNew(s, tx, absentMaybe);
    forall t, p | t in s'.abandoned
      ensures p in s'.abandoned[t].abandonedParents <==> p in s'.abandoned && t in s'.abandoned[p].childs
    {
      if t in s.abandoned { InsertedOld(s, tx, absentMaybe, t); }
      if p in s.abandoned { InsertedOld(s, tx, absentMaybe, p); }
    }
  }

  lemma NewAbsentAgree(s: Pool, tx: Transaction, absentMaybe: set<Txid>, spends: Spends, p: Txid)
    requires LinksFollowSpends(s.absent, spends) && TidyLinks(s.absent, s.abandoned.Keys)
    requires Hashed(tx, spends) && tx.txid !in s.abandoned && MarksLinked(s, tx, absentMaybe)
    ensures
      var s' := AfterInsert(s, tx, absentMaybe);
      tx.txid in s'.abandoned &&
      (p in s'.abandoned[tx.txid].absentParents <==> tx.txid in LinksOf(s'.absent, p))
  {
    hide AfterInsert, KnownChilds, Distinct;
    InsertedNew(s, tx, absentMaybe);
    InsertedAbsent(s, tx, absentMaybe, p, tx.txid);
  }

  lemma OldAbsentAgree(s: Pool, tx: Transaction, absentMaybe: set<Txid>, t: Txid, p: Txid)
    requires AbsentAgree(s) && t in s.abandoned && tx.txid !in s.abandoned
    ensures
      var s' := AfterInsert(s, tx, absentMaybe);
      t in s'.abandoned && (p in s'.abandoned[t].absentParents <==> t in LinksOf(s'.absent, p))
  {
    hide AfterInsert, KnownChilds, Distinct;
    InsertedOld(s, tx, absentMaybe, t);
    InsertedAbsent(s, tx, absentMaybe, p, t);
    assert p in s.abandoned[t].absentParents <==> p in s.absent && t in s.absent[p];
    assert tx.txid in s.abandoned[t].absentParents <==> tx.txid in s.absent && t in s.absent[tx.txid];
  }

  lemma InsertKeepsAbsent(s: Pool, tx: Transaction, absentMaybe: set<Txid>, spends: Spends)
    requires Exact(s, spends) && Hashed(tx, spends) && tx.txid !in s.abandoned
    requires MarksLinked(s, tx, absentMaybe)
    ensures AbsentAgree(AfterInsert(s, tx, absentMaybe))
  {
    hide AfterInsert, LinksFollowSpends, TidyLinks, MarksLinked, AllBlocked, AbandonedAgree, Keyed, ChildsFollowSpends;
    var s' := AfterInsert(s, tx, absentMaybe);
    InsertedNew(s, tx, absentMaybe);
    forall t, p | t in s'.abandoned
      ensures p in s'.abandoned[t].absentParents <==> p in s'.absent && t in s'.absent[p]
    {
      if t == tx.txid {
        NewAbsentAgree(s, tx, absentMaybe, spends, p);
      } else {
        OldAbsentAgree(s, tx, absentMaybe, t, p);
      }
    }
  }

  lemma InsertKeepsLinked(s: Pool, tx: Transaction, absentMaybe: set<Txid>)
    requires AbsentLinked(s) && tx.txid !in s.abandoned && tx.txid !in tx.Parents()
    ensures AbsentLinked(AfterInsert(s, tx, absentMaybe))
  {
    hide AfterInsert, KnownChilds;
    var s' := AfterInsert(s, tx, absentMaybe);
    InsertedNew(s, tx, absentMaybe);
    forall t, p | t in s'.abandoned && p in s'.abandoned[t].absentParents ensures p in s'.absent && t in s'.absent[p] {
      InsertedAbsent(s, tx, absentMaybe, p, t);
      if t != tx.txid {
        InsertedOld(s, tx, absentMaybe, t);
        assert p in s.abandoned[t].absentParents;
      }
    }
  }

  lemma InsertKeepsBlocked(s: Pool, tx: Transaction, absentMaybe: set<Txid>)
    requires AllBlocked(s) && tx.txid !in s.abandoned && HasBlocker(s, tx, absentMaybe)
    ensures AllBlocked(AfterInsert(s, tx, absentMaybe))
  {
    hide AfterInsert, KnownChilds;
    var s' := AfterInsert(s, tx, absentMaybe);
    InsertedNew(s, tx, absentMaybe);
    forall t | t in s'.abandoned ensures Blocked(s'.abandoned[t]) {
      if t == tx.txid {
        var p :| p in tx.Parents() * (absentMaybe + s.abandoned.Keys);
        assert p in s'.abandoned[t].abandonedParents + s'.abandoned[t].absentParents;
      } else {
        InsertedOld(s, tx, absentMaybe, t);
        assert Blocked(s.abandoned[t]);
        var p :| p in s.abandoned[t].abandonedParents + s.abandoned[t].absentParents;
        assert p in s'.abandoned[t].abandonedParents + s'.abandoned[t].absentParents;
      }
    }
  }

  lemma UnblockedBreaks(s: Pool, tx: Transaction, absentMaybe: set<Txid>, spends: Spends)
    requires tx.txid !in s.abandoned && !HasBlocker(s, tx, absentMaybe)
    ensures !Valid(AfterInsert(s, tx, absentMaybe), spends)
  {
    hide AfterInsert, KnownChilds, Keyed, TidyLinks, LinksFollowSpends, ChildsFollowSpends, AbandonedAgree;
    var t := tx.txid;
    var s' := AfterInsert(s, tx, absentMaybe);
    InsertedNew(s, tx, absentMaybe);
    forall p ensures p !in s'.abandoned[t].abandonedParents + s'.abandoned[t].absentParents {
      assert p !in tx.Parents() * (absentMaybe + s.abandoned.Keys);
    }
    assert !Blocked(s'.abandoned[t]);
  }

  lemma UnmarkedBreaks(s: Pool, tx: Transaction, absentMaybe: set<Txid>, spends: Spends)
    requires LinksFollowSpends(s.absent, spends) && Hashed(tx, spends) && tx.txid !in s.abandoned
    requires !MarksLinked(s, tx, absentMaybe)
    ensures !AbsentAgree(AfterInsert(s, tx, absentMaybe))
  {
    hide AfterInsert, KnownChilds;
    var t := tx.txid;
    var s' := AfterInsert(s, tx, absentMaybe);
    InsertedNew(s, tx, absentMaybe);
    var p :| p in s.absent && t in s.absent[p] && p !in absentMaybe;
    NotLinkedToItself(s.absent, tx, spends, p);
    InsertedAbsent(s, tx, absentMaybe, p, t);
    assert t in LinksOf(s'.absent, p) && p !in s'.abandoned[t].absentParents;
  }

  lemma NotLinkedToItself(m: Links, tx: Transaction, spends: Spends, p: Txid)
    requires LinksFollowSpends(m, spends) && Hashed(tx, spends) && p in m && tx.txid in m[p]
    ensures p != tx.txid
  {
  }

  // ---------------------------------------------------------------- remove

  /** `m` with `t` unlinked below every txid of `ps`; a list that runs empty goes. */
  function Unlinked(m: Links, ps: set<Txid>, t: Txid): Links {
    map p | p in m && !(p in ps && Without(m[p], t) == []) :: if p in ps then Without(m[p], t) else m[p]
  }

  function WithoutChild(a: AbandonedTx, t: Txid): AbandonedTx {
    a.(childs := Without(a.childs, t))
  }

  function BlockedByAbsent(a: AbandonedTx, t: Txid): AbandonedTx {
    a.(abandonedParents := a.abandonedParents - {t}, absentParents := a.absentParents + {t})
  }

  function RemainingEntry(s: Pool, t: Txid, u: Txid): AbandonedTx
    requires t in s.abandoned && u in s.abandoned
  {
    var a := if u in s.abandoned[t].tx.Parents() then WithoutChild(s.abandoned[u], t) else s.abandoned[u];
    if u in s.abandoned[t].childs then BlockedByAbsent(a, t) else a
  }

  function AfterRemove(s: Pool, t: Txid): Pool {
    if t !in s.abandoned then s else
    var parents := s.abandoned[t].tx.Parents();
    var childs := s.abandoned[t].childs;
    var absent := Unlinked(s.absent, parents - s.abandoned.Keys, t);
    Pool(if childs == [] then absent else absent[t := childs],
         Unlinked(s.available, parents - s.abandoned.Keys - s.absent.Keys, t),
         map u | u in s.abandoned && u != t :: RemainingEntry(s, t, u))
  }

  lemma UnlinkedTidy(m: Links, ps: set<Txid>, t: Txid, pooled: set<Txid>, spends: Spends)
    requires LinksFollowSpends(m, spends) && TidyLinks(m, pooled)
    ensures LinksFollowSpends(Unlinked(m, ps, t), spends)
    ensures TidyLinks(Unlinked(m, ps, t), pooled)
  {
    forall p | p in m ensures Distinct(Without(m[p], t)) {
      WithoutDistinct(m[p], t);
    }
  }

  lemma UnlinkedMembers(m: Links, ps: set<Txid>, t: Txid, p: Txid, c: Txid)
    ensures c in LinksOf(Unlinked(m, ps, t), p) <==> c in LinksOf(m, p) && !(p in ps && c == t)
    ensures p in Unlinked(m, ps, t) ==> p in m
  {
  }

  lemma RemovedEntry(s: Pool, t: Txid, u: Txid)
    requires t in s.abandoned && u in s.abandoned && u != t
    ensures
      var s' := AfterRemove(s, t);
      var parent := u in s.abandoned[t].tx.Parents();
      var child := u in s.abandoned[t].childs;
      var a, a' := s.abandoned[u], s'.abandoned[u];
      && u in s'.abandoned && a'.tx == a.tx
      && a'.childs == (if parent then Without(a.childs, t) else a.childs)
      && a'.abandonedParents == (if child then a.abandonedParents - {t} else a.abandonedParents)
      && a'.absentParents == (if child then a.absentParents + {t} else a.absentParents)
  {
    hide Without, Unlinked;
  }

  lemma RemovedPool(s: Pool, t: Txid)
    requires t in s.abandoned
    ensures AfterRemove(s, t).abandoned.Keys == s.abandoned.Keys - {t}
  {
    hide Without, Unlinked;
  }

  lemma RemovedAbsent(s: Pool, t: Txid, p: Txid, c: Txid)
    requires t in s.abandoned && t !in s.absent
    ensures c in LinksOf(AfterRemove(s, t).absent, p) <==>
              if p == t then c in s.abandoned[t].childs
              else c in LinksOf(s.absent, p) &&
                   !(c == t && p in s.abandoned[t].tx.Parents() && p !in s.abandoned)
  {
    hide Without, Unlinked, LinksOf;
    var ps := s.abandoned[t].tx.Parents() - s.abandoned.Keys;
    UnlinkedMembers(s.absent, ps, t, p, c);
    UnlinkedMembers(s.absent, ps, t, t, c);
    PutLinks(Unlinked(s.absent, ps, t), t, s.abandoned[t].childs, p);
  }

  lemma PutLinks(m: Links, t: Txid, l: seq<Txid>, p: Txid)
    requires t !in m || l != []
    ensures LinksOf(if l == [] then m else m[t := l], p) == if p == t then l else LinksOf(m, p)
  {
  }

  lemma RemoveKeepsKeyed(s: Pool, t: Txid, spends: Spends)
    requires Keyed(s, spends) && ChildsFollowSpends(s, spends) && t in s.abandoned
    ensures Keyed(AfterRemove(s, t), spends) && ChildsFollowSpends(AfterRemove(s, t), spends)
  {
    hide AfterRemove, Distinct;
    RemovedPool(s, t);
    forall u | u in AfterRemove(s, t).abandoned
      ensures
        var a := AfterRemove(s, t).abandoned[u];
        && a.tx == s.abandoned[u].tx && Distinct(a.childs)
        && forall c :: c in a.childs ==> c in s.abandoned[u].childs
    {
      RemovedEntry(s, t, u);
      WithoutDistinct(s.abandoned[u].childs, t);
    }
  }

  lemma RemoveKeepsLinks(s: Pool, t: Txid, spends: Spends)
    requires Valid(s, spends) && t in s.abandoned
    ensures
      var s' := AfterRemove(s, t);
      && LinksFollowSpends(s'.absent, spends) && LinksFollowSpends(s'.available, spends)
      && TidyLinks(s'.absent, s'.abandoned.Keys) && TidyLinks(s'.available, s'.abandoned.Keys)
  {
    hide *;
    ValidParts(s, spends);
    RemovedPool(s, t);
    RemovedLinks(s, t);
    RemovedChilds(s, t, spends);
    var pooled := s.abandoned.Keys;
    var parents := s.abandoned[t].tx.Parents();
    UnlinkedTidy(s.absent, parents - pooled, t, pooled, spends);
    UnlinkedTidy(s.available, parents - pooled - s.absent.Keys, t, pooled, spends);
    TidyForFewer(Unlinked(s.available, parents - pooled - s.absent.Keys, t), pooled, pooled - {t});
    TidyWith(Unlinked(s.absent, parents - pooled, t), pooled, t, s.abandoned[t].childs, spends);
  }

  lemma RemovedLinks(s: Pool, t: Txid)
    requires t in s.abandoned
    ensures
      var s' := AfterRemove(s, t);
      var parents, childs := s.abandoned[t].tx.Parents(), s.abandoned[t].childs;
      var absent := Unlinked(s.absent, parents - s.abandoned.Keys, t);
      && s'.absent == (if childs == [] then absent else absent[t := childs])
      && s'.available == Unlinked(s.available, parents - s.abandoned.Keys - s.absent.Keys, t)
  {
    hide Unlinked, RemainingEntry;
  }

  lemma RemovedChilds(s: Pool, t: Txid, spends: Spends)
    requires Keyed(s, spends) && ChildsFollowSpends(s, spends) && t in s.abandoned
    ensures Distinct(s.abandoned[t].childs)
    ensures forall c :: c in s.abandoned[t].childs ==> t in spends(c)
  {
    hide Distinct;
  }

  lemma TidyForFewer(m: Links, pooled: set<Txid>, fewer: set<Txid>)
    requires TidyLinks(m, pooled) && fewer <= pooled
    ensures TidyLinks(m, fewer)
  {
  }

  lemma TidyWith(m: Links, pooled: set<Txid>, t: Txid, childs: seq<Txid>, spends: Spends)
    requires TidyLinks(m, pooled) && LinksFollowSpends(m, spends) && Distinct(childs)
    requires forall c :: c in childs ==> t in spends(c)
    ensures
      var m' := if childs == [] then m else m[t := childs];
      TidyLinks(m', pooled - {t}) && LinksFollowSpends(m', spends)
  {
    hide Distinct;
  }

  lemma RemoveKeepsAbandoned(s: Pool, t: Txid, spends: Spends)
    requires Keyed(s, spends) && ChildsFollowSpends(s, spends) && AbandonedAgree(s) && t in s.abandoned
    ensures AbandonedAgree(AfterRemove(s, t))
  {
    hide AfterRemove, Distinct, Without;
    var s' := AfterRemove(s, t);
    RemovedPool(s, t);
    forall u, p | u in s'.abandoned
      ensures p in s'.abandoned[u].abandonedParents <==> p in s'.abandoned && u in s'.abandoned[p].childs
    {
      RemovedEntry(s, t, u);
      assert p in s.abandoned[u].abandonedParents <==> p in s.abandoned && u in s.abandoned[p].childs;
      assert t in s.abandoned[u].abandonedParents <==> u in s.abandoned[t].childs;
      if p in s'.abandoned {
        RemovedEntry(s, t, p);
        WithoutMembers(s.abandoned[p].childs, t, u);
      }
    }
  }

  lemma RemoveKeepsAbsent(s: Pool, t: Txid)
    requires AbsentAgree(s) && t in s.abandoned && t !in s.absent
    ensures AbsentAgree(AfterRemove(s, t))
  {
    hide AfterRemove, Distinct, Without;
    var s' := AfterRemove(s, t);
    RemovedPool(s, t);
    forall u, p | u in s'.abandoned
      ensures p in s'.abandoned[u].absentParents <==> p in s'.absent && u in s'.absent[p]
    {
      RemovedEntry(s, t, u);
      RemovedAbsent(s, t, p, u);
      assert p in s.abandoned[u].absentParents <==> p in s.absent && u in s.absent[p];
    }
  }

  lemma RemoveKeepsLinked(s: Pool, t: Txid)
    requires AbsentLinked(s) && t in s.abandoned && t !in s.absent
    ensures AbsentLinked(AfterRemove(s, t))
  {
    hide AfterRemove, Distinct, Without;
    var s' := AfterRemove(s, t);
    RemovedPool(s, t);
    forall u, p | u in s'.abandoned && p in s'.abandoned[u].absentParents ensures p in s'.absent && u in s'.absent[p] {
      RemovedEntry(s, t, u);
      RemovedAbsent(s, t, p, u);
      if p != t {
        assert p in s.abandoned[u].absentParents;
      }
    }
  }

  lemma PooledNotAbsent(m: Links, pooled: set<Txid>, t: Txid)
    requires TidyLinks(m, pooled) && t in pooled
    ensures t !in m
  {
  }

  lemma WithoutMembers(l: seq<Txid>, t: Txid, u: Txid)
    ensures u in Without(l, t) <==> u in l && u != t
  {
  }

  lemma RemoveKeepsBlocked(s: Pool, t: Txid)
    requires AllBlocked(s) && t in s.abandoned
    ensures AllBlocked(AfterRemove(s, t))
  {
    hide AfterRemove;
    RemovedPool(s, t);
    forall u | u in AfterRemove(s, t).abandoned ensures Blocked(AfterRemove(s, t).abandoned[u]) {
      RemovedEntry(s, t, u);
      assert Blocked(s.abandoned[u]);
      var p :| p in s.abandoned[u].abandonedParents + s.abandoned[u].absentParents;
      var a := AfterRemove(s, t).abandoned[u];
      assert p in a.abandonedParents + a.absentParents;
    }
  }

  /** A removed tx stays known as an absent parent, so every child left behind is still blocked. */
  lemma RemoveValid(s: Pool, t: Txid, spends: Spends)
    requires Valid(s, spends)
    ensures Valid(AfterRemove(s, t), spends)
  {
    if t in s.abandoned {
      hide *;
      ValidParts(s, spends);
      RemoveKeepsKeyed(s, t, spends);
      RemoveKeepsLinks(s, t, spends);
      RemoveKeepsAbandoned(s, t, spends);
      PooledNotAbsent(s.absent, s.abandoned.Keys, t);
      RemoveKeepsLinked(s, t);
      RemoveKeepsBlocked(s, t);
      MakeValid(AfterRemove(s, t), spends);
    }
  }

  /** A removal keeps the links exact. */
  lemma RemoveExact(s: Pool, t: Txid, spends: Spends)
    requires Exact(s, spends)
    ensures Exact(AfterRemove(s, t), spends)
  {
    hide AfterRemove, Valid, AbsentAgree;
    RemoveValid(s, t, spends);
    if t in s.abandoned {
      PooledNotAbsent(s.absent, s.abandoned.Keys, t) by { ValidParts(s, spends); }
      RemoveKeepsAbsent(s, t);
    } else {
      NothingRemoved(s, t);
    }
  }

  lemma NothingRemoved(s: Pool, t: Txid)
    requires t !in s.abandoned
    ensures AfterRemove(s, t) == s
  {
  }

  ghost predicate Unknown(s: Pool, t: Txid) {
    && t !in s.abandoned && t !in s.available
    && (forall p :: p in s.absent ==> t !in s.absent[p])
    && (forall p :: p in s.available ==> t !in s.available[p])
    && (forall p :: p in s.abandoned ==> t !in s.abandoned[p].childs)
  }

  lemma ReplaceThenWithout(l: seq<Txid>, t: Txid)
    requires t !in l
    ensures Without(Replace(l, t), t) == l
  {
    assert (l + [t])[..|l|] == l;
  }

  /** Removing a tx undoes its insertion, when the pool held no trace of it other than as an absent parent. */
  lemma InsertThenRemove(s: Pool, tx: Transaction, absentMaybe: set<Txid>, spends: Spends)
    requires Exact(s, spends) && Hashed(tx, spends) && Unknown(s, tx.txid)
    requires forall p :: p in tx.Parents() && p in s.absent ==> p in absentMaybe
    ensures AfterRemove(AfterInsert(s, tx, absentMaybe), tx.txid) == s
  {
    hide *;
    ExactParts(s, spends);
    ValidParts(s, spends);
    UndoEntries(s, tx, absentMaybe, spends);
    UndoAbsent(s, tx, absentMaybe, spends);
    UndoAvailable(s, tx, absentMaybe, spends);
    SamePool(AfterRemove(AfterInsert(s, tx, absentMaybe), tx.txid), s);
  }

  lemma ExactParts(s: Pool, spends: Spends)
    requires Exact(s, spends)
    ensures Valid(s, spends) && AbsentAgree(s)
  {
  }

  lemma SamePool(a: Pool, b: Pool)
    requires a.abandoned == b.abandoned && a.absent == b.absent && a.available == b.available
    ensures a == b
  {
  }

  lemma UndoEntry(s: Pool, tx: Transaction, absentMaybe: set<Txid>, u: Txid)
    requires AbandonedAgree(s) && AbsentAgree(s) && Unknown(s, tx.txid) && u in s.abandoned
    ensures
      var s2 := AfterRemove(AfterInsert(s, tx, absentMaybe), tx.txid);
      u in s2.abandoned && s2.abandoned[u] == s.abandoned[u]
  {
    hide AfterInsert, AfterRemove, KnownChilds, Without, Replace;
    var t := tx.txid;
    var s1 := AfterInsert(s, tx, absentMaybe);
    InsertedNew(s, tx, absentMaybe);
    KnownChildsMembers(s, t);
    InsertedOld(s, tx, absentMaybe, u);
    RemovedEntry(s1, t, u);
    ReplaceThenWithout(s.abandoned[u].childs, t);
    assert t !in s.abandoned[u].abandonedParents;
    assert t in s.abandoned[u].absentParents <==> u in LinksOf(s.absent, t);
  }

  lemma UndoEntries(s: Pool, tx: Transaction, absentMaybe: set<Txid>, spends: Spends)
    requires AbandonedAgree(s) && AbsentAgree(s) && Unknown(s, tx.txid)
    ensures AfterRemove(AfterInsert(s, tx, absentMaybe), tx.txid).abandoned == s.abandoned
  {
    hide AfterInsert, AfterRemove, KnownChilds, AbandonedAgree, AbsentAgree;
    var s1 := AfterInsert(s, tx, absentMaybe);
    InsertedNew(s, tx, absentMaybe);
    RemovedPool(s1, tx.txid);
    forall u | u in s.abandoned
      ensures
        var s2 := AfterRemove(s1, tx.txid);
        u in s2.abandoned && s2.abandoned[u] == s.abandoned[u]
    {
      UndoEntry(s, tx, absentMaybe, u);
    }
  }

  lemma LinkedThenUnlinked(m: Links, ps: set<Txid>, t: Txid)
    requires forall p :: p in m ==> m[p] != [] && t !in m[p]
    ensures Unlinked(Linked(m, ps, t), ps, t) == m
  {
    hide Replace, Without, LinksOf;
    forall p | p in m.Keys + ps
      ensures Without(Replace(LinksOf(m, p), t), t) == if p in m then m[p] else []
    {
      LinksOfEither(m, p);
      ReplaceThenWithout(LinksOf(m, p), t);
    }
  }

  lemma LinksOfEither(m: Links, p: Txid)
    ensures LinksOf(m, p) == if p in m then m[p] else []
  {
  }

  lemma UnlinkedApart(m: Links, ps: set<Txid>, t: Txid, x: Txid)
    requires x !in ps
    ensures Unlinked(m - {x}, ps, t) == Unlinked(m, ps, t) - {x}
  {
    hide Without;
  }

  lemma UnlinkedOnly(m: Links, ps: set<Txid>, qs: set<Txid>, t: Txid)
    requires forall p :: p in m ==> (p in ps <==> p in qs)
    ensures Unlinked(m, ps, t) == Unlinked(m, qs, t)
  {
    hide Without;
  }

  lemma ApartFrom(m: Links, t: Txid)
    requires t !in m
    ensures m - {t} == m
  {
  }

  lemma LinkedKeys(m: Links, ps: set<Txid>, t: Txid)
    ensures Linked(m, ps, t).Keys == m.Keys + ps
  {
    hide Replace;
  }

  lemma UndoAbsent(s: Pool, tx: Transaction, absentMaybe: set<Txid>, spends: Spends)
    requires Hashed(tx, spends) && TidyLinks(s.absent, s.abandoned.Keys) && Unknown(s, tx.txid)
    requires forall p :: p in tx.Parents() && p in s.absent ==> p in absentMaybe
    ensures AfterRemove(AfterInsert(s, tx, absentMaybe), tx.txid).absent == s.absent
  {
    hide Linked, Unlinked, Extend, Replace, Without, OldEntry, Distinct;
    var t := tx.txid;
    var ps := tx.Parents() * absentMaybe - s.abandoned.Keys;
    var s1 := AfterInsert(s, tx, absentMaybe);
    var l := Linked(s.absent, ps, t);
    LinkedKeys(s.absent, ps, t);
    InsertedNew(s, tx, absentMaybe);
    ExtendNothing(LinksOf(s.absent, t));
    UnlinkedOnly(s1.absent, tx.Parents() - s1.abandoned.Keys, ps, t);
    UnlinkedApart(l, ps, t, t);
    LinkedThenUnlinked(s.absent, ps, t);
    PutBack(s.absent, t);
  }

  lemma ExtendNothing(l: seq<Txid>)
    ensures Extend(l, []) == l
  {
  }

  lemma PutBack(m: Links, t: Txid)
    requires t in m ==> m[t] != []
    ensures (if LinksOf(m, t) == [] then m - {t} else (m - {t})[t := LinksOf(m, t)]) == m
  {
  }

  lemma UndoAvailable(s: Pool, tx: Transaction, absentMaybe: set<Txid>, spends: Spends)
    requires Hashed(tx, spends) && TidyLinks(s.available, s.abandoned.Keys) && Unknown(s, tx.txid)
    requires forall p :: p in tx.Parents() && p in s.absent ==> p in absentMaybe
    ensures AfterRemove(AfterInsert(s, tx, absentMaybe), tx.txid).available == s.available
  {
    hide Linked, Unlinked, Extend, KnownChilds, Replace, Without, OldEntry, Distinct;
    var t := tx.txid;
    var qs := tx.Parents() - absentMaybe - s.abandoned.Keys;
    var s1 := AfterInsert(s, tx, absentMaybe);
    LinkedKeys(s.absent, tx.Parents() * absentMaybe - s.abandoned.Keys, t);
    LinkedKeys(s.available, qs, t);
    InsertedNew(s, tx, absentMaybe);
    ApartFrom(Linked(s.available, qs, t), t);
    assert tx.Parents() - s1.abandoned.Keys - s1.absent.Keys == qs;
    LinkedThenUnlinked(s.available, qs, t);
  }
}
