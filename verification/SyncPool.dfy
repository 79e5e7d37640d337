/** How the filtered mempool of the sync relates to the mirror, and when all insertions into it are childless. */
module SyncPools {
  import opened Types
  import opened SyncQueues
  import opened SyncTips
  import opened SyncLogs
  import AbandonedTxs
  import PoolTxs
  import PoolInsert

  /** The blocks turned down, the filtered mempool and the mirrored tx set. */
  datatype Views = Views(rejected: set<BlockHash>, pool: map<Txid, Transaction>, mirror: set<Txid>)

  /** The filtered mempool holds real txs, and only mirrored ones as long as no block was rejected. */
  ghost predicate Pooled(v: Views, spends: AbandonedTxs.Spends) {
    && (v.rejected == {} ==> v.pool.Keys <= v.mirror)
    && (forall t :: t in v.pool ==> v.pool[t].txid == t && AbandonedTxs.Hashed(v.pool[t], spends))
  }

  /** No rejection is forgotten, and the views stay as they should be. */
  ghost predicate PooledStep(v: Views, v': Views, spends: AbandonedTxs.Spends) {
    v.rejected <= v'.rejected && (Pooled(v, spends) ==> Pooled(v', spends))
  }

  ghost predicate Part(less: map<Txid, Transaction>, more: map<Txid, Transaction>) {
    less.Keys <= more.Keys && forall t :: t in less ==> less[t] == more[t]
  }

  lemma PartWithout(pool: map<Txid, Transaction>, more: map<Txid, Transaction>, gone: set<Txid>)
    requires Part(pool, more)
    ensures Part(pool - gone, more)
  {
  }

  // ---- removals with descendants ----

  /** `x` holds the pooled roots, and every pooled tx that spends a root or a member of `x`. */
  ghost predicate SpendersWithin(pool: map<Txid, Transaction>, roots: set<Txid>, x: set<Txid>) {
    forall t :: t in pool && (t in roots || pool[t].Parents() * (roots + x) != {}) ==> t in x
  }

  /** The pooled txs that leave with the roots: the least such set. */
  ghost function Downstream(pool: map<Txid, Transaction>, roots: set<Txid>): set<Txid> {
    set t | t in pool && forall x :: SpendersWithin(pool, roots, x) ==> t in x
  }

  lemma DownstreamWithin(pool: map<Txid, Transaction>, roots: set<Txid>)
    ensures SpendersWithin(pool, roots, Downstream(pool, roots))
    ensures Downstream(pool, roots) <= pool.Keys
    ensures pool.Keys * roots <= Downstream(pool, roots)
  {
    hide Transaction.Parents;
    var d := Downstream(pool, roots);
    forall t, x | t in pool && (t in roots || pool[t].Parents() * (roots + d) != {}) && SpendersWithin(pool, roots, x)
      ensures t in x
    {
      if t !in roots {
        var p :| p in pool[t].Parents() * (roots + d);
        assert p in roots + x;
        assert p in pool[t].Parents() * (roots + x);
      }
    }
  }

  lemma DownstreamLeast(pool: map<Txid, Transaction>, roots: set<Txid>, x: set<Txid>)
    requires SpendersWithin(pool, roots, x)
    ensures Downstream(pool, roots) <= x
  {
    hide Transaction.Parents;
  }

  lemma DownstreamOfNone(pool: map<Txid, Transaction>)
    ensures Downstream(pool, {}) == {} && pool - {} == pool
  {
    hide Transaction.Parents;
    assert forall t :: t in pool ==> pool[t].Parents() * ({} + {}) == {};
    assert SpendersWithin(pool, {}, {});
    DownstreamLeast(pool, {}, {});
  }

  /** Removing root after root takes out what removing them all at once does. */
  lemma DownstreamMore(pool: map<Txid, Transaction>, roots: set<Txid>, root: Txid)
    ensures
      var rest := pool - Downstream(pool, roots);
      && Downstream(pool, roots + {root}) == Downstream(pool, roots) + Downstream(rest, {root})
      && pool - Downstream(pool, roots + {root}) == rest - Downstream(rest, {root})
  {
    hide Downstream, Transaction.Parents;
    var d := Downstream(pool, roots);
    var rest := pool - d;
    var more, all := Downstream(rest, {root}), Downstream(pool, roots + {root});
    DownstreamWithin(pool, roots);
    DownstreamWithin(rest, {root});
    DownstreamWithin(pool, roots + {root});
    forall t | t in pool && (t in roots + {root} || pool[t].Parents() * (roots + {root} + (d + more)) != {})
      ensures t in d + more
    {
      if t !in d {
        assert pool[t].Parents() * (roots + d) == {};
        assert pool[t].Parents() * (roots + {root} + (d + more)) ==
               pool[t].Parents() * (roots + d) + pool[t].Parents() * ({root} + more);
      }
    }
    DownstreamLeast(pool, roots + {root}, d + more);
    WithinFewer(pool, pool, roots, roots + {root}, all);
    DownstreamLeast(pool, roots, all);
    WithinFewer(rest, pool, {root}, roots + {root}, all);
    DownstreamLeast(rest, {root}, all);
  }

  lemma WithinFewer(less: map<Txid, Transaction>, more: map<Txid, Transaction>, roots: set<Txid>, roots': set<Txid>,
                    x: set<Txid>)
    requires Part(less, more) && roots <= roots' && SpendersWithin(more, roots', x)
    ensures SpendersWithin(less, roots, x)
  {
    hide Transaction.Parents;
    forall t | t in less && (t in roots || less[t].Parents() * (roots + x) != {}) ensures t in x {
      if t !in roots {
        var p :| p in less[t].Parents() * (roots + x);
        assert p in more[t].Parents() * (roots' + x);
      }
    }
  }

  /** Txs leave the filtered mempool, and with them at most those that leave the mirror. */
  lemma ViewsShrink(v: Views, v': Views, gone: set<Txid>, spends: AbandonedTxs.Spends)
    requires v.rejected <= v'.rejected && Part(v'.pool, v.pool)
    requires v'.rejected == {} ==> v'.pool.Keys !! gone && v.mirror - gone <= v'.mirror
    ensures PooledStep(v, v', spends)
  {
    hide AbandonedTxs.Hashed;
  }

  /** A block is turned down; what it mined leaves the mirror alone. */
  lemma ViewsReject(v: Views, hash: BlockHash, mirror: set<Txid>, spends: AbandonedTxs.Spends)
    ensures PooledStep(v, Views(v.rejected + {hash}, v.pool, mirror), spends)
  {
    hide AbandonedTxs.Hashed;
    assert hash in v.rejected + {hash};
  }

  /** A tx enters the mirror, and perhaps the filtered mempool. */
  lemma ViewsGain(v: Views, v': Views, tx: Transaction, spends: AbandonedTxs.Spends)
    requires v.rejected == v'.rejected && v'.mirror == v.mirror + {tx.txid} && AbandonedTxs.Hashed(tx, spends)
    requires Part(v'.pool, v.pool) || v'.pool == v.pool[tx.txid := tx]
    ensures PooledStep(v, v', spends)
  {
    hide AbandonedTxs.Hashed;
  }

  lemma PartSame(pool: map<Txid, Transaction>)
    ensures Part(pool, pool)
  {
  }

  lemma ViewsSame(v: Views, spends: AbandonedTxs.Spends)
    ensures PooledStep(v, v, spends)
  {
  }

  // ---- childless insertions ----

  ghost predicate NoSpender(pool: map<Txid, Transaction>, x: Txid) {
    forall t :: t in pool ==> x !in pool[t].Parents()
  }

  /** For a pool that holds the same txs, an insertion that finds no spender is a childless one. */
  lemma NoSpenderIff(pool: map<Txid, Transaction>, txs: PoolTxs.Txs, tx: Transaction)
    requires txs.Keys == pool.Keys && forall t :: t in pool ==> txs[t].tx == pool[t]
    ensures NoSpender(pool, tx.txid) <==> PoolInsert.Childless(txs, tx)
  {
    hide Transaction.Parents;
    if NoSpender(pool, tx.txid) {
      assert PoolTxs.Spenders(txs, tx.txid) == {};
    } else {
      var t :| t in pool && tx.txid in pool[t].Parents();
      assert t in PoolTxs.Spenders(txs, tx.txid);
    }
  }

  function Entering(action: SyncAction): Option<Txid> {
    match action
    case InsertTx(txid) => Some(txid)
    case Sequence(Added(txid, _)) => Some(txid)
    case Sequence(_) => None
  }

  /** The node announces no tx that its mempool already spends. */
  ghost predicate ParentsLead(actions: seq<SyncAction>, minings: Minings, spends: AbandonedTxs.Spends) {
    forall i, x, t :: 0 <= i < |actions| && Entering(actions[i]) == Some(x) && t in NodeMempool(actions[..i], minings) ==>
      x !in spends(t)
  }

  /** If insertions were childless so far and no pooled tx spends what the action adds, they still are. */
  ghost predicate StaysChildless(was: bool, now: bool, action: SyncAction, pool: map<Txid, Transaction>) {
    was && (Entering(action).Some? ==> NoSpender(pool, Entering(action).value)) ==> now
  }

  lemma NothingEnters(was: bool, action: SyncAction, pool: map<Txid, Transaction>)
    ensures StaysChildless(was, was, action, pool)
  {
  }

  lemma SomethingEnters(was: bool, now: bool, action: SyncAction, txid: Txid, pool: map<Txid, Transaction>)
    requires Entering(action) == Some(txid) && (was && NoSpender(pool, txid) ==> now)
    ensures StaysChildless(was, now, action, pool)
  {
  }

  /** In a run that restores nothing, skips no tx of the node, rejects no block and announces parents first, every
      insertion into the filtered mempool was childless. */
  ghost predicate Led(log: seq<Logged>, effects: seq<Effect>, rejected: set<BlockHash>, childless: bool, minings: Minings,
                      spends: AbandonedTxs.Spends)
  {
    NoneRestored(log) && SkipsHarmless({}, effects) && rejected == {} && ParentsLead(AnnouncedOf(log), minings, spends) ==>
      childless
  }

  /** One applied action. */
  lemma LedStep(log: seq<Logged>, actions: seq<SyncAction>, effects: seq<Effect>, e: Effect, v: Views,
                rejected: set<BlockHash>, was: bool, now: bool, minings: Minings, spends: AbandonedTxs.Spends)
    requires Logs(log, actions, effects, minings) && actions != [] && v.mirror == MirrorTxs({}, effects)
    requires Pooled(v, spends) && v.rejected <= rejected && Led(log, effects, v.rejected, was, minings, spends)
    requires StaysChildless(was, now, actions[0], v.pool)
    ensures Led(log, effects + [e], rejected, now, minings, spends)
  {
    hide HasEffect, NodeMempool, MirrorTxs, NodeTxs, AnnouncedOf, SkipsHarmless, Misses, WellFormedStream, Mirrors;
    SkipsSplit({}, effects, e);
    if NoneRestored(log) && SkipsHarmless({}, effects + [e]) && rejected == {}
       && ParentsLead(AnnouncedOf(log), minings, spends) {
      MirrorOfStream(log, actions, effects, minings);
      NextAnnounced(log, actions, effects, minings);
      if Entering(actions[0]).Some? {
        PoolUnspent(AnnouncedOf(log), |effects|, v, Entering(actions[0]).value, minings, spends);
      }
    }
  }

  lemma NextAnnounced(log: seq<Logged>, actions: seq<SyncAction>, effects: seq<Effect>, minings: Minings)
    requires Logs(log, actions, effects, minings) && NoneRestored(log) && actions != []
    ensures |effects| < |AnnouncedOf(log)| && AnnouncedOf(log)[|effects|] == actions[0]
  {
    hide HasEffect;
    AnnouncedAll(log);
    assert log[|effects|..][0] == log[|effects|];
  }

  /** What is pooled is the node's, so it does not spend what the node announces next. */
  lemma PoolUnspent(actions: seq<SyncAction>, n: nat, v: Views, x: Txid, minings: Minings, spends: AbandonedTxs.Spends)
    requires n < |actions| && Entering(actions[n]) == Some(x) && ParentsLead(actions, minings, spends)
    requires Pooled(v, spends) && v.rejected == {} && v.mirror == NodeMempool(actions[..n], minings)
    ensures NoSpender(v.pool, x)
  {
    hide NodeMempool, Entering, Transaction.Parents;
    forall t | t in v.pool ensures x !in v.pool[t].Parents() {
      assert t in NodeMempool(actions[..n], minings);
      assert v.pool[t].Parents() == spends(t);
    }
  }

  /** More of a run, without an insertion. */
  lemma LedMore(log: seq<Logged>, log': seq<Logged>, effects: seq<Effect>, effects': seq<Effect>,
                rejected: set<BlockHash>, rejected': set<BlockHash>, childless: bool, minings: Minings,
                spends: AbandonedTxs.Spends)
    requires Led(log, effects, rejected, childless, minings, spends) && effects <= effects' && rejected <= rejected'
    requires (NoneRestored(log') ==> NoneRestored(log)) && AnnouncedOf(log) <= AnnouncedOf(log')
    ensures Led(log', effects', rejected', childless, minings, spends)
  {
    hide NodeMempool, NodeTxs, AnnouncedOf, NoneRestored, SkipsHarmless, ParentsLead;
    SkipsPrefix(effects, effects');
    LeadPrefix(AnnouncedOf(log), AnnouncedOf(log'), minings, spends);
  }

  lemma SkipsPrefix(effects: seq<Effect>, effects': seq<Effect>)
    requires effects <= effects'
    ensures SkipsHarmless({}, effects') ==> SkipsHarmless({}, effects)
  {
    hide NodeTxs;
    assert forall i :: 0 <= i < |effects| ==> effects[i] == effects'[i] && effects[..i] == effects'[..i];
  }

  lemma LeadPrefix(actions: seq<SyncAction>, actions': seq<SyncAction>, minings: Minings, spends: AbandonedTxs.Spends)
    requires actions <= actions'
    ensures ParentsLead(actions', minings, spends) ==> ParentsLead(actions, minings, spends)
  {
    hide NodeMempool, Entering;
    assert forall i :: 0 <= i < |actions| ==> actions[i] == actions'[i] && actions[..i] == actions'[..i];
  }

  lemma RestoredGrows(log: seq<Logged>, n: nat, restored: seq<Transaction>, more: seq<Logged>)
    requires n <= |log|
    ensures NoneRestored(WithRestored(log, n, restored) + more) ==> NoneRestored(log)
    ensures NoneRestored(WithRestored(log, n, restored)) ==> NoneRestored(log)
  {
    assert log == log[..n] + log[n..];
    assert forall e :: e in log ==> e in WithRestored(log, n, restored);
  }

  lemma StepPooled(v: Views, v': Views, spends: AbandonedTxs.Spends)
    requires PooledStep(v, v', spends) && Pooled(v, spends)
    ensures Pooled(v', spends) && v.rejected <= v'.rejected
  {
  }
}
