/** The history of the sync: what was announced, what was restored in between, and what has been applied of it. */
module SyncLogs {
  import opened Types
  import opened SyncQueues
  import opened SyncTips

  /** A queued action; `restored` marks the insertion of a tx that came out of the abandoned pool. */
  datatype Logged = Logged(action: SyncAction, restored: bool)

  /** The txids of a block, which its hash commits to. */
  type Minings = BlockHash -> set<Txid>

  /** The actions that put restored txs into the mempool, in order. */
  function Insertions(txs: seq<Transaction>): seq<SyncAction> {
    seq(|txs|, i requires 0 <= i < |txs| => InsertTx(txs[i].txid))
  }

  ghost function ActionsOf(log: seq<Logged>): seq<SyncAction> {
    seq(|log|, i requires 0 <= i < |log| => log[i].action)
  }

  /** The snapshot and the announcements, without what was restored. */
  ghost function AnnouncedOf(log: seq<Logged>): seq<SyncAction> {
    if log == [] then [] else
    AnnouncedOf(log[..|log| - 1]) + if log[|log| - 1].restored then [] else [log[|log| - 1].action]
  }

  ghost predicate NoneRestored(log: seq<Logged>) {
    forall e :: e in log ==> !e.restored
  }

  /** The effect an action has on the node's mempool. */
  ghost predicate HasEffect(action: SyncAction, e: Effect, minings: Minings) {
    match action
    case InsertTx(txid) => e == Enter(txid)
    case Sequence(Added(txid, _)) => e == Enter(txid)
    case Sequence(Removed(txid, _)) => e == Leave(txid)
    case Sequence(Disconnected(_)) => e == Nothing
    case Sequence(Connected(hash)) => e.Mine? && e.txids == minings(hash)
  }

  /** The log is the actions applied so far, each with its effect, and then those still queued. */
  ghost predicate Logs(log: seq<Logged>, actions: seq<SyncAction>, effects: seq<Effect>, minings: Minings) {
    && |effects| <= |log|
    && ActionsOf(log[|effects|..]) == actions
    && forall i :: 0 <= i < |effects| ==> HasEffect(log[i].action, effects[i], minings)
  }

  lemma {:induction false} AnnouncedJoin(a: seq<Logged>, b: seq<Logged>)
    ensures AnnouncedOf(a + b) == AnnouncedOf(a) + AnnouncedOf(b)
    decreases |b|
  {
    if b == [] {
      assert a + b == a;
    } else {
      AnnouncedJoin(a, b[..|b| - 1]);
      assert (a + b)[..|a + b| - 1] == a + b[..|b| - 1];
    }
  }

  /** Restored txs go in front of what is still queued. */
  ghost function WithRestored(log: seq<Logged>, applied: nat, restored: seq<Transaction>): seq<Logged>
    requires applied <= |log|
  {
    log[..applied] + seq(|restored|, i requires 0 <= i < |restored| => Logged(InsertTx(restored[i].txid), true)) + log[applied..]
  }

  lemma LogStarts(txids: seq<Txid>, minings: Minings)
    ensures
      var log := seq(|txids|, i requires 0 <= i < |txids| => Logged(InsertTx(txids[i]), false));
      var actions := seq(|txids|, i requires 0 <= i < |txids| => InsertTx(txids[i]));
      Logs(log, actions, [], minings) && AnnouncedOf(log) == actions && NoneRestored(log)
  {
    var log := seq(|txids|, i requires 0 <= i < |txids| => Logged(InsertTx(txids[i]), false));
    assert log[0..] == log;
    AnnouncedAll(log);
  }

  /** Where nothing was restored, everything was announced. */
  lemma {:induction false} AnnouncedAll(log: seq<Logged>)
    requires NoneRestored(log)
    ensures AnnouncedOf(log) == ActionsOf(log)
  {
    if log != [] {
      var front := log[..|log| - 1];
      assert log == front + [log[|log| - 1]];
      assert forall e :: e in front ==> e in log;
      AnnouncedAll(front);
      assert ActionsOf(log) == ActionsOf(front) + [log[|log| - 1].action];
    }
  }

  lemma {:induction false} AnnouncedNone(log: seq<Logged>)
    requires forall e :: e in log ==> e.restored
    ensures AnnouncedOf(log) == []
  {
    if log != [] {
      assert log[|log| - 1] in log;
      assert forall e :: e in log[..|log| - 1] ==> e in log;
      AnnouncedNone(log[..|log| - 1]);
    }
  }

  lemma LogRestores(log: seq<Logged>, actions: seq<SyncAction>, effects: seq<Effect>, minings: Minings,
                    restored: seq<Transaction>)
    requires Logs(log, actions, effects, minings)
    ensures
      var log' := WithRestored(log, |effects|, restored);
      Logs(log', Insertions(restored) + actions, effects, minings) && AnnouncedOf(log') == AnnouncedOf(log)
  {
    hide HasEffect, AnnouncedOf;
    var n := |effects|;
    var middle := seq(|restored|, i requires 0 <= i < |restored| => Logged(InsertTx(restored[i].txid), true));
    var log' := WithRestored(log, n, restored);
    assert log' == log[..n] + (middle + log[n..]) && log == log[..n] + log[n..];
    assert log'[n..] == middle + log[n..];
    AnnouncedJoin(log[..n], middle + log[n..]);
    AnnouncedJoin(middle, log[n..]);
    AnnouncedJoin(log[..n], log[n..]);
    AnnouncedNone(middle);
  }

  lemma LogAnnounces(log: seq<Logged>, actions: seq<SyncAction>, effects: seq<Effect>, minings: Minings, a: SyncAction)
    requires Logs(log, actions, effects, minings)
    ensures Logs(log + [Logged(a, false)], actions + [a], effects, minings)
    ensures AnnouncedOf(log + [Logged(a, false)]) == AnnouncedOf(log) + [a]
  {
    hide HasEffect;
    var log' := log + [Logged(a, false)];
    assert log'[..|log|] == log && log'[|effects|..] == log[|effects|..] + [Logged(a, false)];
  }

  lemma LogApplies(log: seq<Logged>, actions: seq<SyncAction>, effects: seq<Effect>, minings: Minings, e: Effect)
    requires Logs(log, actions, effects, minings) && actions != [] && HasEffect(actions[0], e, minings)
    ensures Logs(log, actions[1..], effects + [e], minings)
  {
    hide HasEffect;
    var n := |effects|;
    assert ActionsOf(log[n..])[0] == log[n].action;
    assert log[n + 1..] == log[n..][1..];
    assert ActionsOf(log[n + 1..]) == ActionsOf(log[n..])[1..];
  }

  // ---- the node's mempool ----

  function ActionStep(before: set<Txid>, action: SyncAction, minings: Minings): set<Txid> {
    match action
    case InsertTx(txid) => before + {txid}
    case Sequence(Added(txid, _)) => before + {txid}
    case Sequence(Removed(txid, _)) => before - {txid}
    case Sequence(Disconnected(_)) => before
    case Sequence(Connected(hash)) => before - minings(hash)
  }

  /** The node's mempool after a snapshot and announcements. */
  ghost function NodeMempool(actions: seq<SyncAction>, minings: Minings): set<Txid> {
    if actions == [] then {} else
    ActionStep(NodeMempool(actions[..|actions| - 1], minings), actions[|actions| - 1], minings)
  }

  /** The node announces a removal only of a tx its mempool holds. */
  ghost predicate WellFormedStream(actions: seq<SyncAction>, minings: Minings) {
    forall i, txid, n :: 0 <= i < |actions| && actions[i] == Sequence(Removed(txid, n)) ==>
      txid in NodeMempool(actions[..i], minings)
  }

  lemma StepAgrees(before: set<Txid>, action: SyncAction, e: Effect, minings: Minings)
    requires HasEffect(action, e, minings)
    ensures NodeStep(before, e) == ActionStep(before, action, minings)
  {
  }

  lemma FoldsStep(effects: seq<Effect>, actions: seq<SyncAction>, minings: Minings, n: nat)
    requires 0 < n <= |effects| && n <= |actions|
    ensures NodeTxs({}, effects[..n]) == NodeStep(NodeTxs({}, effects[..n - 1]), effects[n - 1])
    ensures NodeMempool(actions[..n], minings) ==
            ActionStep(NodeMempool(actions[..n - 1], minings), actions[n - 1], minings)
  {
    hide NodeStep, ActionStep;
    assert effects[..n][..n - 1] == effects[..n - 1] && actions[..n][..n - 1] == actions[..n - 1];
  }

  /** Without restored txs the history of effects is the fold of the snapshot and the announcements applied so far. */
  lemma {:induction false} EffectsFold(log: seq<Logged>, effects: seq<Effect>, minings: Minings, n: nat)
    requires n <= |effects| <= |log| && NoneRestored(log)
    requires forall i :: 0 <= i < n ==> HasEffect(log[i].action, effects[i], minings)
    ensures n <= |AnnouncedOf(log)| && NodeTxs({}, effects[..n]) == NodeMempool(AnnouncedOf(log)[..n], minings)
  {
    hide HasEffect, NodeStep, ActionStep, NodeTxs, NodeMempool, AnnouncedOf;
    AnnouncedAll(log);
    if n > 0 {
      EffectsFold(log, effects, minings, n - 1);
      FoldsStep(effects, AnnouncedOf(log), minings, n);
      StepAgrees(NodeTxs({}, effects[..n - 1]), log[n - 1].action, effects[n - 1], minings);
    } else {
      FoldsNothing(effects, AnnouncedOf(log), minings);
    }
  }

  lemma FoldsNothing(effects: seq<Effect>, actions: seq<SyncAction>, minings: Minings)
    ensures NodeTxs({}, effects[..0]) == {} && NodeMempool(actions[..0], minings) == {}
  {
  }

  /** After each applied action the mirror is the node's mempool. */
  ghost predicate FollowsStream(effects: seq<Effect>, actions: seq<SyncAction>, minings: Minings)
    requires |effects| <= |actions|
  {
    forall n :: 0 <= n <= |effects| ==> MirrorTxs({}, effects[..n]) == NodeMempool(actions[..n], minings)
  }

  /** Whenever a block is skipped, the node's mempool holds none of its txs. */
  ghost predicate SkipsNothing(effects: seq<Effect>, actions: seq<SyncAction>, minings: Minings)
    requires |effects| <= |actions|
  {
    forall n :: 0 <= n < |effects| && effects[n].Mine? && effects[n].skipped ==>
      effects[n].txids !! NodeMempool(actions[..n], minings)
  }

  /** In a run that restores nothing the mirror is the fold of the snapshot and the announcements all along, precisely if no
      block that was skipped held a tx of the node's mempool. */
  lemma FollowsStreamIff(log: seq<Logged>, actions: seq<SyncAction>, effects: seq<Effect>, minings: Minings)
    requires Logs(log, actions, effects, minings) && NoneRestored(log) && |AnnouncedOf(log)| == |log|
    ensures FollowsStream(effects, AnnouncedOf(log), minings) <==> SkipsNothing(effects, AnnouncedOf(log), minings)
  {
    hide HasEffect, NodeTxs, MirrorTxs, NodeMempool, AnnouncedOf;
    MirrorIff({}, effects);
    forall n | 0 <= n <= |effects| ensures NodeTxs({}, effects[..n]) == NodeMempool(AnnouncedOf(log)[..n], minings) {
      EffectsFold(log, effects, minings, n);
    }
  }

  /** A run in which they part: block `b` is connected, rejected and disconnected, one of its txs is announced again, and
      then the node accepts the block after all. The second connect is skipped, so the mirror keeps the tx. */
  lemma ReconnectedBlockParts(t: Tips, b: Block, x: Txid, seqNo: nat, h: Option<nat>, h': Option<nat>, minings: Minings)
    requires t.chain == t.unfiltered == b.Prev() != b.hash && x in minings(b.hash)
    ensures
      var rejected := AfterConnect(t, CaseOf(t, h, b), b, TurnedDown);
      var back := AfterDisconnect(rejected, b);
      var actions := [Sequence(Connected(b.hash)), Sequence(Disconnected(b.hash)), Sequence(Added(x, seqNo)),
                      Sequence(Connected(b.hash))];
      var effects := [Mine(minings(b.hash), Skipped(CaseOf(t, h, b))), Nothing, Enter(x),
                      Mine(minings(b.hash), Skipped(CaseOf(back, h', b)))];
      && DisconnectCaseOf(rejected, b.hash) == NeverConnected
      && (forall i :: 0 <= i < 4 ==> HasEffect(actions[i], effects[i], minings))
      && WellFormedStream(actions, minings)
      && MirrorTxs({}, effects) == {x} && NodeMempool(actions, minings) == {} && !FollowsStream(effects, actions, minings)
  {
    var back := AfterDisconnect(AfterConnect(t, CaseOf(t, h, b), b, TurnedDown), b);
    var mine, skip := Mine(minings(b.hash), Skipped(CaseOf(t, h, b))), Mine(minings(b.hash), Skipped(CaseOf(back, h', b)));
    var connect := Sequence(Connected(b.hash));
    var actions := [connect, Sequence(Disconnected(b.hash)), Sequence(Added(x, seqNo)), connect];
    var effects := [mine, Nothing, Enter(x), skip];
    assert !mine.skipped && skip.skipped;
    FourEffects(effects);
    FourActions(actions, minings);
    assert effects[..4] == effects && actions[..4] == actions;
  }

  lemma FourEffects(effects: seq<Effect>)
    requires |effects| == 4
    ensures MirrorTxs({}, effects) ==
            MirrorStep(MirrorStep(MirrorStep(MirrorStep({}, effects[0]), effects[1]), effects[2]), effects[3])
  {
    hide MirrorStep;
    assert effects[..3][..2] == effects[..2] && effects[..2][..1] == effects[..1] && effects[..1][..0] == [];
    assert MirrorTxs({}, effects[..1]) == MirrorStep({}, effects[0]);
    assert MirrorTxs({}, effects[..2]) == MirrorStep(MirrorTxs({}, effects[..1]), effects[1]);
  }

  lemma FourActions(actions: seq<SyncAction>, minings: Minings)
    requires |actions| == 4
    ensures
      NodeMempool(actions, minings) ==
      ActionStep(ActionStep(ActionStep(ActionStep({}, actions[0], minings), actions[1], minings), actions[2], minings),
                 actions[3], minings)
  {
    hide ActionStep;
    assert actions[..3][..2] == actions[..2] && actions[..2][..1] == actions[..1] && actions[..1][..0] == [];
    assert NodeMempool(actions[..1], minings) == ActionStep({}, actions[0], minings);
    assert NodeMempool(actions[..2], minings) == ActionStep(NodeMempool(actions[..1], minings), actions[1], minings);
  }

  /** The next action removes a tx that the mirror does not hold. */
  ghost predicate Misses(log: seq<Logged>, effects: seq<Effect>, txid: Txid) {
    && |effects| < |log|
    && (exists n :: log[|effects|].action == Sequence(Removed(txid, n)))
    && txid !in MirrorTxs({}, effects)
  }

  /** While nothing was restored and no skipped block held a tx of the node, the mirror is the node's mempool, and a removal
      of a tx it does not hold was announced by no node. */
  lemma MirrorOfStream(log: seq<Logged>, actions: seq<SyncAction>, effects: seq<Effect>, minings: Minings)
    requires Logs(log, actions, effects, minings) && NoneRestored(log) && SkipsHarmless({}, effects)
    ensures |effects| <= |AnnouncedOf(log)|
    ensures MirrorTxs({}, effects) == NodeMempool(AnnouncedOf(log)[..|effects|], minings)
    ensures forall txid :: Misses(log, effects, txid) ==> !WellFormedStream(AnnouncedOf(log), minings)
  {
    hide HasEffect, SkipsHarmless, Mirrors;
    var n := |effects|;
    EffectsFold(log, effects, minings, n);
    assert effects[..n] == effects;
    MirrorIff({}, effects);
    MirrorsSplit({}, effects, Nothing);
    AnnouncedAll(log);
    forall txid | Misses(log, effects, txid) ensures !WellFormedStream(AnnouncedOf(log), minings) {
      var k :| log[n].action == Sequence(Removed(txid, k));
      assert AnnouncedOf(log)[n] == Sequence(Removed(txid, k));
    }
  }
}
