/** How blocks move the two tips of the sync, and how the mirrored tx set follows the node's mempool. */
module SyncTips {
  import opened Types

  /** The previous hash of a block without a predecessor. */
  const ALL_ZEROS: BlockHash := 0

  datatype Block = Block(hash: BlockHash, previousblockhash: Option<BlockHash>, height: nat, confirmations: int,
                         tx: seq<Transaction>, decodes: bool)
  {
    function Prev(): BlockHash {
      if previousblockhash.Some? then previousblockhash.value else ALL_ZEROS
    }
  }

  /** The filtered tip, the mirrored tip, and the blocks the enforcer turned down. */
  datatype Tips = Tips(chain: BlockHash, unfiltered: BlockHash, rejected: set<BlockHash>)

  ghost predicate Coherent(t: Tips) {
    t.unfiltered == t.chain || t.unfiltered in t.rejected
  }

  datatype Verdict = Accepted | TurnedDown

  datatype ConnectCase = AlreadyApplied | BelowTip | TipMismatch | OnRejectedParent | AskEnforcer

  /** What a connected block meets; `tipHeight` is the height of the block at the mirrored tip, if it is known. */
  function CaseOf(t: Tips, tipHeight: Option<nat>, b: Block): ConnectCase {
    if b.Prev() == t.unfiltered then
      if b.Prev() == t.chain then AskEnforcer else OnRejectedParent
    else if b.hash == t.unfiltered then AlreadyApplied
    else if b.confirmations > 0 && tipHeight.Some? && b.height < tipHeight.value then BelowTip
    else if b.Prev() == t.chain then AskEnforcer
    else TipMismatch
  }

  predicate Skipped(c: ConnectCase) {
    c == AlreadyApplied || c == BelowTip
  }

  function AfterConnect(t: Tips, c: ConnectCase, b: Block, verdict: Verdict): Tips {
    match c
    case AskEnforcer =>
      if verdict == Accepted then t.(chain := b.hash, unfiltered := b.hash)
      else t.(unfiltered := b.hash, rejected := t.rejected + {b.hash})
    case OnRejectedParent => t.(unfiltered := b.hash, rejected := t.rejected + {b.hash})
    case _ => t
  }

  datatype DisconnectCase = NeverConnected | NotYet | OutOfStep | RollBack

  function DisconnectCaseOf(t: Tips, hash: BlockHash): DisconnectCase {
    if t.chain == hash then
      if t.unfiltered == hash then RollBack else OutOfStep
    else if hash in t.rejected then NeverConnected
    else NotYet
  }

  function AfterDisconnect(t: Tips, b: Block): Tips {
    if DisconnectCaseOf(t, b.hash) == RollBack then t.(chain := b.Prev(), unfiltered := b.Prev()) else t
  }

  /** Every block event keeps the mirrored tip at the filtered tip or at a rejected block. */
  lemma TipsStayCoherent(t: Tips, tipHeight: Option<nat>, b: Block, verdict: Verdict)
    requires Coherent(t)
    ensures Coherent(AfterConnect(t, CaseOf(t, tipHeight, b), b, verdict))
    ensures Coherent(AfterDisconnect(t, b))
  {
  }

  /** A block connected, with the enforcer's verdict should it be asked, or disconnected. */
  datatype TipEvent = ConnectEvent(block: Block, tipHeight: Option<nat>, verdict: Verdict) | DisconnectEvent(block: Block)

  function TipStep(t: Tips, e: TipEvent): Tips {
    match e
    case ConnectEvent(b, tipHeight, verdict) => AfterConnect(t, CaseOf(t, tipHeight, b), b, verdict)
    case DisconnectEvent(b) => AfterDisconnect(t, b)
  }

  ghost function TipsAfter(t: Tips, events: seq<TipEvent>): Tips {
    if events == [] then t else TipStep(TipsAfter(t, events[..|events| - 1]), events[|events| - 1])
  }

  /** The event makes the tips reject a block. */
  predicate Rejects(t: Tips, e: TipEvent) {
    e.ConnectEvent? &&
    match CaseOf(t, e.tipHeight, e.block)
    case AskEnforcer => e.verdict == TurnedDown
    case OnRejectedParent => true
    case _ => false
  }

  /** The last event that moved the tips rejected a block. */
  ghost predicate LastMoveRejects(t: Tips, events: seq<TipEvent>) {
    events != [] &&
    var front, last := events[..|events| - 1], events[|events| - 1];
    || Rejects(TipsAfter(t, front), last)
    || (TipsAfter(t, events) == TipsAfter(t, front) && LastMoveRejects(t, front))
  }

  /** Every block is younger than its parent, which it names by its hash. */
  ghost predicate HashChained(events: seq<TipEvent>, age: BlockHash -> nat) {
    forall i :: 0 <= i < |events| ==> age(events[i].block.hash) > age(events[i].block.Prev())
  }

  /** After any run of block events a disconnect of the filtered tip fails exactly if the last event that moved the tips
      rejected a block. The mirrored tip is then ahead of the filtered one. */
  lemma {:induction false} OutOfStepIff(t: Tips, events: seq<TipEvent>, age: BlockHash -> nat)
    requires t.unfiltered == t.chain && HashChained(events, age)
    ensures DisconnectCaseOf(TipsAfter(t, events), TipsAfter(t, events).chain) == OutOfStep <==> LastMoveRejects(t, events)
    ensures var t' := TipsAfter(t, events); t'.unfiltered == t'.chain || age(t'.unfiltered) > age(t'.chain)
  {
    if events != [] {
      var front := events[..|events| - 1];
      forall i | 0 <= i < |front| ensures front[i] == events[i] {
      }
      OutOfStepIff(t, front, age);
    }
  }

  /** The tips once block `b` on top of `t` was rejected and the node has disconnected it. */
  function RejectedThenDisconnected(t: Tips, b: Block): Tips {
    AfterDisconnect(AfterConnect(t, AskEnforcer, b, TurnedDown), b)
  }

  /** The disconnect of a rejected block leaves the mirrored tip behind: reconnecting the block is skipped, and
      disconnecting its parent fails. */
  lemma RejectedBlockLeavesStaleTip(t: Tips, b: Block, tipHeight: Option<nat>)
    requires t.chain == t.unfiltered == b.Prev() != b.hash
    ensures
      var t' := RejectedThenDisconnected(t, b);
      && t'.unfiltered == b.hash && t'.chain == t.chain
      && CaseOf(t', tipHeight, b) == AlreadyApplied
      && DisconnectCaseOf(t', t'.chain) == OutOfStep
  {
  }

  // ---------------------------------------------------------------- the mirrored tx set

  /** What an applied sync action does to the node's mempool. `skipped` marks a block whose connect was ignored. */
  datatype Effect =
    | Enter(txid: Txid)
    | Leave(txid: Txid)
    | Mine(txids: set<Txid>, skipped: bool)
    | Nothing

  function NodeStep(before: set<Txid>, e: Effect): set<Txid> {
    match e
    case Enter(txid) => before + {txid}
    case Leave(txid) => before - {txid}
    case Mine(txids, _) => before - txids
    case Nothing => before
  }

  /** The mirror does what the node does, except that a skipped block leaves it alone. */
  function MirrorStep(before: set<Txid>, e: Effect): set<Txid> {
    if e.Mine? && e.skipped then before else NodeStep(before, e)
  }

  /** The node's mempool after the effects. */
  ghost function NodeTxs(start: set<Txid>, effects: seq<Effect>): set<Txid> {
    if effects == [] then start else NodeStep(NodeTxs(start, effects[..|effects| - 1]), effects[|effects| - 1])
  }

  /** The mirrored tx set after the effects. */
  ghost function MirrorTxs(start: set<Txid>, effects: seq<Effect>): set<Txid> {
    if effects == [] then start else MirrorStep(MirrorTxs(start, effects[..|effects| - 1]), effects[|effects| - 1])
  }

  /** No skipped block held a tx of the node's mempool. */
  ghost predicate SkipsHarmless(start: set<Txid>, effects: seq<Effect>) {
    forall i :: 0 <= i < |effects| && effects[i].Mine? && effects[i].skipped ==>
      effects[i].txids !! NodeTxs(start, effects[..i])
  }

  ghost predicate Mirrors(start: set<Txid>, effects: seq<Effect>) {
    forall i :: 0 <= i <= |effects| ==> MirrorTxs(start, effects[..i]) == NodeTxs(start, effects[..i])
  }

  lemma EffectsStep(start: set<Txid>, effects: seq<Effect>, e: Effect)
    ensures NodeTxs(start, effects + [e]) == NodeStep(NodeTxs(start, effects), e)
    ensures MirrorTxs(start, effects + [e]) == MirrorStep(MirrorTxs(start, effects), e)
  {
    assert (effects + [e])[..|effects|] == effects;
  }

  lemma SkipsSplit(start: set<Txid>, front: seq<Effect>, last: Effect)
    ensures SkipsHarmless(start, front + [last]) <==>
              SkipsHarmless(start, front) && (last.Mine? && last.skipped ==> last.txids !! NodeTxs(start, front))
  {
    hide NodeTxs;
    var effects := front + [last];
    assert effects[..|front|] == front;
    assert forall i :: 0 <= i < |front| ==> effects[..i] == front[..i] && effects[i] == front[i];
    assert effects[|front|] == last;
  }

  lemma MirrorsSplit(start: set<Txid>, front: seq<Effect>, last: Effect)
    ensures Mirrors(start, front + [last]) <==>
              Mirrors(start, front) && MirrorTxs(start, front + [last]) == NodeTxs(start, front + [last])
    ensures Mirrors(start, front) ==> MirrorTxs(start, front) == NodeTxs(start, front)
  {
    hide NodeTxs, MirrorTxs;
    var effects := front + [last];
    assert effects[..|effects|] == effects;
    assert front[..|front|] == front;
    assert forall i :: 0 <= i <= |front| ==> effects[..i] == front[..i];
  }

  /** The mirror is exact throughout a run precisely when no skipped block held a tx of the node's mempool. */
  lemma {:induction false} MirrorIff(start: set<Txid>, effects: seq<Effect>)
    ensures Mirrors(start, effects) <==> SkipsHarmless(start, effects)
    decreases |effects|
  {
    if effects == [] {
      assert effects[..0] == effects;
    } else {
      hide NodeTxs, MirrorTxs, Mirrors, SkipsHarmless;
      var front, last := effects[..|effects| - 1], effects[|effects| - 1];
      assert effects == front + [last];
      MirrorIff(start, front);
      EffectsStep(start, front, last);
      SkipsSplit(start, front, last);
      MirrorsSplit(start, front, last);
    }
  }

  /** While the mirror is exact, a tx that the node drops is always there to be dropped. */
  lemma LeavingTxIsMirrored(start: set<Txid>, effects: seq<Effect>, txid: Txid)
    requires SkipsHarmless(start, effects) && txid in NodeTxs(start, effects)
    ensures txid in MirrorTxs(start, effects)
  {
    MirrorIff(start, effects);
    MirrorsSplit(start, effects, Nothing);
  }
}
