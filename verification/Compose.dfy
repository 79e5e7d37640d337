/** Composition of enforcers, left before right: a block is connected everywhere or nowhere. */
module Composes {
  import opened Types

  const I64_MAX: int := 0x7FFF_FFFF_FFFF_FFFF
  const I64_MIN: int := -0x8000_0000_0000_0000

  function SaturatingAddI64(a: int, b: int): int {
    if a + b > I64_MAX then I64_MAX else if a + b < I64_MIN then I64_MIN else a + b
  }

  datatype ConnectAction = AcceptBlock(removeMempoolTxs: set<Txid>) | RejectBlock

  datatype TxAction = AcceptTx(conflictsWith: set<Txid>, weightTweak: int) | RejectTx

  /** `Failed` stands for an error of an enforcer, after which nothing is claimed. */
  datatype Answer<+T> = Done(value: T) | Failed

  /** A leaf enforcer: what it keeps is its own business, but a rejected block changes nothing, and disconnecting a
      block brings back the state from before it was connected. */
  class Leaf {
    var state: nat
    var undo: seq<(BlockHash, nat)>
    ghost var removed: set<Txid>
    ghost var txAction: TxAction

    constructor (state: nat)
      ensures this.state == state && undo == []
    {
      this.state, undo, removed, txAction := state, [], {}, RejectTx;
    }

    ghost predicate Holds(hash: BlockHash)
      reads this
    {
      undo != [] && undo[|undo| - 1].0 == hash
    }

    method ConnectBlock(hash: BlockHash) returns (answer: Answer<ConnectAction>)
      modifies this
      ensures answer.Done? && answer.value.AcceptBlock? ==>
                undo == old(undo) + [(hash, old(state))] && removed == answer.value.removeMempoolTxs
      ensures answer == Done(RejectBlock) ==> state == old(state) && undo == old(undo)
    {
      if * {
        undo := undo + [(hash, state)];
        state := *;
        var remove: set<Txid> := *;
        removed := remove;
        return Done(AcceptBlock(remove));
      } else if * {
        return Done(RejectBlock);
      }
      state := *;
      return Failed;
    }

    method DisconnectBlock(hash: BlockHash) returns (answer: Answer<set<Txid>>)
      requires Holds(hash)
      modifies this
      ensures answer.Done? ==> old(undo) == undo + [(hash, state)] && removed == answer.value
    {
      if * {
        state := *;
        return Failed;
      }
      state, undo := undo[|undo| - 1].1, undo[..|undo| - 1];
      var remove: set<Txid> := *;
      removed := remove;
      return Done(remove);
    }

    method AcceptTx(tx: Transaction) returns (answer: Answer<TxAction>)
      modifies this
      ensures answer.Done? ==> txAction == answer.value
      ensures undo == old(undo)
    {
      state := *;
      var action: TxAction := *;
      txAction := action;
      if * {
        return Failed;
      }
      return Done(action);
    }
  }

  /** Any nesting of compositions over leaves. */
  datatype Tree = One(leaf: Leaf) | Compose(left: Tree, right: Tree)

  ghost function Leaves(t: Tree): set<Leaf> {
    match t
    case One(leaf) => {leaf}
    case Compose(left, right) => Leaves(left) + Leaves(right)
  }

  /** No leaf is shared: each composition owns its two parts. */
  ghost predicate Owned(t: Tree) {
    match t
    case One(_) => true
    case Compose(left, right) => Owned(left) && Owned(right) && Leaves(left) !! Leaves(right)
  }

  /** Everything the leaves last asked to be removed. */
  ghost function Removed(t: Tree): set<Txid>
    reads Leaves(t)
  {
    match t
    case One(leaf) => leaf.removed
    case Compose(left, right) => Removed(left) + Removed(right)
  }

  ghost function Conflicts(t: Tree): set<Txid>
    reads Leaves(t)
  {
    match t
    case One(leaf) => if leaf.txAction.AcceptTx? then leaf.txAction.conflictsWith else {}
    case Compose(left, right) => Conflicts(left) + Conflicts(right)
  }

  ghost function Tweak(t: Tree): int
    reads Leaves(t)
  {
    match t
    case One(leaf) => if leaf.txAction.AcceptTx? then leaf.txAction.weightTweak else 0
    case Compose(left, right) => SaturatingAddI64(Tweak(left), Tweak(right))
  }

  /** Either every leaf connects the block, and the removals are all of theirs together, or every leaf is as before. */
  method ConnectBlock(t: Tree, ghost leaves: set<Leaf>, hash: BlockHash) returns (answer: Answer<ConnectAction>)
    requires Owned(t) && leaves == Leaves(t)
    modifies leaves
    ensures answer.Done? && answer.value.AcceptBlock? ==>
              && (forall l :: l in leaves ==> l.undo == old(l.undo) + [(hash, old(l.state))])
              && answer.value.removeMempoolTxs == Removed(t)
    ensures answer == Done(RejectBlock) ==>
              forall l :: l in leaves ==> l.state == old(l.state) && l.undo == old(l.undo)
    decreases t
  {
    match t {
      case One(leaf) =>
        answer := leaf.ConnectBlock(hash);
      case Compose(left, right) =>
        answer := ConnectBlock(left, Leaves(left), hash);
        match answer {
          case Failed => return Failed;
          case Done(RejectBlock) => return Done(RejectBlock);
          case Done(AcceptBlock(removeLeft)) =>
            assert forall l :: l in Leaves(left) ==> l.undo == old(l.undo) + [(hash, old(l.state))];
            var second := ConnectBlock(right, Leaves(right), hash);
            match second {
              case Failed => return Failed;
              case Done(AcceptBlock(removeRight)) => return Done(AcceptBlock(removeLeft + removeRight));
              case Done(RejectBlock) =>
                assert forall l :: l in Leaves(left) ==> l.undo == old(l.undo) + [(hash, old(l.state))];
                var undone := DisconnectBlock(left, Leaves(left), hash);
                if undone.Failed? {
                  return Failed;
                }
                forall l | l in Leaves(left) ensures l.undo == old(l.undo) && l.state == old(l.state) {
                  AppendInjective(old(l.undo), (hash, old(l.state)), l.undo, (hash, l.state));
                }
                return Done(RejectBlock);
            }
        }
    }
  }

  lemma AppendInjective<T>(a: seq<T>, x: T, b: seq<T>, y: T)
    requires a + [x] == b + [y]
    ensures a == b && x == y
  {
    assert (a + [x])[..|a|] == a && (b + [y])[..|b|] == b;
    assert |a + [x]| == |b + [y]|;
    assert (a + [x])[|a|] == x;
  }

  /** Every leaf goes back to the state from before the block. */
  method DisconnectBlock(t: Tree, ghost leaves: set<Leaf>, hash: BlockHash) returns (answer: Answer<set<Txid>>)
    requires Owned(t) && leaves == Leaves(t)
    requires forall l :: l in leaves ==> l.Holds(hash)
    modifies leaves
    ensures answer.Done? ==>
              && (forall l :: l in leaves ==> old(l.undo) == l.undo + [(hash, l.state)])
              && answer.value == Removed(t)
    decreases t
  {
    match t {
      case One(leaf) =>
        answer := leaf.DisconnectBlock(hash);
      case Compose(left, right) =>
        answer := DisconnectBlock(left, Leaves(left), hash);
        match answer {
          case Failed => return Failed;
          case Done(removeLeft) =>
            assert forall l :: l in Leaves(right) ==> l.Holds(hash);
            var second := DisconnectBlock(right, Leaves(right), hash);
            match second {
              case Failed => return Failed;
              case Done(removeRight) => return Done(removeLeft + removeRight);
            }
        }
    }
  }

  /** A tx is accepted only by all; then the conflicts are everyone's, and the tweaks are added up. */
  method AcceptTx(t: Tree, ghost leaves: set<Leaf>, tx: Transaction) returns (answer: Answer<TxAction>)
    requires Owned(t) && leaves == Leaves(t)
    modifies leaves
    ensures answer.Done? && answer.value.AcceptTx? ==>
              && (forall l :: l in leaves ==> l.txAction.AcceptTx?)
              && answer.value == TxAction.AcceptTx(Conflicts(t), Tweak(t))
    ensures answer == Done(RejectTx) ==> exists l :: l in Leaves(t) && l.txAction.RejectTx?
    ensures forall l :: l in leaves ==> l.undo == old(l.undo)
    decreases t
  {
    match t {
      case One(leaf) =>
        answer := leaf.AcceptTx(tx);
      case Compose(left, right) =>
        answer := AcceptTx(left, Leaves(left), tx);
        match answer {
          case Failed => return Failed;
          case Done(RejectTx) => return Done(RejectTx);
          case Done(AcceptTx(conflicts, tweak)) =>
            var second := AcceptTx(right, Leaves(right), tx);
            match second {
              case Failed => return Failed;
              case Done(RejectTx) => return Done(RejectTx);
              case Done(AcceptTx(conflictsRight, tweakRight)) =>
                return Done(TxAction.AcceptTx(conflicts + conflictsRight, SaturatingAddI64(tweak, tweakRight)));
            }
        }
    }
  }

  ghost function ExactTweak(t: Tree): int
    reads Leaves(t)
  {
    match t
    case One(leaf) => if leaf.txAction.AcceptTx? then leaf.txAction.weightTweak else 0
    case Compose(left, right) => ExactTweak(left) + ExactTweak(right)
  }

  ghost predicate Fits(t: Tree)
    reads Leaves(t)
  {
    I64_MIN <= ExactTweak(t) <= I64_MAX && (t.Compose? ==> Fits(t.left) && Fits(t.right))
  }

  /** How the parts are nested does not matter to the tweak, as long as no partial sum leaves the range of an i64. */
  lemma {:induction false} TweakExact(t: Tree)
    requires Fits(t)
    ensures Tweak(t) == ExactTweak(t)
  {
    if t.Compose? {
      TweakExact(t.left);
      TweakExact(t.right);
    }
  }
}
