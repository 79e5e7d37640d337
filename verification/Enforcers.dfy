/** The enforcer as the sync sees it: it may rule as it likes, but it only ever holds a chain of blocks. */
module Enforcers {
  import opened Types
  import opened SyncTips

  /** A block hash commits to the hash of the block before it. */
  type Parentage = BlockHash -> Option<BlockHash>

  ghost predicate HashedBlock(b: Block, parentOf: Parentage) {
    parentOf(b.hash) == b.previousblockhash && b.hash != ALL_ZEROS
  }

  ghost function TopOf(stack: seq<BlockHash>): BlockHash {
    if stack == [] then ALL_ZEROS else stack[|stack| - 1]
  }

  ghost function PrevOf(h: BlockHash, parentOf: Parentage): BlockHash {
    if parentOf(h).Some? then parentOf(h).value else ALL_ZEROS
  }

  /** Each block of the stack extends the one below it. */
  ghost predicate ChainedStack(stack: seq<BlockHash>, parentOf: Parentage) {
    forall i :: 0 <= i < |stack| ==> PrevOf(stack[i], parentOf) == TopOf(stack[..i])
  }

  lemma PushChained(stack: seq<BlockHash>, b: Block, parentOf: Parentage)
    requires ChainedStack(stack, parentOf) && HashedBlock(b, parentOf) && b.Prev() == TopOf(stack)
    ensures ChainedStack(stack + [b.hash], parentOf) && TopOf(stack + [b.hash]) == b.hash
  {
    var s := stack + [b.hash];
    assert s[..|stack|] == stack;
    assert forall i :: 0 <= i < |stack| ==> s[..i] == stack[..i];
  }

  lemma PopChained(stack: seq<BlockHash>, b: Block, parentOf: Parentage)
    requires ChainedStack(stack, parentOf) && HashedBlock(b, parentOf) && b.hash == TopOf(stack)
    ensures stack != []
    ensures ChainedStack(stack[..|stack| - 1], parentOf) && TopOf(stack[..|stack| - 1]) == b.Prev()
  {
    var s := stack[..|stack| - 1];
    assert forall i :: 0 <= i < |s| ==> s[..i] == stack[..i];
  }

  datatype ConnectAnswer = ConnectAccept(removeMempoolTxs: set<Txid>) | ConnectReject | ConnectFailed

  datatype DisconnectAnswer = DisconnectDone(removeMempoolTxs: set<Txid>) | DisconnectFailed

  datatype TxAnswer = TxAccept(conflictsWith: set<Txid>, weightTweak: int) | TxReject | TxFailed

  /** The last tx asked about, with the last answer of each kind. */
  datatype Rulings = Rulings(asked: Option<Transaction>, tx: TxAnswer, connect: ConnectAnswer, disconnect: DisconnectAnswer)

  class Enforcer {
    ghost var stack: seq<BlockHash>
    ghost const parentOf: Parentage
    ghost var rulings: Rulings

    constructor (ghost stack: seq<BlockHash>, ghost parentOf: Parentage)
      ensures this.stack == stack && this.parentOf == parentOf
    {
      this.stack, this.parentOf := stack, parentOf;
      rulings := Rulings(None, TxFailed, ConnectFailed, DisconnectFailed);
    }

    /** A connected block must extend the block on top. A rejected block leaves the stack alone. */
    method ConnectBlock(b: Block) returns (answer: ConnectAnswer)
      requires ChainedStack(stack, parentOf) && HashedBlock(b, parentOf) && b.Prev() == TopOf(stack)
      modifies this
      ensures rulings == old(rulings).(connect := answer)
      ensures answer.ConnectAccept? ==> stack == old(stack) + [b.hash]
      ensures answer.ConnectReject? ==> stack == old(stack)
    {
      if * {
        stack := stack + [b.hash];
        var remove: set<Txid> := *;
        answer := ConnectAccept(remove);
      } else if * {
        answer := ConnectReject;
      } else {
        stack := *;
        answer := ConnectFailed;
      }
      rulings := rulings.(connect := answer);
    }

    /** Only the block on top can be disconnected. */
    method DisconnectBlock(hash: BlockHash) returns (answer: DisconnectAnswer)
      requires stack != [] && hash == TopOf(stack)
      modifies this
      ensures rulings == old(rulings).(disconnect := answer)
      ensures answer.DisconnectDone? ==> stack == old(stack)[..|old(stack)| - 1]
    {
      if * {
        stack := stack[..|stack| - 1];
        var remove: set<Txid> := *;
        answer := DisconnectDone(remove);
      } else {
        stack := *;
        answer := DisconnectFailed;
      }
      rulings := rulings.(disconnect := answer);
    }

    method AcceptTx(tx: Transaction) returns (answer: TxAnswer)
      modifies this`rulings
      ensures rulings == old(rulings).(asked := Some(tx), tx := answer)
    {
      answer := *;
      rulings := rulings.(asked := Some(tx), tx := answer);
    }
  }
}
