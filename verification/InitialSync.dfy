/** Bringing an enforcer to the node's tip before the sequence stream is followed. */
module InitialSync {
  import opened Types

  /** A block together with all blocks below it. */
  type Chains = BlockHash -> set<BlockHash>

  /** The node: blocks it knows, and those it was told to treat as invalid. */
  class Node {
    const known: set<BlockHash>
    const chainOf: Chains
    var invalid: set<BlockHash>
    /** The best blocks it named so far. */
    ghost var bests: seq<BlockHash>

    constructor (known: set<BlockHash>, chainOf: Chains)
      requires forall b :: b in known ==> b in chainOf(b) && chainOf(b) <= known
      ensures Valid() && this.known == known && this.chainOf == chainOf && invalid == {} && bests == []
    {
      this.known, this.chainOf, invalid, bests := known, chainOf, {}, [];
    }

    ghost predicate Valid()
      reads this
    {
      forall b :: b in known ==> b in chainOf(b) && chainOf(b) <= known
    }

    /** A block is active when neither it nor a block below it is invalid. */
    ghost predicate Active(b: BlockHash)
      reads this
    {
      b in known && chainOf(b) !! invalid
    }

    /** After a failed call it is open whether the node knows of the block. */
    method InvalidateBlock(hash: BlockHash) returns (ok: bool)
      requires Valid()
      modifies this`invalid
      ensures Valid() && invalid in {old(invalid), old(invalid) + {hash}}
      ensures ok ==> invalid == old(invalid) + {hash}
    {
      ok := *;
      var done: bool := *;
      if ok || done {
        invalid := invalid + {hash};
      }
    }

    /** Some active block, or an error. */
    method GetBestBlockHash() returns (r: Option<BlockHash>)
      requires Valid()
      modifies this`bests
      ensures r.Some? ==> Active(r.value) && bests == old(bests) + [r.value]
      ensures r.None? ==> bests == old(bests)
    {
      var rest := known;
      while rest != {}
        invariant bests == old(bests)
        decreases rest
      {
        var b :| b in rest;
        var best: bool := *;
        if best && chainOf(b) !! invalid && b in known {
          bests := bests + [b];
          return Some(b);
        }
        rest := rest - {b};
      }
      return None;
    }
  }

  datatype SyncAnswer = Synced | InvalidBlock(hash: BlockHash) | OtherError

  /** A tip the enforcer was asked to follow, and what it answered. */
  datatype Asked = Asked(tip: BlockHash, answer: SyncAnswer)

  class Follower {
    /** What it was asked so far. */
    ghost var asked: seq<Asked>

    constructor ()
      ensures asked == []
    {
      asked := [];
    }

    /** `sync_to_tip` of an enforcer: a block it calls invalid lies on the chain it was asked to follow. */
    method SyncToTip(tip: BlockHash, chain: set<BlockHash>) returns (answer: SyncAnswer)
      modifies this
      ensures answer.InvalidBlock? ==> answer.hash in chain
      ensures asked == old(asked) + [Asked(tip, answer)]
    {
      answer := *;
      if answer.InvalidBlock? && answer.hash !in chain {
        answer := OtherError;
      }
      asked := asked + [Asked(tip, answer)];
    }
  }

  ghost function Reported(asked: seq<Asked>): set<BlockHash> {
    set a | a in asked && a.answer.InvalidBlock? :: a.answer.hash
  }

  /** The enforcer is asked about the requested tip, and after each block it reports, about the node's best one then. No
      block is reported twice. */
  ghost predicate Session(requested: BlockHash, asked: seq<Asked>, bests: seq<BlockHash>) {
    && (asked != [] ==> asked[0].tip == requested)
    && |asked| <= |bests| + 1
    && (forall i :: 0 <= i < |asked| - 1 ==> asked[i].answer.InvalidBlock? && asked[i + 1].tip == bests[i])
    && (forall i, j :: 0 <= i < j < |asked| ==> asked[i].answer != asked[j].answer)
  }

  /** Every block asked about so far was followed by a report, and `tip` is to be asked about next. */
  ghost predicate Retrying(requested: BlockHash, asked: seq<Asked>, bests: seq<BlockHash>, tip: BlockHash) {
    && Session(requested, asked, bests) && |asked| == |bests|
    && (forall i :: 0 <= i < |asked| ==> asked[i].answer.InvalidBlock?)
    && tip == if asked == [] then requested else bests[|bests| - 1]
  }

  lemma AskedMore(requested: BlockHash, asked: seq<Asked>, bests: seq<BlockHash>, tip: BlockHash, answer: SyncAnswer)
    requires Retrying(requested, asked, bests, tip)
    requires answer.InvalidBlock? ==> answer.hash !in Reported(asked)
    ensures Session(requested, asked + [Asked(tip, answer)], bests)
    ensures Reported(asked + [Asked(tip, answer)]) == Reported(asked) + if answer.InvalidBlock? then {answer.hash} else {}
    ensures forall best :: answer.InvalidBlock? ==>
              Retrying(requested, asked + [Asked(tip, answer)], bests + [best], best)
  {
    var more := asked + [Asked(tip, answer)];
    assert forall a :: a in more <==> a in asked || a == Asked(tip, answer);
    forall i | 0 <= i < |asked| ensures more[i] == asked[i] && more[i].answer != answer {
      assert asked[i] in asked;
    }
  }

  lemma NothingAsked(requested: BlockHash)
    ensures Retrying(requested, [], [], requested) && Reported([]) == {}
  {
  }

  /** Retries until the enforcer follows the node's tip. It ends on a tip exactly if the enforcer's last answer was that it
      is synced to that tip, which is active then; the blocks invalidated are those the enforcer reported. The tip is the
      requested one exactly when no block had to be invalidated. */
  method SyncToTip(follower: Follower, node: Node, requested: BlockHash)
    returns (r: Option<BlockHash>, ghost asked: seq<Asked>, ghost bests: seq<BlockHash>)
    requires node.Valid() && node.Active(requested)
    modifies follower, node
    ensures follower.asked == old(follower.asked) + asked && node.bests == old(node.bests) + bests
    ensures asked != [] && Session(requested, asked, bests)
    ensures r.Some? <==> asked[|asked| - 1].answer.Synced?
    ensures r.Some? ==> r.value == asked[|asked| - 1].tip && node.Active(r.value)
    ensures r.Some? ==> node.invalid == old(node.invalid) + Reported(asked)
    ensures node.Valid() && old(node.invalid) <= node.invalid <= old(node.invalid) + Reported(asked)
    ensures r.Some? ==> (r.value == requested <==> node.invalid == old(node.invalid))
  {
    hide Session, Retrying, Reported;
    var tip := requested;
    var invalidated: set<BlockHash> := {};
    asked, bests := [], [];
    NothingAsked(requested);
    while true
      invariant node.Valid() && node.Active(tip)
      invariant node.invalid == old(node.invalid) + invalidated && invalidated == Reported(asked)
      invariant invalidated <= node.known && invalidated !! old(node.invalid)
      invariant if invalidated == {} then tip == requested else !node.Active(requested)
      invariant follower.asked == old(follower.asked) + asked && node.bests == old(node.bests) + bests
      invariant Retrying(requested, asked, bests, tip)
      decreases node.known - invalidated
    {
      var answer := follower.SyncToTip(tip, node.chainOf(tip));
      AskedMore(requested, asked, bests, tip, answer);
      asked := asked + [Asked(tip, answer)];
      match answer {
        case Synced => return Some(tip), asked, bests;
        case OtherError => return None, asked, bests;
        case InvalidBlock(hash) =>
          // The source panics here if the block was reported before.
          assert hash !in invalidated && hash in node.known;
          StillBlocked(node, requested, tip, hash, invalidated);
          invalidated := invalidated + {hash};
          var ok := node.InvalidateBlock(hash);
          if !ok {
            return None, asked, bests;
          }
          var best := node.GetBestBlockHash();
          if best.None? {
            return None, asked, bests;
          }
          bests := bests + [best.value];
          tip := best.value;
      }
    }
  }

  /** Once a block below the requested tip is invalid, the requested tip is not active. */
  lemma StillBlocked(node: Node, requested: BlockHash, tip: BlockHash, hash: BlockHash, invalidated: set<BlockHash>)
    requires node.Valid() && hash in node.chainOf(tip)
    requires invalidated == {} ==> tip == requested
    requires invalidated != {} ==> !node.Active(requested)
    ensures requested in node.known ==> !(node.chainOf(requested) !! node.invalid + {hash})
  {
  }

  // ---------------------------------------------------------------- following the tip through the stream

  datatype BlockEvent = Connect(hash: BlockHash) | Disconnect(hash: BlockHash)

  type ParentOf = BlockHash -> BlockHash

  /** Where the node's tip is after an event. */
  function TipStep(event: BlockEvent, parentOf: ParentOf): BlockHash {
    match event
    case Connect(hash) => hash
    case Disconnect(hash) => parentOf(hash)
  }

  /** Events as a node at `tip` sends them: each connects on top of its tip, or disconnects its tip. */
  ghost predicate FollowsFrom(tip: BlockHash, events: seq<BlockEvent>, parentOf: ParentOf)
    decreases |events|
  {
    events != [] ==>
      && (match events[0] case Connect(hash) => parentOf(hash) == tip case Disconnect(hash) => hash == tip)
      && FollowsFrom(TipStep(events[0], parentOf), events[1..], parentOf)
  }

  ghost function TipAfter(tip: BlockHash, events: seq<BlockEvent>, parentOf: ParentOf): BlockHash
    decreases |events|
  {
    if events == [] then tip else TipAfter(TipStep(events[0], parentOf), events[1..], parentOf)
  }

  /** What the loop keeps: a block and what it takes for its parent. */
  datatype Tracked = Tracked(hash: BlockHash, parent: BlockHash)

  /** A connect shifts the pair; a disconnect steps back, whatever block it names, and asks the node for the parent. */
  function TrackStep(t: Tracked, event: BlockEvent, parentOf: ParentOf): Tracked {
    match event
    case Connect(hash) => Tracked(hash, t.hash)
    case Disconnect(_) => Tracked(t.parent, parentOf(t.parent))
  }

  ghost function TrackAll(t: Tracked, events: seq<BlockEvent>, parentOf: ParentOf): Tracked
    decreases |events|
  {
    if events == [] then t else TrackAll(TrackStep(t, events[0], parentOf), events[1..], parentOf)
  }

  /** Events that start at the tracked block are followed exactly, reorganisations included. */
  lemma {:induction false} TrackedIsTip(t: Tracked, events: seq<BlockEvent>, parentOf: ParentOf)
    requires t.parent == parentOf(t.hash) && FollowsFrom(t.hash, events, parentOf)
    ensures TrackAll(t, events, parentOf) ==
            Tracked(TipAfter(t.hash, events, parentOf), parentOf(TipAfter(t.hash, events, parentOf)))
    decreases |events|
  {
    if events != [] {
      TrackedIsTip(TrackStep(t, events[0], parentOf), events[1..], parentOf);
    }
  }

  /** After every event the tracked hash is the node's tip. */
  ghost predicate Follows(t: Tracked, tip: BlockHash, events: seq<BlockEvent>, parentOf: ParentOf) {
    forall n :: 0 < n <= |events| ==> TrackAll(t, events[..n], parentOf).hash == TipAfter(tip, events[..n], parentOf)
  }

  /** The first event and, if it connects a block on top of another one than the tracked, the second event are right
      for what is tracked. */
  predicate StartsRight(t: Tracked, tip: BlockHash, events: seq<BlockEvent>, parentOf: ParentOf) {
    events != [] ==>
      match events[0]
      case Connect(_) => t.hash == tip || |events| == 1 || events[1].Connect?
      case Disconnect(_) => t.parent == parentOf(tip)
  }

  lemma TrackFirst(t: Tracked, tip: BlockHash, events: seq<BlockEvent>, n: nat, parentOf: ParentOf)
    requires 0 < n <= |events|
    ensures TrackAll(t, events[..n], parentOf) == TrackAll(TrackStep(t, events[0], parentOf), events[1..][..n - 1], parentOf)
    ensures TipAfter(tip, events[..n], parentOf) == TipAfter(TipStep(events[0], parentOf), events[1..][..n - 1], parentOf)
  {
    assert events[..n][1..] == events[1..][..n - 1];
  }

  lemma FollowsSplit(t: Tracked, tip: BlockHash, events: seq<BlockEvent>, parentOf: ParentOf)
    requires events != []
    ensures Follows(t, tip, events, parentOf) <==>
              && TrackStep(t, events[0], parentOf).hash == TipStep(events[0], parentOf)
              && Follows(TrackStep(t, events[0], parentOf), TipStep(events[0], parentOf), events[1..], parentOf)
  {
    hide TrackStep, TipStep;
    var t', tip', rest := TrackStep(t, events[0], parentOf), TipStep(events[0], parentOf), events[1..];
    forall n | 0 < n <= |events|
      ensures TrackAll(t, events[..n], parentOf) == TrackAll(t', rest[..n - 1], parentOf)
      ensures TipAfter(tip, events[..n], parentOf) == TipAfter(tip', rest[..n - 1], parentOf)
    {
      TrackFirst(t, tip, events, n, parentOf);
    }
    if Follows(t, tip, events, parentOf) {
      assert rest[..0] == [] && events[..1] == [events[0]];
      forall n | 0 < n <= |rest| ensures TrackAll(t', rest[..n], parentOf).hash == TipAfter(tip', rest[..n], parentOf) {
        assert TrackAll(t, events[..n + 1], parentOf).hash == TipAfter(tip, events[..n + 1], parentOf);
      }
    }
  }

  /** A tracked pair that is right stays right. */
  lemma {:induction false} RightFollows(t: Tracked, events: seq<BlockEvent>, parentOf: ParentOf)
    requires t.parent == parentOf(t.hash) && FollowsFrom(t.hash, events, parentOf)
    ensures Follows(t, t.hash, events, parentOf)
    decreases |events|
  {
    if events != [] {
      FollowsSplit(t, t.hash, events, parentOf);
      RightFollows(TrackStep(t, events[0], parentOf), events[1..], parentOf);
    }
  }

  /** Whatever is tracked when the events of a node at `tip` come in: the tracked hash is the node's tip after each of
      them exactly if the events start right. One more connect puts a wrong parent right again. */
  lemma FollowsIff(t: Tracked, tip: BlockHash, events: seq<BlockEvent>, parentOf: ParentOf)
    requires FollowsFrom(tip, events, parentOf)
    ensures Follows(t, tip, events, parentOf) <==> StartsRight(t, tip, events, parentOf)
  {
    hide Follows;
    if events == [] {
      FollowsNothing(t, tip, parentOf);
    } else {
      var t', tip', rest := TrackStep(t, events[0], parentOf), TipStep(events[0], parentOf), events[1..];
      FollowsSplit(t, tip, events, parentOf);
      if t'.hash == tip' {
        if t'.parent == parentOf(tip') {
          RightFollows(t', rest, parentOf);
        } else if rest == [] {
          FollowsNothing(t', tip', parentOf);
        } else {
          FollowsSplit(t', tip', rest, parentOf);
          if rest[0].Connect? {
            RightFollows(TrackStep(t', rest[0], parentOf), rest[1..], parentOf);
          }
        }
      }
    }
  }

  lemma FollowsNothing(t: Tracked, tip: BlockHash, parentOf: ParentOf)
    ensures Follows(t, tip, [], parentOf)
  {
  }

  /** The stream was opened before the tip was asked for, so it may still hold the connect of that very block. Then the
      block is taken for its own parent, which goes wrong exactly if the block is disconnected right after. */
  lemma StaleConnectIff(hash: BlockHash, rest: seq<BlockEvent>, parentOf: ParentOf)
    requires parentOf(hash) != hash && FollowsFrom(parentOf(hash), [Connect(hash)] + rest, parentOf)
    ensures Follows(Tracked(hash, parentOf(hash)), parentOf(hash), [Connect(hash)] + rest, parentOf) <==>
              !(rest != [] && rest[0] == Disconnect(hash))
  {
    var events := [Connect(hash)] + rest;
    assert events[1..] == rest;
    FollowsIff(Tracked(hash, parentOf(hash)), parentOf(hash), events, parentOf);
  }

  /** Drops block events until the tracked block is the node's best one. */
  method DropSeqMsgs(t: Tracked, best: BlockHash, events: seq<BlockEvent>, parentOf: ParentOf)
    returns (dropped: nat, r: Option<Tracked>)
    ensures dropped <= |events|
    ensures r.Some? ==> 0 < dropped && r.value == TrackAll(t, events[..dropped], parentOf) && r.value.hash == best
    ensures forall i :: 0 < i < dropped ==> TrackAll(t, events[..i], parentOf).hash != best
    ensures r.None? ==> dropped == |events| && (events != [] ==> TrackAll(t, events, parentOf).hash != best)
  {
    hide TrackStep;
    var cur := t;
    dropped := 0;
    assert events[..0] == [];
    while dropped < |events|
      invariant dropped <= |events| && cur == TrackAll(t, events[..dropped], parentOf)
      invariant forall i :: 0 < i <= dropped ==> TrackAll(t, events[..i], parentOf).hash != best
    {
      TrackMore(t, events[..dropped], events[dropped], parentOf);
      assert events[..dropped] + [events[dropped]] == events[..dropped + 1];
      cur := TrackStep(cur, events[dropped], parentOf);
      dropped := dropped + 1;
      if cur.hash == best {
        return dropped, Some(cur);
      }
    }
    assert events[..|events|] == events;
    return dropped, None;
  }

  lemma {:induction false} TrackMore(t: Tracked, events: seq<BlockEvent>, event: BlockEvent, parentOf: ParentOf)
    ensures TrackAll(t, events + [event], parentOf) == TrackStep(TrackAll(t, events, parentOf), event, parentOf)
    decreases |events|
  {
    if events == [] {
      assert events + [event] == [event] && [event][1..] == [];
    } else {
      assert (events + [event])[1..] == events[1..] + [event];
      TrackMore(TrackStep(t, events[0], parentOf), events[1..], event, parentOf);
    }
  }
}
