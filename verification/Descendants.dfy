/** The queue-based iterator over a transaction and its descendants. */
module DescendantTraversal {
  import opened Types
  import opened LinkedSets
  import opened Graph
  import opened PoolTxs
  import opened AncestorWalks
  import opened Traversal

  /** `t` is reached from `root` along at most `n` edges. */
  ghost predicate WithinSteps(g: Edges, root: Txid, t: Txid, n: nat)
    decreases n
  {
    if n == 0 then t == root
    else WithinSteps(g, root, t, n - 1) || exists p :: WithinSteps(g, root, p, n - 1) && t in Out(g, p)
  }

  /** The shortest path from `root` to `t` has exactly `n` edges. */
  ghost predicate IsDistance(g: Edges, root: Txid, t: Txid, n: nat) {
    WithinSteps(g, root, t, n) && (n > 0 ==> !WithinSteps(g, root, t, n - 1))
  }

  /** What the iterator keeps: the queue holds exactly the discovered but unyielded txids. */
  ghost predicate QueueInvariant(g: Edges, root: Txid, queue: seq<Txid>, visited: set<Txid>, seen: set<Txid>) {
    && !Reaches(g, root, root)
    && AllReached(g, root, visited)
    && Distinct(queue)
    && seen !! Elements(queue)
    && seen + Elements(queue) == visited + {root}
    && (if seen == {} then queue == [root] else root in seen)
    && (forall t :: t in seen ==> Out(g, t) <= visited)
  }

  /** Every discovery depth is the length of some path. */
  ghost predicate LevelsReached(g: Edges, root: Txid, depth: map<Txid, nat>) {
    && root in depth && depth[root] == 0
    && (forall t {:trigger WithinSteps(g, root, t, depth[t])} :: t in depth ==> WithinSteps(g, root, t, depth[t]))
  }

  /** The queue is sorted by depth and spans at most two levels. */
  ghost predicate LevelsSorted(queue: seq<Txid>, depth: map<Txid, nat>) {
    && (forall q :: q in queue ==> q in depth)
    && (forall q :: q in queue ==> depth[q] <= depth[queue[0]] + 1)
    && (forall i, j :: 0 <= i < j < |queue| ==> depth[queue[i]] <= depth[queue[j]])
  }

  /** Nothing queued is closer than anything yielded, and an edge adds at most one to the depth. */
  ghost predicate LevelsSeen(g: Edges, queue: seq<Txid>, seen: set<Txid>, depth: map<Txid, nat>) {
    && (forall t :: t in seen && queue != [] ==> t in depth && queue[0] in depth && depth[t] <= depth[queue[0]])
    && (forall t, c :: t in seen && c in Out(g, t) ==> OneDeeper(depth, t, c))
  }

  ghost predicate OneDeeper(depth: map<Txid, nat>, t: Txid, c: Txid) {
    t in depth && c in depth && depth[c] <= depth[t] + 1
  }

  /** Breadth-first levels. */
  ghost predicate Levels(g: Edges, root: Txid, queue: seq<Txid>, seen: set<Txid>, depth: map<Txid, nat>) {
    && depth.Keys == seen + Elements(queue)
    && LevelsReached(g, root, depth)
    && LevelsSorted(queue, depth)
    && LevelsSeen(g, queue, seen, depth)
  }

  lemma HeadIsLeast(queue: seq<Txid>, depth: map<Txid, nat>)
    requires LevelsSorted(queue, depth) && queue != []
    ensures forall q :: q in queue ==> q in depth && depth[queue[0]] <= depth[q] <= depth[queue[0]] + 1
  {
    forall q | q in queue ensures q in depth && depth[queue[0]] <= depth[q] <= depth[queue[0]] + 1 {
      var i :| 0 <= i < |queue| && queue[i] == q;
    }
  }

  lemma {:induction false} NotSooner(g: Edges, root: Txid, queue: seq<Txid>, seen: set<Txid>, depth: map<Txid, nat>, t: Txid, n: nat)
    requires Levels(g, root, queue, seen, depth) && queue != []
    requires queue[0] in depth && n <= depth[queue[0]]
    requires WithinSteps(g, root, t, n)
    ensures t in depth && depth[t] <= n
    decreases n
  {
    if n > 0 {
      if WithinSteps(g, root, t, n - 1) {
        NotSooner(g, root, queue, seen, depth, t, n - 1);
      } else {
        var p :| WithinSteps(g, root, p, n - 1) && t in Out(g, p);
        NotSooner(g, root, queue, seen, depth, p, n - 1);
        HeadIsLeast(queue, depth);
        assert p !in queue;
        assert p in seen;
      }
    }
  }

  ghost function Deepen(depth: map<Txid, nat>, novel: set<Txid>, level: nat): map<Txid, nat> {
    map t | t in depth.Keys + novel :: if t in depth then depth[t] else level
  }

  lemma AdvanceKeeps(g: Edges, root: Txid, queue: seq<Txid>, visited: set<Txid>, seen: set<Txid>, novel: seq<Txid>)
    requires QueueInvariant(g, root, queue, visited, seen) && queue != []
    requires Distinct(novel) && Elements(novel) == Out(g, queue[0]) - visited
    ensures QueueInvariant(g, root, queue[1..] + novel, visited + Out(g, queue[0]), seen + {queue[0]})
    ensures queue[0] !in seen && (queue[0] == root || queue[0] in visited)
  {
    hide Reaches, Distinct, AllReached;
    var txid, rest := queue[0], queue[1..];
    var next := rest + novel;
    assert queue == [txid] + rest;
    assert txid in Elements(queue);
    assert txid == root || txid in visited;
    ExpandReached(g, root, txid, visited);
    DistinctTail(queue, novel);
    assert Elements(next) == Elements(rest) + Elements(novel);
    assert Elements(queue) == {txid} + Elements(rest);
  }

  /** Dropping the head and appending elements that were not queued keeps a queue free of duplicates. */
  lemma DistinctTail(queue: seq<Txid>, novel: seq<Txid>)
    requires queue != [] && Distinct(queue) && Distinct(novel) && Elements(novel) !! Elements(queue)
    ensures Distinct(queue[1..] + novel) && queue[0] !in Elements(queue[1..])
  {
    var rest := queue[1..];
    var next := rest + novel;
    forall i, j | 0 <= i < j < |next| ensures next[i] != next[j] {
      if j < |rest| {
        assert next[i] == queue[i + 1] && next[j] == queue[j + 1];
      } else {
        assert next[j] in Elements(novel);
        if i < |rest| { assert next[i] in Elements(queue); }
      }
    }
    assert forall k :: 0 <= k < |rest| ==> rest[k] == queue[k + 1];
  }

  lemma AdvanceReached(g: Edges, root: Txid, txid: Txid, depth: map<Txid, nat>, novel: set<Txid>)
    requires LevelsReached(g, root, depth) && txid in depth
    requires novel <= Out(g, txid)
    ensures LevelsReached(g, root, Deepen(depth, novel, depth[txid] + 1))
  {
    var level := depth[txid] + 1;
    var deep := Deepen(depth, novel, level);
    forall t | t in deep ensures WithinSteps(g, root, t, deep[t]) {
      if t in depth {
        assert WithinSteps(g, root, t, depth[t]);
      } else {
        assert WithinSteps(g, root, txid, depth[txid]) && t in Out(g, txid);
      }
    }
  }

  /** Appending the new level behind the rest of the queue keeps the queue sorted by depth. */
  lemma AdvanceSorted(queue: seq<Txid>, depth: map<Txid, nat>, novel: seq<Txid>)
    requires queue != [] && LevelsSorted(queue, depth)
    requires queue[0] in depth
    requires forall t :: t in novel ==> t !in depth
    ensures var next, deep := queue[1..] + novel, Deepen(depth, Elements(novel), depth[queue[0]] + 1);
            LevelsSorted(next, deep) && forall q :: q in next ==> depth[queue[0]] <= deep[q]
  {
    hide Deepen;
    var next, deep := queue[1..] + novel, Deepen(depth, Elements(novel), depth[queue[0]] + 1);
    AdvanceBand(queue, depth, novel);
    AdvanceOrder(queue, depth, novel);
    assert next != [] ==> next[0] in next;
  }

  lemma AdvanceBand(queue: seq<Txid>, depth: map<Txid, nat>, novel: seq<Txid>)
    requires queue != [] && LevelsSorted(queue, depth) && queue[0] in depth
    requires forall t :: t in novel ==> t !in depth
    ensures var level, deep := depth[queue[0]] + 1, Deepen(depth, Elements(novel), depth[queue[0]] + 1);
            forall q :: q in queue[1..] + novel ==> q in deep && deep[q] <= level <= deep[q] + 1
  {
    HeadIsLeast(queue, depth);
    hide LevelsSorted;
    var level, deep := depth[queue[0]] + 1, Deepen(depth, Elements(novel), depth[queue[0]] + 1);
    forall q | q in queue[1..] + novel ensures q in deep && deep[q] <= level <= deep[q] + 1 {
      assert q in queue || q in novel;
    }
  }

  lemma AdvanceOrder(queue: seq<Txid>, depth: map<Txid, nat>, novel: seq<Txid>)
    requires queue != [] && LevelsSorted(queue, depth) && queue[0] in depth
    requires forall t :: t in novel ==> t !in depth
    ensures var next, deep := queue[1..] + novel, Deepen(depth, Elements(novel), depth[queue[0]] + 1);
            forall i, j :: 0 <= i < j < |next| ==> next[i] in deep && next[j] in deep && deep[next[i]] <= deep[next[j]]
  {
    var next, deep := queue[1..] + novel, Deepen(depth, Elements(novel), depth[queue[0]] + 1);
    AdvanceBand(queue, depth, novel);
    forall i, j | 0 <= i < j < |next| ensures next[i] in deep && next[j] in deep && deep[next[i]] <= deep[next[j]] {
      assert next[i] in next && next[j] in next;
      if j < |queue| - 1 {
        assert next[i] == queue[i + 1] && next[j] == queue[j + 1];
        assert depth[queue[i + 1]] <= depth[queue[j + 1]];
        assert queue[i + 1] in queue && queue[j + 1] in queue;
      } else {
        assert next[j] == novel[j - (|queue| - 1)];
        assert next[j] in novel;
      }
    }
  }

  lemma AdvanceEdges(g: Edges, txid: Txid, seen: set<Txid>, depth: map<Txid, nat>, novel: set<Txid>)
    requires txid in depth
    requires forall t, c :: t in seen && c in Out(g, t) ==> OneDeeper(depth, t, c)
    requires forall t :: t in depth ==> depth[t] <= depth[txid] + 1
    requires Out(g, txid) <= depth.Keys + novel
    ensures var deep := Deepen(depth, novel, depth[txid] + 1);
            forall t, c :: t in seen + {txid} && c in Out(g, t) ==> OneDeeper(deep, t, c)
  {
    var deep := Deepen(depth, novel, depth[txid] + 1);
    forall t, c | t in seen + {txid} && c in Out(g, t) ensures OneDeeper(deep, t, c) {
      if t == txid {
        assert c in depth.Keys + novel;
      } else {
        assert OneDeeper(depth, t, c);
      }
    }
  }

  lemma AdvanceLevels(g: Edges, root: Txid, queue: seq<Txid>, seen: set<Txid>, depth: map<Txid, nat>, novel: seq<Txid>)
    requires Levels(g, root, queue, seen, depth) && queue != []
    requires queue[0] in depth
    requires Elements(novel) <= Out(g, queue[0]) <= depth.Keys + Elements(novel)
    requires forall t :: t in novel ==> t !in depth
    ensures Levels(g, root, queue[1..] + novel, seen + {queue[0]}, Deepen(depth, Elements(novel), depth[queue[0]] + 1))
    ensures forall q :: q in queue[1..] + novel ==> q in Deepen(depth, Elements(novel), depth[queue[0]] + 1)
    ensures forall q :: q in queue[1..] + novel ==> depth[queue[0]] <= Deepen(depth, Elements(novel), depth[queue[0]] + 1)[q]
  {
    var txid := queue[0];
    AdvanceReached(g, root, txid, depth, Elements(novel));
    AdvanceSorted(queue, depth, novel);
    AdvanceKeys(queue, seen, depth, novel);
    AdvanceSeen(g, queue, seen, depth, novel);
  }

  lemma AdvanceKeys(queue: seq<Txid>, seen: set<Txid>, depth: map<Txid, nat>, novel: seq<Txid>)
    requires queue != [] && queue[0] in depth && depth.Keys == seen + Elements(queue)
    ensures Deepen(depth, Elements(novel), depth[queue[0]] + 1).Keys == seen + {queue[0]} + Elements(queue[1..] + novel)
  {
    assert queue == [queue[0]] + queue[1..];
  }

  lemma AdvanceSeen(g: Edges, queue: seq<Txid>, seen: set<Txid>, depth: map<Txid, nat>, novel: seq<Txid>)
    requires queue != [] && depth.Keys == seen + Elements(queue)
    requires queue[0] in depth && LevelsSorted(queue, depth) && LevelsSeen(g, queue, seen, depth)
    requires Out(g, queue[0]) <= depth.Keys + Elements(novel)
    requires var deep := Deepen(depth, Elements(novel), depth[queue[0]] + 1);
             forall q :: q in queue[1..] + novel ==> q in deep && depth[queue[0]] <= deep[q]
    ensures LevelsSeen(g, queue[1..] + novel, seen + {queue[0]}, Deepen(depth, Elements(novel), depth[queue[0]] + 1))
  {
    var txid := queue[0];
    var next, deep := queue[1..] + novel, Deepen(depth, Elements(novel), depth[txid] + 1);
    HeadIsLeast(queue, depth);
    assert next != [] ==> next[0] in next;
    forall t | t in depth ensures depth[t] <= depth[txid] + 1 {
      assert t in seen || t in queue;
    }
    AdvanceEdges(g, txid, seen, depth, Elements(novel));
  }

  lemma HeadDistance(g: Edges, root: Txid, queue: seq<Txid>, seen: set<Txid>, depth: map<Txid, nat>)
    requires Levels(g, root, queue, seen, depth) && queue != []
    ensures queue[0] in depth && IsDistance(g, root, queue[0], depth[queue[0]])
  {
    HeadIsLeast(queue, depth);
    var n := depth[queue[0]];
    if n > 0 && WithinSteps(g, root, queue[0], n - 1) {
      NotSooner(g, root, queue, seen, depth, queue[0], n - 1);
    }
  }

  ghost predicate BfsInvariant(
    g: Edges, root: Txid, queue: seq<Txid>, visited: set<Txid>, seen: set<Txid>, depth: map<Txid, nat>, level: nat)
  {
    && QueueInvariant(g, root, queue, visited, seen)
    && Levels(g, root, queue, seen, depth)
    && (forall q :: q in queue ==> q in depth && level <= depth[q])
  }

  lemma AdvanceBfs(
    g: Edges, root: Txid, queue: seq<Txid>, visited: set<Txid>, seen: set<Txid>, depth: map<Txid, nat>, level: nat, novel: seq<Txid>)
    requires BfsInvariant(g, root, queue, visited, seen, depth, level) && queue != []
    requires Distinct(novel) && Elements(novel) == Out(g, queue[0]) - visited
    ensures queue[0] in depth && queue[0] !in seen
    ensures var d := depth[queue[0]];
            && level <= d && IsDistance(g, root, queue[0], d)
            && BfsInvariant(g, root, queue[1..] + novel, visited + Out(g, queue[0]), seen + {queue[0]},
                            Deepen(depth, Elements(novel), d + 1), d)
  {
    AdvanceKeeps(g, root, queue, visited, seen, novel);
    ExpandReached(g, root, queue[0], visited);
    HeadDistance(g, root, queue, seen, depth);
    assert depth.Keys == visited + {root};
    assert forall t :: t in novel ==> t in Elements(novel);
    AdvanceLevels(g, root, queue, seen, depth, novel);
  }

  /** Iterator over a transaction and its descendants, closer descendants first. */
  class DescendantsIter {
    var toVisit: seq<Txid>
    var visited: set<Txid>
    ghost const root: Txid
    ghost const graph: Edges
    /** The transactions yielded so far. */
    ghost var seen: set<Txid>
    ghost var depth: map<Txid, nat>
    /** Distance of the transaction yielded last. */
    ghost var level: nat

    ghost predicate Valid()
      reads this
    {
      BfsInvariant(graph, root, toVisit, visited, seen, depth, level)
    }

    constructor (root: Txid, ghost graph: Edges)
      requires !Reaches(graph, root, root)
      ensures Valid() && this.root == root && this.graph == graph && seen == {} && level == 0
    {
      this.root := root;
      this.graph := graph;
      toVisit, visited, seen := [root], {}, {};
      depth, level := map[root := 0], 0;
    }

    /**
     * Yields the root first and then each descendant once, at non-decreasing distance from the
     * root, or reports that all of them were yielded.
     */
    method Next(txs: Txs) returns (step: Step)
      requires Valid() && SpenderGraph(txs) == graph
      modifies this
      ensures !step.Missing? ==> Valid()
      ensures step.Yield? ==> step.txid in txs && step.txid !in old(seen) && seen == old(seen) + {step.txid}
      ensures step.Yield? ==> if old(seen) == {} then step.txid == root else Reaches(graph, root, step.txid)
      ensures step.Yield? ==> old(level) <= level && IsDistance(graph, root, step.txid, level)
      ensures step.Done? ==> seen == old(seen) == ReachSet(graph, root) + {root}
      ensures step.Missing? ==> step.missing !in txs && (step.missing == root || Reaches(graph, root, step.missing))
    {
      if toVisit == [] {
        AllSeen();
        return Done;
      }
      var txid := toVisit[0];
      HeadReached();
      if txid !in txs {
        return Missing(txid);
      }
      Advance(txs[txid].info.spentBy);
      return Yield(txid);
    }

    /** Takes the front off the queue and enqueues its undiscovered spenders. */
    method Advance(spentBy: set<Txid>)
      requires Valid() && toVisit != [] && spentBy == Out(graph, toVisit[0])
      modifies this
      ensures Valid()
      ensures old(toVisit[0]) !in old(seen) && seen == old(seen) + {old(toVisit[0])}
      ensures old(level) <= level && IsDistance(graph, root, old(toVisit[0]), level)
    {
      hide *;
      var txid := toVisit[0];
      var novel := Ascending(spentBy - visited);
      AscendingFacts(spentBy - visited);
      Unfold();
      AdvanceBfs(graph, root, toVisit, visited, seen, depth, level, novel);
      level := depth[txid];
      depth := Deepen(depth, Elements(novel), level + 1);
      toVisit := toVisit[1..] + novel;
      visited := visited + spentBy;
      seen := seen + {txid};
      Fold();
    }

    lemma Unfold()
      requires Valid()
      ensures BfsInvariant(graph, root, toVisit, visited, seen, depth, level)
    {
    }

    lemma Fold()
      requires BfsInvariant(graph, root, toVisit, visited, seen, depth, level)
      ensures Valid()
    {
    }

    lemma HeadReached()
      requires Valid() && toVisit != []
      ensures if seen == {} then toVisit[0] == root else Reaches(graph, root, toVisit[0])
      ensures toVisit[0] == root || Reaches(graph, root, toVisit[0])
    {
      assert toVisit[0] in Elements(toVisit);
    }

    lemma AllSeen()
      requires Valid() && toVisit == []
      ensures seen == ReachSet(graph, root) + {root}
    {
      assert seen == visited + {root};
      assert Closed(graph, visited + {root});
      assert root !in visited;
      forall t | t in ReachSet(graph, root) ensures t in visited {
        InReachSet(graph, root, t);
        assert Closed(graph, visited);
      }
      forall t | t in visited ensures t in ReachSet(graph, root) { InReachSet(graph, root, t); }
    }
  }
}
