/** The two-phase stack walk over the ancestors of a transaction, and the order it yields them in. */
module AncestorWalks {
  import opened Types
  import opened LinkedSets
  import opened Graph
  import opened PoolTxs

  datatype Visit = Visit(txid: Txid, parentsVisited: bool)

  ghost predicate AllReached(g: Edges, root: Txid, s: set<Txid>) {
    forall t :: t in s ==> Reaches(g, root, t)
  }

  ghost function Txids(stack: seq<Visit>): set<Txid> {
    set v | v in stack :: v.txid
  }

  ghost predicate DistinctTxids(stack: seq<Visit>) {
    forall i, j :: 0 <= i < j < |stack| ==> stack[i].txid != stack[j].txid
  }

  function Unvisited(txids: seq<Txid>): seq<Visit> {
    seq(|txids|, i requires 0 <= i < |txids| => Visit(txids[i], false))
  }

  lemma PopTxids(stack: seq<Visit>)
    requires stack != [] && DistinctTxids(stack)
    ensures var rest, top := stack[..|stack| - 1], stack[|stack| - 1];
            DistinctTxids(rest) && Txids(stack) == Txids(rest) + {top.txid} && top.txid !in Txids(rest)
  {
    var rest, top := stack[..|stack| - 1], stack[|stack| - 1];
    assert stack == rest + [top];
    assert top in stack;
  }

  lemma PushTxids(stack: seq<Visit>, top: Visit, novel: seq<Txid>)
    requires DistinctTxids(stack) && top.txid !in Txids(stack)
    requires Distinct(novel)
    requires forall t :: t in novel ==> t !in Txids(stack) && t != top.txid
    ensures var pushed := stack + [top] + Unvisited(novel);
            DistinctTxids(pushed) && Txids(pushed) == Txids(stack) + {top.txid} + Elements(novel)
  {
    var pushed := stack + [top] + Unvisited(novel);
    forall i, j | 0 <= i < j < |pushed| ensures pushed[i].txid != pushed[j].txid {
      if i < |stack| { assert pushed[i] in stack; }
      if j == |stack| { assert pushed[j] == top; }
      if j > |stack| { assert pushed[j].txid in novel; }
    }
    forall t ensures t in Txids(pushed) <==> t in Txids(stack) + {top.txid} + Elements(novel) {
      if t in novel {
        var k :| 0 <= k < |novel| && novel[k] == t;
        assert pushed[|stack| + 1 + k].txid == t;
      }
      if t == top.txid { assert pushed[|stack|] == top; }
    }
  }

  /** What the ancestor iterator keeps: the stack holds exactly the visited but unyielded txids, above the root. */
  ghost predicate StackInvariant(g: Edges, root: Txid, stack: seq<Visit>, visited: set<Txid>, seen: set<Txid>, expanded: set<Txid>) {
    && !Reaches(g, root, root)
    && AllReached(g, root, visited)
    && DistinctTxids(stack)
    && seen !! Txids(stack)
    && (if stack == [] then seen == visited && root in expanded
        else stack[0].txid == root && seen + Txids(stack) == visited + {root})
    && (forall v :: v in stack ==> (v.parentsVisited <==> v.txid in expanded))
    && seen <= expanded <= visited + {root}
    && (forall t :: t in expanded ==> Out(g, t) <= visited)
  }

  lemma ExpandReached(g: Edges, root: Txid, txid: Txid, visited: set<Txid>)
    requires !Reaches(g, root, root) && AllReached(g, root, visited)
    requires txid == root || txid in visited
    ensures AllReached(g, root, visited + Out(g, txid))
    ensures root !in Out(g, txid)
    ensures txid in ReachSet(g, root) + {root}
  {
    InReachSet(g, root, txid);
    forall t | t in Out(g, txid) ensures Reaches(g, root, t) {
      if txid == root {
        EdgeReaches(g, root, t);
      } else {
        ThenEdge(g, root, txid, t);
      }
    }
  }

  lemma ExpandKeeps(g: Edges, root: Txid, stack: seq<Visit>, visited: set<Txid>, seen: set<Txid>, expanded: set<Txid>, novel: seq<Txid>)
    requires StackInvariant(g, root, stack, visited, seen, expanded)
    requires stack != [] && !stack[|stack| - 1].parentsVisited
    requires Distinct(novel) && Elements(novel) == Out(g, stack[|stack| - 1].txid) - visited
    ensures var txid := stack[|stack| - 1].txid;
            var pushed := stack[..|stack| - 1] + [Visit(txid, true)] + Unvisited(novel);
            && StackInvariant(g, root, pushed, visited + Out(g, txid), seen, expanded + {txid})
            && txid !in expanded
            && txid in ReachSet(g, root) + {root}
  {
    hide Reaches, ReachSet, Txids, DistinctTxids, Distinct, AllReached, Unvisited, Out;
    var rest, top := stack[..|stack| - 1], Visit(stack[|stack| - 1].txid, true);
    var pushed := rest + [top] + Unvisited(novel);
    assert stack[|stack| - 1] in stack;
    PopTxids(stack);
    assert top.txid in Txids(stack);
    ExpandReached(g, root, top.txid, visited);
    NovelDisjoint(stack, visited, root, novel, Out(g, top.txid));
    PushTxids(rest, top, novel);
    assert pushed[0].txid == root by { assert |rest| > 0 ==> pushed[0] == stack[0]; }
    PushedFlags(stack, novel, expanded);
  }

  /** The freshly discovered txids are neither on the stack nor the root. */
  lemma NovelDisjoint(stack: seq<Visit>, visited: set<Txid>, root: Txid, novel: seq<Txid>, out: set<Txid>)
    requires stack != [] && DistinctTxids(stack) && Txids(stack) <= visited + {root}
    requires Elements(novel) == out - visited && root !in out
    ensures forall t :: t in novel ==> t !in Txids(stack[..|stack| - 1]) && t != stack[|stack| - 1].txid
  {
    PopTxids(stack);
    forall t | t in novel ensures t !in Txids(stack) {
      assert t in Elements(novel);
    }
  }

  lemma PushedFlags(stack: seq<Visit>, novel: seq<Txid>, expanded: set<Txid>)
    requires stack != [] && DistinctTxids(stack)
    requires forall v :: v in stack ==> (v.parentsVisited <==> v.txid in expanded)
    requires forall t :: t in novel ==> t !in expanded && t != stack[|stack| - 1].txid
    ensures var top := Visit(stack[|stack| - 1].txid, true);
            forall v :: v in stack[..|stack| - 1] + [top] + Unvisited(novel) ==>
              (v.parentsVisited <==> v.txid in expanded + {top.txid})
  {
    var rest, top := stack[..|stack| - 1], Visit(stack[|stack| - 1].txid, true);
    PopTxids(stack);
    forall v | v in rest + [top] + Unvisited(novel) ensures v.parentsVisited <==> v.txid in expanded + {top.txid} {
      if v in rest {
        assert v in stack && v.txid in Txids(rest);
      } else if v != top {
        assert v in Unvisited(novel) && v.txid in novel;
      }
    }
  }

  lemma PopKeeps(g: Edges, root: Txid, stack: seq<Visit>, visited: set<Txid>, seen: set<Txid>, expanded: set<Txid>)
    requires StackInvariant(g, root, stack, visited, seen, expanded)
    requires stack != [] && stack[|stack| - 1].parentsVisited
    ensures var rest, txid := stack[..|stack| - 1], stack[|stack| - 1].txid;
            if rest == [] then StackInvariant(g, root, rest, visited, seen, expanded)
            else StackInvariant(g, root, rest, visited, seen + {txid}, expanded) && Reaches(g, root, txid) && txid !in seen
  {
    hide Reaches;
    var rest, top := stack[..|stack| - 1], stack[|stack| - 1];
    PopTxids(stack);
    assert top in stack;
    if rest == [] {
      assert Txids(rest) == {};
      assert seen + {root} == visited + {root};
      assert root !in seen && root !in visited;
    } else {
      assert stack[0] in rest && root in Txids(rest);
      assert seen + {top.txid} + Txids(rest) == visited + {root};
    }
  }

  // ---- the whole walk ----

  /** A walk in progress: the stack, what was pushed, what was yielded in order, and whose parents were pushed. */
  datatype Walk = Walk(stack: seq<Visit>, visited: set<Txid>, order: seq<Txid>, expanded: set<Txid>)

  ghost function Start(root: Txid): Walk {
    Walk([Visit(root, false)], {}, [], {})
  }

  /** Takes the top off the stack. An unexpanded one is put back below its unvisited parents; an expanded one is yielded,
      unless it is the last. */
  ghost function Turn(g: Edges, w: Walk): Walk {
    if w.stack == [] then w else
    var top, rest := w.stack[|w.stack| - 1], w.stack[..|w.stack| - 1];
    if top.parentsVisited then w.(stack := rest, order := if rest == [] then w.order else w.order + [top.txid])
    else w.(stack := rest + [Visit(top.txid, true)] + Unvisited(Ascending(Out(g, top.txid) - w.visited)),
            visited := w.visited + Out(g, top.txid), expanded := w.expanded + {top.txid})
  }

  ghost function WalkAfter(g: Edges, root: Txid, n: nat): Walk
    decreases n
  {
    if n == 0 then Start(root) else Turn(g, WalkAfter(g, root, n - 1))
  }

  ghost predicate WalkInvariant(g: Edges, root: Txid, w: Walk) {
    StackInvariant(g, root, w.stack, w.visited, Elements(w.order), w.expanded)
  }

  lemma TurnKeeps(g: Edges, root: Txid, w: Walk)
    requires WalkInvariant(g, root, w)
    ensures WalkInvariant(g, root, Turn(g, w))
  {
    hide StackInvariant, Unvisited, Ascending, Out, Reaches;
    if w.stack != [] {
      var top := w.stack[|w.stack| - 1];
      if top.parentsVisited {
        PopKeeps(g, root, w.stack, w.visited, Elements(w.order), w.expanded);
        assert Elements(w.order + [top.txid]) == Elements(w.order) + {top.txid};
      } else {
        AscendingFacts(Out(g, top.txid) - w.visited);
        ExpandKeeps(g, root, w.stack, w.visited, Elements(w.order), w.expanded, Ascending(Out(g, top.txid) - w.visited));
      }
    }
  }

  lemma {:induction false} WalkKeeps(g: Edges, root: Txid, n: nat)
    requires !Reaches(g, root, root)
    ensures WalkInvariant(g, root, WalkAfter(g, root, n))
    decreases n
  {
    hide StackInvariant, Turn, Reaches;
    if n == 0 {
      StartInvariant(g, root);
    } else {
      WalkKeeps(g, root, n - 1);
      TurnKeeps(g, root, WalkAfter(g, root, n - 1));
    }
  }

  lemma StartInvariant(g: Edges, root: Txid)
    requires !Reaches(g, root, root)
    ensures StackInvariant(g, root, [Visit(root, false)], {}, {}, {}) && Elements<Txid>([]) == {}
  {
    hide Reaches;
  }

  /** Every walk comes to an end. */
  lemma {:induction false} WalkEnds(g: Edges, root: Txid, n: nat) returns (m: nat)
    requires !Reaches(g, root, root)
    ensures WalkAfter(g, root, m).stack == [] && m >= n
    decreases ReachSet(g, root) + {root} - WalkAfter(g, root, n).expanded, |WalkAfter(g, root, n).stack|
  {
    hide StackInvariant, Reaches, ReachSet, Unvisited, Ascending, Out;
    var w := WalkAfter(g, root, n);
    if w.stack == [] {
      m := n;
    } else {
      WalkKeeps(g, root, n);
      assert WalkAfter(g, root, n + 1) == Turn(g, w);
      if !w.stack[|w.stack| - 1].parentsVisited {
        var top := w.stack[|w.stack| - 1];
        AscendingFacts(Out(g, top.txid) - w.visited);
        ExpandKeeps(g, root, w.stack, w.visited, Elements(w.order), w.expanded, Ascending(Out(g, top.txid) - w.visited));
        assert ReachSet(g, root) + {root} - (w.expanded + {top.txid}) < ReachSet(g, root) + {root} - w.expanded by {
          assert top.txid in ReachSet(g, root) + {root} - w.expanded;
        }
      }
      m := WalkEnds(g, root, n + 1);
    }
  }

  // ---- ancestors before descendants ----

  /** Every node comes after all that it reaches. */
  ghost predicate Topological(g: Edges, order: seq<Txid>) {
    forall i :: 0 <= i < |order| ==> ReachSet(g, order[i]) <= Elements(order[..i])
  }

  /** The walk from `root` yields ancestors before descendants, as its documentation says. */
  ghost predicate WalksAncestorsFirst(g: Edges, root: Txid) {
    forall n: nat :: Topological(g, WalkAfter(g, root, n).order)
  }

  /** Of two parents `a` and `b` of `t`, the one that sorts first is an ancestor of the other. */
  ghost predicate Tangled(g: Edges, t: Txid, a: Txid, b: Txid) {
    a in Out(g, t) && b in Out(g, t) && a < b && Reaches(g, b, a)
  }

  /** Nothing on the stack reaches anything below it. */
  ghost predicate NoneBelow(g: Edges, stack: seq<Visit>) {
    forall i, j :: 0 <= i < j < |stack| ==> !Reaches(g, stack[j].txid, stack[i].txid)
  }

  ghost predicate NoneTangled(g: Edges, t: Txid) {
    forall a, b :: !Tangled(g, t, a, b)
  }

  ghost predicate Untangled(g: Edges, root: Txid) {
    forall t :: t == root || Reaches(g, root, t) ==> NoneTangled(g, t)
  }

  lemma TurnNoneBelow(g: Edges, root: Txid, w: Walk)
    requires WalkInvariant(g, root, w) && Acyclic(g) && Untangled(g, root) && NoneBelow(g, w.stack)
    ensures NoneBelow(g, Turn(g, w).stack)
  {
    hide Reaches, Unvisited, Ascending, Out, Elements, StackInvariant;
    if w.stack != [] && !w.stack[|w.stack| - 1].parentsVisited {
      var top := w.stack[|w.stack| - 1];
      AscendingFacts(Out(g, top.txid) - w.visited);
      NovelSorted(Out(g, top.txid) - w.visited);
      OnStackReached(g, root, w, top);
      var novel := Ascending(Out(g, top.txid) - w.visited);
      assert forall i :: 0 <= i < |novel| ==> novel[i] in novel;
      PushNoneBelow(g, w.stack, novel);
    }
  }

  lemma PushNoneBelow(g: Edges, stack: seq<Visit>, novel: seq<Txid>)
    requires stack != [] && NoneBelow(g, stack) && Acyclic(g)
    requires forall i :: 0 <= i < |novel| ==> novel[i] in Out(g, stack[|stack| - 1].txid)
    requires forall i, j :: 0 <= i < j < |novel| ==> novel[i] < novel[j]
    requires NoneTangled(g, stack[|stack| - 1].txid)
    ensures NoneBelow(g, stack[..|stack| - 1] + [Visit(stack[|stack| - 1].txid, true)] + Unvisited(novel))
  {
    hide Reaches, Out;
    var k, top := |stack| - 1, stack[|stack| - 1].txid;
    var pushed := stack[..k] + [Visit(top, true)] + Unvisited(novel);
    assert forall i :: 0 <= i <= k ==> pushed[i].txid == stack[i].txid;
    assert forall i :: k < i < |pushed| ==> pushed[i].txid == novel[i - k - 1];
    hide Unvisited;
    forall i, j | 0 <= i < j < |pushed| ensures !Reaches(g, pushed[j].txid, pushed[i].txid) {
      if j > k {
        NewNotBelow(g, stack, novel, i, j - k - 1);
      }
    }
  }

  /** A parent pushed on top of `stack` reaches neither the stack nor the parents pushed before it. */
  lemma NewNotBelow(g: Edges, stack: seq<Visit>, novel: seq<Txid>, i: nat, j: nat)
    requires stack != [] && NoneBelow(g, stack) && Acyclic(g) && j < |novel| && i < |stack| + j
    requires novel[j] in Out(g, stack[|stack| - 1].txid)
    requires i >= |stack| ==> novel[i - |stack|] in Out(g, stack[|stack| - 1].txid) && novel[i - |stack|] < novel[j]
    requires NoneTangled(g, stack[|stack| - 1].txid)
    ensures !Reaches(g, novel[j], if i < |stack| then stack[i].txid else novel[i - |stack|])
  {
    hide Reaches;
    if i < |stack| {
      if Reaches(g, novel[j], stack[i].txid) {
        EdgeThen(g, stack[|stack| - 1].txid, novel[j], stack[i].txid);
      }
    } else {
      assert !Tangled(g, stack[|stack| - 1].txid, novel[i - |stack|], novel[j]);
    }
  }

  lemma NovelSorted(s: set<Txid>)
    ensures |Unvisited(Ascending(s))| == |Ascending(s)|
    ensures forall i :: 0 <= i < |Ascending(s)| ==> Unvisited(Ascending(s))[i].txid == Ascending(s)[i]
    ensures forall i, j :: 0 <= i < j < |Ascending(s)| ==> Ascending(s)[i] < Ascending(s)[j]
  {
  }

  lemma OnStackReached(g: Edges, root: Txid, w: Walk, v: Visit)
    requires WalkInvariant(g, root, w) && v in w.stack
    ensures v.txid == root || Reaches(g, root, v.txid)
  {
    hide Reaches;
    assert v.txid in Txids(w.stack);
  }

  /** A node is yielded once all that it reaches was. */
  lemma YieldedLast(g: Edges, root: Txid, w: Walk)
    requires WalkInvariant(g, root, w) && Acyclic(g) && NoneBelow(g, w.stack)
    requires w.stack != [] && w.stack[|w.stack| - 1].parentsVisited
    requires forall t :: t in w.order ==> ReachSet(g, t) <= Elements(w.order)
    ensures ReachSet(g, w.stack[|w.stack| - 1].txid) <= Elements(w.order)
  {
    hide Reaches, ReachSet;
    var k, t := |w.stack| - 1, w.stack[|w.stack| - 1].txid;
    assert w.stack[k] in w.stack;
    forall p | p in Out(g, t) ensures p in Elements(w.order) {
      EdgeReaches(g, t, p);
      RootUnreached(g, root, w, t, p);
      NotOnStack(g, w.stack, p);
    }
    forall x | x in Elements(w.order) ensures Out(g, x) <= Elements(w.order) {
      ReachSetClosed(g, x);
    }
    ReachSetLeast(g, t, Elements(w.order));
  }

  lemma NotOnStack(g: Edges, stack: seq<Visit>, p: Txid)
    requires stack != [] && NoneBelow(g, stack) && Acyclic(g) && Reaches(g, stack[|stack| - 1].txid, p)
    ensures p !in Txids(stack)
  {
    hide Reaches;
  }

  lemma RootUnreached(g: Edges, root: Txid, w: Walk, t: Txid, p: Txid)
    requires WalkInvariant(g, root, w) && Acyclic(g) && p in Out(g, t)
    requires exists v :: v in w.stack && v.txid == t
    ensures p != root
  {
    hide Reaches;
    var v :| v in w.stack && v.txid == t;
    OnStackReached(g, root, w, v);
    EdgeReaches(g, t, p);
    if p == root && t != root {
      Transitive(g, root, t, root);
    }
  }

  lemma TopologicalStep(g: Edges, order: seq<Txid>, t: Txid)
    requires Topological(g, order)
    ensures Topological(g, order + [t]) <==> ReachSet(g, t) <= Elements(order)
    ensures forall x :: x in order ==> ReachSet(g, x) <= Elements(order)
  {
    hide ReachSet;
    var more := order + [t];
    assert more[..|order|] == order && more[|order|] == t;
    forall i | 0 <= i < |order| ensures more[..i] == order[..i] && more[i] == order[i] {
    }
    forall x | x in order ensures ReachSet(g, x) <= Elements(order) {
      var i :| 0 <= i < |order| && order[i] == x;
      assert Elements(order[..i]) <= Elements(order);
    }
  }

  lemma {:induction false} UntangledAfter(g: Edges, root: Txid, n: nat)
    requires Acyclic(g) && Untangled(g, root)
    ensures NoneBelow(g, WalkAfter(g, root, n).stack) && Topological(g, WalkAfter(g, root, n).order)
    decreases n
  {
    hide Untangled, NoneBelow, Topological, WalkInvariant, Reaches, ReachSet, Unvisited, Ascending, Out, Elements;
    WalkKeeps(g, root, n);
    if n == 0 {
      NothingYet(g, root);
    } else {
      var w := WalkAfter(g, root, n - 1);
      UntangledAfter(g, root, n - 1);
      WalkKeeps(g, root, n - 1);
      TurnNoneBelow(g, root, w);
      if w.stack != [] && w.stack[|w.stack| - 1].parentsVisited {
        TopologicalStep(g, w.order, w.stack[|w.stack| - 1].txid);
        YieldedLast(g, root, w);
      }
    }
  }

  lemma NothingYet(g: Edges, root: Txid)
    ensures NoneBelow(g, Start(root).stack) && Topological(g, [])
  {
  }

  /** `b` is still above `a` on the stack, or was yielded while `a` was not. */
  ghost predicate Overtakes(w: Walk, a: Txid, b: Txid) {
    || (exists i, j :: 0 <= i < j < |w.stack| && w.stack[i] == Visit(a, false) && w.stack[j].txid == b)
    || (exists k :: 0 <= k < |w.order| && w.order[k] == b && a !in w.order[..k])
  }

  lemma TurnOvertakes(g: Edges, root: Txid, w: Walk, a: Txid, b: Txid)
    requires WalkInvariant(g, root, w) && Overtakes(w, a, b)
    ensures Overtakes(Turn(g, w), a, b)
  {
    hide Reaches, Unvisited, Ascending, Out, StackInvariant;
    var w' := Turn(g, w);
    if k :| 0 <= k < |w.order| && w.order[k] == b && a !in w.order[..k] {
      assert w'.order[k] == b && w'.order[..k] == w.order[..k];
    } else {
      var i, j :| 0 <= i < j < |w.stack| && w.stack[i] == Visit(a, false) && w.stack[j].txid == b;
      StackOvertakes(g, root, w, a, b, i, j);
    }
  }

  lemma StackOvertakes(g: Edges, root: Txid, w: Walk, a: Txid, b: Txid, i: nat, j: nat)
    requires WalkInvariant(g, root, w) && i < j < |w.stack| && w.stack[i] == Visit(a, false) && w.stack[j].txid == b
    ensures Overtakes(Turn(g, w), a, b)
  {
    hide Reaches, Unvisited, Ascending, Out, AllReached;
    var w', k := Turn(g, w), |w.stack| - 1;
    assert w.stack[i] in w.stack && a in Txids(w.stack);
    hide StackInvariant;
    if !w.stack[k].parentsVisited || j < k {
      assert w'.stack[i] == w.stack[i] && w'.stack[j].txid == b;
    } else {
      assert a !in w.order;
      assert w'.order == w.order + [b] && w'.order[..|w.order|] == w.order;
    }
  }

  lemma {:induction false} OvertakesAfter(g: Edges, root: Txid, a: Txid, b: Txid, n: nat)
    requires !Reaches(g, root, root) && Tangled(g, root, a, b) && n >= 1
    ensures Overtakes(WalkAfter(g, root, n), a, b)
    decreases n
  {
    hide Overtakes, WalkInvariant, Reaches, Turn;
    WalkKeeps(g, root, n - 1);
    if n == 1 {
      FirstTurn(g, root, a, b);
    } else {
      OvertakesAfter(g, root, a, b, n - 1);
      TurnOvertakes(g, root, WalkAfter(g, root, n - 1), a, b);
    }
  }

  lemma FirstStack(g: Edges, root: Txid)
    ensures WalkAfter(g, root, 1) == Turn(g, Start(root))
    ensures Turn(g, Start(root)).stack == [Visit(root, true)] + Unvisited(Ascending(Out(g, root)))
  {
    hide Out, Unvisited, Ascending;
    assert WalkAfter(g, root, 0) == Start(root);
    assert Out(g, root) - {} == Out(g, root);
    assert [Visit(root, false)][..0] + [Visit(root, true)] == [Visit(root, true)];
  }

  lemma FirstTurn(g: Edges, root: Txid, a: Txid, b: Txid)
    requires a in Out(g, root) && b in Out(g, root) && a < b
    ensures WalkAfter(g, root, 1) == Turn(g, Start(root)) && Overtakes(Turn(g, Start(root)), a, b)
  {
    hide Out, Unvisited, Ascending, Turn, WalkAfter;
    var novel, stack := Ascending(Out(g, root)), Turn(g, Start(root)).stack;
    FirstStack(g, root);
    AscendingFacts(Out(g, root));
    NovelSorted(Out(g, root));
    var i :| 0 <= i < |novel| && novel[i] == a;
    var j :| 0 <= j < |novel| && novel[j] == b;
    UnvisitedFlag(novel, i);
    assert stack[i + 1] == Unvisited(novel)[i] && stack[j + 1] == Unvisited(novel)[j];
  }

  lemma UnvisitedFlag(novel: seq<Txid>, i: nat)
    requires i < |novel|
    ensures Unvisited(novel)[i] == Visit(novel[i], false)
  {
  }

  /** From a transaction two of whose parents are tangled, the later one is yielded before its ancestor. */
  lemma TangledFails(g: Edges, root: Txid, a: Txid, b: Txid)
    requires !Reaches(g, root, root) && Tangled(g, root, a, b)
    ensures !WalksAncestorsFirst(g, root)
  {
    hide Reaches, Turn, WalkInvariant;
    var n := WalkEnds(g, root, 1);
    OvertakesAfter(g, root, a, b, n);
    var w := WalkAfter(g, root, n);
    var k :| 0 <= k < |w.order| && w.order[k] == b && a !in w.order[..k];
    InReachSet(g, b, a);
    hide ReachSet;
    assert a in ReachSet(g, w.order[k]);
  }

  lemma UntangledFirst(g: Edges, root: Txid)
    requires Acyclic(g) && Untangled(g, root)
    ensures WalksAncestorsFirst(g, root)
  {
    hide Untangled, Topological;
    forall n: nat ensures Topological(g, WalkAfter(g, root, n).order) {
      UntangledAfter(g, root, n);
    }
  }

  lemma EdgesOf(txs: Txs, t: Txid)
    requires t in txs
    ensures Out(DependsGraph(txs), t) == txs[t].info.depends
  {
  }

  /** The walks of a pool all yield ancestors before descendants precisely if no transaction has two parents of which
      the one that sorts first is an ancestor of the other. */
  lemma AncestorsFirstIff(txs: Txs)
    requires Wired(txs) && Acyclic(DependsGraph(txs))
    ensures (forall root :: root in txs ==> WalksAncestorsFirst(DependsGraph(txs), root)) <==>
              !exists t, a, b :: t in txs && a in txs[t].info.depends && b in txs[t].info.depends && a < b && a in Ancestors(txs, b)
  {
    hide WalksAncestorsFirst, Reaches, ReachSet, Wired;
    var g := DependsGraph(txs);
    forall t, a, b
      ensures Tangled(g, t, a, b) <==>
                t in txs && a in txs[t].info.depends && b in txs[t].info.depends && a < b && a in Ancestors(txs, b)
    {
      InReachSet(g, b, a);
    }
    if t, a, b :| Tangled(g, t, a, b) {
      TangledFails(g, t, a, b);
    } else {
      forall root | root in txs ensures WalksAncestorsFirst(g, root) {
        assert forall t :: NoneTangled(g, t);
        UntangledFirst(g, root);
      }
    }
  }
}
