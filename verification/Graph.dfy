/** Reachability in a finite directed graph, given as a map from a node to its successors. */
module Graph {
  import opened Types

  type Edges = map<Txid, set<Txid>>

  ghost function Out(g: Edges, a: Txid): set<Txid> {
    if a in g then g[a] else {}
  }

  ghost predicate Closed(g: Edges, s: set<Txid>) {
    forall x :: x in s ==> Out(g, x) <= s
  }

  /** `b` can be reached from `a` along one or more edges: it lies in every closed set that holds a's successors. */
  ghost predicate Reaches(g: Edges, a: Txid, b: Txid) {
    forall s :: Closed(g, s) && Out(g, a) <= s ==> b in s
  }

  ghost function Targets(g: Edges): set<Txid> {
    set x, y | x in g && y in g[x] :: y
  }

  /** Every node reachable from `a` along one or more edges. */
  ghost function ReachSet(g: Edges, a: Txid): set<Txid> {
    set b | b in Targets(g) && Reaches(g, a, b)
  }

  ghost predicate Acyclic(g: Edges) {
    forall a :: !Reaches(g, a, a)
  }

  ghost predicate Converse(g: Edges, h: Edges) {
    forall a, b :: b in Out(g, a) <==> a in Out(h, b)
  }

  ghost function RemoveNode(g: Edges, x: Txid): Edges {
    map a | a in g && a != x :: g[a] - {x}
  }

  lemma TargetsClosed(g: Edges)
    ensures Closed(g, Targets(g))
    ensures forall a :: Out(g, a) <= Targets(g)
  {
  }

  lemma InReachSet(g: Edges, a: Txid, b: Txid)
    ensures b in ReachSet(g, a) <==> Reaches(g, a, b)
  {
    TargetsClosed(g);
  }

  lemma EdgeReaches(g: Edges, a: Txid, b: Txid)
    requires b in Out(g, a)
    ensures Reaches(g, a, b)
  {
  }

  lemma ReachesInside(g: Edges, a: Txid, b: Txid, s: set<Txid>)
    requires Reaches(g, a, b) && Closed(g, s) && Out(g, a) <= s
    ensures b in s
  {
  }

  lemma Transitive(g: Edges, a: Txid, b: Txid, c: Txid)
    requires Reaches(g, a, b) && Reaches(g, b, c)
    ensures Reaches(g, a, c)
  {
  }

  lemma ThenEdge(g: Edges, a: Txid, b: Txid, c: Txid)
    requires Reaches(g, a, b) && c in Out(g, b)
    ensures Reaches(g, a, c)
  {
    EdgeReaches(g, b, c);
    Transitive(g, a, b, c);
  }

  lemma EdgeThen(g: Edges, a: Txid, b: Txid, c: Txid)
    requires b in Out(g, a) && Reaches(g, b, c)
    ensures Reaches(g, a, c)
  {
    EdgeReaches(g, a, b);
    Transitive(g, a, b, c);
  }

  lemma ReachSetClosed(g: Edges, a: Txid)
    ensures Closed(g, ReachSet(g, a))
    ensures Out(g, a) <= ReachSet(g, a)
  {
    forall b | b in Out(g, a) ensures b in ReachSet(g, a) {
      EdgeReaches(g, a, b);
      InReachSet(g, a, b);
    }
    forall b | b in ReachSet(g, a) ensures Out(g, b) <= ReachSet(g, a) {
      InReachSet(g, a, b);
      forall c | c in Out(g, b) ensures c in ReachSet(g, a) {
        ThenEdge(g, a, b, c);
        InReachSet(g, a, c);
      }
    }
  }

  lemma ReachSetLeast(g: Edges, a: Txid, s: set<Txid>)
    requires Closed(g, s) && Out(g, a) <= s
    ensures ReachSet(g, a) <= s
  {
  }

  /** A reached node is entered by an edge from the start or from another reached node. */
  lemma LastEdge(g: Edges, a: Txid, b: Txid)
    requires Reaches(g, a, b)
    ensures b in Out(g, a) || exists c :: Reaches(g, a, c) && b in Out(g, c)
  {
    var s := set t | t in Targets(g) && (t in Out(g, a) || exists c :: Reaches(g, a, c) && t in Out(g, c));
    TargetsClosed(g);
    forall x | x in s ensures Out(g, x) <= s {
      if x in Out(g, a) {
        EdgeReaches(g, a, x);
      } else {
        var c :| Reaches(g, a, c) && x in Out(g, c);
        ThenEdge(g, a, c, x);
      }
    }
    assert Closed(g, s);
  }

  /** A reached node is a successor of the start or reached from one. */
  lemma FirstEdge(g: Edges, a: Txid, b: Txid)
    requires Reaches(g, a, b)
    ensures b in Out(g, a) || exists c :: c in Out(g, a) && Reaches(g, c, b)
  {
    var s := set t | t in Targets(g) && (t in Out(g, a) || exists c :: c in Out(g, a) && Reaches(g, c, t));
    TargetsClosed(g);
    forall x | x in s ensures Out(g, x) <= s {
      forall y | y in Out(g, x) ensures y in s {
        if x in Out(g, a) {
          EdgeReaches(g, x, y);
        } else {
          var c :| c in Out(g, a) && Reaches(g, c, x);
          ThenEdge(g, c, x, y);
        }
      }
    }
    assert Closed(g, s);
  }

  lemma Monotone(g: Edges, h: Edges, a: Txid, b: Txid)
    requires forall x :: Out(g, x) <= Out(h, x)
    requires Reaches(g, a, b)
    ensures Reaches(h, a, b)
  {
    forall s | Closed(h, s) && Out(h, a) <= s ensures b in s {
      assert Closed(g, s);
    }
  }

  /** Graphs that agree on a node and everything it reaches agree on what it reaches. */
  lemma SameReach(g: Edges, h: Edges, a: Txid)
    requires forall t :: t in ReachSet(g, a) + {a} ==> Out(h, t) == Out(g, t)
    ensures ReachSet(h, a) == ReachSet(g, a)
  {
    ReachSetClosed(g, a);
    ReachSetClosed(h, a);
    ReachSetLeast(h, a, ReachSet(g, a));
    forall x | x in ReachSet(g, a) * ReachSet(h, a) ensures Out(g, x) <= ReachSet(g, a) * ReachSet(h, a) {
      assert Out(g, x) == Out(h, x);
    }
    ReachSetLeast(g, a, ReachSet(g, a) * ReachSet(h, a));
  }

  lemma ConverseOneWay(g: Edges, h: Edges, a: Txid, b: Txid)
    requires Converse(g, h)
    requires Reaches(g, a, b)
    ensures Reaches(h, b, a)
  {
    var s := set t | t in Targets(g) && Reaches(h, t, a);
    TargetsClosed(g);
    forall x | x in Out(g, a) ensures x in s {
      EdgeReaches(h, x, a);
    }
    forall x | x in s ensures Out(g, x) <= s {
      forall y | y in Out(g, x) ensures y in s {
        EdgeThen(h, y, x, a);
      }
    }
    assert Closed(g, s);
  }

  lemma ConverseReaches(g: Edges, h: Edges, a: Txid, b: Txid)
    requires Converse(g, h)
    ensures Reaches(g, a, b) <==> Reaches(h, b, a)
  {
    if Reaches(g, a, b) { ConverseOneWay(g, h, a, b); }
    if Reaches(h, b, a) { ConverseOneWay(h, g, b, a); }
  }

  lemma ConverseAcyclic(g: Edges, h: Edges)
    requires Converse(g, h) && Acyclic(g)
    ensures Acyclic(h)
  {
    forall a ensures !Reaches(h, a, a) {
      ConverseReaches(g, h, a, a);
    }
  }

  lemma RemoveNodeOut(g: Edges, x: Txid)
    ensures forall a :: Out(RemoveNode(g, x), a) == if a == x then {} else Out(g, a) - {x}
  {
  }

  /** Deleting a node never adds a path, and no path then ends in the deleted node. */
  lemma RemoveNodeShrinks(g: Edges, x: Txid, a: Txid, b: Txid)
    requires Reaches(RemoveNode(g, x), a, b)
    ensures a != x && b != x && Reaches(g, a, b)
  {
    var h := RemoveNode(g, x);
    RemoveNodeOut(g, x);
    Monotone(h, g, a, b);
    TargetsClosed(h);
    assert x !in Targets(h);
    InReachSet(h, a, b);
  }

  /** Paths that cannot use the deleted node as an inner node survive. */
  lemma RemoveNodeKeeps(g: Edges, x: Txid, a: Txid, b: Txid)
    requires Reaches(g, a, b) && a != x && b != x
    requires !Reaches(g, a, x) || Out(g, x) == {}
    ensures Reaches(RemoveNode(g, x), a, b)
  {
    var h := RemoveNode(g, x);
    RemoveNodeOut(g, x);
    forall s | Closed(h, s) && Out(h, a) <= s ensures b in s {
      if Out(g, x) == {} {
        assert Closed(g, s + {x});
      } else {
        var r := ReachSet(g, a) * s;
        ReachSetClosed(g, a);
        InReachSet(g, a, x);
        forall y | y in r ensures Out(g, y) <= r {
          assert Out(g, y) <= ReachSet(g, a);
        }
        assert Closed(g, r) && Out(g, a) <= r;
      }
    }
  }

  lemma RemoveNodeAcyclic(g: Edges, x: Txid)
    requires Acyclic(g)
    ensures Acyclic(RemoveNode(g, x))
  {
    forall a ensures !Reaches(RemoveNode(g, x), a, a) {
      if Reaches(RemoveNode(g, x), a, a) {
        RemoveNodeShrinks(g, x, a, a);
      }
    }
  }

  /** A path either avoids `x` or crosses it. */
  lemma AvoidsOrCrosses(g: Edges, x: Txid, a: Txid, b: Txid)
    requires Reaches(g, a, b) && a != x && b != x
    ensures Reaches(RemoveNode(g, x), a, b) || (Reaches(g, a, x) && Reaches(g, x, b))
  {
    hide Reaches, Closed, RemoveNode, ReachSet;
    if !Reaches(g, a, x) {
      RemoveNodeKeeps(g, x, a, b);
    } else {
      var kept, beyond := ReachSet(RemoveNode(g, x), a), ReachSet(g, x);
      CrossingClosed(g, x, a);
      ReachesInside(g, a, b, kept + beyond + {x});
      InReachSet(RemoveNode(g, x), a, b);
      InReachSet(g, x, b);
    }
  }

  lemma CrossingClosed(g: Edges, x: Txid, a: Txid)
    requires a != x
    ensures var s := ReachSet(RemoveNode(g, x), a) + ReachSet(g, x) + {x};
            Closed(g, s) && Out(g, a) <= s
  {
    var kept, beyond := ReachSet(RemoveNode(g, x), a), ReachSet(g, x);
    RemoveNodeOut(g, x);
    ReachSetClosed(RemoveNode(g, x), a);
    ReachSetClosed(g, x);
    forall t | t in kept + beyond + {x} ensures Out(g, t) <= kept + beyond + {x} {
      if t in kept && t != x {
        assert Out(RemoveNode(g, x), t) <= kept;
      } else if t == x {
        assert Out(g, x) <= beyond;
      } else {
        assert Out(g, t) <= beyond;
      }
    }
    assert Out(RemoveNode(g, x), a) <= kept;
  }

  /** A graph is acyclic if it is so without `x` and `x` is on no cycle. */
  lemma AddNodeAcyclic(g: Edges, x: Txid)
    requires Acyclic(RemoveNode(g, x)) && !Reaches(g, x, x)
    ensures Acyclic(g)
  {
    forall a ensures !Reaches(g, a, a) {
      if a != x && Reaches(g, a, a) {
        AvoidsOrCrosses(g, x, a, a);
        Transitive(g, x, a, x);
      }
    }
  }

  /** The reach set of a surviving node after a deletion: never larger, and exact when the node is not cut through. */
  lemma RemoveNodeReachSet(g: Edges, x: Txid, a: Txid)
    requires a != x
    ensures ReachSet(RemoveNode(g, x), a) <= ReachSet(g, a) - {x}
    ensures !Reaches(g, a, x) || Out(g, x) == {} ==> ReachSet(RemoveNode(g, x), a) == ReachSet(g, a) - {x}
  {
    var h := RemoveNode(g, x);
    forall b | b in ReachSet(h, a) ensures b in ReachSet(g, a) - {x} {
      InReachSet(h, a, b);
      RemoveNodeShrinks(g, x, a, b);
      InReachSet(g, a, b);
    }
    if !Reaches(g, a, x) || Out(g, x) == {} {
      forall b | b in ReachSet(g, a) - {x} ensures b in ReachSet(h, a) {
        InReachSet(g, a, b);
        RemoveNodeKeeps(g, x, a, b);
        InReachSet(h, a, b);
      }
    }
  }

  ghost predicate IsPath(g: Edges, p: seq<Txid>) {
    forall i :: 0 <= i < |p| - 1 ==> p[i + 1] in Out(g, p[i])
  }

  ghost predicate PathFromTo(g: Edges, p: seq<Txid>, a: Txid, b: Txid) {
    |p| >= 2 && p[0] == a && p[|p| - 1] == b && IsPath(g, p)
  }

  /** The closed-set definition of reachability agrees with the existence of a path. */
  lemma ReachesIffPath(g: Edges, a: Txid, b: Txid)
    ensures Reaches(g, a, b) <==> exists p :: PathFromTo(g, p, a, b)
  {
    if Reaches(g, a, b) {
      var s := set t | t in Targets(g) && exists p :: PathFromTo(g, p, a, t);
      TargetsClosed(g);
      forall t | t in Out(g, a) ensures t in s {
        assert PathFromTo(g, [a, t], a, t);
      }
      forall x | x in s ensures Out(g, x) <= s {
        var p :| PathFromTo(g, p, a, x);
        forall y | y in Out(g, x) ensures y in s {
          assert PathFromTo(g, p + [y], a, y);
        }
      }
      assert Closed(g, s);
    }
    if p :| PathFromTo(g, p, a, b) {
      PathReaches(g, p, a, b);
    }
  }

  lemma {:induction false} PathReaches(g: Edges, p: seq<Txid>, a: Txid, b: Txid)
    requires PathFromTo(g, p, a, b)
    ensures Reaches(g, a, b)
  {
    if |p| == 2 {
      assert p[0 + 1] in Out(g, p[0]);
      EdgeReaches(g, a, b);
    } else {
      var q := p[..|p| - 1];
      assert PathFromTo(g, q, a, q[|q| - 1]);
      PathReaches(g, q, a, q[|q| - 1]);
      assert p[|p| - 2 + 1] in Out(g, p[|p| - 2]);
      ThenEdge(g, a, q[|q| - 1], b);
    }
  }

  /** Any non-empty node set of an acyclic graph has a member with no successor inside the set. */
  lemma {:induction false} SinkExists(g: Edges, s: set<Txid>) returns (m: Txid)
    requires Acyclic(g) && s != {}
    ensures m in s && Out(g, m) !! s
  {
    var a :| a in s;
    m := SinkFrom(g, s, a);
  }

  lemma {:induction false} SinkFrom(g: Edges, s: set<Txid>, a: Txid) returns (m: Txid)
    requires Acyclic(g) && a in s
    ensures m in s && Out(g, m) !! s
    ensures m == a || Reaches(g, a, m)
    decreases ReachSet(g, a)
  {
    if Out(g, a) !! s {
      m := a;
    } else {
      var b :| b in Out(g, a) && b in s;
      ReachSetClosed(g, a);
      ReachSetLeast(g, b, ReachSet(g, a));
      EdgeReaches(g, a, b);
      InReachSet(g, b, b);
      InReachSet(g, a, b);
      assert b in ReachSet(g, a) && b !in ReachSet(g, b);
      m := SinkFrom(g, s, b);
      if m != b {
        Transitive(g, a, b, m);
      }
    }
  }
}
