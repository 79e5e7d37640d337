/** Operations of the insertion-ordered sets (`LinkedHashSet`, `OrdSet` iteration) on plain sequences. */
module LinkedSets {
  import opened Types

  ghost predicate Distinct<T>(s: seq<T>) {
    forall i, j :: 0 <= i < j < |s| ==> s[i] != s[j]
  }

  function Elements<T(==)>(s: seq<T>): set<T> {
    set x | x in s
  }

  /** `s` with every occurrence of `x` taken out, the order of the rest unchanged. */
  function Without<T(==,!new)>(s: seq<T>, x: T): (r: seq<T>)
    ensures forall y :: y in r <==> y in s && y != x
    ensures x !in s ==> r == s
    ensures |r| <= |s|
  {
    if s == [] then [] else
    if s[|s| - 1] == x then Without(s[..|s| - 1], x)
    else
      var front := Without(s[..|s| - 1], x);
      assert s == s[..|s| - 1] + [s[|s| - 1]];
      front + [s[|s| - 1]]
  }

  lemma {:induction false} WithoutDistinct<T(!new)>(s: seq<T>, x: T)
    requires Distinct(s)
    ensures Distinct(Without(s, x))
  {
    if s != [] {
      WithoutDistinct(s[..|s| - 1], x);
      if s[|s| - 1] != x {
        assert s[|s| - 1] !in s[..|s| - 1];
      }
    }
  }

  /** `LinkedHashSet::insert`: an element already present moves to the back. */
  function InsertBack<T(==,!new)>(s: seq<T>, x: T): (r: seq<T>)
    ensures forall y :: y in r <==> y in s || y == x
  {
    Without(s, x) + [x]
  }

  lemma InsertBackDistinct<T(!new)>(s: seq<T>, x: T)
    requires Distinct(s)
    ensures Distinct(InsertBack(s, x))
  {
    WithoutDistinct(s, x);
  }

  /** `LinkedHashSet::replace`: an element already present keeps its place. */
  function Replace<T(==,!new)>(s: seq<T>, x: T): (r: seq<T>)
    ensures forall y :: y in r <==> y in s || y == x
    ensures Distinct(s) ==> Distinct(r)
  {
    if x in s then s else s + [x]
  }

  /** `LinkedHashSet::replace` followed by `to_front`. */
  function ReplaceToFront<T(==,!new)>(s: seq<T>, x: T): (r: seq<T>)
    ensures forall y :: y in r <==> y in s || y == x
  {
    [x] + Without(s, x)
  }

  lemma ReplaceToFrontDistinct<T(!new)>(s: seq<T>, x: T)
    requires Distinct(s)
    ensures Distinct(ReplaceToFront(s, x))
  {
    WithoutDistinct(s, x);
  }

  /** `LinkedHashSet::extend`: each element in turn is inserted at the back. */
  function Extend<T(==,!new)>(s: seq<T>, xs: seq<T>): (r: seq<T>)
    ensures forall y :: y in r <==> y in s || y in xs
    decreases |xs|
  {
    if xs == [] then s else
    assert xs == [xs[0]] + xs[1..];
    Extend(InsertBack(s, xs[0]), xs[1..])
  }

  lemma {:induction false} ExtendDistinct<T(!new)>(s: seq<T>, xs: seq<T>)
    requires Distinct(s)
    ensures Distinct(Extend(s, xs))
    decreases |xs|
  {
    if xs != [] {
      InsertBackDistinct(s, xs[0]);
      ExtendDistinct(InsertBack(s, xs[0]), xs[1..]);
    }
  }

  ghost predicate IsLeast(s: set<Txid>, m: Txid) {
    m in s && forall y :: y in s ==> m <= y
  }

  lemma {:induction false} FindLeast(s: set<Txid>) returns (m: Txid)
    requires s != {}
    ensures IsLeast(s, m)
    decreases |s|
  {
    var x :| x in s;
    var rest := s - {x};
    m := x;
    if rest != {} {
      var least := FindLeast(rest);
      m := if x < least then x else least;
    }
    forall y | y in s ensures m <= y {
      assert y == x || y in rest;
    }
  }

  ghost predicate Sorted(s: seq<Txid>) {
    forall i, j :: 0 <= i < j < |s| ==> s[i] < s[j]
  }

  function Least(s: set<Txid>): (m: Txid)
    requires s != {}
    ensures m in s && forall y :: y in s ==> m <= y
  {
    assert exists m :: IsLeast(s, m) by { var m := FindLeast(s); }
    var m :| m in s && forall y :: y in s ==> m <= y;
    m
  }

  /** The members of a set in ascending order, the order in which an `OrdSet` is iterated. */
  function Ascending(s: set<Txid>): (r: seq<Txid>)
    ensures forall y :: y in r <==> y in s
    ensures Sorted(r) && |r| == |s|
    decreases |s|
  {
    if s == {} then [] else
    var m := Least(s);
    assert m !in s - {m};
    [m] + Ascending(s - {m})
  }

  lemma AscendingFacts(s: set<Txid>)
    ensures Distinct(Ascending(s)) && Elements(Ascending(s)) == s
    ensures forall y :: y in Ascending(s) <==> y in s
  {
  }

  /** The first `i` elements, as a set. */
  ghost function Prefix(s: seq<Txid>, i: nat): set<Txid>
    requires i <= |s|
  {
    Elements(s[..i])
  }

  lemma PrefixStep(s: seq<Txid>, i: nat)
    requires i < |s| && Distinct(s)
    ensures Prefix(s, i + 1) == Prefix(s, i) + {s[i]}
    ensures s[i] !in Prefix(s, i)
  {
    assert s[..i + 1] == s[..i] + [s[i]];
  }

  lemma PrefixAll(s: seq<Txid>, all: set<Txid>)
    requires forall x :: x in s <==> x in all
    ensures Prefix(s, |s|) == all
  {
    assert s[..|s|] == s;
  }

  lemma PrefixNone(s: seq<Txid>)
    ensures Prefix(s, 0) == {}
  {
  }

  /** Position of an element, as `IndexSet::get_index_of` finds it. */
  method IndexOf(s: seq<Txid>, x: Txid) returns (index: Option<nat>)
    ensures index.Some? ==> index.value < |s| && s[index.value] == x
    ensures index.None? ==> x !in s
  {
    for i := 0 to |s|
      invariant forall k :: 0 <= k < i ==> s[k] != x
    {
      if s[i] == x {
        return Some(i);
      }
    }
    return None;
  }
}
