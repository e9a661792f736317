/** One notion of "reachable" for the whole project: paths in a finite directed graph.
    State-machine tables, capability graphs, import graphs and foreign-key references
    are all instances of it. */
module Reachability {

  type Graph<T> = map<T, set<T>>

  /** `adj.get(n, [])`, as a set */
  function Succ<T>(g: Graph<T>, n: T): set<T> {
    if n in g then g[n] else {}
  }

  /** A dictionary of successor lists, read as a graph */
  function FromLists<T>(adj: map<T, seq<T>>): Graph<T> {
    map n | n in adj :: set x | x in adj[n]
  }

  ghost predicate Hop<T>(g: Graph<T>, p: seq<T>, i: nat)
    requires i + 1 < |p|
  {
    p[i + 1] in Succ(g, p[i])
  }

  ghost predicate IsPath<T>(g: Graph<T>, p: seq<T>) {
    |p| > 0 && forall i: nat :: i < |p| - 1 ==> Hop(g, p, i)
  }

  lemma PathTail<T>(g: Graph<T>, p: seq<T>)
    requires IsPath(g, p) && |p| > 1
    ensures IsPath(g, p[1..]) && p[1] in Succ(g, p[0])
  {
    assert Hop(g, p, 0);
    forall i: nat | i < |p[1..]| - 1
      ensures Hop(g, p[1..], i)
    {
      assert Hop(g, p, i + 1);
    }
  }

  lemma PathFront<T>(g: Graph<T>, p: seq<T>)
    requires IsPath(g, p) && |p| > 1
    ensures IsPath(g, p[..|p| - 1]) && p[|p| - 1] in Succ(g, p[|p| - 2])
  {
    assert Hop(g, p, |p| - 2);
    var q := p[..|p| - 1];
    forall i: nat | i < |q| - 1
      ensures Hop(g, q, i)
    {
      assert Hop(g, p, i);
    }
  }

  lemma PathExtend<T>(g: Graph<T>, p: seq<T>, c: T)
    requires IsPath(g, p) && c in Succ(g, p[|p| - 1])
    ensures IsPath(g, p + [c])
  {
    forall i: nat | i < |p|
      ensures Hop(g, p + [c], i)
    {
      assert i < |p| - 1 ==> Hop(g, p, i);
    }
  }

  ghost predicate PathFromTo<T>(g: Graph<T>, p: seq<T>, a: T, b: T) {
    IsPath(g, p) && p[0] == a && p[|p| - 1] == b
  }

  ghost predicate Reaches<T(!new)>(g: Graph<T>, a: T, b: T) {
    exists p :: PathFromTo(g, p, a, b)
  }

  /** Reachable through at least one edge */
  ghost predicate ReachesByEdge<T(!new)>(g: Graph<T>, a: T, b: T) {
    exists n :: n in Succ(g, a) && Reaches(g, n, b)
  }

  ghost predicate ReachedFromAny<T(!new)>(g: Graph<T>, starts: seq<T>, b: T) {
    exists a :: a in starts && Reaches(g, a, b)
  }

  ghost predicate Closed<T>(g: Graph<T>, s: set<T>) {
    forall n :: n in s ==> Succ(g, n) <= s
  }

  lemma ReachesSelf<T(!new)>(g: Graph<T>, a: T)
    ensures Reaches(g, a, a)
  {
    assert PathFromTo(g, [a], a, a);
  }

  lemma ReachesThenEdge<T(!new)>(g: Graph<T>, a: T, b: T, c: T)
    requires Reaches(g, a, b) && c in Succ(g, b)
    ensures Reaches(g, a, c)
  {
    var p :| PathFromTo(g, p, a, b);
    PathExtend(g, p, c);
    assert PathFromTo(g, p + [c], a, c);
  }

  lemma {:induction false} ReachesAlong<T(!new)>(g: Graph<T>, a: T, p: seq<T>)
    requires IsPath(g, p) && Reaches(g, a, p[0])
    ensures Reaches(g, a, p[|p| - 1])
    decreases |p|
  {
    if |p| == 1 {
    } else {
      PathFront(g, p);
      ReachesAlong(g, a, p[..|p| - 1]);
      ReachesThenEdge(g, a, p[|p| - 2], p[|p| - 1]);
    }
  }

  lemma ReachesTransitive<T(!new)>(g: Graph<T>, a: T, b: T, c: T)
    requires Reaches(g, a, b) && Reaches(g, b, c)
    ensures Reaches(g, a, c)
  {
    var p :| PathFromTo(g, p, b, c);
    ReachesAlong(g, a, p);
  }

  lemma EdgeThenReaches<T(!new)>(g: Graph<T>, a: T, b: T, c: T)
    requires b in Succ(g, a) && Reaches(g, b, c)
    ensures Reaches(g, a, c)
  {
    ReachesSelf(g, a);
    ReachesThenEdge(g, a, a, b);
    ReachesTransitive(g, a, b, c);
  }

  /** A set closed under edges can never be left: the completeness half of every search. */
  lemma {:induction false} PathStaysInClosed<T(!new)>(g: Graph<T>, s: set<T>, p: seq<T>)
    requires Closed(g, s) && IsPath(g, p) && p[0] in s
    ensures p[|p| - 1] in s
    decreases |p|
  {
    if |p| == 1 {
    } else {
      PathTail(g, p);
      PathStaysInClosed(g, s, p[1..]);
    }
  }

  lemma ClosedContainsReachable<T(!new)>(g: Graph<T>, s: set<T>, a: T, b: T)
    requires Closed(g, s) && a in s && Reaches(g, a, b)
    ensures b in s
  {
    var p :| PathFromTo(g, p, a, b);
    PathStaysInClosed(g, s, p);
  }

  /** `r` has exactly the edges of `g`, turned round */
  ghost predicate Reversed<T(!new)>(g: Graph<T>, r: Graph<T>) {
    forall a, b :: b in Succ(g, a) <==> a in Succ(r, b)
  }

  lemma {:induction false} ReversePath<T(!new)>(g: Graph<T>, r: Graph<T>, p: seq<T>)
    requires Reversed(g, r) && IsPath(g, p)
    ensures Reaches(r, p[|p| - 1], p[0])
    decreases |p|
  {
    if |p| == 1 {
      ReachesSelf(r, p[0]);
    } else {
      PathTail(g, p);
      ReversePath(g, r, p[1..]);
      ReachesThenEdge(r, p[|p| - 1], p[1], p[0]);
    }
  }

  /** Searching the reversed graph from `b` finds exactly what reaches `b`. */
  lemma ReverseReaches<T(!new)>(g: Graph<T>, r: Graph<T>, a: T, b: T)
    requires Reversed(g, r)
    ensures Reaches(g, a, b) <==> Reaches(r, b, a)
  {
    if Reaches(g, a, b) {
      var p :| PathFromTo(g, p, a, b);
      ReversePath(g, r, p);
    }
    if Reaches(r, b, a) {
      var p :| PathFromTo(r, p, b, a);
      ReversePath(r, g, p);
    }
  }

  // ---------------------------------------------------------------------------------
  // Cycles and ranks
  // ---------------------------------------------------------------------------------

  ghost predicate Acyclic<T(!new)>(g: Graph<T>) {
    forall a :: !ReachesByEdge(g, a, a)
  }

  function Nodes<T>(g: Graph<T>): set<T> {
    g.Keys + set a, b | a in g && b in g[a] :: b
  }

  /** The nodes beyond `a` */
  ghost function Beyond<T(!new)>(g: Graph<T>, a: T): set<T> {
    set b | b in Nodes(g) && ReachesByEdge(g, a, b)
  }

  lemma EdgeShrinksBeyond<T(!new)>(g: Graph<T>, a: T, b: T)
    requires Acyclic(g) && b in Succ(g, a)
    ensures Beyond(g, b) < Beyond(g, a)
  {
    ReachesSelf(g, b);
    assert b in Nodes(g) && ReachesByEdge(g, a, b);
    forall c | c in Beyond(g, b)
      ensures c in Beyond(g, a)
    {
      var n :| n in Succ(g, b) && Reaches(g, n, c);
      EdgeThenReaches(g, b, n, c);
    }
    assert b !in Beyond(g, b);
  }

  lemma {:induction false} SmallerSet<T>(a: set<T>, b: set<T>)
    requires a < b
    ensures |a| < |b|
    decreases a
  {
    if a == {} {
    } else {
      var x :| x in a;
      SmallerSet(a - {x}, b - {x});
    }
  }

  lemma {:induction false} SubsetSize<T>(a: set<T>, b: set<T>)
    requires a <= b
    ensures |a| <= |b|
  {
    if a != b {
      SmallerSet(a, b);
    }
  }

  /** In a graph without cycles the number of nodes beyond falls along every edge. */
  lemma BeyondRanks<T(!new)>(g: Graph<T>, a: T, b: T)
    requires Acyclic(g) && b in Succ(g, a)
    ensures |Beyond(g, b)| < |Beyond(g, a)| <= |Nodes(g)|
  {
    EdgeShrinksBeyond(g, a, b);
    SmallerSet(Beyond(g, b), Beyond(g, a));
    SubsetSize(Beyond(g, a), Nodes(g));
  }

  lemma {:induction false} RankFalls<T(!new)>(g: Graph<T>, rank: T -> nat, p: seq<T>)
    requires IsPath(g, p) && forall a, b :: b in Succ(g, a) ==> rank(b) < rank(a)
    ensures rank(p[|p| - 1]) <= rank(p[0])
    decreases |p|
  {
    if |p| == 1 {
    } else {
      PathTail(g, p);
      RankFalls(g, rank, p[1..]);
    }
  }

  lemma RankedIsAcyclic<T(!new)>(g: Graph<T>, rank: T -> nat)
    requires forall a, b :: b in Succ(g, a) ==> rank(b) < rank(a)
    ensures Acyclic(g)
  {
    forall a
      ensures !ReachesByEdge(g, a, a)
    {
      if ReachesByEdge(g, a, a) {
        var n :| n in Succ(g, a) && Reaches(g, n, a);
        var p :| PathFromTo(g, p, n, a);
        RankFalls(g, rank, p);
      }
    }
  }

  /** `n` lies on a cycle through `a`. */
  ghost predicate OnCycle<T(!new)>(g: Graph<T>, a: T, n: T) {
    Reaches(g, a, n) && Reaches(g, n, a)
  }

  /** From a node on a cycle an edge leads on along it. */
  lemma CycleGoesOn<T(!new)>(g: Graph<T>, a: T, n: T) returns (next: T)
    requires ReachesByEdge(g, a, a) && OnCycle(g, a, n)
    ensures next in Succ(g, n) && OnCycle(g, a, next)
  {
    if n == a {
      next :| next in Succ(g, a) && Reaches(g, next, a);
    } else {
      var p :| PathFromTo(g, p, n, a);
      PathTail(g, p);
      next := p[1];
      assert PathFromTo(g, p[1..], next, a);
    }
    ReachesThenEdge(g, a, n, next);
  }
}
