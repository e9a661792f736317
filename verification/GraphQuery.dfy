/** Questions about the capability graph (tools/graph_query.py): what depends on what, by which path,
    and whether a capability can go. */
module GraphQuery {
  import opened Reachability
  import opened Wrappers
  import opened Capabilities
  import opened Sorting

  type Adjacency = map<string, seq<string>>

  /** `adj.get(n, [])` */
  function Out(adj: Adjacency, n: string): seq<string> {
    if n in adj then adj[n] else []
  }

  function Names(adj: Adjacency): set<string> {
    adj.Keys + set n, x | n in adj && x in adj[n] :: x
  }

  lemma OutIsSucc(adj: Adjacency, n: string, x: string)
    ensures x in Succ(FromLists(adj), n) <==> x in Out(adj, n)
    ensures x in Out(adj, n) ==> x in Names(adj)
  {
  }

  /** The edges out of a name that is defined: a meta declaration replaces a concrete one */
  function EdgesFrom(g: CapGraph, n: string): seq<string>
    requires n in Defined(g)
  {
    if n in g.meta then g.meta[n] else g.concrete[n].needs
  }

  /** What edges() builds */
  ghost predicate IsEdges(g: CapGraph, e: Adjacency) {
    e.Keys == Defined(g) && forall c :: c in e ==> e[c] == EdgesFrom(g, c)
  }

  /** edges(): concrete first, then meta over it */
  method Edges(g: CapGraph) returns (e: Adjacency)
    ensures IsEdges(g, e)
  {
    e := map[];
    var left := g.concrete.Keys;
    while left != {}
      invariant left <= g.concrete.Keys && e.Keys == g.concrete.Keys - left
      invariant forall c :: c in e ==> e[c] == g.concrete[c].needs
      decreases left
    {
      var c :| c in left;
      left := left - {c};
      e := e[c := g.concrete[c].needs];
    }
    left := g.meta.Keys;
    while left != {}
      invariant left <= g.meta.Keys && e.Keys == g.concrete.Keys + (g.meta.Keys - left)
      invariant forall c :: c in e ==> e[c] == if c in g.meta && c !in left then g.meta[c] else g.concrete[c].needs
      decreases left
    {
      var m :| m in left;
      left := left - {m};
      e := e[m := g.meta[m]];
    }
  }

  /** reverse(): exactly the same edges, turned round */
  method Reverse(e: Adjacency) returns (r: Adjacency)
    ensures Reversed(FromLists(e), FromLists(r))
    ensures e.Keys <= r.Keys
  {
    r := map k | k in e :: [];
    var left := e.Keys;
    while left != {}
      invariant left <= e.Keys && e.Keys <= r.Keys
      invariant forall a, d :: a in Out(r, d) <==> a in e && a !in left && d in e[a]
      decreases left
    {
      var src :| src in left;
      var deps := e[src];
      ghost var r0 := r;
      for i := 0 to |deps|
        invariant e.Keys <= r.Keys
        invariant forall a, d :: a in Out(r, d) <==> a in Out(r0, d) || (a == src && d in deps[..i])
      {
        var d := deps[i];
        ghost var r1 := r;
        r := r[d := Out(r, d) + [src]];
        assert deps[..i + 1] == deps[..i] + [d];
        assert forall x :: Out(r, x) == if x == d then Out(r1, d) + [src] else Out(r1, x);
      }
      assert deps[..|deps|] == deps;
      left := left - {src};
    }
    forall a, b
      ensures b in Succ(FromLists(e), a) <==> a in Succ(FromLists(r), b)
    {
      OutIsSucc(e, a, b);
      OutIsSucc(r, b, a);
    }
  }

  // ---------------------------------------------------------------------------------
  // closure
  // ---------------------------------------------------------------------------------

  /** What has been seen or stacked is reachable; what a seen name leads to is seen or stacked. */
  ghost predicate Searching(adj: Adjacency, start: string, seen: set<string>, stack: seq<string>) {
    && (forall n :: n in seen || n in stack ==> ReachesByEdge(FromLists(adj), start, n) && n in Names(adj))
    && (forall n :: n in Out(adj, start) ==> n in seen || n in stack)
    && (forall n, x :: n in seen && x in Out(adj, n) ==> x in seen || x in stack)
  }

  lemma SearchStarts(adj: Adjacency, start: string)
    ensures Searching(adj, start, {}, Out(adj, start))
  {
    forall n | n in Out(adj, start)
      ensures ReachesByEdge(FromLists(adj), start, n) && n in Names(adj)
    {
      ReachesSelf(FromLists(adj), n);
      OutIsSucc(adj, start, n);
    }
  }

  lemma SearchSteps(adj: Adjacency, start: string, seen: set<string>, stack: seq<string>)
    requires Searching(adj, start, seen, stack) && stack != []
    ensures var n, rest := stack[|stack| - 1], stack[..|stack| - 1];
      && n in Names(adj)
      && (if n in seen then Searching(adj, start, seen, rest)
          else Searching(adj, start, seen + {n}, rest + Out(adj, n)))
  {
    var n, rest := stack[|stack| - 1], stack[..|stack| - 1];
    assert n in stack && forall x :: x in stack <==> x in rest || x == n;
    forall x | x in Out(adj, n)
      ensures ReachesByEdge(FromLists(adj), start, x) && x in Names(adj)
    {
      OutIsSucc(adj, n, x);
      var s :| s in Succ(FromLists(adj), start) && Reaches(FromLists(adj), s, n);
      ReachesThenEdge(FromLists(adj), s, n, x);
    }
  }

  lemma SearchEnds(adj: Adjacency, start: string, seen: set<string>)
    requires Searching(adj, start, seen, [])
    ensures forall n :: n in seen <==> ReachesByEdge(FromLists(adj), start, n)
  {
    var g := FromLists(adj);
    forall a | a in seen
      ensures Succ(g, a) <= seen
    {
      forall x | x in Succ(g, a)
        ensures x in seen
      {
        OutIsSucc(adj, a, x);
      }
    }
    forall n | ReachesByEdge(g, start, n)
      ensures n in seen
    {
      var s :| s in Succ(g, start) && Reaches(g, s, n);
      OutIsSucc(adj, start, s);
      ClosedContainsReachable(g, seen, s, n);
    }
  }

  /** The list of the names in `seen`, each once */
  ghost predicate Lists(out: seq<string>, seen: set<string>) {
    NoRepeats(out) && forall n :: n in out <==> n in seen
  }

  lemma ListsOneMore(out: seq<string>, seen: set<string>, n: string)
    requires Lists(out, seen) && n !in seen
    ensures Lists(out + [n], seen + {n})
  {
  }

  /** closure(): the stack search. Exactly what is reachable by at least one edge, in ascending order. */
  method Closure(start: string, adj: Adjacency) returns (out: seq<string>)
    ensures Ascending(out)
    ensures forall n :: n in out <==> ReachesByEdge(FromLists(adj), start, n)
  {
    var seen: set<string> := {};
    out := [];
    var stack := Out(adj, start);
    SearchStarts(adj, start);
    ghost var all := Names(adj);
    while stack != []
      invariant Lists(out, seen) && Searching(adj, start, seen, stack)
      decreases all - seen, |stack|
    {
      SearchSteps(adj, start, seen, stack);
      var n := stack[|stack| - 1];
      stack := stack[..|stack| - 1];
      if n !in seen {
        ListsOneMore(out, seen, n);
        seen := seen + {n};
        out := out + [n];
        stack := stack + Out(adj, n);
      }
    }
    SearchEnds(adj, start, seen);
    SortedAscends(out);
    out := Sorted(out);
  }

  // ---------------------------------------------------------------------------------
  // find_path
  // ---------------------------------------------------------------------------------

  function Last(p: seq<string>): string
    requires p != []
  {
    p[|p| - 1]
  }

  /** `dist` gives, for each seen node, the number of edges of the path it was queued with. */
  ghost predicate GoodPath(adj: Adjacency, src: string, dist: map<string, nat>, p: seq<string>) {
    && p != [] && p[0] == src && IsPath(FromLists(adj), p)
    && Last(p) in dist && dist[Last(p)] == |p| - 1
  }

  /** The queue holds one layer of the search, then the next. */
  ghost predicate Layers(q: seq<seq<string>>) {
    forall i, j :: 0 <= i < j < |q| ==> |q[i]| <= |q[j]| <= |q[i]| + 1
  }

  ghost predicate Layered(adj: Adjacency, src: string, q: seq<seq<string>>, dist: map<string, nat>) {
    && src in dist && dist[src] == 0 && dist.Keys <= Names(adj) + {src}
    && Layers(q) && (forall i :: 0 <= i < |q| ==> GoodPath(adj, src, dist, q[i]))
    && (q != [] ==> forall n :: n in dist ==> dist[n] <= |q[0]|)
  }

  /** A successor of `n` has been seen, one layer on at most. */
  ghost predicate Near(dist: map<string, nat>, n: string, x: string) {
    n in dist && x in dist && dist[x] <= dist[n] + 1
  }

  /** `n` has been dealt with and was not `dst`, or waits in the queue. */
  ghost predicate Handled(adj: Adjacency, dst: string, q: seq<seq<string>>, dist: map<string, nat>, n: string) {
    (n != dst && forall x :: x in Out(adj, n) ==> Near(dist, n, x)) || Waiting(q, n)
  }

  ghost predicate Waiting(q: seq<seq<string>>, n: string) {
    exists i :: 0 <= i < |q| && q[i] != [] && Last(q[i]) == n
  }

  ghost predicate AllHandled(adj: Adjacency, dst: string, q: seq<seq<string>>, dist: map<string, nat>) {
    forall n :: n in dist ==> Handled(adj, dst, q, dist, n)
  }

  /** A path no longer than the current layer ends in a seen node, at its true distance or less. */
  lemma {:induction false} SeenWithinLayer(adj: Adjacency, src: string, dst: string, q: seq<seq<string>>,
                                           dist: map<string, nat>, p: seq<string>)
    requires Layered(adj, src, q, dist) && AllHandled(adj, dst, q, dist)
    requires IsPath(FromLists(adj), p) && p[0] == src && (q == [] || |p| <= |q[0]|)
    ensures Last(p) in dist && dist[Last(p)] <= |p| - 1
    decreases |p|
  {
    if |p| == 1 {
    } else {
      PathFront(FromLists(adj), p);
      SeenWithinLayer(adj, src, dst, q, dist, p[..|p| - 1]);
      var n := p[|p| - 2];
      OutIsSucc(adj, n, Last(p));
      assert Handled(adj, dst, q, dist, n);
      assert !Waiting(q, n) by {
        forall i | 0 <= i < |q| && q[i] != []
          ensures Last(q[i]) != n
        {
          assert GoodPath(adj, src, dist, q[i]) && |q[0]| <= |q[i]|;
        }
      }
    }
  }

  /** Everything seen is handled but the node just taken from the queue, whose successors `left` are still
      to be looked at. */
  ghost predicate Expanding(adj: Adjacency, dst: string, q: seq<seq<string>>, dist: map<string, nat>, n: string,
                            left: seq<string>)
  {
    && (forall m :: m in dist && m != n ==> Handled(adj, dst, q, dist, m))
    && (forall x :: x in Out(adj, n) && x !in left ==> Near(dist, n, x))
  }

  /** The head of the queue is taken out. */
  lemma TakeHead(adj: Adjacency, src: string, dst: string, q: seq<seq<string>>, dist: map<string, nat>)
    requires q != [] && Layered(adj, src, q, dist) && AllHandled(adj, dst, q, dist)
    ensures GoodPath(adj, src, dist, q[0])
    ensures Expanding(adj, dst, q[1..], dist, Last(q[0]), Out(adj, Last(q[0])))
  {
    assert GoodPath(adj, src, dist, q[0]);
    forall m | m in dist && m != Last(q[0])
      ensures Handled(adj, dst, q[1..], dist, m)
    {
      assert Handled(adj, dst, q, dist, m);
      if i :| 0 <= i < |q| && q[i] != [] && Last(q[i]) == m {
        assert q[1..][i - 1] == q[i];
      }
    }
  }

  /** A successor is looked at and, if new, queued. */
  lemma QueueOne(adj: Adjacency, src: string, dst: string, path: seq<string>, q: seq<seq<string>>,
                 dist: map<string, nat>, nxt: string)
    requires Layered(adj, src, [path] + q, dist) && nxt in Out(adj, Last(path)) && nxt !in dist
    ensures var q', dist' := q + [path + [nxt]], dist[nxt := |path|];
      && Layered(adj, src, [path] + q', dist')
      && (forall m :: m in dist && Handled(adj, dst, q, dist, m) ==> Handled(adj, dst, q', dist', m))
      && Handled(adj, dst, q', dist', nxt)
  {
    var all, p := [path] + q, path + [nxt];
    var q', dist' := q + [p], dist[nxt := |path|];
    var all' := [path] + q';
    assert all' == all + [p];
    assert GoodPath(adj, src, dist, all[0]);
    OutIsSucc(adj, Last(path), nxt);
    PathExtend(FromLists(adj), path, nxt);
    forall i | 0 <= i < |all'|
      ensures GoodPath(adj, src, dist', all'[i])
    {
      if i < |all| {
        assert GoodPath(adj, src, dist, all[i]);
      }
    }
    forall i, j | 0 <= i < j < |all'|
      ensures |all'[i]| <= |all'[j]| <= |all'[i]| + 1
    {
      assert i > 0 ==> |all[0]| <= |all[i]| <= |all[0]| + 1;
    }
    assert q'[|q|] == p && Last(p) == nxt;
    assert Waiting(q', nxt);
    forall m | m in dist && Handled(adj, dst, q, dist, m)
      ensures Handled(adj, dst, q', dist', m)
    {
      if i :| 0 <= i < |q| && q[i] != [] && Last(q[i]) == m {
        assert q'[i] == q[i];
      } else {
        assert forall x :: x in Out(adj, m) ==> Near(dist, m, x);
      }
    }
  }

  lemma ExpandOne(adj: Adjacency, src: string, dst: string, path: seq<string>, q: seq<seq<string>>,
                  dist: map<string, nat>, left: seq<string>)
    requires left != [] && Layered(adj, src, [path] + q, dist) && Expanding(adj, dst, q, dist, Last(path), left)
    requires left[0] in Out(adj, Last(path))
    ensures var nxt := left[0];
            var q' := if nxt in dist then q else q + [path + [nxt]];
            var dist' := if nxt in dist then dist else dist[nxt := |path|];
            Layered(adj, src, [path] + q', dist') && Expanding(adj, dst, q', dist', Last(path), left[1..])
  {
    var nxt := left[0];
    assert forall x :: x in left ==> x == nxt || x in left[1..];
    assert GoodPath(adj, src, dist, ([path] + q)[0]);
    if nxt !in dist {
      QueueOne(adj, src, dst, path, q, dist, nxt);
    }
  }

  lemma FinishHead(adj: Adjacency, src: string, dst: string, path: seq<string>, q: seq<seq<string>>,
                   dist: map<string, nat>)
    requires Layered(adj, src, [path] + q, dist) && Expanding(adj, dst, q, dist, Last(path), [])
    requires Last(path) != dst
    ensures Layered(adj, src, q, dist) && AllHandled(adj, dst, q, dist)
  {
    var all := [path] + q;
    assert q != [] ==> all[1] == q[0] && |all[0]| <= |all[1]|;
    forall i | 0 <= i < |q|
      ensures GoodPath(adj, src, dist, q[i])
    {
      assert GoodPath(adj, src, dist, all[i + 1]);
    }
    forall i, j | 0 <= i < j < |q|
      ensures |q[i]| <= |q[j]| <= |q[i]| + 1
    {
      assert all[i + 1] == q[i] && all[j + 1] == q[j];
    }
  }

  lemma OnlySource(adj: Adjacency, src: string, dst: string)
    ensures Layered(adj, src, [[src]], map[src := 0]) && AllHandled(adj, dst, [[src]], map[src := 0])
  {
    var q: seq<seq<string>> := [[src]];
    assert q[0] != [] && Last(q[0]) == src;
    assert Waiting(q, src);
  }

  lemma HeadIsShortest(adj: Adjacency, src: string, dst: string, q: seq<seq<string>>, dist: map<string, nat>)
    requires q != [] && Layered(adj, src, q, dist) && AllHandled(adj, dst, q, dist)
    requires GoodPath(adj, src, dist, q[0]) && Last(q[0]) == dst
    ensures PathFromTo(FromLists(adj), q[0], src, dst) && Reaches(FromLists(adj), src, dst)
    ensures forall p :: PathFromTo(FromLists(adj), p, src, dst) ==> |q[0]| <= |p|
  {
    assert PathFromTo(FromLists(adj), q[0], src, dst);
    forall p | PathFromTo(FromLists(adj), p, src, dst)
      ensures |q[0]| <= |p|
    {
      if |p| < |q[0]| {
        SeenWithinLayer(adj, src, dst, q, dist, p);
      }
    }
  }

  lemma NoneLeft(adj: Adjacency, src: string, dst: string, dist: map<string, nat>)
    requires Layered(adj, src, [], dist) && AllHandled(adj, dst, [], dist)
    ensures !Reaches(FromLists(adj), src, dst)
  {
    if Reaches(FromLists(adj), src, dst) {
      var p :| PathFromTo(FromLists(adj), p, src, dst);
      SeenWithinLayer(adj, src, dst, [], dist, p);
    }
  }

  /** The inner loop of find_path(): queue every successor of the node just taken that is new. */
  method Expand(src: string, dst: string, adj: Adjacency, path: seq<string>, rest: seq<seq<string>>, known: set<string>,
                ghost dist0: map<string, nat>)
    returns (q: seq<seq<string>>, seen: set<string>, ghost dist: map<string, nat>)
    requires known == dist0.Keys && Layered(adj, src, [path] + rest, dist0) && path != [] && Last(path) != dst
    requires Expanding(adj, dst, rest, dist0, Last(path), Out(adj, Last(path)))
    ensures seen == dist.Keys && Layered(adj, src, q, dist) && AllHandled(adj, dst, q, dist)
    ensures known <= seen && (seen == known ==> |q| == |rest|)
  {
    q, seen, dist := rest, known, dist0;
    var nexts := Out(adj, Last(path));
    for i := 0 to |nexts|
      invariant seen == dist.Keys
      invariant Layered(adj, src, [path] + q, dist) && Expanding(adj, dst, q, dist, Last(path), nexts[i..])
      invariant known <= seen && (seen == known ==> |q| == |rest|)
    {
      ExpandOne(adj, src, dst, path, q, dist, nexts[i..]);
      assert nexts[i..][1..] == nexts[i + 1..];
      if nexts[i] !in seen {
        seen := seen + {nexts[i]};
        q := q + [path + [nexts[i]]];
        dist := dist[nexts[i] := |path|];
      }
    }
    FinishHead(adj, src, dst, path, q, dist);
  }

  /** find_path(): a shortest path along real edges, or None exactly when there is none. */
  method FindPath(src: string, dst: string, adj: Adjacency) returns (r: Option<seq<string>>)
    ensures r.Some? ==> PathFromTo(FromLists(adj), r.value, src, dst)
    ensures r.Some? ==> forall p :: PathFromTo(FromLists(adj), p, src, dst) ==> |r.value| <= |p|
    ensures r.None? <==> !Reaches(FromLists(adj), src, dst)
  {
    var q := [[src]];
    var seen := {src};
    ghost var dist: map<string, nat> := map[src := 0];
    ghost var all := Names(adj) + {src};
    OnlySource(adj, src, dst);
    while q != []
      invariant seen == dist.Keys
      invariant Layered(adj, src, q, dist) && AllHandled(adj, dst, q, dist)
      decreases all - seen, |q|
    {
      TakeHead(adj, src, dst, q, dist);
      var path := q[0];
      if path[|path| - 1] == dst {
        HeadIsShortest(adj, src, dst, q, dist);
        return Some(path);
      }
      assert q == [path] + q[1..];
      q, seen, dist := Expand(src, dst, adj, path, q[1..], seen, dist);
    }
    NoneLeft(adj, src, dst, dist);
    r := None;
  }

  // ---------------------------------------------------------------------------------
  // patterns_using: the forward resolver against the backward search
  // ---------------------------------------------------------------------------------

  /** A resolved part or an expanded subsystem of the pattern */
  predicate UsedBy(g: CapGraph, cap: string, needs: seq<string>) {
    cap in PartCaps(Resolve(g, needs)) || cap in Resolve(g, needs).subsystems
  }

  /** A shipped pattern, with the requirements load_pattern gives it */
  datatype Pattern = Pattern(name: string, needs: seq<string>)

  /** The names of the patterns that use it, in order */
  function Users(cap: string, g: CapGraph, patterns: seq<Pattern>): seq<string> {
    if patterns == [] then []
    else
      var last := patterns[|patterns| - 1];
      Users(cap, g, patterns[..|patterns| - 1]) + (if UsedBy(g, cap, last.needs) then [last.name] else [])
  }

  method PatternsUsing(cap: string, g: CapGraph, patterns: seq<Pattern>) returns (hits: seq<string>)
    ensures hits == Users(cap, g, patterns)
    ensures forall n :: n in hits <==> exists p :: p in patterns && p.name == n && UsedBy(g, cap, p.needs)
  {
    hits := [];
    for i := 0 to |patterns|
      invariant hits == Users(cap, g, patterns[..i])
      invariant forall n :: n in hits <==> exists p :: p in patterns[..i] && p.name == n && UsedBy(g, cap, p.needs)
    {
      var resolver := new Resolver(g);
      resolver.ResolveCapabilities(patterns[i].needs);
      assert resolver.State() == Resolve(g, patterns[i].needs);
      var partCaps := set p | p in resolver.parts :: resolver.parts[p].capability;
      assert patterns[..i + 1] == patterns[..i] + [patterns[i]] && patterns[..i + 1][..i] == patterns[..i];
      if cap in partCaps || cap in resolver.subsystems {
        hits := hits + [patterns[i].name];
      }
    }
    assert patterns[..|patterns|] == patterns;
  }

  ghost predicate Disjoint(g: CapGraph) {
    g.concrete.Keys !! g.meta.Keys
  }

  lemma EdgesAreNeeds(g: CapGraph, e: Adjacency)
    requires Disjoint(g) && IsEdges(g, e)
    ensures FromLists(e) == NeedsGraph(g)
  {
    forall n | n in e
      ensures e[n] == Needs(g, n)
    {
    }
  }

  lemma SelfOrByEdge(g: Graph<string>, a: string, b: string)
    ensures Reaches(g, a, b) <==> a == b || ReachesByEdge(g, a, b)
  {
    ReachesSelf(g, a);
    if ReachesByEdge(g, a, b) {
      var n :| n in Succ(g, a) && Reaches(g, n, b);
      EdgeThenReaches(g, a, n, b);
    }
    if Reaches(g, a, b) && a != b {
      var p :| PathFromTo(g, p, a, b);
      PathTail(g, p);
      assert PathFromTo(g, p[1..], p[1], b);
    }
  }

  lemma UsedIsVisited(g: CapGraph, r: Resolution, cap: string)
    requires Disjoint(g) && OwnPart(g, cap) && cap in Defined(g) && Filed(g, r)
    ensures cap in PartCaps(r) || cap in r.subsystems <==> cap in r.visited
  {
    if cap in r.visited && cap in g.concrete {
      assert r.parts[g.concrete[cap].part].capability == cap;
    }
  }

  /** No other concrete capability is the same part file: the resolver files parts by import path. */
  ghost predicate OwnPart(g: CapGraph, cap: string) {
    cap in g.concrete ==> forall n :: n in g.concrete && g.concrete[n].part == g.concrete[cap].part ==> n == cap
  }

  /** Forward and backward agree: a pattern uses a capability exactly when it asks for it, or for something the
      reversed search finds to depend on it. */
  lemma UseIsBackwardReach(g: CapGraph, e: Adjacency, r: Adjacency, cap: string, needs: seq<string>)
    requires Disjoint(g) && OwnPart(g, cap) && cap in Defined(g)
    requires IsEdges(g, e) && Reversed(FromLists(e), FromLists(r))
    ensures UsedBy(g, cap, needs) <==>
            exists w :: w in needs && (w == cap || ReachesByEdge(FromLists(r), cap, w))
  {
    ResolutionIsReachability(g, needs);
    EdgesAreNeeds(g, e);
    UsedIsVisited(g, Resolve(g, needs), cap);
    forall w
      ensures Reaches(NeedsGraph(g), w, cap) <==> w == cap || ReachesByEdge(FromLists(r), cap, w)
    {
      ReverseReaches(FromLists(e), FromLists(r), w, cap);
      SelfOrByEdge(FromLists(r), cap, w);
    }
  }

  // ---------------------------------------------------------------------------------
  // safe-remove
  // ---------------------------------------------------------------------------------

  /** The `safe-remove` verdict: no dependents and no pattern, which is to say no edge into it and no pattern */
  method SafeToRemove(cap: string, g: CapGraph, patterns: seq<Pattern>) returns (safe: bool)
    ensures safe <==>
      && (forall n :: n in Defined(g) ==> cap !in EdgesFrom(g, n))
      && (forall p :: p in patterns ==> !UsedBy(g, cap, p.needs))
  {
    var e := Edges(g);
    var r := Reverse(e);
    var deps := Closure(cap, r);
    var pats := PatternsUsing(cap, g, patterns);
    safe := deps == [] && pats == [];
    FirstIsMember(deps);
    FirstIsMember(pats);
    forall n | n in Defined(g) && cap in EdgesFrom(g, n)
      ensures deps != []
    {
      OutIsSucc(e, n, cap);
      ReachesSelf(FromLists(r), n);
      assert n in deps;
    }
    if deps != [] {
      ghost var n :| n in Succ(FromLists(r), cap) && Reaches(FromLists(r), n, deps[0]);
      assert cap in Succ(FromLists(e), n);
    }
    forall p | p in patterns && UsedBy(g, cap, p.needs)
      ensures pats != []
    {
      assert p.name in pats;
    }
  }

  function Without(g: CapGraph, cap: string): CapGraph {
    CapGraph(g.concrete - {cap}, g.meta - {cap})
  }

  ghost predicate NobodyElseNeeds(g: CapGraph, cap: string) {
    forall n :: n != cap ==> cap !in Needs(g, n)
  }

  lemma {:induction false} WalkOneWithout(g: CapGraph, cap: string, r: Resolution, c: string)
    requires NobodyElseNeeds(g, cap) && cap !in r.visited && c != cap
    ensures WalkOne(Without(g, cap), r, c) == WalkOne(g, r, c) && cap !in WalkOne(g, r, c).visited
    decreases Left(g, r.visited), 0
  {
    if c in r.visited {
    } else {
      Shrinks(g, r, c);
      assert Needs(Without(g, cap), c) == Needs(g, c) && Visit(Without(g, cap), r, c) == Visit(g, r, c);
      if c in Defined(g) {
        WalkAllWithout(g, cap, Visit(g, r, c), Needs(g, c));
      }
    }
  }

  lemma {:induction false} WalkAllWithout(g: CapGraph, cap: string, r: Resolution, caps: seq<string>)
    requires NobodyElseNeeds(g, cap) && cap !in r.visited && cap !in caps
    ensures WalkAll(Without(g, cap), r, caps) == WalkAll(g, r, caps) && cap !in WalkAll(g, r, caps).visited
    decreases Left(g, r.visited), 1, |caps|
  {
    if caps == [] {
    } else {
      var before := WalkAll(g, r, caps[..|caps| - 1]);
      WalkAllWithout(g, cap, r, caps[..|caps| - 1]);
      FewerLeft(g, before.visited, r.visited);
      WalkOneWithout(g, cap, before, caps[|caps| - 1]);
    }
  }

  ghost predicate SameWithout(g: CapGraph, cap: string, wanted: seq<string>) {
    cap in wanted || Resolve(Without(g, cap), wanted) == Resolve(g, wanted)
  }

  lemma NeederIsHurt(g: CapGraph, cap: string, n: string)
    requires cap in Defined(g) && n != cap && cap in Needs(g, n)
    ensures !SameWithout(g, cap, [n])
  {
    var h := Without(g, cap);
    assert Needs(h, n) == Needs(g, n);
    NeedsIsSucc(h, n, cap);
    ReachesSelf(NeedsGraph(h), cap);
    EdgeThenReaches(NeedsGraph(h), n, cap, cap);
    assert n in [n];
    VisitedIsReachable(h, [n], cap);
    WalkFiles(h, NOTHING, [n]);
    WalkFiles(g, NOTHING, [n]);
    assert cap in Resolve(h, [n]).unknown && cap !in Resolve(g, [n]).unknown;
  }

  /** Removing a capability changes the resolution of no wanted list that does not name it, in no part, order or
      unknown name, exactly when the reversed search from it finds nothing but itself. */
  lemma RemovalIsHarmless(g: CapGraph, e: Adjacency, r: Adjacency, cap: string)
    requires Disjoint(g) && cap in Defined(g) && IsEdges(g, e) && Reversed(FromLists(e), FromLists(r))
    ensures (forall wanted :: SameWithout(g, cap, wanted)) <==>
            forall n :: ReachesByEdge(FromLists(r), cap, n) ==> n == cap
  {
    EdgesAreNeeds(g, e);
    var back := FromLists(r);
    if NobodyElseNeeds(g, cap) {
      forall wanted
        ensures SameWithout(g, cap, wanted)
      {
        if cap !in wanted {
          WalkAllWithout(g, cap, NOTHING, wanted);
        }
      }
      forall n | ReachesByEdge(back, cap, n)
        ensures n == cap
      {
        forall x | x in Succ(back, cap)
          ensures x == cap
        {
          assert cap in Succ(NeedsGraph(g), x);
          NeedsIsSucc(g, x, cap);
        }
        SelfOrByEdge(back, cap, n);
        ClosedContainsReachable(back, {cap}, cap, n);
      }
    } else {
      var n :| n != cap && cap in Needs(g, n);
      NeederIsHurt(g, cap, n);
      NeedsIsSucc(g, n, cap);
      ReachesSelf(back, n);
      assert n in Succ(back, cap);
      assert ReachesByEdge(back, cap, n);
    }
  }
}
