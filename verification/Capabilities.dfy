/** The capability graph and its resolver (tools/build_capability_graph.py, tools/resolve.py). */
module Capabilities {
  import opened Reachability
  import opened Wrappers

  datatype Concrete = Concrete(part: string, status: string, layer: string, addition: bool, needs: seq<string>)

  /** capabilities.json: concrete capabilities are parts, meta ones stand for what they require. */
  datatype CapGraph = CapGraph(concrete: map<string, Concrete>, meta: map<string, seq<string>>)

  datatype Part = Part(capability: string, status: string, layer: string, addition: bool)

  /** What `walk` has accumulated */
  datatype Resolution = Resolution(
    visited: set<string>,
    parts: map<string, Part>,
    subsystems: seq<string>,
    unknown: seq<string>)

  const NOTHING := Resolution({}, map[], [], [])

  function Defined(g: CapGraph): set<string> {
    g.concrete.Keys + g.meta.Keys
  }

  /** What the resolver goes on to from a name: concrete before meta, an undefined name leads nowhere */
  function Needs(g: CapGraph, cap: string): seq<string> {
    if cap in g.concrete then g.concrete[cap].needs
    else if cap in g.meta then g.meta[cap]
    else []
  }

  function NeedsGraph(g: CapGraph): Graph<string> {
    map n | n in Defined(g) :: set x | x in Needs(g, n)
  }

  lemma NeedsIsSucc(g: CapGraph, n: string, x: string)
    ensures x in Succ(NeedsGraph(g), n) <==> x in Needs(g, n)
  {
  }

  // ---------------------------------------------------------------------------------
  // The walk
  // ---------------------------------------------------------------------------------

  /** Enter one name not seen before */
  function Visit(g: CapGraph, r: Resolution, cap: string): Resolution {
    var r := r.(visited := r.visited + {cap});
    if cap in g.concrete then
      var c := g.concrete[cap];
      r.(parts := r.parts[c.part := Part(cap, c.status, c.layer, c.addition)])
    else if cap in g.meta then
      r.(subsystems := if cap in r.subsystems then r.subsystems else r.subsystems + [cap])
    else
      r.(unknown := if cap in r.unknown then r.unknown else r.unknown + [cap])
  }

  /** How many defined names are still to be seen */
  function Left(g: CapGraph, visited: set<string>): nat {
    |Defined(g) - visited|
  }

  lemma Shrinks(g: CapGraph, r: Resolution, cap: string)
    requires cap !in r.visited
    ensures Visit(g, r, cap).visited == r.visited + {cap}
    ensures cap in Defined(g) ==> Left(g, r.visited + {cap}) < Left(g, r.visited)
    ensures cap !in Defined(g) ==> Left(g, r.visited + {cap}) == Left(g, r.visited) && Needs(g, cap) == []
  {
    OneLess(Defined(g), r.visited, cap);
  }

  lemma OneLess(all: set<string>, seen: set<string>, x: string)
    requires x !in seen
    ensures |all - (seen + {x})| == |all - seen| - (if x in all then 1 else 0)
  {
    assert all - (seen + {x}) == (all - seen) - {x};
  }

  lemma FewerLeft(g: CapGraph, more: set<string>, less: set<string>)
    requires less <= more
    ensures Left(g, more) <= Left(g, less)
  {
    var a, b := Defined(g) - more, Defined(g) - less;
    assert b == a + (b - a);
  }

  /** walk(cap) */
  function WalkOne(g: CapGraph, r: Resolution, cap: string): (end: Resolution)
    ensures r.visited <= end.visited
    decreases Left(g, r.visited), 0
  {
    if cap in r.visited then r
    else
      var entered := Visit(g, r, cap);
      Shrinks(g, r, cap);
      if cap in Defined(g) then WalkAll(g, entered, Needs(g, cap)) else entered
  }

  /** `for x in caps: walk(x)` */
  function WalkAll(g: CapGraph, r: Resolution, caps: seq<string>): (end: Resolution)
    ensures r.visited <= end.visited
    decreases Left(g, r.visited), 1, |caps|
  {
    if caps == [] then r
    else
      var before := WalkAll(g, r, caps[..|caps| - 1]);
      FewerLeft(g, before.visited, r.visited);
      WalkOne(g, before, caps[|caps| - 1])
  }

  lemma WalkNext(g: CapGraph, r: Resolution, caps: seq<string>, i: nat)
    requires i < |caps|
    ensures WalkAll(g, r, caps[..i + 1]) == WalkOne(g, WalkAll(g, r, caps[..i]), caps[i])
  {
    assert caps[..i + 1][..i] == caps[..i];
  }

  function Resolve(g: CapGraph, wanted: seq<string>): Resolution {
    WalkAll(g, NOTHING, wanted)
  }

  /** resolve_capabilities: the closure variables of `walk`, updated in place */
  class Resolver {
    const graph: CapGraph
    var visited: set<string>
    var parts: map<string, Part>
    var subsystems: seq<string>
    var unknown: seq<string>

    function State(): Resolution
      reads this
    {
      Resolution(visited, parts, subsystems, unknown)
    }

    constructor (graph: CapGraph)
      ensures this.graph == graph && State() == NOTHING
    {
      this.graph := graph;
      visited, parts, subsystems, unknown := {}, map[], [], [];
    }

    method Walk(cap: string)
      modifies this
      ensures State() == WalkOne(graph, old(State()), cap)
      decreases Left(graph, visited)
    {
      if cap in visited {
        return;
      }
      ghost var before := State();
      Shrinks(graph, before, cap);
      visited := visited + {cap};
      if cap in graph.concrete {
        var c := graph.concrete[cap];
        parts := parts[c.part := Part(cap, c.status, c.layer, c.addition)];
      } else if cap in graph.meta {
        if cap !in subsystems {
          subsystems := subsystems + [cap];
        }
      } else {
        if cap !in unknown {
          unknown := unknown + [cap];
        }
      }
      ghost var entered := State();
      var needs := Needs(graph, cap);
      for i := 0 to |needs|
        invariant State() == WalkAll(graph, entered, needs[..i])
      {
        WalkNext(graph, entered, needs, i);
        FewerLeft(graph, visited, entered.visited);
        Walk(needs[i]);
      }
      assert needs[..|needs|] == needs;
    }

    method ResolveCapabilities(wanted: seq<string>)
      requires State() == NOTHING
      modifies this
      ensures State() == Resolve(graph, wanted)
    {
      for i := 0 to |wanted|
        invariant State() == WalkAll(graph, NOTHING, wanted[..i])
      {
        WalkNext(graph, NOTHING, wanted, i);
        Walk(wanted[i]);
      }
      assert wanted[..|wanted|] == wanted;
    }
  }

  // ---------------------------------------------------------------------------------
  // What the walk finds
  // ---------------------------------------------------------------------------------

  lemma {:induction false} WalkOneIsSound(g: CapGraph, r: Resolution, cap: string, n: string)
    requires n in WalkOne(g, r, cap).visited && n !in r.visited
    ensures Reaches(NeedsGraph(g), cap, n)
    decreases Left(g, r.visited), 0
  {
    Shrinks(g, r, cap);
    ReachesSelf(NeedsGraph(g), cap);
    if n == cap {
    } else {
      WalkAllIsSound(g, Visit(g, r, cap), Needs(g, cap), n);
      var a :| a in Needs(g, cap) && Reaches(NeedsGraph(g), a, n);
      NeedsIsSucc(g, cap, a);
      EdgeThenReaches(NeedsGraph(g), cap, a, n);
    }
  }

  lemma {:induction false} WalkAllIsSound(g: CapGraph, r: Resolution, caps: seq<string>, n: string)
    requires n in WalkAll(g, r, caps).visited && n !in r.visited
    ensures ReachedFromAny(NeedsGraph(g), caps, n)
    decreases Left(g, r.visited), 1, |caps|
  {
    var front, last := caps[..|caps| - 1], caps[|caps| - 1];
    var before := WalkAll(g, r, front);
    if n in before.visited {
      WalkAllIsSound(g, r, front, n);
      var a :| a in front && Reaches(NeedsGraph(g), a, n);
      assert a in caps;
    } else {
      FewerLeft(g, before.visited, r.visited);
      WalkOneIsSound(g, before, last, n);
      assert last in caps;
    }
  }

  /** Everything a newly visited name needs has been visited. */
  ghost predicate NewOnesClosed(g: CapGraph, r: Resolution, end: Resolution) {
    forall n, x :: n in end.visited && n !in r.visited && x in Needs(g, n) ==> x in end.visited
  }

  lemma {:induction false} WalkOneIsComplete(g: CapGraph, r: Resolution, cap: string)
    ensures cap in WalkOne(g, r, cap).visited && NewOnesClosed(g, r, WalkOne(g, r, cap))
    decreases Left(g, r.visited), 0
  {
    if cap in r.visited {
    } else {
      Shrinks(g, r, cap);
      if cap in Defined(g) {
        WalkAllIsComplete(g, Visit(g, r, cap), Needs(g, cap));
      }
    }
  }

  lemma {:induction false} WalkAllIsComplete(g: CapGraph, r: Resolution, caps: seq<string>)
    ensures forall c :: c in caps ==> c in WalkAll(g, r, caps).visited
    ensures NewOnesClosed(g, r, WalkAll(g, r, caps))
    decreases Left(g, r.visited), 1, |caps|
  {
    if caps == [] {
    } else {
      var before := WalkAll(g, r, caps[..|caps| - 1]);
      WalkAllIsComplete(g, r, caps[..|caps| - 1]);
      FewerLeft(g, before.visited, r.visited);
      WalkOneIsComplete(g, before, caps[|caps| - 1]);
    }
  }

  /** The names seen are exactly those reachable from what was wanted, cycles or not. */
  lemma VisitedIsReachable(g: CapGraph, wanted: seq<string>, n: string)
    ensures n in Resolve(g, wanted).visited <==> ReachedFromAny(NeedsGraph(g), wanted, n)
  {
    if n in Resolve(g, wanted).visited {
      WalkAllIsSound(g, NOTHING, wanted, n);
    }
    if ReachedFromAny(NeedsGraph(g), wanted, n) {
      var a :| a in wanted && Reaches(NeedsGraph(g), a, n);
      WalkAllIsComplete(g, NOTHING, wanted);
      ClosedContainsReachable(NeedsGraph(g), Resolve(g, wanted).visited, a, n);
    }
  }

  ghost predicate NoRepeats(s: seq<string>) {
    forall i, j :: 0 <= i < j < |s| ==> s[i] != s[j]
  }

  function PartOf(g: CapGraph, cap: string): Part
    requires cap in g.concrete
  {
    var c := g.concrete[cap];
    Part(cap, c.status, c.layer, c.addition)
  }

  /** Every visited name is filed where it belongs, and nothing else is. */
  ghost predicate Filed(g: CapGraph, r: Resolution) {
    && NoRepeats(r.subsystems) && NoRepeats(r.unknown)
    && (forall n :: n in r.subsystems <==> n in r.visited && n in g.meta && n !in g.concrete)
    && (forall n :: n in r.unknown <==> n in r.visited && n !in Defined(g))
    && (forall n :: n in r.visited && n in g.concrete ==> g.concrete[n].part in r.parts)
    && (forall p :: p in r.parts ==>
          var n := r.parts[p].capability;
          n in r.visited && n in g.concrete && g.concrete[n].part == p && r.parts[p] == PartOf(g, n))
  }

  lemma VisitFiles(g: CapGraph, r: Resolution, cap: string)
    requires Filed(g, r) && cap !in r.visited
    ensures Filed(g, Visit(g, r, cap))
  {
    var next := Visit(g, r, cap);
    assert next.visited == r.visited + {cap};
    forall p | p in next.parts
      ensures var n := next.parts[p].capability;
              n in next.visited && n in g.concrete && g.concrete[n].part == p && next.parts[p] == PartOf(g, n)
    {
      assert p in r.parts || cap in g.concrete;
    }
  }

  lemma {:induction false} WalkOneFiles(g: CapGraph, r: Resolution, cap: string)
    requires Filed(g, r)
    ensures Filed(g, WalkOne(g, r, cap))
    decreases Left(g, r.visited), 0
  {
    if cap in r.visited {
    } else {
      Shrinks(g, r, cap);
      VisitFiles(g, r, cap);
      if cap in Defined(g) {
        WalkFiles(g, Visit(g, r, cap), Needs(g, cap));
      }
    }
  }

  lemma {:induction false} WalkFiles(g: CapGraph, r: Resolution, caps: seq<string>)
    requires Filed(g, r)
    ensures Filed(g, WalkAll(g, r, caps))
    decreases Left(g, r.visited), 1, |caps|
  {
    if caps == [] {
    } else {
      var before := WalkAll(g, r, caps[..|caps| - 1]);
      WalkFiles(g, r, caps[..|caps| - 1]);
      FewerLeft(g, before.visited, r.visited);
      WalkOneFiles(g, before, caps[|caps| - 1]);
    }
  }

  /** Capabilities named in the resolved parts */
  function PartCaps(r: Resolution): set<string> {
    set p | p in r.parts :: r.parts[p].capability
  }

  /** No two reachable concrete capabilities are the same part file. */
  ghost predicate PartsDistinct(g: CapGraph, caps: set<string>) {
    forall a, b :: a in caps && b in caps && a in g.concrete && b in g.concrete && a != b ==>
      g.concrete[a].part != g.concrete[b].part
  }

  /** resolve_capabilities, exactly: subsystems are the reachable meta names, unknown the reachable undefined ones,
      each once; every reachable concrete name has its part, and all of them are listed exactly when no
      two share one. */
  lemma ResolutionIsReachability(g: CapGraph, wanted: seq<string>)
    ensures var r := Resolve(g, wanted);
      && (forall n :: n in r.visited <==> ReachedFromAny(NeedsGraph(g), wanted, n))
      && Filed(g, r)
      && (PartCaps(r) == r.visited * g.concrete.Keys <==> PartsDistinct(g, r.visited))
  {
    var r := Resolve(g, wanted);
    forall n
      ensures n in r.visited <==> ReachedFromAny(NeedsGraph(g), wanted, n)
    {
      VisitedIsReachable(g, wanted, n);
    }
    WalkFiles(g, NOTHING, wanted);
    PartCapsExact(g, r);
  }

  lemma PartCapsExact(g: CapGraph, r: Resolution)
    requires Filed(g, r)
    ensures PartCaps(r) == r.visited * g.concrete.Keys <==> PartsDistinct(g, r.visited)
  {
    assert PartCaps(r) <= r.visited * g.concrete.Keys;
    if PartCaps(r) == r.visited * g.concrete.Keys {
      forall a, b | a in r.visited && b in r.visited && a in g.concrete && b in g.concrete
                    && g.concrete[a].part == g.concrete[b].part
        ensures a == b
      {
        assert a in PartCaps(r) && b in PartCaps(r);
      }
    }
    if PartsDistinct(g, r.visited) {
      forall n | n in r.visited && n in g.concrete
        ensures n in PartCaps(r)
      {
        assert r.parts[g.concrete[n].part].capability == n;
      }
    }
  }

  /** What a name leads to: the requirements of a concrete capability, those of a meta one that is not concrete too,
      and nothing from an undefined name. */
  lemma NeedsExactly(g: CapGraph, n: string, x: string)
    ensures x in Succ(NeedsGraph(g), n) <==>
            if n in g.concrete then x in g.concrete[n].needs else n in g.meta && x in g.meta[n]
  {
  }

  /** A part is filed exactly for the reachable concrete capabilities that are it, with the data of one of them. */
  lemma PartsExactly(g: CapGraph, wanted: seq<string>, part: string)
    ensures part in Resolve(g, wanted).parts <==>
            exists n :: n in g.concrete && g.concrete[n].part == part
                        && exists w :: w in wanted && Reaches(NeedsGraph(g), w, n)
    ensures part in Resolve(g, wanted).parts ==>
      var p := Resolve(g, wanted).parts[part];
      && p.capability in g.concrete && g.concrete[p.capability].part == part
      && p.status == g.concrete[p.capability].status && p.layer == g.concrete[p.capability].layer
      && p.addition == g.concrete[p.capability].addition
      && exists w :: w in wanted && Reaches(NeedsGraph(g), w, p.capability)
  {
    ResolutionIsReachability(g, wanted);
  }

  ghost predicate Continues(r: Resolution, end: Resolution) {
    r.subsystems <= end.subsystems && r.unknown <= end.unknown
  }

  lemma VisitContinues(g: CapGraph, r: Resolution, cap: string)
    ensures Continues(r, Visit(g, r, cap))
  {
  }

  lemma {:induction false} WalkOneContinues(g: CapGraph, r: Resolution, cap: string)
    ensures Continues(r, WalkOne(g, r, cap))
    decreases Left(g, r.visited), 0
  {
    if cap in r.visited {
    } else {
      Shrinks(g, r, cap);
      VisitContinues(g, r, cap);
      if cap in Defined(g) {
        WalkAllContinues(g, Visit(g, r, cap), Needs(g, cap));
      }
    }
  }

  lemma {:induction false} WalkAllContinues(g: CapGraph, r: Resolution, caps: seq<string>)
    ensures Continues(r, WalkAll(g, r, caps))
    decreases Left(g, r.visited), 1, |caps|
  {
    if caps == [] {
    } else {
      var before := WalkAll(g, r, caps[..|caps| - 1]);
      WalkAllContinues(g, r, caps[..|caps| - 1]);
      FewerLeft(g, before.visited, r.visited);
      WalkOneContinues(g, before, caps[|caps| - 1]);
    }
  }

  /** Subsystems and unknown names are listed as they come up: what is wanted later, or needed by what was entered,
      goes behind. */
  lemma {:induction false} ListedAsEncountered(g: CapGraph, wanted: seq<string>, more: seq<string>)
    ensures Resolve(g, wanted).subsystems <= Resolve(g, wanted + more).subsystems
    ensures Resolve(g, wanted).unknown <= Resolve(g, wanted + more).unknown
    decreases |more|
  {
    if more == [] {
      assert wanted + more == wanted;
    } else {
      var front, last := more[..|more| - 1], more[|more| - 1];
      ListedAsEncountered(g, wanted, front);
      assert (wanted + more)[..|wanted + more| - 1] == wanted + front;
      WalkOneContinues(g, Resolve(g, wanted + front), last);
    }
  }

  /** A meta name that is wanted first is listed first. */
  lemma FirstIsListed(g: CapGraph, first: string, rest: seq<string>)
    requires first in g.meta && first !in g.concrete
    ensures [first] <= Resolve(g, [first] + rest).subsystems
  {
    Shrinks(g, NOTHING, first);
    WalkNext(g, NOTHING, [first], 0);
    assert [first][..1] == [first];
    assert Visit(g, NOTHING, first).subsystems == [first];
    WalkAllContinues(g, Visit(g, NOTHING, first), Needs(g, first));
    ListedAsEncountered(g, [first], rest);
  }

  /** Wanting more never resolves less, in any of the three kinds. */
  lemma ResolutionIsMonotone(g: CapGraph, few: seq<string>, many: seq<string>)
    requires forall w :: w in few ==> w in many
    ensures Resolve(g, few).visited <= Resolve(g, many).visited
    ensures forall p :: p in Resolve(g, few).parts ==> p in Resolve(g, many).parts
  {
    forall n | n in Resolve(g, few).visited
      ensures n in Resolve(g, many).visited
    {
      VisitedIsReachable(g, few, n);
      VisitedIsReachable(g, many, n);
    }
    WalkFiles(g, NOTHING, few);
    WalkFiles(g, NOTHING, many);
  }

  // ---------------------------------------------------------------------------------
  // Stages
  // ---------------------------------------------------------------------------------

  datatype Stages = Stages(order: seq<string>, stageOf: map<string, string>)

  /** order.index(stage): the first position; ValueError, here None, when there is none */
  function Index(order: seq<string>, stage: string): Option<nat> {
    if order == [] then None
    else if order[0] == stage then Some(0)
    else
      match Index(order[1..], stage)
      case None => None
      case Some(i) => Some(i + 1)
  }

  lemma {:induction false} IndexExactly(order: seq<string>, stage: string)
    ensures Index(order, stage) == None <==> stage !in order
    ensures Index(order, stage).Some? ==>
              var i := Index(order, stage).value; i < |order| && order[i] == stage && stage !in order[..i]
    decreases |order|
  {
    if order == [] {
    } else {
      assert order == [order[0]] + order[1..];
      IndexExactly(order[1..], stage);
      if order[0] != stage && stage in order {
        var i := Index(order[1..], stage).value;
        assert order[..i + 1] == [order[0]] + order[1..][..i];
      }
    }
  }

  /** A capability without a stage counts as "mvp". */
  function Rank(stages: Stages, cap: string): Option<nat> {
    Index(stages.order, if cap in stages.stageOf then stages.stageOf[cap] else "mvp")
  }

  lemma RanksExactly(stages: Stages, caps: seq<string>)
    ensures forall c :: c in caps ==>
      (Rank(stages, c).Some? <==>
        if c in stages.stageOf then stages.stageOf[c] in stages.order else "mvp" in stages.order)
  {
    forall c | c in caps {
      IndexExactly(stages.order, if c in stages.stageOf then stages.stageOf[c] else "mvp");
    }
  }

  datatype Split = UnknownStage | UnrankedCapability(cap: string) | Split(kept: seq<string>, deferred: seq<string>)

  /** Ranked at or below the limit, or above it */
  predicate InStage(stages: Stages, limit: nat, deferred: bool, cap: string) {
    var rank := Rank(stages, cap);
    rank.Some? && (rank.value > limit <==> deferred)
  }

  /** In order, with repeats: the wanted names that are kept, or those that are deferred */
  function Selected(wanted: seq<string>, stages: Stages, limit: nat, deferred: bool): seq<string>
    decreases |wanted|
  {
    if wanted == [] then []
    else
      var front, last := wanted[..|wanted| - 1], wanted[|wanted| - 1];
      Selected(front, stages, limit, deferred) + (if InStage(stages, limit, deferred, last) then [last] else [])
  }

  method FilterByStage(wanted: seq<string>, stage: string, stages: Stages) returns (r: Split)
    ensures r.UnknownStage? <==> stage !in stages.order
    ensures r.UnrankedCapability? ==> exists i ::
      && 0 <= i < |wanted| && r.cap == wanted[i]
      && (if r.cap in stages.stageOf then stages.stageOf[r.cap] !in stages.order else "mvp" !in stages.order)
      && forall c :: c in wanted[..i] ==>
           if c in stages.stageOf then stages.stageOf[c] in stages.order else "mvp" in stages.order
    ensures r.Split? ==>
      && (forall c :: c in wanted ==>
            if c in stages.stageOf then stages.stageOf[c] in stages.order else "mvp" in stages.order)
      && Index(stages.order, stage).Some?
      && r.kept == Selected(wanted, stages, Index(stages.order, stage).value, false)
      && r.deferred == Selected(wanted, stages, Index(stages.order, stage).value, true)
  {
    var at := Index(stages.order, stage);
    IndexExactly(stages.order, stage);
    if at == None {
      return UnknownStage;
    }
    var kept: seq<string>, deferred: seq<string> := [], [];
    for i := 0 to |wanted|
      invariant forall c :: c in wanted[..i] ==> Rank(stages, c).Some?
      invariant kept == Selected(wanted[..i], stages, at.value, false)
      invariant deferred == Selected(wanted[..i], stages, at.value, true)
    {
      assert wanted[..i + 1][..i] == wanted[..i];
      var rank := Rank(stages, wanted[i]);
      if rank == None {
        RanksExactly(stages, wanted[..i + 1]);
        return UnrankedCapability(wanted[i]);
      }
      if rank.value <= at.value {
        kept := kept + [wanted[i]];
      } else {
        deferred := deferred + [wanted[i]];
      }
    }
    assert wanted[..|wanted|] == wanted;
    RanksExactly(stages, wanted);
    r := Split(kept, deferred);
  }

  lemma {:induction false} SelectedMembers(wanted: seq<string>, stages: Stages, limit: nat, deferred: bool, c: string)
    ensures c in Selected(wanted, stages, limit, deferred) <==> c in wanted && InStage(stages, limit, deferred, c)
    decreases |wanted|
  {
    if wanted == [] {
    } else {
      SelectedMembers(wanted[..|wanted| - 1], stages, limit, deferred, c);
      assert wanted == wanted[..|wanted| - 1] + [wanted[|wanted| - 1]];
    }
  }

  /** `out` are the names at the ascending positions `at`. */
  ghost predicate Picks(wanted: seq<string>, out: seq<string>, at: seq<int>) {
    && |at| == |out|
    && (forall j, k :: 0 <= j < k < |at| ==> at[j] < at[k])
    && (forall j :: 0 <= j < |at| ==> 0 <= at[j] < |wanted| && out[j] == wanted[at[j]])
  }

  lemma PicksMore(wanted: seq<string>, last: string, out: seq<string>, at: seq<int>)
    requires Picks(wanted, out, at)
    ensures Picks(wanted + [last], out, at) && Picks(wanted + [last], out + [last], at + [|wanted|])
    ensures forall i :: i in at ==> 0 <= i < |wanted|
  {
  }

  lemma {:induction false} SelectedPositions(wanted: seq<string>, stages: Stages, limit: nat, deferred: bool)
    returns (at: seq<int>)
    ensures Picks(wanted, Selected(wanted, stages, limit, deferred), at)
    ensures forall i :: 0 <= i < |wanted| ==> (i in at <==> InStage(stages, limit, deferred, wanted[i]))
    decreases |wanted|
  {
    if wanted == [] {
      at := [];
    } else {
      var rest, n := wanted[..|wanted| - 1], |wanted| - 1;
      var front := SelectedPositions(rest, stages, limit, deferred);
      PicksMore(rest, wanted[n], Selected(rest, stages, limit, deferred), front);
      assert rest + [wanted[n]] == wanted;
      at := if InStage(stages, limit, deferred, wanted[n]) then front + [n] else front;
      forall i | 0 <= i < |wanted|
        ensures i in at <==> InStage(stages, limit, deferred, wanted[i])
      {
        if i < n {
          assert rest[i] == wanted[i];
        }
      }
    }
  }

  /** What is selected, by position: in order, exactly the wanted names whose stage comes first in the order at or
      before the limit, or after it. */
  lemma SelectedByPosition(wanted: seq<string>, stages: Stages, limit: nat, deferred: bool) returns (at: seq<int>)
    ensures |at| == |Selected(wanted, stages, limit, deferred)|
    ensures forall j, k :: 0 <= j < k < |at| ==> at[j] < at[k]
    ensures forall j :: 0 <= j < |at| ==>
              0 <= at[j] < |wanted| && Selected(wanted, stages, limit, deferred)[j] == wanted[at[j]]
    ensures forall i :: 0 <= i < |wanted| ==>
              var stage := if wanted[i] in stages.stageOf then stages.stageOf[wanted[i]] else "mvp";
              i in at <==> exists p :: 0 <= p < |stages.order| && stages.order[p] == stage
                                       && stage !in stages.order[..p] && (p > limit <==> deferred)
  {
    at := SelectedPositions(wanted, stages, limit, deferred);
    forall i | 0 <= i < |wanted| {
      InStageExactly(stages, limit, deferred, wanted[i]);
    }
  }

  lemma {:induction false} FirstPosition(order: seq<string>, stage: string, p: nat)
    requires p < |order| && order[p] == stage && stage !in order[..p]
    ensures Index(order, stage) == Some(p)
    decreases p
  {
    if p > 0 {
      assert order[..p][0] == order[0] && order[1..][..p - 1] == order[..p][1..];
      FirstPosition(order[1..], stage, p - 1);
    }
  }

  lemma InStageExactly(stages: Stages, limit: nat, deferred: bool, cap: string)
    ensures var stage := if cap in stages.stageOf then stages.stageOf[cap] else "mvp";
            InStage(stages, limit, deferred, cap) <==>
            exists p :: 0 <= p < |stages.order| && stages.order[p] == stage && stage !in stages.order[..p]
                        && (p > limit <==> deferred)
  {
    var stage := if cap in stages.stageOf then stages.stageOf[cap] else "mvp";
    IndexExactly(stages.order, stage);
    forall p | 0 <= p < |stages.order| && stages.order[p] == stage && stage !in stages.order[..p] {
      FirstPosition(stages.order, stage, p);
    }
  }

  /** Moving on to a later stage loses nothing an earlier one resolved. */
  lemma LaterStagesKeepMore(g: CapGraph, wanted: seq<string>, stages: Stages, early: nat, late: nat)
    requires early <= late
    ensures var few, many := Selected(wanted, stages, early, false), Selected(wanted, stages, late, false);
      && Resolve(g, few).visited <= Resolve(g, many).visited
      && forall p :: p in Resolve(g, few).parts ==> p in Resolve(g, many).parts
  {
    var few, many := Selected(wanted, stages, early, false), Selected(wanted, stages, late, false);
    forall c | c in few
      ensures c in many
    {
      SelectedMembers(wanted, stages, early, false, c);
      SelectedMembers(wanted, stages, late, false, c);
    }
    ResolutionIsMonotone(g, few, many);
  }

  // ---------------------------------------------------------------------------------
  // Graph validation
  // ---------------------------------------------------------------------------------

  datatype Fault = NotConcrete(cap: string) | Undefined(cap: string, need: string)

  /** The graph with the authored requirements attached */
  function Attached(concrete: map<string, Concrete>, authored: map<string, seq<string>>, meta: map<string, seq<string>>)
    : CapGraph
  {
    CapGraph(map c | c in concrete :: if c in authored then concrete[c].(needs := authored[c]) else concrete[c], meta)
  }

  /** A name that the authored data mentions and does not define */
  predicate IsFault(concrete: map<string, Concrete>, authored: map<string, seq<string>>,
                    meta: map<string, seq<string>>, f: Fault)
  {
    match f
    case NotConcrete(c) => c in authored && c !in concrete
    case Undefined(c, r) =>
      && r !in concrete.Keys + meta.Keys
      && ((c in authored && c in concrete && r in authored[c]) || (c in meta && r in meta[c]))
  }

  /** main() of build_capability_graph, up to its verdict: attach PART_REQUIRES, collect every dangling name.
      build_concrete leaves every `requires` empty. */
  method ValidateGraph(concrete: map<string, Concrete>, authored: map<string, seq<string>>,
                       meta: map<string, seq<string>>)
    returns (graph: CapGraph, errors: seq<Fault>)
    requires forall c :: c in concrete ==> concrete[c].needs == []
    ensures graph == Attached(concrete, authored, meta)
    ensures forall f :: f in errors <==> IsFault(concrete, authored, meta, f)
    ensures forall c :: NotConcrete(c) in errors <==> c in authored && c !in concrete
    ensures forall c, r :: Undefined(c, r) in errors <==>
              && r !in concrete && r !in meta
              && ((c in authored && c in concrete && r in authored[c]) || (c in meta && r in meta[c]))
    ensures forall c :: c in graph.concrete <==> c in concrete
    ensures forall c :: c in concrete ==>
              graph.concrete[c] == if c in authored then concrete[c].(needs := authored[c]) else concrete[c]
    ensures graph.meta == meta
  {
    errors := [];
    var caps := concrete.Keys + meta.Keys;
    var built := concrete;
    var left := authored.Keys;
    while left != {}
      invariant left <= authored.Keys && built.Keys == concrete.Keys
      invariant forall c :: c in concrete ==>
        built[c] == if c in authored && c !in left then concrete[c].(needs := authored[c]) else concrete[c]
      invariant forall f :: f in errors <==>
        && f.cap in authored && f.cap !in left
        && (f.NotConcrete? <==> f.cap !in concrete)
        && (f.Undefined? ==> f.need in authored[f.cap] && f.need !in caps)
      decreases left
    {
      var cap :| cap in left;
      left := left - {cap};
      if cap !in concrete {
        errors := errors + [NotConcrete(cap)];
      } else {
        var more := Dangling(cap, authored[cap], caps);
        errors := errors + more;
        built := built[cap := built[cap].(needs := authored[cap])];
      }
    }
    graph := CapGraph(built, meta);
    assert graph.concrete == Attached(concrete, authored, meta).concrete;
    left := meta.Keys;
    while left != {}
      invariant left <= meta.Keys
      invariant forall f :: f in errors <==>
        match f
        case NotConcrete(c) => c in authored && c !in concrete
        case Undefined(c, r) => r !in caps && ((c in authored && c in concrete && r in authored[c])
                                               || (c in meta && c !in left && r in meta[c]))
      decreases left
    {
      var m :| m in left;
      left := left - {m};
      var more := Dangling(m, meta[m], caps);
      errors := errors + more;
    }
  }

  method Dangling(cap: string, needs: seq<string>, caps: set<string>) returns (faults: seq<Fault>)
    ensures forall f :: f in faults <==> f.Undefined? && f.cap == cap && f.need in needs && f.need !in caps
  {
    faults := [];
    for i := 0 to |needs|
      invariant forall f :: f in faults <==> f.Undefined? && f.cap == cap && f.need in needs[..i] && f.need !in caps
    {
      if needs[i] !in caps {
        faults := faults + [Undefined(cap, needs[i])];
      }
    }
    assert needs[..|needs|] == needs;
  }

  ghost predicate NoDangling(g: CapGraph) {
    forall n, x :: x in Needs(g, n) ==> x in Defined(g)
  }

  /** Reachable and not defined: what `unknown` would list */
  ghost predicate Complete(g: CapGraph, wanted: seq<string>) {
    (forall w :: w in wanted ==> w in Defined(g)) ==> Resolve(g, wanted).unknown == []
  }

  lemma FirstIsMember<T>(s: seq<T>)
    ensures s != [] ==> s[0] in s
  {
  }

  lemma CompleteWhenDefined(g: CapGraph, wanted: seq<string>)
    requires NoDangling(g)
    ensures Complete(g, wanted)
  {
    if forall w :: w in wanted ==> w in Defined(g) {
      WalkFiles(g, NOTHING, wanted);
      forall n | n in Resolve(g, wanted).visited
        ensures n in Defined(g)
      {
        VisitedIsReachable(g, wanted, n);
        var a :| a in wanted && Reaches(NeedsGraph(g), a, n);
        ClosedContainsReachable(NeedsGraph(g), Defined(g), a, n);
      }
      assert forall u :: u !in Resolve(g, wanted).unknown;
      FirstIsMember(Resolve(g, wanted).unknown);
    }
  }

  /** Whatever of its names are wanted, a graph leaves nothing unresolved exactly when no name it defines
      needs an undefined one. */
  lemma ValidatedGraphsResolve(g: CapGraph)
    ensures NoDangling(g) <==> forall wanted :: Complete(g, wanted)
  {
    if NoDangling(g) {
      forall wanted
        ensures Complete(g, wanted)
      {
        CompleteWhenDefined(g, wanted);
      }
    } else {
      var n, x :| x in Needs(g, n) && x !in Defined(g);
      NeedsIsSucc(g, n, x);
      ReachesSelf(NeedsGraph(g), x);
      EdgeThenReaches(NeedsGraph(g), n, x, x);
      assert n in [n];
      VisitedIsReachable(g, [n], x);
      WalkFiles(g, NOTHING, [n]);
      assert x in Resolve(g, [n]).unknown;
      assert !Complete(g, [n]);
    }
  }

  /** No faults means nothing dangles; and the other way too, when no name is both concrete and meta. */
  lemma ValidationMeansNoDangling(concrete: map<string, Concrete>, authored: map<string, seq<string>>,
                                  meta: map<string, seq<string>>)
    requires forall c :: c in concrete ==> concrete[c].needs == []
    ensures (forall f :: !IsFault(concrete, authored, meta, f)) ==>
              NoDangling(Attached(concrete, authored, meta)) && authored.Keys <= concrete.Keys
    ensures concrete.Keys !! meta.Keys && authored.Keys <= concrete.Keys
            && NoDangling(Attached(concrete, authored, meta)) ==>
              forall f :: !IsFault(concrete, authored, meta, f)
  {
    var g := Attached(concrete, authored, meta);
    if forall f :: !IsFault(concrete, authored, meta, f) {
      forall n, x | x in Needs(g, n)
        ensures x in Defined(g)
      {
        assert !IsFault(concrete, authored, meta, Undefined(n, x));
      }
      forall c | c in authored
        ensures c in concrete
      {
        assert !IsFault(concrete, authored, meta, NotConcrete(c));
      }
    }
    if concrete.Keys !! meta.Keys && authored.Keys <= concrete.Keys && NoDangling(g) {
      forall f
        ensures !IsFault(concrete, authored, meta, f)
      {
        if f.Undefined? {
          assert f.need in Needs(g, f.cap) ==> f.need in Defined(g);
          assert Defined(g) == concrete.Keys + meta.Keys;
          assert f.cap in authored ==> Needs(g, f.cap) == authored[f.cap];
          assert f.cap in meta ==> Needs(g, f.cap) == meta[f.cap];
        }
      }
    }
  }
}
