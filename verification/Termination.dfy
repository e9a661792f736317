/** The mutual recursion of transition() through guarded effects. */
module Termination {
  import opened Reachability
  import opened Workflow
  import opened Wrappers

  /** A guarded effect of entering `to` in `e` always aims lower: `rank` orders the (entity, state) pairs. */
  ghost predicate Ranked(s: Schema, rank: (string, Value) -> nat) {
    forall e, to, eff ::
      e in s && s[e].machine.Some? && eff in EffectsFor(s[e].machine.value, to)
      && eff.SetRelated? && eff.guarded && eff.entity in s ==>
        rank(eff.entity, eff.value) < rank(e, to)
  }

  ghost predicate AllAimBelow(s: Schema, effs: seq<Effect>, rank: (string, Value) -> nat, bound: nat) {
    forall eff :: eff in effs && eff.SetRelated? && eff.guarded && eff.entity in s ==>
      rank(eff.entity, eff.value) < bound
  }

  /** Ranked effects terminate: with more room than the rank, the recursion never runs out,
      and more room would change nothing. */
  lemma {:induction false} RankedTransitionsTerminate(
    s: Schema, rank: (string, Value) -> nat, st: Store, e: string, id: Value, to: Value, d1: nat, d2: nat)
    requires e in s && s[e].machine.Some? && Ranked(s, rank)
    requires rank(e, to) < d1 && rank(e, to) < d2
    ensures Transition(s, st, e, id, to, d1).outcome != TooDeep
    ensures Transition(s, st, e, id, to, d1) == Transition(s, st, e, id, to, d2)
    decreases rank(e, to), 1, 0
  {
    DeepEnough(s, st, e, id, to, d1, d2);
    if !Has(st, e, id) || !MayMove(s, st, Key(e, id.i), to) {
    } else {
      var m := s[e].machine.value;
      RankedEffectsTerminate(s, rank, SetField(st, Key(e, id.i), m.field, to), Key(e, id.i),
                             EffectsFor(m, to), rank(e, to), d1 - 1, d2 - 1);
    }
  }

  /** One call has the room its effects have. */
  lemma DeepEnough(s: Schema, st: Store, e: string, id: Value, to: Value, d1: nat, d2: nat)
    requires e in s && s[e].machine.Some? && d1 > 0 && d2 > 0
    ensures var r1, r2 := Transition(s, st, e, id, to, d1), Transition(s, st, e, id, to, d2);
            if !Has(st, e, id) || !MayMove(s, st, Key(e, id.i), to) then r1 == r2 && r1.outcome != TooDeep
            else
              var k, m := Key(e, id.i), s[e].machine.value;
              var st1, effs := SetField(st, k, m.field, to), EffectsFor(m, to);
              && r1 == Prefixed([Move(k, to)], RunEffects(s, st1, k, effs, d1 - 1))
              && r2 == Prefixed([Move(k, to)], RunEffects(s, st1, k, effs, d2 - 1))
  {
  }

  lemma {:induction false} RankedEffectsTerminate(
    s: Schema, rank: (string, Value) -> nat, st: Store, k: Key, effs: seq<Effect>, bound: nat, d1: nat, d2: nat)
    requires k in st.rows && Ranked(s, rank) && AllAimBelow(s, effs, rank, bound)
    requires bound <= d1 && bound <= d2
    ensures RunEffects(s, st, k, effs, d1).outcome != TooDeep
    ensures RunEffects(s, st, k, effs, d1) == RunEffects(s, st, k, effs, d2)
    decreases bound, 0, |effs|
  {
    if effs == [] {
    } else {
      var eff := effs[0];
      if eff.SetRelated? && eff.guarded && eff.entity in s && s[eff.entity].machine.Some? {
        RankedTransitionsTerminate(s, rank, st, eff.entity, Attr(st.rows[k], eff.ref), eff.value, d1, d2);
      }
      assert RunEffect(s, st, k, eff, d1) == RunEffect(s, st, k, eff, d2);
      var first := RunEffect(s, st, k, eff, d1);
      RankedEffectsTerminate(s, rank, first.store, k, effs[1..], bound, d1, d2);
    }
  }

  // ---------------------------------------------------------------------------------
  // When there is a ranking
  // ---------------------------------------------------------------------------------

  datatype State = State(entity: string, status: Value)

  /** The states whose entry the guarded effects of entering a state call for */
  function Calls(s: Schema, n: State): set<State> {
    if n.entity in s && s[n.entity].machine.Some? then
      set eff | eff in EffectsFor(s[n.entity].machine.value, n.status)
                && eff.SetRelated? && eff.guarded && eff.entity in s
        :: State(eff.entity, eff.value)
    else {}
  }

  function CallGraph(s: Schema): Graph<State> {
    map n | n in (set e, to | e in s && s[e].machine.Some? && to in s[e].machine.value.effects :: State(e, to)) ::
      Calls(s, n)
  }

  lemma CallEdges(s: Schema, n: State)
    ensures Succ(CallGraph(s), n) == Calls(s, n)
  {
  }

  lemma EffectIsCall(s: Schema, e: string, to: Value, eff: Effect)
    requires e in s && s[e].machine.Some? && eff in EffectsFor(s[e].machine.value, to)
    requires eff.SetRelated? && eff.guarded && eff.entity in s
    ensures State(eff.entity, eff.value) in Succ(CallGraph(s), State(e, to))
  {
    CallEdges(s, State(e, to));
  }

  ghost function CallRank(s: Schema): (string, Value) -> nat {
    (e, to) => |Beyond(CallGraph(s), State(e, to))|
  }

  /** Effects can be ranked exactly when no state calls for itself, directly or through others: a condition
      on the finite tables of the domain. */
  lemma RankExistsExactly(s: Schema)
    ensures (exists rank :: Ranked(s, rank)) <==> Acyclic(CallGraph(s))
  {
    var g := CallGraph(s);
    if rank :| Ranked(s, rank) {
      forall a, b | b in Succ(g, a)
        ensures rank(b.entity, b.status) < rank(a.entity, a.status)
      {
        CallEdges(s, a);
      }
      RankedIsAcyclic(g, (n: State) => rank(n.entity, n.status));
    }
    if Acyclic(g) {
      CallRankRanks(s);
    }
  }

  lemma CallRankRanks(s: Schema)
    requires Acyclic(CallGraph(s))
    ensures Ranked(s, CallRank(s))
  {
    forall e, to, eff | e in s && s[e].machine.Some? && eff in EffectsFor(s[e].machine.value, to)
                        && eff.SetRelated? && eff.guarded && eff.entity in s
      ensures CallRank(s)(eff.entity, eff.value) < CallRank(s)(e, to)
    {
      EffectIsCall(s, e, to, eff);
      BeyondRanks(CallGraph(s), State(e, to), State(eff.entity, eff.value));
    }
  }

  /** Without such a cycle a stack with room for one call per state never overflows, whatever the store. */
  lemma AcyclicTransitionsTerminate(s: Schema, st: Store, e: string, id: Value, to: Value, d1: nat, d2: nat)
    requires e in s && s[e].machine.Some? && Acyclic(CallGraph(s))
    requires |Nodes(CallGraph(s))| < d1 && |Nodes(CallGraph(s))| < d2
    ensures Transition(s, st, e, id, to, d1).outcome != TooDeep
    ensures Transition(s, st, e, id, to, d1) == Transition(s, st, e, id, to, d2)
  {
    CallRankRanks(s);
    SubsetSize(Beyond(CallGraph(s), State(e, to)), Nodes(CallGraph(s)));
    RankedTransitionsTerminate(s, CallRank(s), st, e, id, to, d1, d2);
  }

  // ---------------------------------------------------------------------------------
  // With a cycle nothing blocks
  // ---------------------------------------------------------------------------------

  /** The effect that entering `n` starts with */
  function FirstEffect(s: Schema, n: State): Option<Effect> {
    if n.entity in s && s[n.entity].machine.Some? && EffectsFor(s[n.entity].machine.value, n.status) != []
    then Some(EffectsFor(s[n.entity].machine.value, n.status)[0])
    else None
  }

  /** Entering `n` checks no guard and first calls for another state of `cycle`. */
  ghost predicate CallsOn(s: Schema, cycle: set<State>, n: State) {
    && FirstEffect(s, n).Some? && FirstEffect(s, n).value.SetRelated? && FirstEffect(s, n).value.guarded
    && GuardsFor(s[n.entity].machine.value, n.status) == []
    && FirstEffect(s, n).value.ref != s[n.entity].machine.value.field
    && State(FirstEffect(s, n).value.entity, FirstEffect(s, n).value.value) in cycle
  }

  /** From every state of `cycle`, the table allows every state of it in the same entity. */
  ghost predicate Unblocked(s: Schema, cycle: set<State>) {
    && (forall n {:trigger CallsOn(s, cycle, n)} :: n in cycle ==> CallsOn(s, cycle, n))
    && (forall a, b {:trigger MayFollow(s, a, b)} :: a in cycle && b in cycle ==> MayFollow(s, a, b))
  }

  predicate MayFollow(s: Schema, a: State, b: State) {
    a.entity == b.entity && a.entity in s && s[a.entity].machine.Some? ==>
      b.status in Targets(s[a.entity].machine.value, a.status)
  }

  /** The row of `n` refers to the row its first effect is for, and its table allows entering `n`. */
  ghost predicate PlacedAt(s: Schema, at: map<string, int>, st: Store, n: State) {
    && FirstEffect(s, n).Some? && FirstEffect(s, n).value.SetRelated?
    && n.entity in at && FirstEffect(s, n).value.entity in at && Key(n.entity, at[n.entity]) in st.rows
    && var row := st.rows[Key(n.entity, at[n.entity])];
       Attr(row, FirstEffect(s, n).value.ref) == Int(at[FirstEffect(s, n).value.entity])
       && n.status in Targets(s[n.entity].machine.value, Attr(row, s[n.entity].machine.value.field))
  }

  /** One row an entity, `at` its id, each referring to the next */
  ghost predicate Placed(s: Schema, cycle: set<State>, at: map<string, int>, st: Store) {
    forall n {:trigger PlacedAt(s, at, st, n)} :: n in cycle ==> PlacedAt(s, at, st, n)
  }

  lemma StaysPlacedAt(s: Schema, cycle: set<State>, at: map<string, int>, st: Store, n: State, x: State)
    requires Unblocked(s, cycle) && n in cycle && x in cycle && PlacedAt(s, at, st, n) && PlacedAt(s, at, st, x)
    ensures PlacedAt(s, at, SetField(st, Key(n.entity, at[n.entity]), s[n.entity].machine.value.field, n.status), x)
  {
    assert CallsOn(s, cycle, x) && MayFollow(s, n, x);
  }

  lemma StaysPlaced(s: Schema, cycle: set<State>, at: map<string, int>, st: Store, n: State)
    requires Unblocked(s, cycle) && Placed(s, cycle, at, st) && n in cycle && PlacedAt(s, at, st, n)
    ensures Placed(s, cycle, at, SetField(st, Key(n.entity, at[n.entity]), s[n.entity].machine.value.field, n.status))
  {
    forall x | x in cycle
      ensures PlacedAt(s, at, SetField(st, Key(n.entity, at[n.entity]), s[n.entity].machine.value.field, n.status), x)
    {
      assert PlacedAt(s, at, st, x);
      StaysPlacedAt(s, cycle, at, st, n, x);
    }
  }

  lemma FirstEffectOverflows(s: Schema, st: Store, k: Key, effs: seq<Effect>, depth: nat)
    requires k in st.rows && effs != [] && effs[0].SetRelated? && effs[0].guarded
    requires effs[0].entity in s && s[effs[0].entity].machine.Some? && Attr(st.rows[k], effs[0].ref) != Null
    requires Transition(s, st, effs[0].entity, Attr(st.rows[k], effs[0].ref), effs[0].value, depth).outcome == TooDeep
    ensures RunEffects(s, st, k, effs, depth).outcome == TooDeep
  {
    assert RunEffect(s, st, k, effs[0], depth).outcome == TooDeep;
  }

  /** No stack is deep enough for a cycle of guarded effects that neither table nor guards stop. */
  lemma {:induction false} CyclicEffectsNeverEnd(s: Schema, cycle: set<State>, at: map<string, int>, st: Store,
                                                 n: State, depth: nat)
    requires n.entity in s && s[n.entity].machine.Some? && n.entity in at
    requires Unblocked(s, cycle) && Placed(s, cycle, at, st) && n in cycle
    ensures Transition(s, st, n.entity, Int(at[n.entity]), n.status, depth).outcome == TooDeep
    decreases depth
  {
    if depth == 0 {
    } else {
      var k, m := Key(n.entity, at[n.entity]), s[n.entity].machine.value;
      assert CallsOn(s, cycle, n) && PlacedAt(s, at, st, n);
      var eff := FirstEffect(s, n).value;
      var next, st1 := State(eff.entity, eff.value), SetField(st, k, m.field, n.status);
      assert MayMove(s, st, k, n.status);
      StaysPlaced(s, cycle, at, st, n);
      assert CallsOn(s, cycle, next) && PlacedAt(s, at, st1, next);
      CyclicEffectsNeverEnd(s, cycle, at, st1, next, depth - 1);
      FirstEffectOverflows(s, st1, k, EffectsFor(m, n.status), depth - 1);
    }
  }

  const PING := Str("ping")

  function PingMachine(): Machine {
    Machine("status", PING, map[PING := [PING]], map[],
            map[PING := [SetRelated("self_id", "Ping", "status", PING, true)]], [])
  }

  function PingSchema(): Schema {
    map["Ping" := Entity(Some(PingMachine()), map[], map[], [], None, None)]
  }

  /** A row that tells itself */
  lemma PingNeverEnds(st: Store, depth: nat)
    requires Key("Ping", 1) in st.rows
    requires Attr(st.rows[Key("Ping", 1)], "status") == PING && Attr(st.rows[Key("Ping", 1)], "self_id") == Int(1)
    ensures Transition(PingSchema(), st, "Ping", Int(1), PING, depth).outcome == TooDeep
  {
    var cycle, at := {State("Ping", PING)}, map["Ping" := 1];
    assert FirstEffect(PingSchema(), State("Ping", PING)) == Some(SetRelated("self_id", "Ping", "status", PING, true));
    assert |"self_id"| != |"status"|;
    assert CallsOn(PingSchema(), cycle, State("Ping", PING));
    assert PlacedAt(PingSchema(), at, st, State("Ping", PING));
    CyclicEffectsNeverEnd(PingSchema(), cycle, at, st, State("Ping", PING), depth);
  }
}
