/** Exactly when some stack is deep enough for every store: when no effects call for each other in a cycle. */
module StackDepth {
  import opened Reachability
  import opened Workflow
  import opened Walks
  import opened Termination

  /** No transition needs more room than `bound`. */
  ghost predicate Enough(s: Schema, bound: nat) {
    forall st, e, id, to, depth: nat :: HasMachine(s, e) && bound < depth ==>
      Transition(s, st, e, id, to, depth).outcome != TooDeep
  }

  /** The next state of a cycle: what entering `n` first calls for */
  function Next(s: Schema, n: State): State {
    var eff := FirstEffect(s, n);
    if eff.Some? && eff.value.SetRelated? then State(eff.value.entity, eff.value.value) else n
  }

  /** Some reachable status leads to `n`, and entering it calls, unguarded, for the next state. */
  ghost predicate MayCall(s: Schema, n: State) {
    && HasMachine(s, n.entity) && Enterable(s[n.entity].machine.value, n.status)
    && GuardsFor(s[n.entity].machine.value, n.status) == []
    && FirstEffect(s, n).Some? && FirstEffect(s, n).value.SetRelated? && FirstEffect(s, n).value.guarded
    && FirstEffect(s, n).value.ref != s[n.entity].machine.value.field
  }

  ghost predicate IsCycle(s: Schema, cycle: set<State>) {
    forall n {:trigger MayCall(s, n)} :: n in cycle ==> MayCall(s, n) && Next(s, n) in cycle
  }

  // ---------------------------------------------------------------------------------
  // A chain of rows, each referring to the next, as long as the stack is deep
  // ---------------------------------------------------------------------------------

  /** Rows i, i + 1, ... of a chain that starts at state `n`: each may enter its state and refers to the next. */
  ghost predicate ChainFrom(s: Schema, rows: map<Key, Row>, n: State, i: int, length: nat)
    decreases length
  {
    && HasMachine(s, n.entity)
    && (length == 0 || (LinkAt(s, rows, n, i) && ChainFrom(s, rows, Next(s, n), i + 1, length - 1)))
  }

  ghost predicate LinkAt(s: Schema, rows: map<Key, Row>, n: State, i: int) {
    && MayCall(s, n) && Key(n.entity, i) in rows
    && n.status in Targets(s[n.entity].machine.value, Attr(rows[Key(n.entity, i)], s[n.entity].machine.value.field))
    && Attr(rows[Key(n.entity, i)], FirstEffect(s, n).value.ref) == Int(i + 1)
  }

  lemma {:induction false} ChainElsewhere(s: Schema, a: map<Key, Row>, b: map<Key, Row>, n: State, i: int, length: nat)
    requires ChainFrom(s, a, n, i, length)
    requires forall k :: k in a && i <= k.id ==> k in b && b[k] == a[k]
    ensures ChainFrom(s, b, n, i, length)
    decreases length
  {
    if length == 0 {
    } else {
      ChainElsewhere(s, a, b, Next(s, n), i + 1, length - 1);
    }
  }

  lemma {:induction false} ChainOverflows(s: Schema, st: Store, n: State, i: int, depth: nat)
    requires HasMachine(s, n.entity) && ChainFrom(s, st.rows, n, i, depth)
    ensures Transition(s, st, n.entity, Int(i), n.status, depth).outcome == TooDeep
    decreases depth
  {
    if depth == 0 {
    } else {
      var k, m := Key(n.entity, i), s[n.entity].machine.value;
      var st1 := SetField(st, k, m.field, n.status);
      assert LinkAt(s, st.rows, n, i) && MayMove(s, st, k, n.status);
      ChainElsewhere(s, st.rows, st1.rows, Next(s, n), i + 1, depth - 1);
      ChainOverflows(s, st1, Next(s, n), i + 1, depth - 1);
      assert Attr(st1.rows[k], FirstEffect(s, n).value.ref) == Int(i + 1);
      FirstEffectOverflows(s, st1, k, EffectsFor(m, n.status), depth - 1);
    }
  }

  /** Every row has a reachable status and an id from `i` on. */
  ghost predicate ReachableFrom(s: Schema, rows: map<Key, Row>, i: int, length: nat) {
    forall k :: k in rows ==>
      && i <= k.id < i + length && HasMachine(s, k.entity)
      && Walk(s[k.entity].machine.value, s[k.entity].machine.value.initial,
              Attr(rows[k], s[k.entity].machine.value.field))
  }

  lemma {:induction false} BuildChain(s: Schema, cycle: set<State>, n: State, i: int, length: nat)
    returns (rows: map<Key, Row>)
    requires IsCycle(s, cycle) && n in cycle
    ensures ChainFrom(s, rows, n, i, length) && ReachableFrom(s, rows, i, length)
    decreases length
  {
    assert MayCall(s, n);
    if length == 0 {
      rows := map[];
    } else {
      var rest := BuildChain(s, cycle, Next(s, n), i + 1, length - 1);
      var m, k := s[n.entity].machine.value, Key(n.entity, i);
      var a :| Walk(m, m.initial, a) && n.status in Targets(m, a);
      var row: Row := map[m.field := a, FirstEffect(s, n).value.ref := Int(i + 1)];
      rows := rest[k := row];
      assert LinkAt(s, rows, n, i);
      ChainElsewhere(s, rest, rows, Next(s, n), i + 1, length - 1);
    }
  }

  /** For every depth a chain of rows round the cycle, with fresh ids and reachable statuses, that overflows it */
  lemma CycleOverflowsAnyStack(s: Schema, cycle: set<State>, n: State, depth: nat) returns (st: Store)
    requires IsCycle(s, cycle) && n in cycle
    ensures HasMachine(s, n.entity) && Good(s, st)
    ensures Transition(s, st, n.entity, Int(1), n.status, depth).outcome == TooDeep
  {
    var rows := BuildChain(s, cycle, n, 1, depth);
    st := Store(rows, map e | e in s :: depth + 1);
    assert MayCall(s, n);
    ChainOverflows(s, st, n, 1, depth);
  }

  // ---------------------------------------------------------------------------------
  // The exact condition
  // ---------------------------------------------------------------------------------

  /** A state that calls for another can be entered from a reachable status, has no guards and no other effect,
      and finds its row by a reference. */
  ghost predicate LoneCalls(s: Schema) {
    forall n {:trigger Calls(s, n)} :: Calls(s, n) != {} ==>
      MayCall(s, n) && |EffectsFor(s[n.entity].machine.value, n.status)| == 1
  }

  lemma CycleOfCalls(s: Schema, a: State) returns (cycle: set<State>)
    requires LoneCalls(s) && ReachesByEdge(CallGraph(s), a, a)
    ensures IsCycle(s, cycle) && a in cycle
  {
    var g := CallGraph(s);
    cycle := set n | n in Nodes(g) && OnCycle(g, a, n);
    forall n | n in cycle
      ensures MayCall(s, n) && Next(s, n) in cycle
    {
      var next := CycleGoesOn(g, a, n);
      CallEdges(s, n);
      assert next in Calls(s, n) && Calls(s, n) != {};
      assert next == Next(s, n);
    }
    ReachesSelf(g, a);
    var next := CycleGoesOn(g, a, a);
  }

  /** For domains of such effects: some stack is deep enough for every transition in every store exactly when
      no state calls for itself, directly or through others. */
  lemma StackBoundExactly(s: Schema)
    requires LoneCalls(s)
    ensures (exists bound: nat :: Enough(s, bound)) <==> Acyclic(CallGraph(s))
  {
    if Acyclic(CallGraph(s)) {
      forall st, e, id, to, depth: nat | HasMachine(s, e) && |Nodes(CallGraph(s))| < depth
        ensures Transition(s, st, e, id, to, depth).outcome != TooDeep
      {
        AcyclicTransitionsTerminate(s, st, e, id, to, depth, depth);
      }
      assert Enough(s, |Nodes(CallGraph(s))|);
    } else {
      var a :| ReachesByEdge(CallGraph(s), a, a);
      var cycle := CycleOfCalls(s, a);
      forall bound: nat
        ensures !Enough(s, bound)
      {
        var st := CycleOverflowsAnyStack(s, cycle, a, bound + 1);
      }
    }
  }
}
