/** What a transition can touch: the status of rows its effects lead to, and new child rows. */
module Footprint {
  import opened Reachability
  import opened Workflow
  import opened Traces
  import opened Walks

  /** The rows a row's effects can aim at, through the references it holds */
  function EffectRefs(s: Schema, e: string, row: Row): set<Key> {
    if e in s && s[e].machine.Some? then
      var m := s[e].machine.value;
      set to, i | to in m.effects && 0 <= i < |m.effects[to]| && m.effects[to][i].SetRelated?
                  && Attr(row, m.effects[to][i].ref).Int?
        :: Key(m.effects[to][i].entity, Attr(row, m.effects[to][i].ref).i)
    else {}
  }

  function EffectGraph(s: Schema, st: Store): Graph<Key> {
    map k | k in st.rows :: EffectRefs(s, k.entity, st.rows[k])
  }

  /** A column some write of a transition may set: the status, or one a direct effect names */
  ghost predicate Writable(s: Schema, e: string, f: string) {
    || (HasMachine(s, e) && f == s[e].machine.value.field)
    || exists eff :: DeclaredEffect(s, eff) && Sets(eff, e, f)
  }

  predicate Sets(eff: Effect, e: string, f: string) {
    eff.SetRelated? && !eff.guarded && eff.entity == e && eff.field == f
  }

  /** Equal in every column that no transition writes */
  ghost predicate SameButWritten(s: Schema, e: string, a: Row, b: Row) {
    forall f :: !Writable(s, e, f) ==> Attr(a, f) == Attr(b, f)
  }

  /** `later` has every row of `st`, changed in writable columns at most. */
  ghost predicate Later(s: Schema, st: Store, later: Store) {
    forall k :: k in st.rows ==> k in later.rows && SameButWritten(s, k.entity, st.rows[k], later.rows[k])
  }

  lemma MoveIsLater(s: Schema, st: Store, k: Key, to: Value)
    requires Enabled(s, st, Move(k, to))
    ensures Later(s, st, Apply(s, st, Move(k, to)))
    ensures forall x :: x in st.rows && x != k ==> Apply(s, st, Move(k, to)).rows[x] == st.rows[x]
  {
    assert Writable(s, k.entity, s[k.entity].machine.value.field);
  }

  lemma AssignIsLater(s: Schema, st: Store, k: Key, eff: Effect)
    requires Enabled(s, st, Assign(k, eff))
    ensures Later(s, st, Apply(s, st, Assign(k, eff)))
    ensures forall x :: x in st.rows && x != k ==> Apply(s, st, Assign(k, eff)).rows[x] == st.rows[x]
  {
    assert Sets(eff, k.entity, eff.field);
    assert Writable(s, k.entity, eff.field);
  }

  lemma SpawnIsLater(s: Schema, st: Store, eff: Effect, acting: Row)
    requires IdsFresh(st) && Enabled(s, st, Spawn(eff, acting))
    ensures Later(s, st, Apply(s, st, Spawn(eff, acting)))
    ensures forall x :: x in st.rows ==> Apply(s, st, Spawn(eff, acting)).rows[x] == st.rows[x]
  {
  }

  /** A write of a transition changes one row, in a writable column, or adds one. */
  lemma EventIsLater(s: Schema, st: Store, ev: Event)
    requires IdsFresh(st) && Enabled(s, st, ev) && (ev.Move? || ev.Assign? || ev.Spawn?)
    ensures Later(s, st, Apply(s, st, ev)) && IdsFresh(Apply(s, st, ev))
    ensures forall k :: k in st.rows && Apply(s, st, ev).rows[k] != st.rows[k] ==> Writes(ev, k)
  {
    EventKeepsIds(s, st, ev);
    match ev
    case Move(k, to) => MoveIsLater(s, st, k, to);
    case Assign(k, eff) => AssignIsLater(s, st, k, eff);
    case Spawn(eff, acting) => SpawnIsLater(s, st, eff, acting);
  }

  predicate Writes(ev: Event, k: Key) {
    (ev.Move? || ev.Assign?) && ev.key == k
  }

  lemma LaterStill(s: Schema, a: Store, b: Store, c: Store)
    requires Later(s, a, b) && Later(s, b, c)
    ensures Later(s, a, c)
  {
  }

  lemma {:induction false} RunIsLater(s: Schema, st: Store, log: seq<Event>, end: Store)
    requires IdsFresh(st) && EffectsOnly(log) && Run(s, st, log, end)
    ensures Later(s, st, end) && IdsFresh(end)
    ensures forall k :: k in st.rows && end.rows[k] != st.rows[k] ==> exists ev :: ev in log && Writes(ev, k)
    decreases |log|
  {
    if log == [] {
    } else {
      var ev, mid := log[0], Apply(s, st, log[0]);
      assert ev in log && forall v :: v in log[1..] ==> v in log;
      EventIsLater(s, st, ev);
      RunIsLater(s, mid, log[1..], end);
      LaterStill(s, st, mid, end);
      forall k | k in st.rows && end.rows[k] != st.rows[k]
        ensures exists v :: v in log && Writes(v, k)
      {
        assert mid.rows[k] != st.rows[k] ==> Writes(ev, k);
      }
    }
  }

  // ---------------------------------------------------------------------------------
  // References, as they stand when they are followed
  // ---------------------------------------------------------------------------------

  /** `g` has every edge of `h`. */
  ghost predicate Within(h: Graph<Key>, g: Graph<Key>) {
    forall k: Key :: Succ(h, k) <= Succ(g, k)
  }

  /** `g` has every reference held at some moment of the run. */
  ghost predicate Held(s: Schema, st: Store, log: seq<Event>, g: Graph<Key>)
    decreases |log|
  {
    && Within(EffectGraph(s, st), g)
    && (log != [] && Enabled(s, st, log[0]) ==> Held(s, Apply(s, st, log[0]), log[1..], g))
  }

  function Union(g: Graph<Key>, h: Graph<Key>): Graph<Key> {
    map k | k in g.Keys + h.Keys :: Succ(g, k) + Succ(h, k)
  }

  /** The references held at some moment of the run */
  ghost function RefsOver(s: Schema, st: Store, log: seq<Event>): Graph<Key>
    decreases |log|
  {
    if log == [] || !Enabled(s, st, log[0]) then EffectGraph(s, st)
    else Union(EffectGraph(s, st), RefsOver(s, Apply(s, st, log[0]), log[1..]))
  }

  lemma {:induction false} HeldInMore(s: Schema, st: Store, log: seq<Event>, h: Graph<Key>, g: Graph<Key>)
    requires Held(s, st, log, h) && Within(h, g)
    ensures Held(s, st, log, g)
    decreases |log|
  {
    if log == [] || !Enabled(s, st, log[0]) {
    } else {
      HeldInMore(s, Apply(s, st, log[0]), log[1..], h, g);
    }
  }

  lemma UnionWithin(g: Graph<Key>, h: Graph<Key>)
    ensures Within(g, Union(g, h)) && Within(h, Union(g, h))
    ensures forall x :: Within(g, x) && Within(h, x) ==> Within(Union(g, h), x)
  {
  }

  lemma {:induction false} RefsOverAreHeld(s: Schema, st: Store, log: seq<Event>)
    ensures Held(s, st, log, RefsOver(s, st, log))
    decreases |log|
  {
    if log == [] || !Enabled(s, st, log[0]) {
    } else {
      var rest := RefsOver(s, Apply(s, st, log[0]), log[1..]);
      RefsOverAreHeld(s, Apply(s, st, log[0]), log[1..]);
      UnionWithin(EffectGraph(s, st), rest);
      HeldInMore(s, Apply(s, st, log[0]), log[1..], rest, RefsOver(s, st, log));
    }
  }

  /** They are just those: a graph that has each moment's references has no fewer. */
  lemma {:induction false} RefsOverAreLeast(s: Schema, st: Store, log: seq<Event>, g: Graph<Key>)
    requires Held(s, st, log, g)
    ensures Within(RefsOver(s, st, log), g)
    decreases |log|
  {
    if log == [] || !Enabled(s, st, log[0]) {
    } else {
      RefsOverAreLeast(s, Apply(s, st, log[0]), log[1..], g);
      UnionWithin(EffectGraph(s, st), RefsOver(s, Apply(s, st, log[0]), log[1..]));
    }
  }

  lemma {:induction false} HeldSplits(s: Schema, st: Store, a: seq<Event>, mid: Store, b: seq<Event>, g: Graph<Key>)
    requires Run(s, st, a, mid) && Held(s, st, a + b, g)
    ensures Held(s, st, a, g) && Held(s, mid, b, g)
    decreases |a|
  {
    if a == [] {
      assert a + b == b;
    } else {
      assert (a + b)[0] == a[0] && (a + b)[1..] == a[1..] + b;
      HeldSplits(s, Apply(s, st, a[0]), a[1..], mid, b, g);
    }
  }

  /** Some state of `e` fires the effect. */
  ghost predicate Fires(s: Schema, e: string, eff: Effect)
    requires HasMachine(s, e)
  {
    exists to :: eff in EffectsFor(s[e].machine.value, to)
  }

  /** The child was created for row `x`, with the values `x` has, by an effect of its entity. */
  ghost predicate CreatedFor(s: Schema, end: Store, x: Key, ev: Event) {
    && ev.Spawn? && x in end.rows && HasMachine(s, x.entity) && Fires(s, x.entity, ev.effect)
    && SameButWritten(s, x.entity, ev.acting, end.rows[x])
  }

  /** Every row written, and every row a child was created for, is reached from `root`. */
  ghost predicate AllReached(s: Schema, end: Store, g: Graph<Key>, root: Key, log: seq<Event>) {
    && (forall ev :: ev in log && (ev.Move? || ev.Assign?) ==> Reaches(g, root, ev.key))
    && (forall ev :: ev in log && ev.Spawn? ==> CreatedForReached(s, end, g, root, ev))
  }

  ghost predicate CreatedForReached(s: Schema, end: Store, g: Graph<Key>, root: Key, ev: Event) {
    exists x :: CreatedFor(s, end, x, ev) && Reaches(g, root, x)
  }

  lemma ReachedLater(s: Schema, mid: Store, end: Store, g: Graph<Key>, root: Key, log: seq<Event>)
    requires Later(s, mid, end) && AllReached(s, mid, g, root, log)
    ensures AllReached(s, end, g, root, log)
  {
    forall ev | ev in log && ev.Spawn?
      ensures CreatedForReached(s, end, g, root, ev)
    {
      assert CreatedForReached(s, mid, g, root, ev);
      var x :| CreatedFor(s, mid, x, ev) && Reaches(g, root, x);
      assert CreatedFor(s, end, x, ev);
    }
  }

  lemma ReachedThrough(s: Schema, end: Store, g: Graph<Key>, k: Key, target: Key, log: seq<Event>)
    requires target in Succ(g, k) && AllReached(s, end, g, target, log)
    ensures AllReached(s, end, g, k, log)
  {
    forall ev | ev in log && (ev.Move? || ev.Assign?)
      ensures Reaches(g, k, ev.key)
    {
      EdgeThenReaches(g, k, target, ev.key);
    }
    forall ev | ev in log && ev.Spawn?
      ensures CreatedForReached(s, end, g, k, ev)
    {
      assert CreatedForReached(s, end, g, target, ev);
      var x :| CreatedFor(s, end, x, ev) && Reaches(g, target, x);
      EdgeThenReaches(g, k, target, x);
    }
  }

  lemma ReachedBoth(s: Schema, end: Store, g: Graph<Key>, root: Key, a: seq<Event>, b: seq<Event>)
    requires AllReached(s, end, g, root, a) && AllReached(s, end, g, root, b)
    ensures AllReached(s, end, g, root, a + b)
  {
  }

  lemma {:induction false} TransitionReaches(s: Schema, st: Store, e: string, id: Value, to: Value, depth: nat,
                                             g: Graph<Key>)
    requires HasMachine(s, e) && IdsFresh(st)
    requires Held(s, st, Transition(s, st, e, id, to, depth).log, g)
    ensures var r := Transition(s, st, e, id, to, depth);
            r.log != [] ==> id.Int? && AllReached(s, r.store, g, Key(e, id.i), r.log)
    decreases depth, 0, 0
  {
    EntersOrStays(s, st, e, id, to, depth);
    if depth == 0 || !Has(st, e, id) || !MayMove(s, st, Key(e, id.i), to) {
    } else {
      MoveReaches(s, st, Key(e, id.i), to, depth - 1, Transition(s, st, e, id, to, depth), g);
    }
  }

  lemma EntersOrStays(s: Schema, st: Store, e: string, id: Value, to: Value, depth: nat)
    requires HasMachine(s, e)
    ensures var r := Transition(s, st, e, id, to, depth);
            if depth == 0 || !Has(st, e, id) || !MayMove(s, st, Key(e, id.i), to) then r.log == [] && r.store == st
            else
              var entered := Entered(s, st, Key(e, id.i), to, depth - 1);
              r == Prefixed([Move(Key(e, id.i), to)], entered)
  {
  }

  /** The status write and the effects that follow it */
  function Entered(s: Schema, st: Store, k: Key, to: Value, depth: nat): Result
    requires k in st.rows && k.entity in s && s[k.entity].machine.Some?
  {
    var m := s[k.entity].machine.value;
    RunEffects(s, SetField(st, k, m.field, to), k, EffectsFor(m, to), depth)
  }

  lemma {:induction false} MoveReaches(s: Schema, st: Store, k: Key, to: Value, depth: nat, r: Result, g: Graph<Key>)
    requires IdsFresh(st) && Enabled(s, st, Move(k, to)) && Held(s, st, r.log, g)
    requires r == Prefixed([Move(k, to)], Entered(s, st, k, to, depth))
    ensures AllReached(s, r.store, g, k, r.log)
    decreases depth, 2, 0
  {
    var m, entered := s[k.entity].machine.value, Entered(s, st, k, to, depth);
    HeldAfterMove(s, st, k, to, entered.log, g);
    EffectsAreDeclared(s, k.entity, to);
    EffectsReach(s, SetField(st, k, m.field, to), k, EffectsFor(m, to), depth, g);
    ReachedWithMove(s, entered.store, g, k, to, entered.log);
  }

  lemma HeldAfterMove(s: Schema, st: Store, k: Key, to: Value, log: seq<Event>, g: Graph<Key>)
    requires Enabled(s, st, Move(k, to)) && Held(s, st, [Move(k, to)] + log, g)
    ensures Held(s, SetField(st, k, s[k.entity].machine.value.field, to), log, g)
  {
    assert ([Move(k, to)] + log)[1..] == log;
  }

  lemma ReachedWithMove(s: Schema, end: Store, g: Graph<Key>, k: Key, to: Value, log: seq<Event>)
    requires AllReached(s, end, g, k, log)
    ensures AllReached(s, end, g, k, [Move(k, to)] + log)
  {
    ReachesSelf(g, k);
    ReachedBoth(s, end, g, k, [Move(k, to)], log);
  }

  lemma EffectIsLater(s: Schema, st: Store, k: Key, eff: Effect, depth: nat)
    requires k in st.rows && IdsFresh(st) && DeclaredEffect(s, eff)
    ensures var r := RunEffect(s, st, k, eff, depth);
            Run(s, st, r.log, r.store) && Later(s, st, r.store) && IdsFresh(r.store)
  {
    var r := RunEffect(s, st, k, eff, depth);
    EffectIsRun(s, st, k, eff, depth);
    NoCreatesInEffect(s, st, k, eff, depth);
    RunIsLater(s, st, r.log, r.store);
  }

  lemma EffectsAreLater(s: Schema, st: Store, k: Key, effs: seq<Effect>, depth: nat)
    requires k in st.rows && IdsFresh(st) && forall eff :: eff in effs ==> DeclaredEffect(s, eff)
    ensures var r := RunEffects(s, st, k, effs, depth); Later(s, st, r.store) && IdsFresh(r.store)
  {
    var r := RunEffects(s, st, k, effs, depth);
    EffectsAreRun(s, st, k, effs, depth);
    NoCreatesInEffects(s, st, k, effs, depth);
    RunIsLater(s, st, r.log, r.store);
  }

  lemma EffectsAreDeclared(s: Schema, e: string, to: Value)
    requires HasMachine(s, e)
    ensures forall eff :: eff in EffectsFor(s[e].machine.value, to) ==> DeclaredEffect(s, eff) && Fires(s, e, eff)
  {
  }

  lemma {:induction false} EffectsReach(s: Schema, st: Store, k: Key, effs: seq<Effect>, depth: nat, g: Graph<Key>)
    requires k in st.rows && HasMachine(s, k.entity) && IdsFresh(st)
    requires forall eff :: eff in effs ==> DeclaredEffect(s, eff) && Fires(s, k.entity, eff)
    requires Held(s, st, RunEffects(s, st, k, effs, depth).log, g)
    ensures var r := RunEffects(s, st, k, effs, depth); AllReached(s, r.store, g, k, r.log)
    decreases depth, 1, |effs|
  {
    if effs == [] {
    } else {
      var first := RunEffect(s, st, k, effs[0], depth);
      assert effs[0] in effs && forall eff :: eff in effs[1..] ==> eff in effs;
      EffectIsLater(s, st, k, effs[0], depth);
      if first.outcome == Done {
        var rest := RunEffects(s, first.store, k, effs[1..], depth);
        HeldSplits(s, st, first.log, first.store, rest.log, g);
        EffectReaches(s, st, k, effs[0], depth, g);
        EffectsReach(s, first.store, k, effs[1..], depth, g);
        EffectsAreLater(s, first.store, k, effs[1..], depth);
        ReachedLater(s, first.store, rest.store, g, k, first.log);
        ReachedBoth(s, rest.store, g, k, first.log, rest.log);
      } else {
        EffectReaches(s, st, k, effs[0], depth, g);
      }
    }
  }

  lemma FiredIsFollowed(s: Schema, k: Key, row: Row, eff: Effect)
    requires HasMachine(s, k.entity) && Fires(s, k.entity, eff) && eff.SetRelated? && Attr(row, eff.ref).Int?
    ensures Key(eff.entity, Attr(row, eff.ref).i) in EffectRefs(s, k.entity, row)
  {
    var m := s[k.entity].machine.value;
    var to :| eff in EffectsFor(m, to);
    var i :| 0 <= i < |m.effects[to]| && m.effects[to][i] == eff;
  }

  lemma {:induction false} EffectReaches(s: Schema, st: Store, k: Key, eff: Effect, depth: nat, g: Graph<Key>)
    requires k in st.rows && HasMachine(s, k.entity) && IdsFresh(st)
    requires DeclaredEffect(s, eff) && Fires(s, k.entity, eff)
    requires Held(s, st, RunEffect(s, st, k, eff, depth).log, g)
    ensures var r := RunEffect(s, st, k, eff, depth); AllReached(s, r.store, g, k, r.log)
    decreases depth, 1, 0
  {
    var r := RunEffect(s, st, k, eff, depth);
    if eff.CreateChild? {
      EffectIsLater(s, st, k, eff, depth);
      ReachesSelf(g, k);
      assert eff.entity in s ==> CreatedFor(s, r.store, k, Spawn(eff, st.rows[k]));
    } else if r.log != [] {
      var rid := Attr(st.rows[k], eff.ref);
      if eff.guarded {
        TransitionReaches(s, st, eff.entity, rid, eff.value, depth, g);
      } else {
        assert r.log == [Assign(Key(eff.entity, rid.i), eff)];
        ReachesSelf(g, Key(eff.entity, rid.i));
      }
      FiredIsFollowed(s, k, st.rows[k], eff);
      ReachedThrough(s, r.store, g, k, Key(eff.entity, rid.i), r.log);
    }
  }

  // ---------------------------------------------------------------------------------
  // New rows
  // ---------------------------------------------------------------------------------

  function SpawnsIn(ev: Event, e: string): nat {
    if ev.Spawn? && ev.effect.entity == e then 1 else 0
  }

  function Spawns(log: seq<Event>, e: string): nat {
    if log == [] then 0 else SpawnsIn(log[0], e) + Spawns(log[1..], e)
  }

  /** `end` has the rows of `st` and `n(e)` more of each table e, under its next ids. */
  ghost predicate RowsAdded(st: Store, end: Store, n: string -> nat) {
    && (forall e :: NextId(end, e) == NextId(st, e) + n(e))
    && (forall k :: k in end.rows <==>
          (k in st.rows || NextId(st, k.entity) <= k.id < NextId(st, k.entity) + n(k.entity)))
  }

  lemma EventAdds(s: Schema, st: Store, ev: Event)
    requires Enabled(s, st, ev) && (ev.Move? || ev.Assign? || ev.Spawn?)
    ensures RowsAdded(st, Apply(s, st, ev), e => SpawnsIn(ev, e))
  {
  }

  /** Exactly one new row per create effect that fired, under the next ids of its table */
  lemma {:induction false} NewRowsAreSpawned(s: Schema, st: Store, log: seq<Event>, end: Store)
    requires EffectsOnly(log) && Run(s, st, log, end)
    ensures RowsAdded(st, end, e => Spawns(log, e))
    decreases |log|
  {
    if log == [] {
    } else {
      var mid := Apply(s, st, log[0]);
      EventAdds(s, st, log[0]);
      NewRowsAreSpawned(s, mid, log[1..], end);
      RowsAddedTwice(st, mid, end, log);
    }
  }

  lemma RowsAddedTwice(st: Store, mid: Store, end: Store, log: seq<Event>)
    requires log != []
    requires RowsAdded(st, mid, e => SpawnsIn(log[0], e)) && RowsAdded(mid, end, e => Spawns(log[1..], e))
    ensures RowsAdded(st, end, e => Spawns(log, e))
  {
    forall k: Key
      ensures k in end.rows <==>
        (k in st.rows || NextId(st, k.entity) <= k.id < NextId(st, k.entity) + Spawns(log, k.entity))
    {
      assert NextId(mid, k.entity) == NextId(st, k.entity) + SpawnsIn(log[0], k.entity);
    }
  }

  /** The row is what the create effect makes of the acting row, written to since perhaps. */
  ghost predicate IsChild(s: Schema, end: Store, k: Key, ev: Event) {
    ev.Spawn? && ev.effect.CreateChild? && k in end.rows && k.entity in s
    && SameButWritten(s, k.entity, NewRow(s[k.entity], ChildValues(ev.effect.values, ev.acting), k.id), end.rows[k])
  }

  /** The write before which `n` create effects of a table have fired */
  lemma {:induction false} SpawnAt(log: seq<Event>, e: string, n: nat) returns (i: nat)
    requires n < Spawns(log, e)
    ensures i < |log| && SpawnsIn(log[i], e) == 1 && Spawns(log[..i], e) == n
    decreases |log|
  {
    if SpawnsIn(log[0], e) == 1 && n == 0 {
      i := 0;
    } else {
      i := SpawnAt(log[1..], e, n - SpawnsIn(log[0], e));
      assert log[..i + 1][0] == log[0] && log[..i + 1][1..] == log[1..][..i];
      i := i + 1;
    }
  }

  lemma {:induction false} RunSplits(s: Schema, st: Store, log: seq<Event>, end: Store, i: nat) returns (mid: Store)
    requires Run(s, st, log, end) && i <= |log|
    ensures Run(s, st, log[..i], mid) && Run(s, mid, log[i..], end)
    decreases |log|
  {
    if i == 0 {
      mid := st;
      assert log[0..] == log;
    } else {
      mid := RunSplits(s, Apply(s, st, log[0]), log[1..], end, i - 1);
      assert log[..i][0] == log[0] && log[..i][1..] == log[1..][..i - 1] && log[1..][i - 1..] == log[i..];
    }
  }

  lemma FreshChild(s: Schema, st: Store, mid: Store, end: Store, ev: Event, k: Key)
    requires ev.Spawn? && Enabled(s, st, ev) && mid == Apply(s, st, ev) && Later(s, mid, end)
    requires k.entity == ev.effect.entity && k.id == NextId(st, k.entity)
    ensures IsChild(s, end, k, ev)
  {
    assert mid.rows[k] == NewRow(s[k.entity], ChildValues(ev.effect.values, ev.acting), k.id);
  }

  /** Each create effect that fires leaves its row, under the id that is next in its turn. */
  lemma SpawnLeavesChild(s: Schema, st: Store, log: seq<Event>, end: Store, i: nat, k: Key)
    requires IdsFresh(st) && EffectsOnly(log) && Run(s, st, log, end)
    requires i < |log| && log[i].Spawn? && log[i].effect.entity == k.entity
    requires k.id == NextId(st, k.entity) + Spawns(log[..i], k.entity)
    ensures IsChild(s, end, k, log[i])
  {
    var mid := RunSplits(s, st, log, end, i);
    SpawnsBefore(s, st, log[..i], mid, k.entity);
    NextIsLater(s, mid, log[i..], end);
    FreshChild(s, mid, Apply(s, mid, log[i]), end, log[i], k);
  }

  lemma SpawnsBefore(s: Schema, st: Store, log: seq<Event>, mid: Store, e: string)
    requires IdsFresh(st) && EffectsOnly(log) && Run(s, st, log, mid)
    ensures NextId(mid, e) == NextId(st, e) + Spawns(log, e) && IdsFresh(mid)
  {
    NewRowsAreSpawned(s, st, log, mid);
    assert RowsAdded(st, mid, x => Spawns(log, x));
    RunIsLater(s, st, log, mid);
  }

  lemma NextIsLater(s: Schema, st: Store, log: seq<Event>, end: Store)
    requires IdsFresh(st) && EffectsOnly(log) && Run(s, st, log, end) && log != []
    ensures Later(s, Apply(s, st, log[0]), end)
  {
    assert log[0] in log && forall ev :: ev in log[1..] ==> ev in log;
    EventIsLater(s, st, log[0]);
    RunIsLater(s, Apply(s, st, log[0]), log[1..], end);
  }

  /** Row `k` is the child of the create effect that fired in its turn, made from a row that references lead to
      from `root`. */
  ghost predicate MadeFromReached(s: Schema, st: Store, end: Store, g: Graph<Key>, root: Key, log: seq<Event>, k: Key)
  {
    exists i :: 0 <= i < |log| && ChildOf(s, st, end, g, root, log, k, i)
  }

  ghost predicate ChildOf(s: Schema, st: Store, end: Store, g: Graph<Key>, root: Key, log: seq<Event>, k: Key, i: int)
    requires 0 <= i < |log|
  {
    && k.id == NextId(st, k.entity) + Spawns(log[..i], k.entity)
    && log[i].Spawn? && log[i].effect.entity == k.entity
    && IsChild(s, end, k, log[i]) && CreatedForReached(s, end, g, root, log[i])
  }

  lemma NewRowIsMade(s: Schema, st: Store, log: seq<Event>, end: Store, g: Graph<Key>, root: Key, k: Key)
    requires IdsFresh(st) && EffectsOnly(log) && Run(s, st, log, end) && AllReached(s, end, g, root, log)
    requires NextId(st, k.entity) <= k.id < NextId(st, k.entity) + Spawns(log, k.entity)
    ensures MadeFromReached(s, st, end, g, root, log, k)
  {
    var i := SpawnAt(log, k.entity, k.id - NextId(st, k.entity));
    SpawnLeavesChild(s, st, log, end, i, k);
    ChildIsMade(s, st, end, g, root, log, k, i);
  }

  lemma ChildIsMade(s: Schema, st: Store, end: Store, g: Graph<Key>, root: Key, log: seq<Event>, k: Key, i: nat)
    requires i < |log| && SpawnsIn(log[i], k.entity) == 1 && IsChild(s, end, k, log[i])
    requires k.id == NextId(st, k.entity) + Spawns(log[..i], k.entity) && AllReached(s, end, g, root, log)
    ensures MadeFromReached(s, st, end, g, root, log, k)
  {
    assert log[i] in log;
    assert ChildOf(s, st, end, g, root, log, k, i);
  }

  // ---------------------------------------------------------------------------------
  // The footprint
  // ---------------------------------------------------------------------------------

  /** Nothing is deleted; a row that was there changes in writable columns at most, and only if `g` leads to it
      from `root`; what is new is one row for each create effect that fired, in order, made from the values of a
      row `g` leads to. */
  ghost predicate Footprint(s: Schema, st: Store, end: Store, log: seq<Event>, g: Graph<Key>, root: Key) {
    && Later(s, st, end)
    && (forall k :: k in st.rows && end.rows[k] != st.rows[k] ==> Reaches(g, root, k))
    && (forall k :: k in end.rows && k !in st.rows <==>
          NextId(st, k.entity) <= k.id < NextId(st, k.entity) + Spawns(log, k.entity))
    && (forall k :: k in end.rows && k !in st.rows ==> MadeFromReached(s, st, end, g, root, log, k))
  }

  lemma FootprintWithin(s: Schema, st: Store, e: string, id: Value, to: Value, depth: nat, g: Graph<Key>)
    requires HasMachine(s, e) && IdsFresh(st) && Held(s, st, Transition(s, st, e, id, to, depth).log, g)
    ensures var r := Transition(s, st, e, id, to, depth);
            if id.Int? then Footprint(s, st, r.store, r.log, g, Key(e, id.i)) else r.store == st
  {
    var r := Transition(s, st, e, id, to, depth);
    TransitionIsRun(s, st, e, id, to, depth);
    NoCreatesInTransition(s, st, e, id, to, depth);
    RunIsLater(s, st, r.log, r.store);
    TransitionReaches(s, st, e, id, to, depth, g);
    NewRowsAreSpawned(s, st, r.log, r.store);
    forall k | id.Int? && k in r.store.rows && k !in st.rows
      ensures MadeFromReached(s, st, r.store, g, Key(e, id.i), r.log, k)
    {
      assert r.log != [];
      NewRowIsMade(s, st, r.log, r.store, g, Key(e, id.i), k);
    }
  }

  /** The footprint of any transition() call, whatever its outcome and whatever effects the domain declares. The
      references that count are those held at some moment of the call. */
  lemma TransitionFootprint(s: Schema, st: Store, e: string, id: Value, to: Value, depth: nat)
    requires HasMachine(s, e) && IdsFresh(st)
    ensures var r := Transition(s, st, e, id, to, depth);
            if id.Int? then Footprint(s, st, r.store, r.log, RefsOver(s, st, r.log), Key(e, id.i)) else r.store == st
  {
    var log := Transition(s, st, e, id, to, depth).log;
    RefsOverAreHeld(s, st, log);
    FootprintWithin(s, st, e, id, to, depth, RefsOver(s, st, log));
  }

  /** No effect follows a column that some write sets. */
  ghost predicate RefsFixed(s: Schema) {
    forall e, to, eff :: HasMachine(s, e) && eff in EffectsFor(s[e].machine.value, to) && eff.SetRelated? ==>
      !Writable(s, e, eff.ref)
  }

  lemma SameRefs(s: Schema, e: string, a: Row, b: Row)
    requires RefsFixed(s) && SameButWritten(s, e, a, b)
    ensures EffectRefs(s, e, a) == EffectRefs(s, e, b)
  {
    if HasMachine(s, e) {
      var m := s[e].machine.value;
      forall to, i | to in m.effects && 0 <= i < |m.effects[to]| && m.effects[to][i].SetRelated?
        ensures Attr(a, m.effects[to][i].ref) == Attr(b, m.effects[to][i].ref)
      {
        assert m.effects[to][i] in EffectsFor(m, to);
      }
    }
  }

  lemma {:induction false} HeldAtTheEnd(s: Schema, st: Store, log: seq<Event>, end: Store)
    requires RefsFixed(s) && IdsFresh(st) && EffectsOnly(log) && Run(s, st, log, end)
    ensures Held(s, st, log, EffectGraph(s, end))
    decreases |log|
  {
    RunIsLater(s, st, log, end);
    forall k | k in st.rows
      ensures Succ(EffectGraph(s, st), k) == Succ(EffectGraph(s, end), k)
    {
      SameRefs(s, k.entity, st.rows[k], end.rows[k]);
    }
    if log == [] {
    } else {
      assert log[0] in log && forall ev :: ev in log[1..] ==> ev in log;
      EventIsLater(s, st, log[0]);
      HeldAtTheEnd(s, Apply(s, st, log[0]), log[1..], end);
    }
  }

  /** Where no effect follows a column that some write sets, the references of the final store tell it all. */
  lemma FixedRefsFootprint(s: Schema, st: Store, e: string, id: Value, to: Value, depth: nat)
    requires HasMachine(s, e) && RefsFixed(s) && IdsFresh(st)
    ensures var r := Transition(s, st, e, id, to, depth);
            if id.Int? then Footprint(s, st, r.store, r.log, EffectGraph(s, r.store), Key(e, id.i)) else r.store == st
  {
    var r := Transition(s, st, e, id, to, depth);
    TransitionIsRun(s, st, e, id, to, depth);
    NoCreatesInTransition(s, st, e, id, to, depth);
    HeldAtTheEnd(s, st, r.log, r.store);
    FootprintWithin(s, st, e, id, to, depth, EffectGraph(s, r.store));
  }

  /** Every set_related on an entity of the domain is guarded. */
  ghost predicate GuardedOnly(s: Schema) {
    forall eff :: DeclaredEffect(s, eff) && eff.SetRelated? && eff.entity in s ==> eff.guarded
  }

  /** Then the status is all that is written. */
  lemma GuardedWritesStatus(s: Schema, e: string, f: string)
    requires GuardedOnly(s) && e in s
    ensures Writable(s, e, f) <==> HasMachine(s, e) && f == s[e].machine.value.field
  {
  }
}
