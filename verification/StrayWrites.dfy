/** Writes of a status that do not go through transition(): when they do harm, one by one and for a domain. */
module StrayWrites {
  import opened Reachability
  import opened Workflow
  import opened Wrappers
  import opened Walks

  /** A new row, from create() or a create effect, keeps statuses reachable exactly when its status is left to
      default or one the table reaches. */
  lemma NewRowIsReachable(s: Schema, st: Store, e: string, data: Row)
    requires HasMachine(s, e) && s[e].machine.value.field != "id"
    requires StatusesReachable(s, st) && IdsFresh(st)
    ensures StatusesReachable(s, InsertRow(s, st, e, data)) <==>
            MayStart(s[e].machine.value, Attr(data, s[e].machine.value.field))
  {
    var after := InsertRow(s, st, e, data);
    NewRowStarts(s, st, e, data);
    forall x | x in after.rows && x != Key(e, NextId(st, e)) && HasMachine(s, x.entity)
      ensures Walk(s[x.entity].machine.value, s[x.entity].machine.value.initial, Status(s, after, x))
    {
      assert x in st.rows && after.rows[x] == st.rows[x];
    }
  }

  /** A status written outside transition(), by a direct effect or an update, stays reachable exactly when
      the table reaches it. */
  lemma WrittenStatusIsReachable(s: Schema, st: Store, k: Key, v: Value)
    requires HasMachine(s, k.entity) && k in st.rows && StatusesReachable(s, st)
    ensures StatusesReachable(s, SetField(st, k, s[k.entity].machine.value.field, v)) <==>
            Walk(s[k.entity].machine.value, s[k.entity].machine.value.initial, v)
  {
    var after := SetField(st, k, s[k.entity].machine.value.field, v);
    assert Status(s, after, k) == v;
    forall x | x in after.rows && x != k && HasMachine(s, x.entity)
      ensures Walk(s[x.entity].machine.value, s[x.entity].machine.value.initial, Status(s, after, x))
    {
      assert after.rows[x] == st.rows[x];
    }
  }

  /** It leaves the row on a walk exactly when the table leads from the status the row had to the one written:
      one that is reachable from `initial` can still be behind the row. */
  lemma WrittenStatusWalks(s: Schema, before: Store, st: Store, k: Key, v: Value)
    requires HasMachine(s, k.entity) && k in before.rows && k in st.rows && HasWalked(s, before, st)
    ensures HasWalked(s, before, SetField(st, k, s[k.entity].machine.value.field, v)) <==>
            Walk(s[k.entity].machine.value, Status(s, before, k), v)
  {
    var after := SetField(st, k, s[k.entity].machine.value.field, v);
    assert Status(s, after, k) == v;
    forall x | x in before.rows && x in after.rows && x != k && HasMachine(s, x.entity)
      ensures Walk(s[x.entity].machine.value, Status(s, before, x), Status(s, after, x))
    {
      assert after.rows[x] == st.rows[x];
    }
  }

  // ---------------------------------------------------------------------------------
  // Effects: the exact condition, on transition()
  // ---------------------------------------------------------------------------------

  /** Entering `to` in `e`, the effect stores no status that breaks a table: it is guarded or names another
      column; every reachable status of the target leads to the one it writes; or the child is created with no
      status, with one its table reaches, or with a copy of the entered status that its table reaches. */
  ghost predicate Harmless(s: Schema, e: string, to: Value, eff: Effect)
    requires HasMachine(s, e)
  {
    HasMachine(s, eff.entity) ==>
      var m := s[eff.entity].machine.value;
      match eff
      case SetRelated(_, _, field, value, guarded) => guarded || field != m.field || AllWalkTo(m, value)
      case CreateChild(_, values) =>
        m.field in values ==>
          match values[m.field]
          case Const(v) => MayStart(m, v)
          case Copy(g) => g == s[e].machine.value.field && MayStart(m, to)
  }

  /** A state has one effect at most; one that has any has no guards, and finds its row by a reference. */
  ghost predicate LoneEffects(s: Schema) {
    forall e, to, eff :: HasMachine(s, e) && eff in EffectsFor(s[e].machine.value, to) ==> Lone(s, e, to, eff)
  }

  ghost predicate Lone(s: Schema, e: string, to: Value, eff: Effect)
    requires HasMachine(s, e)
  {
    && EffectsFor(s[e].machine.value, to) == [eff] && GuardsFor(s[e].machine.value, to) == []
    && (eff.SetRelated? ==> eff.ref != s[e].machine.value.field)
  }

  /** Each state a reachable status leads to has harmless effects. */
  ghost predicate HarmlessEffects(s: Schema) {
    forall e, to, eff ::
      HasMachine(s, e) && eff in EffectsFor(s[e].machine.value, to) && Enterable(s[e].machine.value, to) ==>
        Harmless(s, e, to, eff)
  }

  ghost predicate PlainStatuses(s: Schema) {
    forall e :: HasMachine(s, e) ==> s[e].machine.value.field != "id"
  }

  /** `end` is a store like `st` in which every row has walked. */
  ghost predicate StaysOn(s: Schema, st: Store, end: Store) {
    && Good(s, end) && HasWalked(s, st, end) && st.rows.Keys <= end.rows.Keys
    && (forall e :: NextId(st, e) <= NextId(end, e))
  }

  ghost predicate TransitionStaysOn(s: Schema, st: Store, e: string, id: Value, to: Value, depth: nat)
    requires HasMachine(s, e)
  {
    Good(s, st) ==> StatusesReachable(s, Transition(s, st, e, id, to, depth).store)
                    && HasWalked(s, st, Transition(s, st, e, id, to, depth).store)
  }

  ghost predicate AllTransitionsStayOn(s: Schema) {
    forall st, e, id, to, depth: nat :: HasMachine(s, e) ==> TransitionStaysOn(s, st, e, id, to, depth)
  }

  /** For a domain of such effects: no transition from any store with reachable statuses takes a row off its
      table exactly when the effects of every state that can be entered are harmless. */
  lemma EffectsAreTheOnlyWayOff(s: Schema)
    requires PlainStatuses(s) && LoneEffects(s)
    ensures AllTransitionsStayOn(s) <==> HarmlessEffects(s)
  {
    if HarmlessEffects(s) {
      forall st, e, id, to, depth: nat | HasMachine(s, e)
        ensures TransitionStaysOn(s, st, e, id, to, depth)
      {
        if Good(s, st) {
          HarmlessTransition(s, st, e, id, to, depth);
        }
      }
    } else {
      var e, to, eff :| HasMachine(s, e) && eff in EffectsFor(s[e].machine.value, to)
                        && Enterable(s[e].machine.value, to) && !Harmless(s, e, to, eff);
      assert Lone(s, e, to, eff);
      var st := HarmfulStore(s, e, to, eff);
      assert !TransitionStaysOn(s, st, e, Int(1), to, 1);
    }
  }

  // Harmless effects

  lemma StaysOnSelf(s: Schema, st: Store)
    requires Good(s, st)
    ensures StaysOn(s, st, st)
  {
    StandsStill(s, st);
  }

  lemma StaysOnTwice(s: Schema, a: Store, b: Store, c: Store)
    requires StaysOn(s, a, b) && StaysOn(s, b, c)
    ensures StaysOn(s, a, c)
  {
    forall k | k in a.rows && HasMachine(s, k.entity)
      ensures Walk(s[k.entity].machine.value, Status(s, a, k), Status(s, c, k))
    {
      ReachesTransitive(Table(s[k.entity].machine.value), Status(s, a, k), Status(s, b, k), Status(s, c, k));
    }
  }

  lemma OtherColumnStaysOn(s: Schema, st: Store, k: Key, f: string, v: Value)
    requires Good(s, st) && k in st.rows && (HasMachine(s, k.entity) ==> f != s[k.entity].machine.value.field)
    ensures StaysOn(s, st, SetField(st, k, f, v))
  {
    var after := SetField(st, k, f, v);
    StandsStill(s, st);
    assert forall x :: x in st.rows && HasMachine(s, x.entity) ==> Status(s, after, x) == Status(s, st, x);
  }

  lemma StatusStaysOn(s: Schema, st: Store, k: Key, v: Value)
    requires Good(s, st) && k in st.rows && HasMachine(s, k.entity)
    requires Walk(s[k.entity].machine.value, Status(s, st, k), v)
    ensures StaysOn(s, st, SetField(st, k, s[k.entity].machine.value.field, v))
  {
    var m := s[k.entity].machine.value;
    StandsStill(s, st);
    ReachesTransitive(Table(m), m.initial, Status(s, st, k), v);
    WrittenStatusIsReachable(s, st, k, v);
    WrittenStatusWalks(s, st, st, k, v);
  }

  lemma ChildStaysOn(s: Schema, st: Store, e: string, data: Row)
    requires Good(s, st) && e in s && PlainStatuses(s)
    requires HasMachine(s, e) ==> MayStart(s[e].machine.value, Attr(data, s[e].machine.value.field))
    ensures StaysOn(s, st, InsertRow(s, st, e, data))
  {
    var after := InsertRow(s, st, e, data);
    StandsStill(s, st);
    if HasMachine(s, e) {
      NewRowIsReachable(s, st, e, data);
    }
    assert forall k :: k in st.rows ==> after.rows[k] == st.rows[k];
  }

  lemma LoneRun(s: Schema, st: Store, k: Key, eff: Effect, depth: nat)
    requires k in st.rows
    ensures RunEffects(s, st, k, [eff], depth).store == RunEffect(s, st, k, eff, depth).store
  {
    var first := RunEffect(s, st, k, eff, depth);
    assert [eff][1..] == [];
    assert RunEffects(s, first.store, k, [], depth).store == first.store;
  }

  lemma {:induction false} HarmlessTransition(s: Schema, st: Store, e: string, id: Value, to: Value, depth: nat)
    requires HasMachine(s, e) && PlainStatuses(s) && LoneEffects(s) && HarmlessEffects(s) && Good(s, st)
    ensures StaysOn(s, st, Transition(s, st, e, id, to, depth).store)
    decreases depth, 1
  {
    LoneTransition(s, st, e, id, to, depth);
    if depth == 0 || !Has(st, e, id) || !MayMove(s, st, Key(e, id.i), to) {
      StaysOnSelf(s, st);
    } else {
      var k, m := Key(e, id.i), s[e].machine.value;
      var st1, effs := SetField(st, k, m.field, to), EffectsFor(m, to);
      MoveStaysOn(s, st, k, to);
      if effs != [] {
        assert effs[0] in effs;
        assert Harmless(s, e, to, effs[0]);
        HarmlessEffect(s, st1, k, to, effs[0], depth - 1);
        StaysOnTwice(s, st, st1, RunEffect(s, st1, k, effs[0], depth - 1).store);
      }
    }
  }

  /** The status write, then the one effect there may be; or nothing */
  lemma LoneTransition(s: Schema, st: Store, e: string, id: Value, to: Value, depth: nat)
    requires HasMachine(s, e) && LoneEffects(s)
    ensures var end := Transition(s, st, e, id, to, depth).store;
            if depth == 0 || !Has(st, e, id) || !MayMove(s, st, Key(e, id.i), to) then end == st
            else
              var m, k := s[e].machine.value, Key(e, id.i);
              var st1, effs := SetField(st, k, m.field, to), EffectsFor(m, to);
              end == if effs == [] then st1 else RunEffect(s, st1, k, effs[0], depth - 1).store
  {
    if depth == 0 || !Has(st, e, id) || !MayMove(s, st, Key(e, id.i), to) {
    } else {
      var m, k := s[e].machine.value, Key(e, id.i);
      var st1, effs := SetField(st, k, m.field, to), EffectsFor(m, to);
      if effs == [] {
        assert RunEffects(s, st1, k, [], depth - 1).store == st1;
      } else {
        assert effs[0] in effs;
        assert Lone(s, e, to, effs[0]);
        LoneRun(s, st1, k, effs[0], depth - 1);
      }
    }
  }

  lemma MoveStaysOn(s: Schema, st: Store, k: Key, to: Value)
    requires Good(s, st) && k in st.rows && HasMachine(s, k.entity) && MayMove(s, st, k, to)
    ensures var m := s[k.entity].machine.value;
            var st1 := SetField(st, k, m.field, to);
            Enterable(m, to) && StaysOn(s, st, st1) && Status(s, st1, k) == to
  {
    var m := s[k.entity].machine.value;
    assert Walk(m, m.initial, Status(s, st, k));
    MoveWalks(m, Status(s, st, k), to);
    StatusStaysOn(s, st, k, to);
  }

  lemma {:induction false} HarmlessEffect(s: Schema, st: Store, k: Key, to: Value, eff: Effect, depth: nat)
    requires PlainStatuses(s) && LoneEffects(s) && HarmlessEffects(s) && Good(s, st)
    requires k in st.rows && HasMachine(s, k.entity) && Status(s, st, k) == to && Harmless(s, k.entity, to, eff)
    ensures StaysOn(s, st, RunEffect(s, st, k, eff, depth).store)
    decreases depth, 2
  {
    StaysOnSelf(s, st);
    match eff
    case CreateChild(e2, values) =>
      if e2 in s {
        ChildStaysOn(s, st, e2, ChildValues(values, st.rows[k]));
      }
    case SetRelated(ref, e2, field, value, guarded) =>
      var rid := Attr(st.rows[k], ref);
      if rid != Null && e2 in s {
        if guarded && s[e2].machine.Some? {
          HarmlessTransition(s, st, e2, rid, value, depth);
        } else if !guarded && Has(st, e2, rid) {
          HarmlessWrite(s, st, Key(e2, rid.i), field, value);
        }
      }
  }

  lemma HarmlessWrite(s: Schema, st: Store, k: Key, field: string, value: Value)
    requires Good(s, st) && k in st.rows
    requires HasMachine(s, k.entity) && field == s[k.entity].machine.value.field ==>
               AllWalkTo(s[k.entity].machine.value, value)
    ensures StaysOn(s, st, SetField(st, k, field, value))
  {
    if HasMachine(s, k.entity) && field == s[k.entity].machine.value.field {
      StatusStaysOn(s, st, k, value);
    } else {
      OtherColumnStaysOn(s, st, k, field, value);
    }
  }

  // Harmful ones

  /** A store from which entering the state does the harm */
  lemma HarmfulStore(s: Schema, e: string, to: Value, eff: Effect) returns (st: Store)
    requires HasMachine(s, e) && PlainStatuses(s) && Lone(s, e, to, eff)
    requires Enterable(s[e].machine.value, to) && !Harmless(s, e, to, eff)
    ensures Good(s, st) && !TransitionStaysOn(s, st, e, Int(1), to, 1)
  {
    var m := s[e].machine.value;
    var a :| Walk(m, m.initial, a) && to in Targets(m, a);
    if eff.SetRelated? {
      var b :| Walk(s[eff.entity].machine.value, s[eff.entity].machine.value.initial, b)
               && !Walk(s[eff.entity].machine.value, b, eff.value);
      st := DirectEffectLeaves(s, e, a, to, eff, b);
    } else {
      st := CreateEffectLeaves(s, e, a, to, eff);
    }
  }

  lemma DirectEffectRuns(s: Schema, st: Store, e: string, to: Value, eff: Effect)
    requires HasMachine(s, e) && Lone(s, e, to, eff) && eff.SetRelated? && !eff.guarded && eff.entity in s
    requires Key(e, 1) in st.rows && Key(eff.entity, 2) in st.rows && Attr(st.rows[Key(e, 1)], eff.ref) == Int(2)
    requires to in Targets(s[e].machine.value, Attr(st.rows[Key(e, 1)], s[e].machine.value.field))
    ensures Transition(s, st, e, Int(1), to, 1).store
            == SetField(SetField(st, Key(e, 1), s[e].machine.value.field, to), Key(eff.entity, 2), eff.field, eff.value)
  {
    var k, m := Key(e, 1), s[e].machine.value;
    var st1 := SetField(st, k, m.field, to);
    assert MayMove(s, st, k, to);
    assert Attr(st1.rows[k], eff.ref) == Int(2);
    LoneRun(s, st1, k, eff, 0);
  }

  /** A state some reachable status leads to, with one direct effect on a status column, and a status the target
      can have from which its table does not lead to the one written: two rows at those statuses. */
  lemma DirectEffectLeaves(s: Schema, e: string, a: Value, to: Value, eff: Effect, b: Value) returns (st: Store)
    requires HasMachine(s, e) && Lone(s, e, to, eff) && eff.SetRelated? && !eff.guarded && HasMachine(s, eff.entity)
    requires eff.field == s[eff.entity].machine.value.field
    requires Walk(s[e].machine.value, s[e].machine.value.initial, a) && to in Targets(s[e].machine.value, a)
    requires Walk(s[eff.entity].machine.value, s[eff.entity].machine.value.initial, b)
    requires !Walk(s[eff.entity].machine.value, b, eff.value)
    ensures Good(s, st) && !HasWalked(s, st, Transition(s, st, e, Int(1), to, 1).store)
  {
    var k, target := Key(e, 1), Key(eff.entity, 2);
    st := TwoRows(s, e, a, eff, b);
    DirectEffectRuns(s, st, e, to, eff);
    assert Status(s, Transition(s, st, e, Int(1), to, 1).store, target) == eff.value;
  }

  lemma TwoRows(s: Schema, e: string, a: Value, eff: Effect, b: Value) returns (st: Store)
    requires HasMachine(s, e) && HasMachine(s, eff.entity) && eff.SetRelated?
    requires eff.field == s[eff.entity].machine.value.field && eff.ref != s[e].machine.value.field
    requires Walk(s[e].machine.value, s[e].machine.value.initial, a)
    requires Walk(s[eff.entity].machine.value, s[eff.entity].machine.value.initial, b)
    ensures Good(s, st) && Key(e, 1) in st.rows && Key(eff.entity, 2) in st.rows
    ensures Status(s, st, Key(e, 1)) == a && Status(s, st, Key(eff.entity, 2)) == b
    ensures Attr(st.rows[Key(e, 1)], eff.ref) == Int(2)
  {
    var k, target := Key(e, 1), Key(eff.entity, 2);
    st := Store(map[k := map[s[e].machine.value.field := a, eff.ref := Int(2)], target := map[eff.field := b]],
                map[e := 3, eff.entity := 3]);
    assert Status(s, st, k) == a && Status(s, st, target) == b;
  }

  lemma CreateEffectRuns(s: Schema, st: Store, e: string, to: Value, eff: Effect)
    requires HasMachine(s, e) && Lone(s, e, to, eff) && eff.CreateChild? && eff.entity in s && Key(e, 1) in st.rows
    requires to in Targets(s[e].machine.value, Attr(st.rows[Key(e, 1)], s[e].machine.value.field))
    ensures var st1 := SetField(st, Key(e, 1), s[e].machine.value.field, to);
            Transition(s, st, e, Int(1), to, 1).store
            == InsertRow(s, st1, eff.entity, ChildValues(eff.values, st1.rows[Key(e, 1)]))
  {
    assert MayMove(s, st, Key(e, 1), to);
    LoneRun(s, SetField(st, Key(e, 1), s[e].machine.value.field, to), Key(e, 1), eff, 0);
  }

  /** Likewise for a child created with a status its table does not reach, copied from the acting row if need be */
  lemma CreateEffectLeaves(s: Schema, e: string, a: Value, to: Value, eff: Effect) returns (st: Store)
    requires HasMachine(s, e) && PlainStatuses(s) && Lone(s, e, to, eff) && eff.CreateChild?
    requires Walk(s[e].machine.value, s[e].machine.value.initial, a) && to in Targets(s[e].machine.value, a)
    requires !Harmless(s, e, to, eff)
    ensures Good(s, st) && !StatusesReachable(s, Transition(s, st, e, Int(1), to, 1).store)
  {
    var k, m, child := Key(e, 1), s[e].machine.value, s[eff.entity].machine.value;
    var source := eff.values[child.field];
    var bad := SomeUnreached(child);
    var row: Row := if source.Copy? && source.field != m.field then map[m.field := a, source.field := bad]
                    else map[m.field := a];
    st := Store(map[k := row], map[e := 2]);
    assert Status(s, st, k) == a;
    var st1 := SetField(st, k, m.field, to);
    MoveWalks(m, a, to);
    StatusStaysOn(s, st, k, to);
    CreateEffectRuns(s, st, e, to, eff);
    var data := ChildValues(eff.values, st1.rows[k]);
    assert !MayStart(child, Attr(data, child.field));
    NewRowIsReachable(s, st1, eff.entity, data);
  }

  /** A table is finite; values are not. */
  lemma SomeUnreached(m: Machine) returns (v: Value)
    ensures v != Null && !Walk(m, m.initial, v)
  {
    var all := {m.initial} + set a, b | a in m.transitions && b in m.transitions[a] :: b;
    var n := AboveAll(all);
    v := Int(n);
    if Walk(m, m.initial, v) {
      ClosedContainsReachable(Table(m), all, m.initial, v);
    }
  }

  lemma {:induction false} AboveAll(vs: set<Value>) returns (n: nat)
    ensures forall i :: n <= i ==> Int(i) !in vs
  {
    if vs == {} {
      n := 0;
    } else {
      var v :| v in vs;
      n := AboveAll(vs - {v});
      if v.Int? && n <= v.i {
        n := v.i + 1;
      }
    }
  }

  // ---------------------------------------------------------------------------------
  // A direct set_related on a status column
  // ---------------------------------------------------------------------------------

  const ON := Str("on")
  const GONE := Str("gone")

  function LampMachine(): Machine {
    Machine("status", ON, map[], map[], map[], [])
  }

  function SwitchMachine(): Machine {
    Machine("status", ON, map[ON := [GONE]], map[],
            map[GONE := [SetRelated("lamp_id", "Lamp", "status", GONE, false)]], [])
  }

  function SwitchSchema(): Schema {
    map["Switch" := Entity(Some(SwitchMachine()), map[], map[], [], None, None),
        "Lamp" := Entity(Some(LampMachine()), map[], map[], [], None, None)]
  }

  function SwitchStore(): Store {
    Store(map[Key("Switch", 1) := map["status" := ON, "lamp_id" := Int(7)],
              Key("Lamp", 7) := map["status" := ON]], map["Switch" := 2, "Lamp" := 8])
  }

  function SwitchedStore(): Store {
    Store(map[Key("Switch", 1) := map["status" := GONE, "lamp_id" := Int(7)],
              Key("Lamp", 7) := map["status" := GONE]], map["Switch" := 2, "Lamp" := 8])
  }

  lemma SwitchRuns()
    ensures var r := Transition(SwitchSchema(), SwitchStore(), "Switch", Int(1), GONE, 1);
            r.outcome == Done && r.store == SwitchedStore()
  {
    var s, st, k, lamp := SwitchSchema(), SwitchStore(), Key("Switch", 1), Key("Lamp", 7);
    var eff := SetRelated("lamp_id", "Lamp", "status", GONE, false);
    var st1 := SetField(st, k, "status", GONE);
    var st2 := SetField(st1, lamp, "status", GONE);
    assert EffectsFor(SwitchMachine(), GONE) == [eff];
    assert RunEffect(s, st1, k, eff, 0) == Result(st2, Done, [Assign(lamp, eff)]);
    assert [eff][1..] == [] && RunEffects(s, st2, k, [], 0) == Result(st2, Done, []);
    assert MayMove(s, st, k, GONE);
    var end := SwitchedStore();
    assert st2.rows[k] == end.rows[k] && st2.rows[lamp] == end.rows[lamp];
    assert st2.rows == end.rows;
  }

  lemma LampStays()
    ensures !Walk(LampMachine(), ON, GONE)
  {
    if Walk(LampMachine(), ON, GONE) {
      ClosedContainsReachable(Table(LampMachine()), {ON}, ON, GONE);
    }
  }

  lemma SwitchStartsWell()
    ensures Good(SwitchSchema(), SwitchStore())
  {
    ReachesSelf(Table(LampMachine()), ON);
    ReachesSelf(Table(SwitchMachine()), ON);
  }

  /** Unguarded, it takes a row where its own table never goes: the guard on effects is needed. */
  lemma DirectEffectLeavesTheTable()
    ensures var s, st := SwitchSchema(), SwitchStore();
            var r := Transition(s, st, "Switch", Int(1), GONE, 1);
            && r.outcome == Done && Good(s, st) && HasWalked(s, st, st)
            && !StatusesReachable(s, r.store) && !HasWalked(s, st, r.store)
  {
    var s, st, lamp := SwitchSchema(), SwitchStore(), Key("Lamp", 7);
    SwitchRuns();
    SwitchStartsWell();
    StandsStill(s, st);
    LampStays();
    assert HasMachine(s, lamp.entity) && s[lamp.entity].machine.value == LampMachine();
    assert Status(s, st, lamp) == ON && Status(s, SwitchedStore(), lamp) == GONE;
  }
}
