/** The services emitted by tools/gen_models.py, as one interpreter over any domain.
    A domain is a `Schema`: state machines with guards and effects, reference rules,
    an overlap rule, foreign keys. The functions below say what each service call does
    to the store and which primitive writes it performs, in order. */
module Workflow {
  import opened Wrappers

  /** A column value. A Python bool is an int, so booleans are 0 and 1;
      a datetime is its position on the time line. */
  datatype Value = Null | Int(i: int) | Str(s: string)

  datatype Key = Key(entity: string, id: int)

  type Row = map<string, Value>

  datatype Store = Store(rows: map<Key, Row>, next: map<string, int>)

  const EMPTY := Store(map[], map[])

  datatype Guard =
    | FieldIs(field: string, equals: Value)
    | RelatedIn(ref: string, entity: string, field: string, allowed: seq<Value>)

  datatype Source = Const(value: Value) | Copy(field: string)

  datatype Effect =
    | SetRelated(ref: string, entity: string, field: string, value: Value, guarded: bool)
    | CreateChild(entity: string, values: map<string, Source>)

  datatype Timed = Timed(source: Value, target: Value, when: string)

  datatype Machine = Machine(
    field: string,
    initial: Value,
    transitions: map<Value, seq<Value>>,
    guards: map<Value, seq<Guard>>,
    effects: map<Value, seq<Effect>>,
    timed: seq<Timed>)

  datatype RefRule = RefRule(field: string, entity: string, statusField: string, allowed: seq<Value>)

  datatype Overlap = Overlap(scope: string, start: string, end: string, active: seq<Value>)

  datatype Entity = Entity(
    machine: Option<Machine>,
    defaults: Row,
    foreignKeys: map<string, string>,
    refRules: seq<RefRule>,
    overlap: Option<Overlap>,
    owner: Option<string>)

  type Schema = map<string, Entity>

  /** update(): every given field set as given */
  function Updated(st: Store, k: Key, data: Row): Store
    requires k in st.rows
  {
    st.(rows := st.rows[k := st.rows[k] + data])
  }

  /** getattr(row, name, None) */
  function Attr(row: Row, name: string): Value {
    if name in row then row[name] else Null
  }

  /** db.get(Model, id) finds a row */
  predicate Has(st: Store, e: string, id: Value) {
    id.Int? && Key(e, id.i) in st.rows
  }

  function NextId(st: Store, e: string): int {
    if e in st.next then st.next[e] else 1
  }

  function SetField(st: Store, k: Key, field: string, value: Value): Store
    requires k in st.rows
  {
    st.(rows := st.rows[k := st.rows[k][field := value]])
  }

  function Targets(m: Machine, cur: Value): seq<Value> {
    if cur in m.transitions then m.transitions[cur] else []
  }

  function GuardsFor(m: Machine, to: Value): seq<Guard> {
    if to in m.guards then m.guards[to] else []
  }

  function EffectsFor(m: Machine, to: Value): seq<Effect> {
    if to in m.effects then m.effects[to] else []
  }

  /** A guard on this row's own field, or on the status of the row it refers to */
  predicate GuardHolds(s: Schema, st: Store, row: Row, g: Guard) {
    match g
    case FieldIs(field, equals) => Attr(row, field) == equals
    case RelatedIn(ref, entity, field, allowed) =>
      var rid := Attr(row, ref);
      entity in s && Has(st, entity, rid) && Attr(st.rows[Key(entity, rid.i)], field) in allowed
  }

  predicate GuardsHold(s: Schema, st: Store, row: Row, gs: seq<Guard>) {
    forall g :: g in gs ==> GuardHolds(s, st, row, g)
  }

  /** The column holds the value; one the row does not have holds None. */
  predicate Holds(row: Row, f: string, v: Value) {
    if f in row then row[f] == v else v == Null
  }

  lemma GuardsInPlainTerms(s: Schema, st: Store, row: Row, gs: seq<Guard>)
    ensures GuardsHold(s, st, row, gs) <==>
      && (forall f, v :: FieldIs(f, v) in gs ==> Holds(row, f, v))
      && (forall ref, other, f, allowed :: RelatedIn(ref, other, f, allowed) in gs ==>
            && other in s && ref in row && row[ref].Int? && Key(other, row[ref].i) in st.rows
            && exists v :: v in allowed && Holds(st.rows[Key(other, row[ref].i)], f, v))
  {
    forall ref, other, f, allowed | RelatedIn(ref, other, f, allowed) in gs
      ensures GuardHolds(s, st, row, RelatedIn(ref, other, f, allowed)) <==>
              && other in s && ref in row && row[ref].Int? && Key(other, row[ref].i) in st.rows
              && exists v :: v in allowed && Holds(st.rows[Key(other, row[ref].i)], f, v)
    {
      if ref in row && row[ref].Int? && Key(other, row[ref].i) in st.rows {
        var found := st.rows[Key(other, row[ref].i)];
        assert Holds(found, f, Attr(found, f));
      }
    }
    forall f, v | FieldIs(f, v) in gs
      ensures GuardHolds(s, st, row, FieldIs(f, v)) <==> Holds(row, f, v)
    {
    }
    if !GuardsHold(s, st, row, gs) {
      var g :| g in gs && !GuardHolds(s, st, row, g);
      match g
      case FieldIs(f, v) => assert FieldIs(f, v) in gs;
      case RelatedIn(ref, other, f, allowed) => assert RelatedIn(ref, other, f, allowed) in gs;
    }
  }

  predicate RowMayMove(s: Schema, st: Store, m: Machine, row: Row, to: Value) {
    to in Targets(m, Attr(row, m.field)) && GuardsHold(s, st, row, GuardsFor(m, to))
  }

  /** What `transition` checks before it writes anything */
  predicate MayMove(s: Schema, st: Store, k: Key, to: Value)
    requires k.entity in s && s[k.entity].machine.Some? && k in st.rows
  {
    RowMayMove(s, st, s[k.entity].machine.value, st.rows[k], to)
  }

  function Defaults(ent: Entity): Row {
    if ent.machine.Some? then ent.defaults[ent.machine.value.field := ent.machine.value.initial] else ent.defaults
  }

  /** The row an INSERT stores: a column left out or None takes its default; the id is the next free one. */
  function NewRow(ent: Entity, data: Row, id: int): Row {
    (map f | f in data.Keys + Defaults(ent).Keys ::
      if Attr(data, f) == Null then Attr(Defaults(ent), f) else Attr(data, f))["id" := Int(id)]
  }

  function InsertRow(s: Schema, st: Store, e: string, data: Row): Store
    requires e in s
  {
    var id := NextId(st, e);
    Store(st.rows[Key(e, id) := NewRow(s[e], data, id)], st.next[e := id + 1])
  }

  /** The column values of an effect-created child: constants, or `$field` of the acting row */
  function ChildValues(values: map<string, Source>, acting: Row): Row {
    map f | f in values :: match values[f] case Const(v) => v case Copy(g) => Attr(acting, g)
  }

  // ---------------------------------------------------------------------------------
  // Primitive writes
  // ---------------------------------------------------------------------------------

  datatype Event =
    | Move(key: Key, to: Value)                    // status write of a transition
    | Assign(key: Key, effect: Effect)             // direct write of an unguarded set_related
    | Spawn(effect: Effect, acting: Row)           // row added by a create effect
    | Created(entity: string, data: Row, seen: Store)  // row added by create(), its query having read `seen`
    | Rewritten(key: Key, data: Row)               // columns set by update()
    | Removed(keys: set<Key>)                      // rows gone with delete(), cascades included

  ghost predicate DeclaredEffect(s: Schema, eff: Effect) {
    exists e, to :: e in s && s[e].machine.Some? && eff in EffectsFor(s[e].machine.value, to)
  }

  /** The write is one the schema allows in this store: a move is in the row's own table
      and its guards hold now; a direct write and a spawned row come from a declared effect. */
  ghost predicate Enabled(s: Schema, st: Store, ev: Event) {
    match ev
    case Move(k, to) =>
      k in st.rows && k.entity in s && s[k.entity].machine.Some? && MayMove(s, st, k, to)
    case Assign(k, eff) =>
      && k in st.rows && k.entity in s && DeclaredEffect(s, eff)
      && eff.SetRelated? && !eff.guarded && eff.entity == k.entity
    case Spawn(eff, _) => eff.CreateChild? && eff.entity in s && DeclaredEffect(s, eff)
    case Created(e, data, seen) => e in s && CreateAllowedIn(s, st, seen, e, data)
    case Rewritten(k, _) => k in st.rows
    case Removed(_) => true
  }

  ghost function Apply(s: Schema, st: Store, ev: Event): Store
    requires Enabled(s, st, ev)
  {
    match ev
    case Move(k, to) => SetField(st, k, s[k.entity].machine.value.field, to)
    case Assign(k, eff) => SetField(st, k, eff.field, eff.value)
    case Spawn(eff, acting) => InsertRow(s, st, eff.entity, ChildValues(eff.values, acting))
    case Created(e, data, _) => InsertRow(s, st, e, data)
    case Rewritten(k, data) => Updated(st, k, data)
    case Removed(keys) => st.(rows := st.rows - keys)
  }

  /** `log`, played from `st`, is a sequence of enabled writes that ends in `end`. */
  ghost predicate Run(s: Schema, st: Store, log: seq<Event>, end: Store)
    decreases |log|
  {
    if log == [] then st == end
    else Enabled(s, st, log[0]) && Run(s, Apply(s, st, log[0]), log[1..], end)
  }

  // ---------------------------------------------------------------------------------
  // create
  // ---------------------------------------------------------------------------------

  predicate RefRuleHolds(st: Store, data: Row, r: RefRule) {
    var v := Attr(data, r.field);
    v == Null ||
    (Has(st, r.entity, v) && (r.allowed == [] || Attr(st.rows[Key(r.entity, v.i)], r.statusField) in r.allowed))
  }

  /** SQL `<`: a comparison with NULL selects nothing */
  predicate Less(a: Value, b: Value) {
    a.Int? && b.Int? && a.i < b.i
  }

  /** The existing row the overlap query would return */
  predicate Conflicts(o: Overlap, existing: Row, data: Row) {
    && Attr(existing, o.scope) == Attr(data, o.scope)
    && Attr(existing, "status") in o.active
    && Less(Attr(existing, o.start), Attr(data, o.end))
    && Less(Attr(data, o.start), Attr(existing, o.end))
  }

  predicate OverlapFree(st: Store, e: string, o: Overlap, data: Row) {
    Attr(data, o.scope) == Null || Attr(data, o.start) == Null || Attr(data, o.end) == Null ||
    forall k :: k in st.rows && k.entity == e ==> !Conflicts(o, st.rows[k], data)
  }

  /** The rules read rows by id, the overlap query what the database has `seen`. */
  predicate CreateAllowedIn(s: Schema, st: Store, seen: Store, e: string, data: Row)
    requires e in s
  {
    && (forall r :: r in s[e].refRules ==> RefRuleHolds(st, data, r))
    && (s[e].overlap.Some? ==> OverlapFree(seen, e, s[e].overlap.value, data))
  }

  predicate CreateAllowed(s: Schema, st: Store, e: string, data: Row)
    requires e in s
  {
    CreateAllowedIn(s, st, st, e, data)
  }

  // ---------------------------------------------------------------------------------
  // transition
  // ---------------------------------------------------------------------------------

  /** Done: the row is returned. Missing: None is returned. Refused: WorkflowError.
      NoTransition: AttributeError, the related service has no transition().
      TooDeep: RecursionError. */
  datatype Outcome = Done | Missing | Refused | NoTransition | TooDeep

  datatype Result = Result(store: Store, outcome: Outcome, log: seq<Event>)

  function Prefixed(log: seq<Event>, r: Result): Result {
    r.(log := log + r.log)
  }

  /** `depth` is how many nested transition() calls the Python stack still has room for. */
  function Transition(s: Schema, st: Store, e: string, id: Value, to: Value, depth: nat): (r: Result)
    requires e in s && s[e].machine.Some?
    ensures forall x :: x in st.rows ==> x in r.store.rows
    decreases depth, 0
  {
    if depth == 0 then Result(st, TooDeep, [])
    else if !Has(st, e, id) then Result(st, Missing, [])
    else
      var k := Key(e, id.i);
      var m := s[e].machine.value;
      if !MayMove(s, st, k, to) then Result(st, Refused, [])
      else Prefixed([Move(k, to)],
                    RunEffects(s, SetField(st, k, m.field, to), k, EffectsFor(m, to), depth - 1))
  }

  function RunEffects(s: Schema, st: Store, k: Key, effs: seq<Effect>, depth: nat): (r: Result)
    requires k in st.rows
    ensures forall x :: x in st.rows ==> x in r.store.rows
    decreases depth, 2 + |effs|
  {
    if effs == [] then Result(st, Done, [])
    else
      var first := RunEffect(s, st, k, effs[0], depth);
      if first.outcome != Done then first
      else Prefixed(first.log, RunEffects(s, first.store, k, effs[1..], depth))
  }

  function RunEffect(s: Schema, st: Store, k: Key, eff: Effect, depth: nat): (r: Result)
    requires k in st.rows
    ensures forall x :: x in st.rows ==> x in r.store.rows
    decreases depth, 1
  {
    match eff
    case CreateChild(entity, values) =>
      if entity !in s then Result(st, Done, [])
      else Result(InsertRow(s, st, entity, ChildValues(values, st.rows[k])), Done, [Spawn(eff, st.rows[k])])
    case SetRelated(ref, entity, field, value, guarded) =>
      var rid := Attr(st.rows[k], ref);
      if rid == Null || entity !in s then Result(st, Done, [])
      else if guarded then
        if s[entity].machine.None? then Result(st, NoTransition, [])
        else
          var r := Transition(s, st, entity, rid, value, depth);
          if r.outcome == Missing then r.(outcome := Refused) else r
      else if !Has(st, entity, rid) then Result(st, Done, [])
      else
        var target := Key(entity, rid.i);
        Result(SetField(st, target, field, value), Done, [Assign(target, eff)])
  }

  // ---------------------------------------------------------------------------------
  // sweep
  // ---------------------------------------------------------------------------------

  /** The query of one time transition: rows in its source state whose deadline is past */
  predicate Due(m: Machine, t: Timed, now: int, row: Row) {
    Attr(row, m.field) == t.source && Less(Attr(row, t.when), Int(now))
  }

  function DueIds(st: Store, e: string, m: Machine, t: Timed, now: int): set<int> {
    set k | k in st.rows && k.entity == e && Due(m, t, now, st.rows[k]) :: k.id
  }

  datatype SweepResult = SweepResult(store: Store, outcome: Outcome, moved: seq<int>, log: seq<Event>)

  /** `b` carries on where `a` ended, unless an uncaught error ended `a`. */
  function Joined(a: SweepResult, b: SweepResult): SweepResult {
    if a.outcome != Done then a else SweepResult(b.store, b.outcome, a.moved + b.moved, a.log + b.log)
  }

  /** transition() for one id; a WorkflowError is swallowed and leaves whatever was written. */
  function SweepOne(s: Schema, st: Store, e: string, to: Value, id: int, depth: nat): (r: SweepResult)
    requires e in s && s[e].machine.Some?
    ensures forall x :: x in st.rows ==> x in r.store.rows
  {
    var one := Transition(s, st, e, Int(id), to, depth);
    match one.outcome
    case Done => SweepResult(one.store, Done, [id], one.log)
    case Missing => SweepResult(one.store, Done, [id], one.log)
    case Refused => SweepResult(one.store, Done, [], one.log)
    case _ => SweepResult(one.store, one.outcome, [], one.log)
  }

  function SweepIds(s: Schema, st: Store, e: string, to: Value, ids: seq<int>, depth: nat): (r: SweepResult)
    requires e in s && s[e].machine.Some?
    ensures forall x :: x in st.rows ==> x in r.store.rows
    decreases |ids|
  {
    if ids == [] then SweepResult(st, Done, [], [])
    else
      var one := SweepOne(s, st, e, to, ids[0], depth);
      Joined(one, SweepIds(s, one.store, e, to, ids[1..], depth))
  }

  /** The query fixes which rows come back, not their order: `orders[i]` is the order in which
      the i-th time transition's rows were handed out. */
  function Sweep(s: Schema, st: Store, e: string, timed: seq<Timed>, orders: seq<seq<int>>, depth: nat)
    : (r: SweepResult)
    requires e in s && s[e].machine.Some?
    ensures forall x :: x in st.rows ==> x in r.store.rows
    decreases |timed|
  {
    if timed == [] || orders == [] then SweepResult(st, Done, [], [])
    else
      var first := SweepIds(s, st, e, timed[0].target, orders[0], depth);
      Joined(first, Sweep(s, first.store, e, timed[1..], orders[1..], depth))
  }

  ghost predicate Enumerates<T(!new)>(ids: seq<T>, s: set<T>) {
    && (forall x :: x in ids <==> x in s)
    && (forall i, j :: 0 <= i < j < |ids| ==> ids[i] != ids[j])
  }

  /** `orders` is a possible outcome of the queries a sweep makes. */
  ghost predicate SweepOrders(s: Schema, st: Store, e: string, timed: seq<Timed>, now: int,
                              orders: seq<seq<int>>, depth: nat)
    requires e in s && s[e].machine.Some?
    decreases |timed|
  {
    if timed == [] then orders == []
    else
      && orders != []
      && Enumerates(orders[0], DueIds(st, e, s[e].machine.value, timed[0], now))
      && var first := SweepIds(s, st, e, timed[0].target, orders[0], depth);
         if first.outcome != Done then |orders| == 1
         else SweepOrders(s, first.store, e, timed[1..], now, orders[1..], depth)
  }
}
