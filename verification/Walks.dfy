/** State-machine safety over whole runs: no row ever leaves the walks of its own table. */
module Walks {
  import opened Reachability
  import opened Workflow
  import opened Erasure
  import opened Traces
  import opened Flushing

  ghost function Table(m: Machine): Graph<Value> {
    FromLists(m.transitions)
  }

  /** `b` can be had from `a` by moves of the table. */
  ghost predicate Walk(m: Machine, a: Value, b: Value) {
    Reaches(Table(m), a, b)
  }

  ghost predicate HasMachine(s: Schema, e: string) {
    e in s && s[e].machine.Some?
  }

  function Status(s: Schema, st: Store, k: Key): Value
    requires k in st.rows && k.entity in s && s[k.entity].machine.Some?
  {
    Attr(st.rows[k], s[k.entity].machine.value.field)
  }

  /** A status a row may be created with: none, or one the table reaches from `initial` */
  ghost predicate MayStart(m: Machine, v: Value) {
    v == Null || Walk(m, m.initial, v)
  }

  /** The effect cannot take a row off its table. A guarded set_related goes through the table; a direct one
      names another column, or a status that every reachable status walks to; a created child gets no status,
      or a constant its own table reaches. */
  ghost predicate LeavesStatusAlone(s: Schema, eff: Effect) {
    HasMachine(s, eff.entity) ==>
      var m := s[eff.entity].machine.value;
      match eff
      case SetRelated(_, _, field, value, guarded) => guarded || field != m.field || AllWalkTo(m, value)
      case CreateChild(_, values) =>
        m.field in values ==> values[m.field].Const? && MayStart(m, values[m.field].value)
  }

  ghost predicate AllWalkTo(m: Machine, v: Value) {
    forall a :: Walk(m, m.initial, a) ==> Walk(m, a, v)
  }

  /** Every set_related that names a status column is guarded. Create effects may give any status. */
  ghost predicate StatusesGuarded(s: Schema) {
    forall eff :: DeclaredEffect(s, eff) && eff.SetRelated? && HasMachine(s, eff.entity) ==>
      eff.guarded || eff.field != s[eff.entity].machine.value.field
  }

  /** No effect can store a status its table does not reach, or take a row off its walk. */
  ghost predicate WellBehaved(s: Schema) {
    && (forall e :: HasMachine(s, e) ==> s[e].machine.value.field != "id")
    && (forall eff :: DeclaredEffect(s, eff) ==> LeavesStatusAlone(s, eff))
  }

  /** Every stored status is reachable from its entity's initial state. */
  ghost predicate StatusesReachable(s: Schema, st: Store) {
    forall k :: k in st.rows && HasMachine(s, k.entity) ==>
      Walk(s[k.entity].machine.value, s[k.entity].machine.value.initial, Status(s, st, k))
  }

  /** Ids handed out so far are below the next one, so no row is ever overwritten. */
  ghost predicate IdsFresh(st: Store) {
    forall k :: k in st.rows ==> k.id < NextId(st, k.entity)
  }

  /** A store as runs leave them */
  ghost predicate Good(s: Schema, st: Store) {
    IdsFresh(st) && StatusesReachable(s, st)
  }

  /** Some reachable status leads to `to`. */
  ghost predicate Enterable(m: Machine, to: Value) {
    exists a :: Walk(m, m.initial, a) && to in Targets(m, a)
  }

  /** `now` against `before`: every row of `before` that is still there has walked. */
  ghost predicate HasWalked(s: Schema, before: Store, now: Store) {
    && (forall k :: k in before.rows ==> k.id < NextId(now, k.entity))
    && (forall k :: k in before.rows && k in now.rows && HasMachine(s, k.entity) ==>
          Walk(s[k.entity].machine.value, Status(s, before, k), Status(s, now, k)))
  }

  /** The write goes through no table and yet names a status: then the table must lead there. */
  ghost predicate WalksDirectly(s: Schema, st: Store, ev: Event)
    requires Enabled(s, st, ev)
  {
    match ev
    case Assign(k, eff) =>
      HasMachine(s, k.entity) && eff.field == s[k.entity].machine.value.field ==>
        Walk(s[k.entity].machine.value, Status(s, st, k), eff.value)
    case Rewritten(k, data) =>
      HasMachine(s, k.entity) && s[k.entity].machine.value.field in data ==>
        Walk(s[k.entity].machine.value, Status(s, st, k), data[s[k.entity].machine.value.field])
    case _ => true
  }

  /** An update that leaves the status column out */
  ghost predicate Quiet(s: Schema, ev: Event) {
    ev.Rewritten? && HasMachine(s, ev.key.entity) ==> s[ev.key.entity].machine.value.field !in ev.data
  }

  /** The default-status create: the client gave no status, or one the table reaches. */
  ghost predicate StartsWell(s: Schema, ev: Event) {
    ev.Created? && HasMachine(s, ev.entity) ==>
      MayStart(s[ev.entity].machine.value, Attr(ev.data, s[ev.entity].machine.value.field))
  }

  lemma MoveWalks(m: Machine, a: Value, b: Value)
    requires b in Targets(m, a)
    ensures Walk(m, a, b)
  {
    ReachesSelf(Table(m), a);
    assert b in Succ(Table(m), a);
    ReachesThenEdge(Table(m), a, a, b);
  }

  /** What one enabled write makes of the status of a stored row */
  function Written(s: Schema, st: Store, ev: Event, k: Key): Value
    requires k in st.rows && k.entity in s && s[k.entity].machine.Some?
  {
    var f := s[k.entity].machine.value.field;
    if ev.Move? && ev.key == k then ev.to
    else if ev.Assign? && ev.key == k && ev.effect.SetRelated? && ev.effect.field == f then ev.effect.value
    else if ev.Rewritten? && ev.key == k && f in ev.data then ev.data[f]
    else Status(s, st, k)
  }

  lemma WrittenIsStatus(s: Schema, st: Store, ev: Event, k: Key)
    requires Enabled(s, st, ev) && IdsFresh(st) && k in st.rows && k in Apply(s, st, ev).rows && HasMachine(s, k.entity)
    ensures Status(s, Apply(s, st, ev), k) == Written(s, st, ev, k)
  {
  }

  /** One enabled write takes a stored status where its table leads, or leaves it - exactly unless it is a
      direct write of a status the table does not lead to. */
  lemma OneWriteWalks(s: Schema, st: Store, ev: Event)
    requires Enabled(s, st, ev) && IdsFresh(st)
    ensures HasWalked(s, st, Apply(s, st, ev)) <==> WalksDirectly(s, st, ev)
  {
    var after := Apply(s, st, ev);
    EventKeepsIds(s, st, ev);
    forall k | k in st.rows && k in after.rows && HasMachine(s, k.entity)
      ensures Status(s, after, k) == Written(s, st, ev, k)
      ensures WalksDirectly(s, st, ev) ==> Walk(s[k.entity].machine.value, Status(s, st, k), Status(s, after, k))
    {
      WrittenIsStatus(s, st, ev, k);
      if ev.Move? && ev.key == k {
        MoveWalks(s[k.entity].machine.value, Status(s, st, k), ev.to);
      } else {
        ReachesSelf(Table(s[k.entity].machine.value), Status(s, st, k));
      }
    }
    if !WalksDirectly(s, st, ev) {
      assert ev.key in after.rows && Status(s, after, ev.key) == Written(s, st, ev, ev.key);
    }
  }

  lemma EventKeepsIds(s: Schema, st: Store, ev: Event)
    requires Enabled(s, st, ev)
    ensures forall e :: NextId(st, e) <= NextId(Apply(s, st, ev), e)
    ensures IdsFresh(st) ==> IdsFresh(Apply(s, st, ev))
    ensures forall k :: k in Apply(s, st, ev).rows && k !in st.rows ==> k.id == NextId(st, k.entity)
  {
  }

  /** Rows gone in between do not come back: their ids are used up. */
  lemma WalksCompose(s: Schema, a: Store, b: Store, c: Store)
    requires HasWalked(s, a, b) && HasWalked(s, b, c)
    requires forall e :: NextId(b, e) <= NextId(c, e)
    requires forall k :: k in c.rows && k !in b.rows ==> NextId(b, k.entity) <= k.id
    ensures HasWalked(s, a, c)
  {
    forall k | k in a.rows && k in c.rows && HasMachine(s, k.entity)
      ensures Walk(s[k.entity].machine.value, Status(s, a, k), Status(s, c, k))
    {
      assert k in b.rows;
      ReachesTransitive(Table(s[k.entity].machine.value), Status(s, a, k), Status(s, b, k), Status(s, c, k));
    }
  }

  lemma EventWalks(s: Schema, before: Store, st: Store, ev: Event)
    requires Enabled(s, st, ev) && WalksDirectly(s, st, ev)
    requires IdsFresh(st) && HasWalked(s, before, st)
    ensures IdsFresh(Apply(s, st, ev)) && HasWalked(s, before, Apply(s, st, ev))
  {
    OneWriteWalks(s, st, ev);
    EventKeepsIds(s, st, ev);
    WalksCompose(s, before, st, Apply(s, st, ev));
  }

  /** With guarded effects, or with harmless ones on reachable statuses, nothing but update() writes a status
      the table does not lead to. */
  lemma EffectsWalkDirectly(s: Schema, st: Store, ev: Event)
    requires Enabled(s, st, ev) && Quiet(s, ev)
    requires StatusesGuarded(s) || (WellBehaved(s) && StatusesReachable(s, st))
    ensures WalksDirectly(s, st, ev)
  {
    if ev.Assign? && HasMachine(s, ev.key.entity) && WellBehaved(s) {
      assert LeavesStatusAlone(s, ev.effect);
    }
  }

  /** Over any run rows walk in their own tables, whatever statuses create effects give, clients ask for or
      the store held to begin with. */
  lemma {:induction false} RunWalks(s: Schema, before: Store, st: Store, log: seq<Event>, end: Store)
    requires StatusesGuarded(s) && Run(s, st, log, end)
    requires forall ev :: ev in log ==> Quiet(s, ev)
    requires IdsFresh(st) && HasWalked(s, before, st)
    ensures IdsFresh(end) && HasWalked(s, before, end)
    decreases |log|
  {
    if log == [] {
    } else {
      EffectsWalkDirectly(s, st, log[0]);
      EventWalks(s, before, st, log[0]);
      RunWalks(s, before, Apply(s, st, log[0]), log[1..], end);
    }
  }

  lemma NewRowStarts(s: Schema, st: Store, e: string, data: Row)
    requires HasMachine(s, e) && s[e].machine.value.field != "id"
    ensures var m, k, after := s[e].machine.value, Key(e, NextId(st, e)), InsertRow(s, st, e, data);
            && Status(s, after, k) == (if Attr(data, m.field) == Null then m.initial else Attr(data, m.field))
            && (MayStart(m, Attr(data, m.field)) <==> Walk(m, m.initial, Status(s, after, k)))
  {
    var m, k, after := s[e].machine.value, Key(e, NextId(st, e)), InsertRow(s, st, e, data);
    ReachesSelf(Table(m), m.initial);
    assert after.rows[k] == NewRow(s[e], data, k.id);
  }

  lemma EventKeepsReachable(s: Schema, st: Store, ev: Event)
    requires WellBehaved(s) && Enabled(s, st, ev) && StartsWell(s, ev) && WalksDirectly(s, st, ev)
    requires IdsFresh(st) && StatusesReachable(s, st)
    ensures StatusesReachable(s, Apply(s, st, ev))
  {
    var after := Apply(s, st, ev);
    EventKeepsIds(s, st, ev);
    OneWriteWalks(s, st, ev);
    forall k | k in after.rows && HasMachine(s, k.entity)
      ensures Walk(s[k.entity].machine.value, s[k.entity].machine.value.initial, Status(s, after, k))
    {
      var m := s[k.entity].machine.value;
      if k in st.rows {
        ReachesTransitive(Table(m), m.initial, Status(s, st, k), Status(s, after, k));
      } else if ev.Created? {
        NewRowStarts(s, st, k.entity, ev.data);
      } else {
        assert ev.Spawn? && LeavesStatusAlone(s, ev.effect);
        NewRowStarts(s, st, k.entity, ChildValues(ev.effect.values, ev.acting));
      }
    }
  }

  /** Over any run statuses stay reachable, and with them harmless direct effects are walks too. */
  lemma {:induction false} RunKeepsReachable(s: Schema, before: Store, st: Store, log: seq<Event>, end: Store)
    requires WellBehaved(s) && Run(s, st, log, end)
    requires forall ev :: ev in log ==> Quiet(s, ev) && StartsWell(s, ev)
    requires IdsFresh(st) && StatusesReachable(s, st) && HasWalked(s, before, st)
    ensures IdsFresh(end) && StatusesReachable(s, end) && HasWalked(s, before, end)
    decreases |log|
  {
    if log == [] {
    } else {
      EffectsWalkDirectly(s, st, log[0]);
      EventWalks(s, before, st, log[0]);
      EventKeepsReachable(s, st, log[0]);
      RunKeepsReachable(s, before, Apply(s, st, log[0]), log[1..], end);
    }
  }

  // ---------------------------------------------------------------------------------
  // Runs of service calls, with commits and dropped requests
  // ---------------------------------------------------------------------------------

  datatype Call =
    | DoCreate(e: string, data: Row)
    | DoUpdate(key: Key, data: Row)
    | DoTransition(e: string, id: Value, to: Value, depth: nat)
    | DoSweep(e: string, orders: seq<seq<int>>, depth: nat)
    | DoDelete(key: Key)
    | DoErase(owned: seq<string>, user: int)
    | Commit
    | Drop

  /** What the session works on, what its queries have been flushed to see, and what is committed */
  datatype Db = Db(autoflush: bool, working: Store, flushed: Store, committed: Store)

  function NewDb(autoflush: bool): Db {
    Db(autoflush, EMPTY, EMPTY, EMPTY)
  }

  /** What a query reads */
  function Reads(db: Db): Store {
    if db.autoflush then db.working else db.flushed
  }

  /** `now` worked on, and flushed */
  function Flush(db: Db, now: Store): Db {
    db.(working := now, flushed := now)
  }

  predicate Callable(s: Schema, c: Call) {
    match c
    case DoCreate(e, _) => e in s
    case DoTransition(e, _, _, _) => e in s && s[e].machine.Some?
    case DoSweep(e, _, _) => e in s && s[e].machine.Some?
    case _ => true
  }

  /** One call. A create that breaks a rule and an update or delete of nothing change nothing; a transition or a
      sweep leaves whatever it wrote, error or not; a dropped request goes back to the last commit. */
  function Exec(s: Schema, db: Db, c: Call): Db
    requires Callable(s, c)
  {
    var st := db.working;
    match c
    case DoCreate(e, data) =>
      if CreateAllowedIn(s, st, Reads(db), e, data) then Flush(db, InsertRow(s, st, e, data)) else db
    case DoUpdate(k, data) => if k in st.rows then Flush(db, Updated(st, k, data)) else db
    case DoTransition(e, id, to, depth) =>
      db.(working := Transition(s, st, e, id, to, depth).store,
          flushed := SeenAfter(s, db.flushed, st, e, id, to, depth))
    case DoSweep(e, orders, depth) =>
      var timed := s[e].machine.value.timed;
      db.(working := Sweep(s, st, e, timed, orders, depth).store,
          flushed := SeenAfterSweep(s, db.flushed, st, e, timed, orders, depth))
    case DoDelete(k) => if k in st.rows then Flush(db, DeleteRows(s, st, {k})) else db
    case DoErase(owned, user) => Flush(db, Erased(s, st, owned, user))
    case Commit => Flush(db, st).(committed := st)
    case Drop => Flush(db, db.committed)
  }

  ghost predicate AllCallable(s: Schema, calls: seq<Call>) {
    forall c :: c in calls ==> Callable(s, c)
  }

  function ExecAll(s: Schema, db: Db, calls: seq<Call>): Db
    requires AllCallable(s, calls)
    decreases |calls|
  {
    if calls == [] then db else ExecAll(s, Exec(s, db, calls[0]), calls[1..])
  }

  /** create() was called without a status, or with one the table reaches. */
  ghost predicate DefaultStatus(s: Schema, c: Call) {
    c.DoCreate? && HasMachine(s, c.e) ==>
      MayStart(s[c.e].machine.value, Attr(c.data, s[c.e].machine.value.field))
  }

  /** The writes of one call on the working store */
  ghost function CallLog(s: Schema, db: Db, c: Call): seq<Event>
    requires Callable(s, c)
  {
    var st := db.working;
    match c
    case DoCreate(e, data) =>
      if CreateAllowedIn(s, st, Reads(db), e, data) then [Created(e, data, Reads(db))] else []
    case DoUpdate(k, data) => if k in st.rows then [Rewritten(k, data)] else []
    case DoTransition(e, id, to, depth) => Transition(s, st, e, id, to, depth).log
    case DoSweep(e, orders, depth) => Sweep(s, st, e, s[e].machine.value.timed, orders, depth).log
    case DoDelete(k) => if k in st.rows then [Removed(Cascade(s, st, {k}))] else []
    case DoErase(owned, user) => [Removed(Cascade(s, st, UserKeys(s, st, owned, user)))]
    case _ => []
  }

  lemma CallIsRun(s: Schema, db: Db, c: Call)
    requires Callable(s, c) && !c.Commit? && !c.Drop?
    ensures Run(s, db.working, CallLog(s, db, c), Exec(s, db, c).working)
    ensures forall ev :: ev in CallLog(s, db, c) && ev.Created? ==>
              c == DoCreate(ev.entity, ev.data) && ev.seen == Reads(db) && CallLog(s, db, c) == [ev]
    ensures forall ev :: ev in CallLog(s, db, c) && ev.Rewritten? ==> c == DoUpdate(ev.key, ev.data)
    ensures c.DoTransition? || c.DoSweep? ==> EffectsOnly(CallLog(s, db, c))
  {
    var st, end, log := db.working, Exec(s, db, c).working, CallLog(s, db, c);
    assert Run(s, end, [], end);
    if c.DoTransition? {
      TransitionIsRun(s, st, c.e, c.id, c.to, c.depth);
      NoCreatesInTransition(s, st, c.e, c.id, c.to, c.depth);
    } else if c.DoSweep? {
      SweepIsRun(s, st, c.e, s[c.e].machine.value.timed, c.orders, c.depth);
      NoCreatesInSweep(s, st, c.e, s[c.e].machine.value.timed, c.orders, c.depth);
    } else if log != [] {
      assert Apply(s, st, log[0]) == end;
    }
  }

  /** What a call leaves flushed is what was, or a store it went through. */
  lemma CallFlushes(s: Schema, db: Db, c: Call)
    requires Callable(s, c) && !c.Commit? && !c.Drop?
    ensures OnTheWay(s, db.flushed, db.working, CallLog(s, db, c), Exec(s, db, c).working, Exec(s, db, c).flushed)
  {
    var st, next, log := db.working, Exec(s, db, c), CallLog(s, db, c);
    CallIsRun(s, db, c);
    if c.DoTransition? {
      TransitionFlushes(s, db.flushed, st, c.e, c.id, c.to, c.depth);
    } else if c.DoSweep? && Sweep(s, st, c.e, s[c.e].machine.value.timed, c.orders, c.depth).outcome != Done {
      var timed := s[c.e].machine.value.timed;
      ExtraOrders(s, st, c.e, timed, c.orders, c.depth);
      SweepFlushes(s, db.flushed, st, c.e, timed, Asked(timed, c.orders), c.depth);
    } else {
      EndIsOnTheWay(s, db.flushed, st, log, next.working);
    }
  }

  /** An update does not name the status column. */
  ghost predicate QuietUpdate(s: Schema, c: Call) {
    c.DoUpdate? && HasMachine(s, c.key.entity) ==> s[c.key.entity].machine.value.field !in c.data
  }

  lemma CallIsQuiet(s: Schema, db: Db, c: Call)
    requires Callable(s, c) && !c.Commit? && !c.Drop? && QuietUpdate(s, c)
    ensures forall ev :: ev in CallLog(s, db, c) ==> Quiet(s, ev)
    ensures DefaultStatus(s, c) ==> forall ev :: ev in CallLog(s, db, c) ==> StartsWell(s, ev)
  {
    CallIsRun(s, db, c);
    forall ev | ev in CallLog(s, db, c)
      ensures Quiet(s, ev)
      ensures DefaultStatus(s, c) ==> StartsWell(s, ev)
    {
      if ev.Created? {
        assert c == DoCreate(ev.entity, ev.data);
      } else if ev.Rewritten? {
        assert c == DoUpdate(ev.key, ev.data);
      }
    }
  }

  /** The main safety theorem. When every set_related on a status is guarded, whatever calls are made, in
      whatever order, refused, swallowed or dropped half way: in the working store and in the committed one
      every row that is still there got its status from the one it had by a walk in its own table. Nothing is
      asked of the statuses the stores begin with, of create effects or of what clients create. */
  lemma {:induction false} EveryRunStaysOnWalks(s: Schema, before: Store, db: Db, calls: seq<Call>)
    requires StatusesGuarded(s) && AllCallable(s, calls)
    requires forall c :: c in calls ==> QuietUpdate(s, c)
    requires IdsFresh(db.working) && HasWalked(s, before, db.working)
    requires IdsFresh(db.committed) && HasWalked(s, before, db.committed)
    ensures var end := ExecAll(s, db, calls); HasWalked(s, before, end.working) && HasWalked(s, before, end.committed)
    decreases |calls|
  {
    if calls == [] {
    } else {
      var c := calls[0];
      var next := Exec(s, db, c);
      if !c.Commit? && !c.Drop? {
        CallIsRun(s, db, c);
        CallIsQuiet(s, db, c);
        RunWalks(s, before, db.working, CallLog(s, db, c), next.working);
      }
      EveryRunStaysOnWalks(s, before, next, calls[1..]);
    }
  }

  /** When no effect can store a status its table does not reach, and creates keep to reachable statuses:
      every status stays reachable from its initial state, and rows walk even under direct effects. */
  lemma {:induction false} EveryRunStaysReachable(s: Schema, before: Store, db: Db, calls: seq<Call>)
    requires WellBehaved(s) && AllCallable(s, calls)
    requires forall c :: c in calls ==> DefaultStatus(s, c) && QuietUpdate(s, c)
    requires IdsFresh(db.working) && StatusesReachable(s, db.working) && HasWalked(s, before, db.working)
    requires IdsFresh(db.committed) && StatusesReachable(s, db.committed) && HasWalked(s, before, db.committed)
    ensures var end := ExecAll(s, db, calls);
      && StatusesReachable(s, end.working) && HasWalked(s, before, end.working)
      && StatusesReachable(s, end.committed) && HasWalked(s, before, end.committed)
    decreases |calls|
  {
    if calls == [] {
    } else {
      var c := calls[0];
      var next := Exec(s, db, c);
      if !c.Commit? && !c.Drop? {
        CallIsRun(s, db, c);
        CallIsQuiet(s, db, c);
        RunKeepsReachable(s, before, db.working, CallLog(s, db, c), next.working);
      }
      EveryRunStaysReachable(s, before, next, calls[1..]);
    }
  }

  lemma StandsStill(s: Schema, st: Store)
    requires IdsFresh(st)
    ensures HasWalked(s, st, st)
  {
    forall k | k in st.rows && HasMachine(s, k.entity)
      ensures Walk(s[k.entity].machine.value, Status(s, st, k), Status(s, st, k))
    {
      ReachesSelf(Table(s[k.entity].machine.value), Status(s, st, k));
    }
  }

  /** At any moment of such a run, what is not committed yet has walked from what is. */
  lemma {:induction false} PendingWorkWalks(s: Schema, db: Db, calls: seq<Call>)
    requires StatusesGuarded(s) && AllCallable(s, calls)
    requires forall c :: c in calls ==> QuietUpdate(s, c)
    requires IdsFresh(db.working) && IdsFresh(db.committed) && HasWalked(s, db.committed, db.working)
    ensures var end := ExecAll(s, db, calls);
            IdsFresh(end.working) && IdsFresh(end.committed) && HasWalked(s, end.committed, end.working)
    decreases |calls|
  {
    if calls == [] {
    } else {
      var c := calls[0];
      var next := Exec(s, db, c);
      if c.Commit? || c.Drop? {
        StandsStill(s, next.working);
      } else {
        CallIsRun(s, db, c);
        CallIsQuiet(s, db, c);
        RunWalks(s, db.committed, db.working, CallLog(s, db, c), next.working);
      }
      PendingWorkWalks(s, next, calls[1..]);
    }
  }
}
