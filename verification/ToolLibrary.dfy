/** The shipped tool_library domain as a Schema, and what the general theorems say of it. */
module ToolLibrary {
  import opened Wrappers
  import opened Workflow
  import opened Walks
  import opened Termination
  import opened Footprint
  import opened NoOverlap
  import opened Sweeping
  import opened Reachability

  const REQUESTED := Str("requested")
  const APPROVED := Str("approved")
  const RESERVED := Str("reserved")
  const CHECKED_OUT := Str("checked_out")
  const RETURNED := Str("returned")
  const RETURNED_DAMAGED := Str("returned_damaged")
  const CANCELLED := Str("cancelled")
  const DENIED := Str("denied")
  const EXPIRED := Str("expired")
  const AVAILABLE := Str("available")
  const MAINTENANCE := Str("maintenance")
  const BROKEN := Str("broken")
  const RETIRED := Str("retired")
  const ACTIVE := Str("active")
  const SUSPENDED := Str("suspended")
  const BANNED := Str("banned")
  const COMPLETED := Str("completed")
  const STARTED := Str("open")

  function SetTool(v: Value): Effect {
    SetRelated("tool_id", "Tool", "status", v, true)
  }

  const NEW_INCIDENT :=
    CreateChild("Incident", map["tool_id" := Copy("tool_id"), "reservation_id" := Copy("id"),
                                "note" := Const(Str("damaged on return"))])

  const NEW_MAINTENANCE :=
    CreateChild("MaintenanceRecord", map["tool_id" := Copy("tool_id"), "status" := Const(STARTED)])

  function MemberMachine(): Machine {
    Machine("status", ACTIVE,
            map[ACTIVE := [SUSPENDED, EXPIRED, BANNED], SUSPENDED := [ACTIVE], EXPIRED := [ACTIVE], BANNED := []],
            map[], map[], [])
  }

  function ToolMachine(): Machine {
    Machine("status", AVAILABLE,
            map[AVAILABLE := [RESERVED, CHECKED_OUT, MAINTENANCE, BROKEN, RETIRED],
                RESERVED := [AVAILABLE, CHECKED_OUT],
                CHECKED_OUT := [AVAILABLE, MAINTENANCE, BROKEN],
                MAINTENANCE := [AVAILABLE, RETIRED],
                BROKEN := [MAINTENANCE, RETIRED]],
            map[], map[], [])
  }

  function ReservationMachine(): Machine {
    Machine("status", REQUESTED,
            map[REQUESTED := [APPROVED, CANCELLED, DENIED, EXPIRED],
                APPROVED := [RESERVED, CANCELLED, EXPIRED],
                RESERVED := [CHECKED_OUT, CANCELLED, EXPIRED],
                CHECKED_OUT := [RETURNED, RETURNED_DAMAGED],
                RETURNED := [], RETURNED_DAMAGED := [], CANCELLED := [], DENIED := [], EXPIRED := []],
            map[CHECKED_OUT := [RelatedIn("tool_id", "Tool", "status", [AVAILABLE, RESERVED]),
                                RelatedIn("member_id", "Member", "status", [ACTIVE])]],
            map[CHECKED_OUT := [SetTool(CHECKED_OUT)],
                RETURNED := [SetTool(AVAILABLE)],
                RETURNED_DAMAGED := [SetTool(MAINTENANCE), NEW_INCIDENT, NEW_MAINTENANCE]],
            [Timed(REQUESTED, EXPIRED, "end_at"),
             Timed(APPROVED, EXPIRED, "end_at"),
             Timed(RESERVED, EXPIRED, "end_at")])
  }

  function MaintenanceMachine(): Machine {
    Machine("status", STARTED, map[STARTED := [COMPLETED], COMPLETED := []], map[],
            map[COMPLETED := [SetTool(AVAILABLE)]], [])
  }

  const BOOKING := Overlap("tool_id", "start_at", "end_at", [REQUESTED, APPROVED, RESERVED, CHECKED_OUT])

  function Library(): Schema {
    map["Member" := Entity(Some(MemberMachine()), map[], map[], [], None, None),
        "Tool" := Entity(Some(ToolMachine()), map[], map[], [], None, None),
        "Reservation" := Entity(Some(ReservationMachine()), map[], map["member_id" := "Member", "tool_id" := "Tool"],
                                [RefRule("member_id", "Member", "status", [ACTIVE]),
                                 RefRule("tool_id", "Tool", "status", [AVAILABLE])],
                                Some(BOOKING), None),
        "Incident" := Entity(None, map[], map["tool_id" := "Tool", "reservation_id" := "Reservation"], [], None, None),
        "MaintenanceRecord" := Entity(Some(MaintenanceMachine()), map[], map["tool_id" := "Tool"], [], None, None),
        "Tag" := Entity(None, map[], map[], [], None, None)]
  }

  lemma LibraryEffects(e: string, to: Value, eff: Effect)
    requires e in Library() && Library()[e].machine.Some? && eff in EffectsFor(Library()[e].machine.value, to)
    ensures e == "Reservation" || e == "MaintenanceRecord"
    ensures eff == NEW_INCIDENT || eff == NEW_MAINTENANCE || (eff.SetRelated? && eff == SetTool(eff.value))
  {
    var m := Library()[e].machine.value;
    assert e in {"Member", "Tool", "Reservation", "MaintenanceRecord"};
    if e == "Reservation" {
      assert m == ReservationMachine();
      assert EffectsFor(m, to) in {[], [SetTool(CHECKED_OUT)], [SetTool(AVAILABLE)],
                                   [SetTool(MAINTENANCE), NEW_INCIDENT, NEW_MAINTENANCE]};
    } else if e == "MaintenanceRecord" {
      assert m == MaintenanceMachine();
    }
  }

  lemma LibraryDeclared(eff: Effect)
    requires DeclaredEffect(Library(), eff)
    ensures eff == NEW_INCIDENT || eff == NEW_MAINTENANCE || (eff.SetRelated? && eff == SetTool(eff.value))
  {
    var e, to :| e in Library() && Library()[e].machine.Some? && eff in EffectsFor(Library()[e].machine.value, to);
    LibraryEffects(e, to, eff);
  }

  /** No effect of the library can store a status its table does not reach. */
  lemma LibraryIsWellBehaved()
    ensures WellBehaved(Library())
  {
    forall eff | DeclaredEffect(Library(), eff)
      ensures LeavesStatusAlone(Library(), eff)
    {
      LibraryDeclared(eff);
      if eff == NEW_MAINTENANCE {
        assert Library()[eff.entity].machine == Some(MaintenanceMachine());
        ReachesSelf(Table(MaintenanceMachine()), STARTED);
      } else if eff == NEW_INCIDENT {
        assert !HasMachine(Library(), eff.entity);
      }
    }
    forall e | HasMachine(Library(), e)
      ensures Library()[e].machine.value.field == "status"
    {
      assert e in {"Member", "Tool", "Reservation", "MaintenanceRecord"};
    }
  }

  /** Its set_related effects are all guarded. */
  lemma LibraryIsGuarded()
    ensures StatusesGuarded(Library())
  {
    forall eff | DeclaredEffect(Library(), eff)
      ensures eff.SetRelated? ==> eff.guarded
    {
      LibraryDeclared(eff);
    }
  }

  lemma LibraryWritesStatus(e: string, f: string)
    ensures Writable(Library(), e, f) ==> f == "status"
  {
    if eff :| DeclaredEffect(Library(), eff) && Sets(eff, e, f) {
      LibraryDeclared(eff);
    }
    if HasMachine(Library(), e) {
      assert e in {"Member", "Tool", "Reservation", "MaintenanceRecord"};
    }
  }

  /** They follow tool_id, which nothing writes. */
  lemma LibraryRefsAreFixed()
    ensures RefsFixed(Library())
  {
    forall e, to, eff | HasMachine(Library(), e) && eff in EffectsFor(Library()[e].machine.value, to) && eff.SetRelated?
      ensures !Writable(Library(), e, eff.ref)
    {
      LibraryEffects(e, to, eff);
      LibraryWritesStatus(e, eff.ref);
      assert |"tool_id"| != |"status"|;
    }
  }

  function LibraryRank(e: string, to: Value): nat {
    if e == "Tool" then 0 else 1
  }

  /** No library transition nests deeper than two calls. */
  lemma LibraryTransitionsTerminate(st: Store, e: string, id: Value, to: Value, depth: nat)
    requires e in Library() && Library()[e].machine.Some? && depth >= 2
    ensures Transition(Library(), st, e, id, to, depth).outcome != TooDeep
    ensures Transition(Library(), st, e, id, to, depth) == Transition(Library(), st, e, id, to, 2)
  {
    forall f, v, eff |
      f in Library() && Library()[f].machine.Some? && eff in EffectsFor(Library()[f].machine.value, v)
      && eff.SetRelated? && eff.guarded && eff.entity in Library()
      ensures LibraryRank(eff.entity, eff.value) < LibraryRank(f, v)
    {
      LibraryEffects(f, v, eff);
      assert |"Tool"| != |"Reservation"| && |"Tool"| != |"MaintenanceRecord"|;
    }
    RankedTransitionsTerminate(Library(), LibraryRank, st, e, id, to, depth, 2);
  }

  lemma ActiveOrDone(v: Value)
    requires v in [CANCELLED, DENIED, EXPIRED, RETURNED, RETURNED_DAMAGED]
    ensures v !in BOOKING.active
  {
    assert "cancelled"[0] != "requested"[0] && "returned"[0] != "approved"[0] && "returned"[2] != "reserved"[2];
  }

  /** Its reservations meet the conditions of the overlap theorem. */
  lemma LibraryBookingIsSafe()
    ensures RuleIsSafe(Library(), "Reservation", BOOKING)
  {
    var m := ReservationMachine();
    assert Library()["Reservation"].machine == Some(m);
    forall a, b | b in Targets(m, a) && b in BOOKING.active
      ensures a in BOOKING.active
    {
      if b in [CANCELLED, DENIED, EXPIRED, RETURNED, RETURNED_DAMAGED] {
        ActiveOrDone(b);
      }
      assert a in [REQUESTED, APPROVED, RESERVED, CHECKED_OUT] || Targets(m, a) == [];
    }
    forall eff | DeclaredEffect(Library(), eff)
      ensures eff.entity != "Reservation"
    {
      LibraryDeclared(eff);
      assert |"Reservation"| == 11 && |"Tool"| == 4 && |"Incident"| == 8 && |"MaintenanceRecord"| == 17;
    }
    assert Defaults(Library()["Reservation"]).Keys == {"status"};
    assert |"status"| == 6 && |"tool_id"| == 7 && |"start_at"| == 8 && |"end_at"| == 6 && "status"[0] != "end_at"[0];
  }

  lemma LibraryTimesAreForward()
    ensures var m := ReservationMachine();
            EffectFree(m, m.timed) && SteadyGuards("Reservation", m, m.timed) && Forward(m.timed)
  {
    assert |"expired"| == 7 && |"requested"| == 9 && |"approved"| == 8 && |"reserved"| == 8;
    assert "approved"[0] != "reserved"[0];
    assert |"checked_out"| == 11 && |"returned"| == 8 && |"returned_damaged"| == 16;
    assert |"end_at"| == 6 && "status"[0] != "end_at"[0];
    var m := ReservationMachine();
    assert EXPIRED !in m.effects && EXPIRED !in m.guards;
    forall t | t in m.timed
      ensures t.target == EXPIRED && t.when == "end_at"
    {
    }
  }

  // ---------------------------------------------------------------------------------
  // What follows for the library
  // ---------------------------------------------------------------------------------

  /** Between any commit of a library database and any later moment, every row that is still there has walked in
      its own table, whatever was created and asked for in between. */
  lemma LibraryStaysOnWalks(autoflush: bool, calls: seq<Call>, later: seq<Call>)
    requires AllCallable(Library(), calls) && AllCallable(Library(), later)
    requires forall c :: c in calls || c in later ==> QuietUpdate(Library(), c)
    ensures var mid := ExecAll(Library(), NewDb(autoflush), calls);
            var end := ExecAll(Library(), mid, later);
            HasWalked(Library(), mid.committed, end.working) && HasWalked(Library(), mid.committed, end.committed)
  {
    var s, mid := Library(), ExecAll(Library(), NewDb(autoflush), calls);
    LibraryIsGuarded();
    PendingWorkWalks(s, NewDb(autoflush), calls);
    StandsStill(s, mid.committed);
    EveryRunStaysOnWalks(s, mid.committed, mid, later);
  }

  /** Every status a library database ever holds is reachable, if creates ask for none or a reachable one. */
  lemma LibraryStaysReachable(autoflush: bool, calls: seq<Call>)
    requires AllCallable(Library(), calls)
    requires forall c :: c in calls ==> DefaultStatus(Library(), c) && QuietUpdate(Library(), c)
    ensures var end := ExecAll(Library(), NewDb(autoflush), calls);
            StatusesReachable(Library(), end.working) && StatusesReachable(Library(), end.committed)
  {
    LibraryIsWellBehaved();
    EveryRunStaysReachable(Library(), EMPTY, NewDb(autoflush), calls);
  }

  /** No two active reservations of a tool ever cover one instant. */
  lemma LibraryStaysExclusive(autoflush: bool, calls: seq<Call>)
    requires AllCallable(Library(), calls)
    requires forall c :: c in calls && c.DoUpdate? && c.key.entity == "Reservation" ==> Unread(BOOKING, c.data)
    ensures var end := ExecAll(Library(), NewDb(autoflush), calls);
            Exclusive(end.working, "Reservation", BOOKING) && Exclusive(end.committed, "Reservation", BOOKING)
  {
    LibraryBookingIsSafe();
    EveryRunKeepsExclusive(Library(), NewDb(autoflush), calls, "Reservation", BOOKING);
  }

  lemma ReservationLeadsToTool(row: Row)
    ensures EffectRefs(Library(), "Reservation", row) <=
            if Attr(row, "tool_id").Int? then {Key("Tool", Attr(row, "tool_id").i)} else {}
    ensures EffectRefs(Library(), "Tool", row) == {}
  {
    var m := ReservationMachine();
    assert Library()["Reservation"].machine == Some(m) && Library()["Tool"].machine == Some(ToolMachine());
    forall to, i | to in m.effects && 0 <= i < |m.effects[to]| && m.effects[to][i].SetRelated?
      ensures m.effects[to][i].ref == "tool_id" && m.effects[to][i].entity == "Tool"
    {
      assert m.effects[to][i] in EffectsFor(m, to);
      LibraryEffects("Reservation", to, m.effects[to][i]);
    }
  }

  /** Moving a reservation changes the status of that row and of its tool, and adds incidents and maintenance
      records; nothing else. */
  lemma ReservationFootprint(st: Store, id: int, to: Value, depth: nat)
    requires IdsFresh(st) && Key("Reservation", id) in st.rows
    ensures var k, end := Key("Reservation", id), Transition(Library(), st, "Reservation", Int(id), to, depth).store;
      && (forall x, f :: x in st.rows && f != "status" ==> x in end.rows && Attr(end.rows[x], f) == Attr(st.rows[x], f))
      && (forall x :: x in st.rows && end.rows[x] != st.rows[x] ==>
            x == k || (x.entity == "Tool" && Attr(st.rows[k], "tool_id") == Int(x.id)))
      && (forall x :: x in end.rows && x !in st.rows ==> x.entity in {"Incident", "MaintenanceRecord"})
  {
    var s, k, r := Library(), Key("Reservation", id), Transition(Library(), st, "Reservation", Int(id), to, depth);
    LibraryRefsAreFixed();
    FixedRefsFootprint(s, st, "Reservation", Int(id), to, depth);
    forall x, f | x in st.rows && f != "status"
      ensures x in r.store.rows && Attr(r.store.rows[x], f) == Attr(st.rows[x], f)
    {
      LibraryWritesStatus(x.entity, f);
    }
    forall x | x in st.rows && r.store.rows[x] != st.rows[x]
      ensures x == k || (x.entity == "Tool" && Attr(st.rows[k], "tool_id") == Int(x.id))
    {
      assert |"tool_id"| != |"status"|;
      ReservationReaches(st, r.store, k, x);
    }
    forall x | x in r.store.rows && x !in st.rows
      ensures x.entity in {"Incident", "MaintenanceRecord"}
    {
      NewRowIsReport(st, r.store, k, r.log, x);
    }
  }

  lemma ReservationReaches(st: Store, end: Store, k: Key, x: Key)
    requires k in st.rows && k.entity == "Reservation" && k in end.rows
    requires Attr(end.rows[k], "tool_id") == Attr(st.rows[k], "tool_id")
    requires Reaches(EffectGraph(Library(), end), k, x)
    ensures x == k || (x.entity == "Tool" && Attr(st.rows[k], "tool_id") == Int(x.id))
  {
    var g, tool := EffectGraph(Library(), end), Attr(end.rows[k], "tool_id");
    var near := {k} + if tool.Int? then {Key("Tool", tool.i)} else {};
    forall n | n in near
      ensures Succ(g, n) <= near
    {
      if n in end.rows {
        ReservationLeadsToTool(end.rows[n]);
      }
    }
    ClosedContainsReachable(g, near, k, x);
  }

  lemma NewRowIsReport(st: Store, end: Store, k: Key, log: seq<Event>, x: Key)
    requires MadeFromReached(Library(), st, end, EffectGraph(Library(), end), k, log, x)
    ensures x.entity in {"Incident", "MaintenanceRecord"}
  {
    var s := Library();
    var i :| 0 <= i < |log| && ChildOf(s, st, end, EffectGraph(s, end), k, log, x, i);
    var y :| CreatedFor(s, end, y, log[i]) && Reaches(EffectGraph(s, end), k, y);
    var to :| log[i].effect in EffectsFor(s[y.entity].machine.value, to);
    LibraryEffects(y.entity, to, log[i].effect);
  }

  /** A late library sweep makes up for every earlier one: sweeping at n1 and at n2 leaves the store of one sweep
      at n2. */
  lemma LibrarySweepsCatchUp(st: Store, n1: int, n2: int, o1: seq<seq<int>>, o12: seq<seq<int>>, o2: seq<seq<int>>,
                             depth: nat)
    requires depth > 0 && n1 <= n2
    requires SweepOrders(Library(), st, "Reservation", ReservationMachine().timed, n1, o1, depth)
    requires SweepOrders(Library(), st, "Reservation", ReservationMachine().timed, n2, o2, depth)
    requires var mid := Sweep(Library(), st, "Reservation", ReservationMachine().timed, o1, depth).store;
             SweepOrders(Library(), mid, "Reservation", ReservationMachine().timed, n2, o12, depth)
    ensures var timed := ReservationMachine().timed;
            var mid := Sweep(Library(), st, "Reservation", timed, o1, depth).store;
            Sweep(Library(), mid, "Reservation", timed, o12, depth).store
            == Sweep(Library(), st, "Reservation", timed, o2, depth).store
  {
    var m := ReservationMachine();
    var mid := Sweep(Library(), st, "Reservation", m.timed, o1, depth).store;
    LibraryTimesAreForward();
    SweepCatchesUp(Library(), st, "Reservation", m, n1, n2, mid, o1, o12, o2, depth);
  }
}
