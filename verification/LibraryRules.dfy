/** What the tool library's rules come to, row by row. */
module LibraryRules {
  import opened Workflow
  import opened Wrappers
  import opened Walks
  import opened Sweeping
  import opened Footprint
  import opened ToolLibrary
  import opened NoOverlap
  import opened Erasure

  /** The statuses are different strings. */
  lemma StatusesDiffer()
    ensures REQUESTED != APPROVED && APPROVED != RESERVED && RESERVED != REQUESTED
    ensures CHECKED_OUT !in {REQUESTED, APPROVED, RESERVED, RETURNED, RETURNED_DAMAGED, CANCELLED, DENIED, EXPIRED}
    ensures EXPIRED !in {REQUESTED, APPROVED, RESERVED, CHECKED_OUT, RETURNED, RETURNED_DAMAGED, CANCELLED, DENIED}
    ensures RETURNED_DAMAGED !in {REQUESTED, APPROVED, RESERVED, CHECKED_OUT, RETURNED, CANCELLED, DENIED, EXPIRED}
    ensures RETURNED !in {REQUESTED, APPROVED, RESERVED, CANCELLED, DENIED}
  {
    assert |"requested"| == 9 && |"approved"| == 8 && |"reserved"| == 8 && |"checked_out"| == 11 && |"returned"| == 8;
    assert |"returned_damaged"| == 16 && |"cancelled"| == 9 && |"denied"| == 6 && |"expired"| == 7;
    assert "approved"[0] != "reserved"[0] && "returned"[2] != "reserved"[2] && "approved"[0] != "returned"[0];
    assert "requested"[0] != "cancelled"[0];
  }

  lemma CheckoutTable(v: Value)
    ensures CHECKED_OUT in Targets(ReservationMachine(), v) <==> v == RESERVED
  {
    StatusesDiffer();
  }

  lemma CheckoutGuards(st: Store, row: Row)
    ensures GuardsHold(Library(), st, row, GuardsFor(ReservationMachine(), CHECKED_OUT)) <==>
      && "tool_id" in row && row["tool_id"].Int? && Key("Tool", row["tool_id"].i) in st.rows
      && "status" in st.rows[Key("Tool", row["tool_id"].i)]
      && st.rows[Key("Tool", row["tool_id"].i)]["status"] in {AVAILABLE, RESERVED}
      && "member_id" in row && row["member_id"].Int? && Key("Member", row["member_id"].i) in st.rows
      && "status" in st.rows[Key("Member", row["member_id"].i)]
      && st.rows[Key("Member", row["member_id"].i)]["status"] == ACTIVE
  {
    var gs := GuardsFor(ReservationMachine(), CHECKED_OUT);
    var tool := RelatedIn("tool_id", "Tool", "status", [AVAILABLE, RESERVED]);
    var member := RelatedIn("member_id", "Member", "status", [ACTIVE]);
    assert gs == [tool, member] && gs[0] in gs && gs[1] in gs;
    assert GuardsHold(Library(), st, row, gs) <==>
           GuardHolds(Library(), st, row, tool) && GuardHolds(Library(), st, row, member);
  }

  /** A reservation is checked out only from reserved, with its tool there and available or reserved and its member
      there and active; and then its status is written. */
  lemma CheckoutExactly(st: Store, id: int, depth: nat)
    requires Key("Reservation", id) in st.rows && depth > 0
    ensures var row := st.rows[Key("Reservation", id)];
      Transition(Library(), st, "Reservation", Int(id), CHECKED_OUT, depth).log != [] <==>
        && "status" in row && row["status"] == RESERVED
        && "tool_id" in row && row["tool_id"].Int? && Key("Tool", row["tool_id"].i) in st.rows
        && "status" in st.rows[Key("Tool", row["tool_id"].i)]
        && st.rows[Key("Tool", row["tool_id"].i)]["status"] in {AVAILABLE, RESERVED}
        && "member_id" in row && row["member_id"].Int? && Key("Member", row["member_id"].i) in st.rows
        && "status" in st.rows[Key("Member", row["member_id"].i)]
        && st.rows[Key("Member", row["member_id"].i)]["status"] == ACTIVE
  {
    var row := st.rows[Key("Reservation", id)];
    CheckoutTable(Attr(row, "status"));
    CheckoutGuards(st, row);
    WritesOnceLetThrough(Library(), st, "Reservation", id, CHECKED_OUT, depth);
  }

  /** In any run, at the moment a reservation is checked out its tool is available or reserved and its member active. */
  lemma EveryCheckoutIsCovered(st: Store, log: seq<Event>, end: Store, i: nat, id: int) returns (mid: Store)
    requires Run(Library(), st, log, end) && i < |log| && log[i] == Move(Key("Reservation", id), CHECKED_OUT)
    ensures Run(Library(), st, log[..i], mid) && Key("Reservation", id) in mid.rows
    ensures var row := mid.rows[Key("Reservation", id)];
      && "tool_id" in row && row["tool_id"].Int? && Key("Tool", row["tool_id"].i) in mid.rows
      && "status" in mid.rows[Key("Tool", row["tool_id"].i)]
      && mid.rows[Key("Tool", row["tool_id"].i)]["status"] in {AVAILABLE, RESERVED}
      && "member_id" in row && row["member_id"].Int? && Key("Member", row["member_id"].i) in mid.rows
      && "status" in mid.rows[Key("Member", row["member_id"].i)]
      && mid.rows[Key("Member", row["member_id"].i)]["status"] == ACTIVE
  {
    mid := RunSplits(Library(), st, log, end, i);
    assert log[i..][0] == log[i];
    assert Library()["Reservation"].machine == Some(ReservationMachine());
    CheckoutExactly(mid, id, 1);
    MayMoveWrites(Library(), mid, "Reservation", id, CHECKED_OUT);
  }

  lemma MayMoveWrites(s: Schema, st: Store, e: string, id: int, to: Value)
    requires Enabled(s, st, Move(Key(e, id), to))
    ensures Transition(s, st, e, Int(id), to, 1).log != []
  {
  }

  /** A reservation that create() stores, if it names a member and a tool, had an active member and an available tool
      at that moment, whatever else was unflushed. */
  lemma EveryBookingIsCovered(db: Db, data: Row)
    requires Exec(Library(), db, DoCreate("Reservation", data)) != db
    ensures "member_id" in data && data["member_id"] != Null ==>
      && data["member_id"].Int? && Key("Member", data["member_id"].i) in db.working.rows
      && "status" in db.working.rows[Key("Member", data["member_id"].i)]
      && db.working.rows[Key("Member", data["member_id"].i)]["status"] == ACTIVE
    ensures "tool_id" in data && data["tool_id"] != Null ==>
      && data["tool_id"].Int? && Key("Tool", data["tool_id"].i) in db.working.rows
      && "status" in db.working.rows[Key("Tool", data["tool_id"].i)]
      && db.working.rows[Key("Tool", data["tool_id"].i)]["status"] == AVAILABLE
  {
    var rules := Library()["Reservation"].refRules;
    assert rules[0] in rules && rules[1] in rules;
    assert CreateAllowedIn(Library(), db.working, Reads(db), "Reservation", data);
    assert RefRuleHolds(db.working, data, rules[0]) && RefRuleHolds(db.working, data, rules[1]);
  }

  /** And one that is refused, with no reservation that stands in the way, names a member or a tool that is not there
      or not at that status. */
  lemma RefusedBookingIsUncovered(db: Db, data: Row)
    requires Exec(Library(), db, DoCreate("Reservation", data)) == db
    requires forall k :: k in Reads(db).rows ==> k.entity != "Reservation"
    ensures
      || ("member_id" in data && data["member_id"] != Null
          && !(data["member_id"].Int? && Key("Member", data["member_id"].i) in db.working.rows
               && "status" in db.working.rows[Key("Member", data["member_id"].i)]
               && db.working.rows[Key("Member", data["member_id"].i)]["status"] == ACTIVE))
      || ("tool_id" in data && data["tool_id"] != Null
          && !(data["tool_id"].Int? && Key("Tool", data["tool_id"].i) in db.working.rows
               && "status" in db.working.rows[Key("Tool", data["tool_id"].i)]
               && db.working.rows[Key("Tool", data["tool_id"].i)]["status"] == AVAILABLE))
  {
    var rules := Library()["Reservation"].refRules;
    assert rules == [RefRule("member_id", "Member", "status", [ACTIVE]),
                     RefRule("tool_id", "Tool", "status", [AVAILABLE])];
    if CreateAllowedIn(Library(), db.working, Reads(db), "Reservation", data) {
      InsertMovesOn(Library(), db.working, "Reservation", data);
    } else {
      var r :| r in rules && !RefRuleHolds(db.working, data, r);
    }
  }

  lemma InsertMovesOn(s: Schema, st: Store, e: string, data: Row)
    requires e in s
    ensures NextId(InsertRow(s, st, e, data), e) == NextId(st, e) + 1
  {
  }

  // ---------------------------------------------------------------------------------
  // A sweep of the reservations
  // ---------------------------------------------------------------------------------

  lemma StepOfReservation(st: Store, now: int, source: Value, row: Row)
    requires source in {REQUESTED, APPROVED, RESERVED}
    ensures Step(Library(), st, ReservationMachine(), Timed(source, EXPIRED, "end_at"), now, row)
            == if "status" in row && row["status"] == source
                  && "end_at" in row && row["end_at"].Int? && row["end_at"].i < now
               then row["status" := EXPIRED] else row
  {
    var m := ReservationMachine();
    StatusesDiffer();
    assert GuardsFor(m, EXPIRED) == [] && EXPIRED in Targets(m, source);
  }

  lemma FateOfReservation(st: Store, now: int, row: Row)
    ensures Fate(Library(), st, ReservationMachine(), ReservationMachine().timed, now, row)
            == if "status" in row && row["status"] in {REQUESTED, APPROVED, RESERVED}
                  && "end_at" in row && row["end_at"].Int? && row["end_at"].i < now
               then row["status" := EXPIRED] else row
  {
    var s, m := Library(), ReservationMachine();
    var t := m.timed;
    StatusesDiffer();
    var r1 := Step(s, st, m, t[0], now, row);
    var r2 := Step(s, st, m, t[1], now, r1);
    StepOfReservation(st, now, REQUESTED, row);
    StepOfReservation(st, now, APPROVED, r1);
    StepOfReservation(st, now, RESERVED, r2);
    FateOfThree(s, st, m, t[0], t[1], t[2], now, row);
    assert t == [t[0], t[1], t[2]];
  }

  lemma FateOfThree(s: Schema, st: Store, m: Machine, a: Timed, b: Timed, c: Timed, now: int, row: Row)
    ensures Fate(s, st, m, [a, b, c], now, row)
            == Step(s, st, m, c, now, Step(s, st, m, b, now, Step(s, st, m, a, now, row)))
  {
    var r1 := Step(s, st, m, a, now, row);
    var r2 := Step(s, st, m, b, now, r1);
    assert [a, b, c][1..] == [b, c] && [b, c][1..] == [c] && [c][1..] == [];
    assert Fate(s, st, m, [c], now, r2) == Fate(s, st, m, [], now, Step(s, st, m, c, now, r2));
  }

  /** A sweep expires exactly the reservations that are requested, approved or reserved with their end before `now`;
      nothing else in the store changes. */
  lemma SweepExpiresExactly(st: Store, now: int, orders: seq<seq<int>>, depth: nat)
    requires depth > 0 && SweepOrders(Library(), st, "Reservation", ReservationMachine().timed, now, orders, depth)
    ensures var after := Sweep(Library(), st, "Reservation", ReservationMachine().timed, orders, depth).store;
      && after.next == st.next && after.rows.Keys == st.rows.Keys
      && (forall k :: k in st.rows ==>
            var row := st.rows[k];
            after.rows[k] ==
              if k.entity == "Reservation" && "status" in row && row["status"] in {REQUESTED, APPROVED, RESERVED}
                 && "end_at" in row && row["end_at"].Int? && row["end_at"].i < now
              then row["status" := EXPIRED] else row)
  {
    LibraryTimesAreForward();
    SweepIsRowByRow(Library(), st, "Reservation", ReservationMachine().timed, now, orders, depth);
    forall k | k in st.rows && k.entity == "Reservation"
    {
      FateOfReservation(st, now, st.rows[k]);
    }
  }

  // ---------------------------------------------------------------------------------
  // A damaged return
  // ---------------------------------------------------------------------------------

  lemma ToolTransition(st: Store, tool: int, to: Value, depth: nat)
    requires depth > 0 && Key("Tool", tool) in st.rows && Attr(st.rows[Key("Tool", tool)], "status") == CHECKED_OUT
    requires to in {AVAILABLE, MAINTENANCE}
    ensures Transition(Library(), st, "Tool", Int(tool), to, depth)
            == Result(SetField(st, Key("Tool", tool), "status", to), Done, [Move(Key("Tool", tool), to)])
  {
    var m, k := ToolMachine(), Key("Tool", tool);
    assert Library()["Tool"].machine == Some(m);
    assert CHECKED_OUT in m.transitions by {
      assert |"checked_out"| == 11;
    }
    assert m.transitions[CHECKED_OUT] == [AVAILABLE, MAINTENANCE, BROKEN] by {
      assert |"available"| == 9 && |"reserved"| == 8 && |"checked_out"| == 11 && |"broken"| == 6;
      assert "maintenance"[0] != "checked_out"[0];
    }
    assert MayMove(Library(), st, k, to);
    EffectFreeTransition(Library(), st, "Tool", tool, to, depth);
  }

  lemma IncidentOfReturn(acting: Row, id: int)
    ensures var child := NewRow(Library()["Incident"], ChildValues(NEW_INCIDENT.values, acting), id);
      && Holds(child, "id", Int(id)) && Holds(child, "tool_id", Attr(acting, "tool_id"))
      && Holds(child, "reservation_id", Attr(acting, "id")) && Holds(child, "note", Str("damaged on return"))
  {
    var values := NEW_INCIDENT.values;
    assert |"tool_id"| == 7 && |"reservation_id"| == 14 && |"note"| == 4 && |"id"| == 2;
    assert values["tool_id"] == Copy("tool_id") && values["reservation_id"] == Copy("id");
    assert values["note"] == Const(Str("damaged on return"));
  }

  lemma RepairOfReturn(acting: Row, id: int)
    ensures var child := NewRow(Library()["MaintenanceRecord"], ChildValues(NEW_MAINTENANCE.values, acting), id);
      && Holds(child, "id", Int(id)) && Holds(child, "tool_id", Attr(acting, "tool_id"))
      && Holds(child, "status", Str("open"))
  {
    var values := NEW_MAINTENANCE.values;
    assert |"tool_id"| == 7 && |"status"| == 6 && |"id"| == 2;
    assert values["tool_id"] == Copy("tool_id") && values["status"] == Const(Str("open"));
  }

  lemma ReturnMayMove(st: Store, k: Key)
    requires k in st.rows && k.entity == "Reservation" && Attr(st.rows[k], "status") == CHECKED_OUT
    ensures MayMove(Library(), st, k, RETURNED_DAMAGED)
    ensures EffectsFor(ReservationMachine(), RETURNED_DAMAGED) == [SetTool(MAINTENANCE), NEW_INCIDENT, NEW_MAINTENANCE]
  {
    var m := ReservationMachine();
    StatusesDiffer();
    assert Library()["Reservation"].machine == Some(m);
    assert RETURNED_DAMAGED in Targets(m, CHECKED_OUT) && GuardsFor(m, RETURNED_DAMAGED) == [];
  }

  /** A transition whose effects are one guarded set_related that succeeds and two new children */
  function WithChildren(s: Schema, st: Store, k: Key, b: Effect, c: Effect): Store
    requires k in st.rows && b.CreateChild? && c.CreateChild? && b.entity in s && c.entity in s
  {
    InsertRow(s, InsertRow(s, st, b.entity, ChildValues(b.values, st.rows[k])), c.entity,
              ChildValues(c.values, st.rows[k]))
  }

  lemma ThreeEffects(s: Schema, st: Store, k: Key, a: Effect, b: Effect, c: Effect, st2: Store, depth: nat)
    requires k in st.rows && k in st2.rows && IdsFresh(st2)
    requires b.CreateChild? && c.CreateChild? && b.entity in s && c.entity in s
    requires RunEffect(s, st, k, a, depth).outcome == Done && RunEffect(s, st, k, a, depth).store == st2
    ensures RunEffects(s, st, k, [a, b, c], depth).outcome == Done
    ensures RunEffects(s, st, k, [a, b, c], depth).store == WithChildren(s, st2, k, b, c)
  {
    var st3 := InsertRow(s, st2, b.entity, ChildValues(b.values, st2.rows[k]));
    var st4 := WithChildren(s, st2, k, b, c);
    assert st3.rows[k] == st2.rows[k];
    assert [a, b, c][1..] == [b, c] && [b, c][1..] == [c] && [c][1..] == [];
    assert RunEffects(s, st4, k, [], depth) == Result(st4, Done, []);
    assert RunEffect(s, st3, k, c, depth).store == st4;
    assert RunEffects(s, st3, k, [c], depth).outcome == Done && RunEffects(s, st3, k, [c], depth).store == st4;
    assert RunEffects(s, st2, k, [b, c], depth).outcome == Done && RunEffects(s, st2, k, [b, c], depth).store == st4;
  }

  lemma TwoChildren(s: Schema, st: Store, k: Key, b: Effect, c: Effect)
    requires k in st.rows && IdsFresh(st)
    requires b.CreateChild? && c.CreateChild? && b.entity in s && c.entity in s && b.entity != c.entity
    ensures var end, row := WithChildren(s, st, k, b, c), st.rows[k];
            var x, y := Key(b.entity, NextId(st, b.entity)), Key(c.entity, NextId(st, c.entity));
      && end.rows.Keys == st.rows.Keys + {x, y} && x !in st.rows && y !in st.rows
      && (forall z :: z in st.rows ==> end.rows[z] == st.rows[z])
      && end.rows[x] == NewRow(s[b.entity], ChildValues(b.values, row), x.id)
      && end.rows[y] == NewRow(s[c.entity], ChildValues(c.values, row), y.id)
  {
  }

  lemma SetToolRuns(st: Store, k: Key, tool: int, to: Value, depth: nat)
    requires depth > 0 && k in st.rows && Attr(st.rows[k], "tool_id") == Int(tool) && Key("Tool", tool) in st.rows
    requires Attr(st.rows[Key("Tool", tool)], "status") == CHECKED_OUT && to in {AVAILABLE, MAINTENANCE}
    ensures var r := RunEffect(Library(), st, k, SetTool(to), depth);
            r.outcome == Done && r.store == SetField(st, Key("Tool", tool), "status", to)
  {
    ToolTransition(st, tool, to, depth);
  }

  /** The reservation and its tool after a damaged return, before its children */
  function BothReturned(st: Store, id: int, tool: int): Store
    requires Key("Reservation", id) in st.rows && Key("Tool", tool) in st.rows
  {
    SetField(SetField(st, Key("Reservation", id), "status", RETURNED_DAMAGED), Key("Tool", tool), "status", MAINTENANCE)
  }

  lemma EnteredAs(s: Schema, st: Store, k: Key, to: Value, m: Machine, effs: seq<Effect>, depth: nat)
    requires k in st.rows && k.entity in s && s[k.entity].machine == Some(m) && EffectsFor(m, to) == effs
    ensures Entered(s, st, k, to, depth) == RunEffects(s, SetField(st, k, m.field, to), k, effs, depth)
  {
  }

  lemma EnteredReturn(st: Store, id: int, tool: int, depth: nat)
    requires IdsFresh(st) && depth > 0 && Key("Reservation", id) in st.rows && Key("Tool", tool) in st.rows
    requires Attr(st.rows[Key("Reservation", id)], "status") == CHECKED_OUT
    requires Attr(st.rows[Key("Reservation", id)], "tool_id") == Int(tool)
    requires Attr(st.rows[Key("Tool", tool)], "status") == CHECKED_OUT
    ensures var r := Entered(Library(), st, Key("Reservation", id), RETURNED_DAMAGED, depth);
            r.outcome == Done && r.store == WithChildren(Library(), BothReturned(st, id, tool), Key("Reservation", id),
                                                         NEW_INCIDENT, NEW_MAINTENANCE)
  {
    ReturnMayMove(st, Key("Reservation", id));
    EnteredAs(Library(), st, Key("Reservation", id), RETURNED_DAMAGED, ReservationMachine(),
              [SetTool(MAINTENANCE), NEW_INCIDENT, NEW_MAINTENANCE], depth);
    EffectsOfReturn(st, id, tool, depth);
  }

  lemma EffectsOfReturn(st: Store, id: int, tool: int, depth: nat)
    requires IdsFresh(st) && depth > 0 && Key("Reservation", id) in st.rows && Key("Tool", tool) in st.rows
    requires Attr(st.rows[Key("Reservation", id)], "tool_id") == Int(tool)
    requires Attr(st.rows[Key("Tool", tool)], "status") == CHECKED_OUT
    ensures var k := Key("Reservation", id);
            var r := RunEffects(Library(), SetField(st, k, "status", RETURNED_DAMAGED), k,
                                [SetTool(MAINTENANCE), NEW_INCIDENT, NEW_MAINTENANCE], depth);
            r.outcome == Done
            && r.store == WithChildren(Library(), BothReturned(st, id, tool), k, NEW_INCIDENT, NEW_MAINTENANCE)
  {
    var k := Key("Reservation", id);
    var st1 := SetField(st, k, "status", RETURNED_DAMAGED);
    assert |"tool_id"| != |"status"|;
    SetToolRuns(st1, k, tool, MAINTENANCE, depth);
    ThreeEffects(Library(), st1, k, SetTool(MAINTENANCE), NEW_INCIDENT, NEW_MAINTENANCE, BothReturned(st, id, tool),
                 depth);
  }

  lemma ChildrenOfReturn(st2: Store, k: Key)
    requires k in st2.rows && IdsFresh(st2)
    ensures var end := WithChildren(Library(), st2, k, NEW_INCIDENT, NEW_MAINTENANCE);
            var incident := Key("Incident", NextId(st2, "Incident"));
            var repair := Key("MaintenanceRecord", NextId(st2, "MaintenanceRecord"));
      && end.rows.Keys == st2.rows.Keys + {incident, repair}
      && (forall z :: z in st2.rows ==> end.rows[z] == st2.rows[z])
      && Holds(end.rows[incident], "tool_id", Attr(st2.rows[k], "tool_id"))
      && Holds(end.rows[incident], "reservation_id", Attr(st2.rows[k], "id"))
      && Holds(end.rows[incident], "note", Str("damaged on return"))
      && Holds(end.rows[repair], "tool_id", Attr(st2.rows[k], "tool_id"))
      && Holds(end.rows[repair], "status", Str("open"))
  {
    assert |"Incident"| != |"MaintenanceRecord"|;
    TwoChildren(Library(), st2, k, NEW_INCIDENT, NEW_MAINTENANCE);
    IncidentOfReturn(st2.rows[k], NextId(st2, "Incident"));
    RepairOfReturn(st2.rows[k], NextId(st2, "MaintenanceRecord"));
  }

  lemma BothReturnedRows(st: Store, id: int, tool: int)
    requires Key("Reservation", id) in st.rows && Key("Tool", tool) in st.rows && IdsFresh(st)
    ensures var k, t, st2 := Key("Reservation", id), Key("Tool", tool), BothReturned(st, id, tool);
      && IdsFresh(st2) && st2.next == st.next && st2.rows.Keys == st.rows.Keys
      && st2.rows[k] == st.rows[k]["status" := RETURNED_DAMAGED] && st2.rows[t] == st.rows[t]["status" := MAINTENANCE]
      && (forall x :: x in st.rows && x != k && x != t ==> st2.rows[x] == st.rows[x])
      && Attr(st2.rows[k], "tool_id") == Attr(st.rows[k], "tool_id")
      && Attr(st2.rows[k], "id") == Attr(st.rows[k], "id")
  {
    assert |"tool_id"| == 7 && |"status"| == 6 && |"id"| == 2;
    assert |"Tool"| != |"Reservation"|;
  }

  lemma ReturnEnters(st: Store, id: int, depth: nat)
    requires depth > 0 && Key("Reservation", id) in st.rows
    requires Attr(st.rows[Key("Reservation", id)], "status") == CHECKED_OUT
    ensures Transition(Library(), st, "Reservation", Int(id), RETURNED_DAMAGED, depth)
            == Prefixed([Move(Key("Reservation", id), RETURNED_DAMAGED)],
                        Entered(Library(), st, Key("Reservation", id), RETURNED_DAMAGED, depth - 1))
  {
    ReturnMayMove(st, Key("Reservation", id));
    EntersOrStays(Library(), st, "Reservation", Int(id), RETURNED_DAMAGED, depth);
  }

  /** `end` is `st` after a damaged return. */
  ghost predicate ReturnedTo(st: Store, id: int, tool: int, end: Store)
    requires Key("Reservation", id) in st.rows && Key("Tool", tool) in st.rows
  {
    var k, t := Key("Reservation", id), Key("Tool", tool);
    var incident := Key("Incident", NextId(st, "Incident"));
    var repair := Key("MaintenanceRecord", NextId(st, "MaintenanceRecord"));
    && end.rows.Keys == st.rows.Keys + {incident, repair}
    && end.rows[k] == st.rows[k]["status" := RETURNED_DAMAGED] && end.rows[t] == st.rows[t]["status" := MAINTENANCE]
    && Holds(end.rows[incident], "tool_id", Int(tool))
    && Holds(end.rows[incident], "reservation_id", Attr(st.rows[k], "id"))
    && Holds(end.rows[incident], "note", Str("damaged on return"))
    && Holds(end.rows[repair], "tool_id", Int(tool)) && Holds(end.rows[repair], "status", Str("open"))
    && (forall x :: x in st.rows && x != k && x != t ==> end.rows[x] == st.rows[x])
  }

  lemma EnteredReturns(st: Store, id: int, tool: int, depth: nat) returns (end: Store)
    requires IdsFresh(st) && depth > 0 && Key("Reservation", id) in st.rows && Key("Tool", tool) in st.rows
    requires Attr(st.rows[Key("Reservation", id)], "status") == CHECKED_OUT
    requires Attr(st.rows[Key("Reservation", id)], "tool_id") == Int(tool)
    requires Attr(st.rows[Key("Tool", tool)], "status") == CHECKED_OUT
    ensures var r := Entered(Library(), st, Key("Reservation", id), RETURNED_DAMAGED, depth);
            r.outcome == Done && r.store == end
    ensures ReturnedTo(st, id, tool, end)
  {
    var k, st2 := Key("Reservation", id), BothReturned(st, id, tool);
    EnteredReturn(st, id, tool, depth);
    BothReturnedRows(st, id, tool);
    ChildrenOfReturn(st2, k);
    assert NextId(st2, "Incident") == NextId(st, "Incident");
    assert NextId(st2, "MaintenanceRecord") == NextId(st, "MaintenanceRecord");
    end := WithChildren(Library(), st2, k, NEW_INCIDENT, NEW_MAINTENANCE);
  }

  lemma ReturnRuns(st: Store, id: int, tool: int, depth: nat) returns (end: Store)
    requires IdsFresh(st) && depth >= 2 && Key("Reservation", id) in st.rows && Key("Tool", tool) in st.rows
    requires Attr(st.rows[Key("Reservation", id)], "status") == CHECKED_OUT
    requires Attr(st.rows[Key("Reservation", id)], "tool_id") == Int(tool)
    requires Attr(st.rows[Key("Tool", tool)], "status") == CHECKED_OUT
    ensures var r := Transition(Library(), st, "Reservation", Int(id), RETURNED_DAMAGED, depth);
            r.outcome == Done && r.store == end
    ensures ReturnedTo(st, id, tool, end)
  {
    end := EnteredReturns(st, id, tool, depth - 1);
    ReturnEnters(st, id, depth);
  }

  /** A damaged return: the reservation is returned damaged, its tool goes to maintenance, an incident about both and
      an open maintenance record of the tool are added, and nothing else changes. */
  lemma DamagedReturn(st: Store, id: int, tool: int, depth: nat)
    requires IdsFresh(st) && depth >= 2 && Key("Reservation", id) in st.rows && Key("Tool", tool) in st.rows
    requires Holds(st.rows[Key("Reservation", id)], "status", CHECKED_OUT)
    requires Holds(st.rows[Key("Reservation", id)], "tool_id", Int(tool))
    requires Holds(st.rows[Key("Tool", tool)], "status", CHECKED_OUT)
    ensures var r := Transition(Library(), st, "Reservation", Int(id), RETURNED_DAMAGED, depth);
            var k, t := Key("Reservation", id), Key("Tool", tool);
            var incident := Key("Incident", NextId(st, "Incident"));
            var repair := Key("MaintenanceRecord", NextId(st, "MaintenanceRecord"));
      && r.outcome == Done && r.store.rows.Keys == st.rows.Keys + {incident, repair}
      && r.store.rows[k] == st.rows[k]["status" := RETURNED_DAMAGED]
      && r.store.rows[t] == st.rows[t]["status" := MAINTENANCE]
      && Holds(r.store.rows[incident], "tool_id", Int(tool))
      && Holds(r.store.rows[incident], "reservation_id", Attr(st.rows[k], "id"))
      && Holds(r.store.rows[incident], "note", Str("damaged on return"))
      && Holds(r.store.rows[repair], "tool_id", Int(tool)) && Holds(r.store.rows[repair], "status", Str("open"))
      && (forall x :: x in st.rows && x != k && x != t ==> r.store.rows[x] == st.rows[x])
  {
    var end := ReturnRuns(st, id, tool, depth);
  }

  // ---------------------------------------------------------------------------------
  // Bookings
  // ---------------------------------------------------------------------------------

  ghost predicate BookedApart(st: Store) {
    forall a, b :: Key("Reservation", a) in st.rows && Key("Reservation", b) in st.rows && a != b ==>
      Apart(st.rows[Key("Reservation", a)], st.rows[Key("Reservation", b)])
  }

  /** Not both running reservations of one tool, or at different times */
  ghost predicate Apart(x: Row, y: Row) {
    forall s, u, s2, u2 ::
      (&& "tool_id" in x && "tool_id" in y && x["tool_id"] == y["tool_id"] != Null
       && "status" in x && x["status"] in {REQUESTED, APPROVED, RESERVED, CHECKED_OUT}
       && "status" in y && y["status"] in {REQUESTED, APPROVED, RESERVED, CHECKED_OUT}
       && Holds(x, "start_at", Int(s)) && Holds(x, "end_at", Int(u)) && s < u
       && Holds(y, "start_at", Int(s2)) && Holds(y, "end_at", Int(u2)) && s2 < u2) ==>
        u <= s2 || u2 <= s
  }

  lemma RunningIsActive(x: Row)
    requires "status" in x && x["status"] in {REQUESTED, APPROVED, RESERVED, CHECKED_OUT}
    ensures Active(BOOKING, x)
  {
  }

  lemma NeverBoth(x: Row, y: Row)
    requires Active(BOOKING, x) && Active(BOOKING, y) && Attr(x, "tool_id") == Attr(y, "tool_id") != Null ==>
               forall t :: !(Covers(BOOKING, x, t) && Covers(BOOKING, y, t))
    ensures Apart(x, y)
  {
    forall s, u, s2, u2 |
      && "tool_id" in x && "tool_id" in y && x["tool_id"] == y["tool_id"] != Null
      && "status" in x && x["status"] in {REQUESTED, APPROVED, RESERVED, CHECKED_OUT}
      && "status" in y && y["status"] in {REQUESTED, APPROVED, RESERVED, CHECKED_OUT}
      && Holds(x, "start_at", Int(s)) && Holds(x, "end_at", Int(u)) && s < u
      && Holds(y, "start_at", Int(s2)) && Holds(y, "end_at", Int(u2)) && s2 < u2
      ensures u <= s2 || u2 <= s
    {
      RunningIsActive(x);
      RunningIsActive(y);
      var t := if s < s2 then s2 else s;
      assert Covers(BOOKING, x, t) <==> t < u;
      assert Covers(BOOKING, y, t) <==> t < u2;
    }
  }

  lemma ExclusiveIsApart(st: Store)
    requires Exclusive(st, "Reservation", BOOKING)
    ensures BookedApart(st)
  {
    forall a, b | Key("Reservation", a) in st.rows && Key("Reservation", b) in st.rows && a != b
      ensures Apart(st.rows[Key("Reservation", a)], st.rows[Key("Reservation", b)])
    {
      NeverBoth(st.rows[Key("Reservation", a)], st.rows[Key("Reservation", b)]);
    }
  }

  /** Whatever is called on an empty library, with updates that leave status, tool and times of reservations alone:
      no two running reservations of a tool overlap, in the session or in what is committed. */
  lemma NeverDoubleBooked(autoflush: bool, calls: seq<Call>)
    requires AllCallable(Library(), calls)
    requires forall c :: c in calls && c.DoUpdate? && c.key.entity == "Reservation" ==>
               "status" !in c.data && "tool_id" !in c.data && "start_at" !in c.data && "end_at" !in c.data
    ensures var end := ExecAll(Library(), NewDb(autoflush), calls);
            BookedApart(end.working) && BookedApart(end.committed)
  {
    LibraryStaysExclusive(autoflush, calls);
    var end := ExecAll(Library(), NewDb(autoflush), calls);
    ExclusiveIsApart(end.working);
    ExclusiveIsApart(end.committed);
  }

  /** What keeps a row of the library from outliving another: a reservation refers to its member and its tool, an
      incident to its tool and reservation, a maintenance record to its tool. */
  lemma LibraryReferences(k: Key, row: Row, id: int)
    ensures Key("Tool", id) in References(Library(), k, row) <==>
              && k.entity in {"Reservation", "Incident", "MaintenanceRecord"}
              && "tool_id" in row && row["tool_id"] == Int(id)
    ensures Key("Member", id) in References(Library(), k, row) <==>
              k.entity == "Reservation" && "member_id" in row && row["member_id"] == Int(id)
    ensures Key("Reservation", id) in References(Library(), k, row) <==>
              k.entity == "Incident" && "reservation_id" in row && row["reservation_id"] == Int(id)
  {
    LibraryKeys(k.entity);
    ReferencesExactly(Library(), k, row, Key("Tool", id));
    ReferencesExactly(Library(), k, row, Key("Member", id));
    ReferencesExactly(Library(), k, row, Key("Reservation", id));
  }

  lemma LibraryKeys(e: string)
    ensures e in Library() ==>
              Library()[e].foreignKeys ==
                if e == "Reservation" then map["member_id" := "Member", "tool_id" := "Tool"]
                else if e == "Incident" then map["tool_id" := "Tool", "reservation_id" := "Reservation"]
                else if e == "MaintenanceRecord" then map["tool_id" := "Tool"]
                else map[]
    ensures e in {"Reservation", "Incident", "MaintenanceRecord"} ==> e in Library()
    ensures |"Tool"| == 4 && |"Member"| == 6 && |"Reservation"| == 11
    ensures |"tool_id"| == 7 && |"member_id"| == 9 && |"reservation_id"| == 14
  {
  }
}
