/** Time-based sweeps: what they report, what they leave alone, and why running one late loses nothing. */
module Sweeping {
  import opened Workflow
  import opened Wrappers
  import opened SweepSteps
  import opened Flushing
  import opened Walks

  /** Entering a swept-to state fires no effects. */
  ghost predicate EffectFree(m: Machine, timed: seq<Timed>) {
    forall t :: t in timed ==> EffectsFor(m, t.target) == []
  }

  // ---------------------------------------------------------------------------------
  // The ids a sweep reports
  // ---------------------------------------------------------------------------------

  /** The rows moved, in order, once for each step taken */
  function MovedIds(log: seq<Event>): seq<int> {
    if log == [] then [] else (if log[0].Move? then [log[0].key.id] else []) + MovedIds(log[1..])
  }

  lemma {:induction false} MovedIdsOf(a: seq<Event>, b: seq<Event>)
    ensures MovedIds(a + b) == MovedIds(a) + MovedIds(b)
    decreases |a|
  {
    if a == [] {
      assert a + b == b;
    } else {
      assert (a + b)[0] == a[0] && (a + b)[1..] == a[1..] + b;
      MovedIdsOf(a[1..], b);
    }
  }

  ghost predicate OnlyMovesOf(log: seq<Event>, e: string) {
    forall ev :: ev in log ==> ev.Move? && ev.key.entity == e
  }

  /** transition() into a state without effects writes the status or nothing. */
  lemma EffectFreeTransition(s: Schema, st: Store, e: string, id: int, to: Value, depth: nat)
    requires HasMachine(s, e) && depth > 0 && EffectsFor(s[e].machine.value, to) == []
    requires Key(e, id) in st.rows
    ensures var k := Key(e, id);
            Transition(s, st, e, Int(id), to, depth) ==
            if MayMove(s, st, k, to)
            then Result(SetField(st, k, s[e].machine.value.field, to), Done, [Move(k, to)])
            else Result(st, Refused, [])
  {
    var k := Key(e, id);
    if MayMove(s, st, k, to) {
      var st1 := SetField(st, k, s[e].machine.value.field, to);
      assert RunEffects(s, st1, k, [], depth - 1) == Result(st1, Done, []);
      assert [Move(k, to)] + [] == [Move(k, to)];
    }
  }

  lemma EffectFreeOne(s: Schema, st: Store, e: string, id: int, to: Value, depth: nat)
    requires HasMachine(s, e) && depth > 0 && EffectsFor(s[e].machine.value, to) == []
    requires Key(e, id) in st.rows
    ensures var k := Key(e, id);
            SweepOne(s, st, e, to, id, depth) ==
            if MayMove(s, st, k, to)
            then SweepResult(SetField(st, k, s[e].machine.value.field, to), Done, [id], [Move(k, to)])
            else SweepResult(st, Done, [], [])
  {
    EffectFreeTransition(s, st, e, id, to, depth);
  }

  lemma {:induction false} PassReportsItsMoves(s: Schema, st: Store, e: string, to: Value, ids: seq<int>, depth: nat)
    requires HasMachine(s, e) && depth > 0 && EffectsFor(s[e].machine.value, to) == []
    requires forall id :: id in ids ==> Key(e, id) in st.rows
    ensures var r := SweepIds(s, st, e, to, ids, depth);
            r.outcome == Done && r.moved == MovedIds(r.log) && OnlyMovesOf(r.log, e)
    decreases |ids|
  {
    if ids == [] {
    } else {
      EffectFreeOne(s, st, e, ids[0], to, depth);
      var one := SweepOne(s, st, e, to, ids[0], depth);
      PassReportsItsMoves(s, one.store, e, to, ids[1..], depth);
      MovedIdsOf(one.log, SweepIds(s, one.store, e, to, ids[1..], depth).log);
      assert one.log == [] || one.log[1..] == [];
    }
  }

  /** When swept-to states fire no effects, the result lists each id once for every step its row took,
      in the order taken, and the sweep wrote nothing else. Each of those steps was in the row's table
      with its guards holding (Traces.SweepIsRun). */
  lemma {:induction false} SweepReportsItsMoves(s: Schema, st: Store, e: string, timed: seq<Timed>, now: int,
                                                orders: seq<seq<int>>, depth: nat)
    requires HasMachine(s, e) && depth > 0 && EffectFree(s[e].machine.value, timed)
    requires SweepOrders(s, st, e, timed, now, orders, depth)
    ensures var r := Sweep(s, st, e, timed, orders, depth);
            r.outcome == Done && r.moved == MovedIds(r.log) && OnlyMovesOf(r.log, e)
    decreases |timed|
  {
    if timed == [] {
    } else {
      PassReportsItsMoves(s, st, e, timed[0].target, orders[0], depth);
      var first := SweepIds(s, st, e, timed[0].target, orders[0], depth);
      SweepReportsItsMoves(s, first.store, e, timed[1..], now, orders[1..], depth);
      MovedIdsOf(first.log, Sweep(s, first.store, e, timed[1..], orders[1..], depth).log);
    }
  }

  /** No transition into a state without effects is refused half way: whether autoflush is on makes no difference
      (Flushing.LazySweepIsSweep). */
  lemma EffectFreeIsWhole(s: Schema, st: Store, e: string, timed: seq<Timed>, orders: seq<seq<int>>, depth: nat)
    requires HasMachine(s, e) && EffectFree(s[e].machine.value, timed)
    ensures WholeSweep(s, st, e, timed, orders, depth)
  {
    forall i: nat | i < |orders| && i < |timed|
      ensures WholeAt(s, st, e, timed, orders, i, depth)
    {
      assert timed[i] in timed;
      var cur, to := Sweep(s, st, e, timed, orders[..i], depth).store, timed[i].target;
      forall j: nat | j < |orders[i]|
        ensures WholeTurn(s, cur, e, to, orders[i], j, depth)
      {
        var before := SweepIds(s, cur, e, to, orders[i][..j], depth).store;
        if depth > 0 && Key(e, orders[i][j]) in before.rows {
          EffectFreeTransition(s, before, e, orders[i][j], to, depth);
        }
      }
    }
  }

  // ---------------------------------------------------------------------------------
  // With effects the report can be wrong
  // ---------------------------------------------------------------------------------

  /** Whatever it comes to, a transition has written once its own table and guards let it through. How far it
      got when an effect refuses it is the subject of Refusals. */
  lemma WritesOnceLetThrough(s: Schema, st: Store, e: string, id: int, to: Value, depth: nat)
    requires HasMachine(s, e) && Key(e, id) in st.rows && depth > 0
    ensures Transition(s, st, e, Int(id), to, depth).log != [] <==> MayMove(s, st, Key(e, id), to)
  {
  }

  const OPEN := Str("open")
  const LATE := Str("late")

  function LoanMachine(): Machine {
    Machine("status", OPEN, map[OPEN := [LATE]], map[],
            map[LATE := [SetRelated("tool_id", "Tool", "status", LATE, true)]], [Timed(OPEN, LATE, "due")])
  }

  /** A loan that tells its tool, and a tool whose table knows no such state */
  function LoanSchema(): Schema {
    map["Loan" := Entity(Some(LoanMachine()), map[], map[], [], None, None),
        "Tool" := Entity(Some(Machine("status", OPEN, map[], map[], map[], [])), map[], map[], [], None, None)]
  }

  function LoanStore(): Store {
    Store(map[Key("Loan", 1) := map["status" := OPEN, "tool_id" := Int(7), "due" := Int(0)],
              Key("Tool", 7) := map["status" := OPEN]], map[])
  }

  lemma LoanIsRefusedLate()
    ensures Transition(LoanSchema(), LoanStore(), "Loan", Int(1), LATE, 2)
            == Result(SetField(LoanStore(), Key("Loan", 1), "status", LATE), Refused, [Move(Key("Loan", 1), LATE)])
  {
    var s, st, k := LoanSchema(), LoanStore(), Key("Loan", 1);
    var st1 := SetField(st, k, "status", LATE);
    var eff := SetRelated("tool_id", "Tool", "status", LATE, true);
    assert EffectsFor(LoanMachine(), LATE) == [eff];
    assert Transition(s, st1, "Tool", Int(7), LATE, 1) == Result(st1, Refused, []);
    assert RunEffect(s, st1, k, eff, 1).outcome == Refused;
    assert RunEffects(s, st1, k, [eff], 1) == Result(st1, Refused, []);
    assert MayMove(s, st, k, LATE);
    assert [Move(k, LATE)] + [] == [Move(k, LATE)];
  }

  lemma LoanIsDue()
    ensures DueIds(LoanStore(), "Loan", LoanMachine(), LoanMachine().timed[0], 5) == {1}
  {
    var st, m := LoanStore(), LoanMachine();
    assert Due(m, m.timed[0], 5, st.rows[Key("Loan", 1)]);
    forall x | x in st.rows && x.entity == "Loan"
      ensures x == Key("Loan", 1)
    {
    }
  }

  /** The sweep reports no id, yet the loan is late: the refused effect came after the status write,
      and nothing rolls it back. */
  lemma SweptButNotReported()
    ensures var r := Sweep(LoanSchema(), LoanStore(), "Loan", LoanMachine().timed, [[1]], 2);
      && SweepOrders(LoanSchema(), LoanStore(), "Loan", LoanMachine().timed, 5, [[1]], 2)
      && r.outcome == Done && r.moved == []
      && Status(LoanSchema(), r.store, Key("Loan", 1)) == LATE
  {
    var s, st := LoanSchema(), LoanStore();
    LoanIsRefusedLate();
    LoanIsDue();
    OneId(s, st, "Loan", LATE, [1], 2);
    OneSweepPass(s, st, "Loan", LoanMachine().timed, 5, [1], 2);
  }

  // ---------------------------------------------------------------------------------
  // Row by row
  // ---------------------------------------------------------------------------------

  /** The guard looks up the status of another row of `e`. */
  predicate ReadsOthers(e: string, m: Machine, g: Guard) {
    g.RelatedIn? && g.entity == e && g.field == m.field
  }

  /** Nor does it read this row's: moving rows of `e` cannot change it. */
  predicate IgnoresStatus(e: string, m: Machine, g: Guard) {
    !ReadsOthers(e, m, g) && if g.FieldIs? then g.field != m.field else g.ref != m.field
  }

  /** Neither the deadlines nor the guards of the swept-to states read the status being swept;
      guards may look at any other row. */
  ghost predicate SteadyGuards(e: string, m: Machine, timed: seq<Timed>) {
    forall t :: t in timed ==> t.when != m.field && forall g :: g in GuardsFor(m, t.target) ==> IgnoresStatus(e, m, g)
  }

  ghost predicate StatusOnly(m: Machine, a: Row, b: Row) {
    b == a || b == a[m.field := Attr(b, m.field)]
  }

  /** `b` is `a` but for the status of rows of `e`. */
  ghost predicate OnlyStatuses(e: string, m: Machine, a: Store, b: Store) {
    && a.next == b.next && a.rows.Keys == b.rows.Keys
    && (forall k :: k in a.rows ==>
          if k.entity == e then StatusOnly(m, a.rows[k], b.rows[k]) else a.rows[k] == b.rows[k])
  }

  lemma GuardIsSteady(s: Schema, e: string, m: Machine, a: Store, b: Store, row: Row, row2: Row, g: Guard)
    requires OnlyStatuses(e, m, a, b) && StatusOnly(m, row, row2)
    requires if row == row2 then !ReadsOthers(e, m, g) else IgnoresStatus(e, m, g)
    ensures GuardHolds(s, a, row, g) <==> GuardHolds(s, b, row2, g)
  {
    if g.RelatedIn? && Has(a, g.entity, Attr(row, g.ref)) {
      var k := Key(g.entity, Attr(row, g.ref).i);
      assert Attr(a.rows[k], g.field) == Attr(b.rows[k], g.field);
    }
  }

  lemma GuardsAreSteady(s: Schema, e: string, m: Machine, a: Store, b: Store, row: Row, row2: Row, gs: seq<Guard>)
    requires forall g :: g in gs ==> IgnoresStatus(e, m, g)
    requires OnlyStatuses(e, m, a, b) && StatusOnly(m, row, row2)
    ensures GuardsHold(s, a, row, gs) <==> GuardsHold(s, b, row2, gs)
  {
    forall g | g in gs
      ensures GuardHolds(s, a, row, g) <==> GuardHolds(s, b, row2, g)
    {
      GuardIsSteady(s, e, m, a, b, row, row2, g);
    }
  }

  /** One time transition, seen from one row; `st` is where its guards look up other rows. */
  function Step(s: Schema, st: Store, m: Machine, t: Timed, now: int, row: Row): Row {
    if Due(m, t, now, row) && RowMayMove(s, st, m, row, t.target) then row[m.field := t.target] else row
  }

  /** All of them in order: the independent description of what a sweep does to a row */
  function Fate(s: Schema, st: Store, m: Machine, timed: seq<Timed>, now: int, row: Row): Row {
    if timed == [] then row else Fate(s, st, m, timed[1..], now, Step(s, st, m, timed[0], now, row))
  }

  /** `cur` with every row of `e` moved by one time transition, guards looked up in `st` */
  function EachStep(s: Schema, st: Store, e: string, m: Machine, t: Timed, now: int, cur: Store): Store {
    cur.(rows := map k | k in cur.rows :: if k.entity == e then Step(s, st, m, t, now, cur.rows[k]) else cur.rows[k])
  }

  function EachFate(s: Schema, st: Store, e: string, m: Machine, timed: seq<Timed>, now: int, cur: Store): Store {
    cur.(rows := map k | k in cur.rows ::
      if k.entity == e then Fate(s, st, m, timed, now, cur.rows[k]) else cur.rows[k])
  }

  /** `end` is `cur` with the rows `ids` of `e` moved to `to` if they may be, judging by `st`. */
  ghost predicate Moved(s: Schema, st: Store, e: string, m: Machine, to: Value, ids: seq<int>, cur: Store, end: Store) {
    && cur.rows.Keys == end.rows.Keys
    && (forall k :: k in cur.rows ==>
          var moves := k.entity == e && k.id in ids && RowMayMove(s, st, m, cur.rows[k], to);
          end.rows[k] == if moves then cur.rows[k][m.field := to] else cur.rows[k])
  }

  lemma StatusMoves(s: Schema, st: Store, cur: Store, e: string, m: Machine, to: Value, id: int)
    requires OnlyStatuses(e, m, st, cur) && Key(e, id) in cur.rows
    ensures var k := Key(e, id);
            var end := if RowMayMove(s, st, m, cur.rows[k], to) then SetField(cur, k, m.field, to) else cur;
            OnlyStatuses(e, m, st, end) && Moved(s, st, e, m, to, [id], cur, end)
  {
  }

  lemma OneMovesItsRow(s: Schema, st: Store, cur: Store, e: string, to: Value, id: int, depth: nat)
    requires HasMachine(s, e) && depth > 0 && EffectsFor(s[e].machine.value, to) == []
    requires forall g :: g in GuardsFor(s[e].machine.value, to) ==> IgnoresStatus(e, s[e].machine.value, g)
    requires OnlyStatuses(e, s[e].machine.value, st, cur) && Key(e, id) in cur.rows
    ensures var m, r := s[e].machine.value, SweepOne(s, cur, e, to, id, depth);
            r.outcome == Done && OnlyStatuses(e, m, st, r.store) && Moved(s, st, e, m, to, [id], cur, r.store)
  {
    var m, k := s[e].machine.value, Key(e, id);
    EffectFreeOne(s, cur, e, id, to, depth);
    GuardsAreSteady(s, e, m, st, cur, cur.rows[k], cur.rows[k], GuardsFor(m, to));
    StatusMoves(s, st, cur, e, m, to, id);
  }

  lemma MovedTwice(s: Schema, st: Store, e: string, m: Machine, to: Value, ids: seq<int>, a: Store, b: Store, c: Store)
    requires ids != [] && ids[0] !in ids[1..]
    requires Moved(s, st, e, m, to, [ids[0]], a, b) && Moved(s, st, e, m, to, ids[1..], b, c)
    ensures Moved(s, st, e, m, to, ids, a, c)
  {
    assert forall id :: id in ids <==> id in [ids[0]] || id in ids[1..];
  }

  lemma {:induction false} PassMovesEachRow(s: Schema, st: Store, cur: Store, e: string, to: Value, ids: seq<int>,
                                            depth: nat)
    requires HasMachine(s, e) && depth > 0 && EffectsFor(s[e].machine.value, to) == []
    requires forall g :: g in GuardsFor(s[e].machine.value, to) ==> IgnoresStatus(e, s[e].machine.value, g)
    requires OnlyStatuses(e, s[e].machine.value, st, cur)
    requires forall id :: id in ids ==> Key(e, id) in cur.rows
    requires forall i, j :: 0 <= i < j < |ids| ==> ids[i] != ids[j]
    ensures var m, r := s[e].machine.value, SweepIds(s, cur, e, to, ids, depth);
            r.outcome == Done && OnlyStatuses(e, m, st, r.store) && Moved(s, st, e, m, to, ids, cur, r.store)
    decreases |ids|
  {
    if ids == [] {
    } else {
      var m, one := s[e].machine.value, SweepOne(s, cur, e, to, ids[0], depth);
      OneMovesItsRow(s, st, cur, e, to, ids[0], depth);
      PassMovesEachRow(s, st, one.store, e, to, ids[1..], depth);
      MovedTwice(s, st, e, m, to, ids, cur, one.store, SweepIds(s, one.store, e, to, ids[1..], depth).store);
    }
  }

  lemma MovedIsStep(s: Schema, st: Store, e: string, m: Machine, t: Timed, now: int, ids: seq<int>, cur: Store,
                    end: Store)
    requires Moved(s, st, e, m, t.target, ids, cur, end) && OnlyStatuses(e, m, st, cur) && OnlyStatuses(e, m, st, end)
    requires Enumerates(ids, DueIds(cur, e, m, t, now))
    ensures end == EachStep(s, st, e, m, t, now, cur)
  {
    forall k | k in cur.rows && k.entity == e
      ensures k.id in ids <==> Due(m, t, now, cur.rows[k])
    {
      assert k == Key(e, k.id);
    }
    assert end.rows == EachStep(s, st, e, m, t, now, cur).rows;
  }

  lemma PassIsStep(s: Schema, st: Store, cur: Store, e: string, t: Timed, now: int, ids: seq<int>, depth: nat)
    requires HasMachine(s, e) && depth > 0 && EffectsFor(s[e].machine.value, t.target) == []
    requires SteadyGuards(e, s[e].machine.value, [t]) && OnlyStatuses(e, s[e].machine.value, st, cur)
    requires Enumerates(ids, DueIds(cur, e, s[e].machine.value, t, now))
    ensures var m, r := s[e].machine.value, SweepIds(s, cur, e, t.target, ids, depth);
            && r.outcome == Done && OnlyStatuses(e, m, st, r.store)
            && r.store == EachStep(s, st, e, m, t, now, cur)
  {
    assert t in [t];
    PassMovesEachRow(s, st, cur, e, t.target, ids, depth);
    MovedIsStep(s, st, e, s[e].machine.value, t, now, ids, cur, SweepIds(s, cur, e, t.target, ids, depth).store);
  }

  lemma {:induction false} SweepFollowsFates(s: Schema, st: Store, cur: Store, e: string, timed: seq<Timed>, now: int,
                                             orders: seq<seq<int>>, depth: nat)
    requires HasMachine(s, e) && depth > 0
    requires EffectFree(s[e].machine.value, timed) && SteadyGuards(e, s[e].machine.value, timed)
    requires OnlyStatuses(e, s[e].machine.value, st, cur)
    requires SweepOrders(s, cur, e, timed, now, orders, depth)
    ensures var r := Sweep(s, cur, e, timed, orders, depth);
            && r.store == EachFate(s, st, e, s[e].machine.value, timed, now, cur)
            && OnlyStatuses(e, s[e].machine.value, st, r.store)
    decreases |timed|
  {
    var m := s[e].machine.value;
    if timed == [] {
      assert EachFate(s, st, e, m, [], now, cur).rows == cur.rows;
    } else {
      assert timed[0] in timed;
      PassIsStep(s, st, cur, e, timed[0], now, orders[0], depth);
      var mid := SweepIds(s, cur, e, timed[0].target, orders[0], depth).store;
      SweepFollowsFates(s, st, mid, e, timed[1..], now, orders[1..], depth);
      FateAfterStep(s, st, e, m, timed, now, cur);
    }
  }

  lemma FateAfterStep(s: Schema, st: Store, e: string, m: Machine, timed: seq<Timed>, now: int, cur: Store)
    requires timed != []
    ensures EachFate(s, st, e, m, timed[1..], now, EachStep(s, st, e, m, timed[0], now, cur))
            == EachFate(s, st, e, m, timed, now, cur)
  {
    var stepped := EachStep(s, st, e, m, timed[0], now, cur);
    assert EachFate(s, st, e, m, timed[1..], now, stepped).rows == EachFate(s, st, e, m, timed, now, cur).rows;
  }

  /** The whole sweep is one independent step function on the rows of the entity, with all guards read in the
      store it started from, whatever the order the queries return them in. */
  lemma SweepIsRowByRow(s: Schema, st: Store, e: string, timed: seq<Timed>, now: int, orders: seq<seq<int>>, depth: nat)
    requires HasMachine(s, e) && depth > 0
    requires EffectFree(s[e].machine.value, timed) && SteadyGuards(e, s[e].machine.value, timed)
    requires SweepOrders(s, st, e, timed, now, orders, depth)
    ensures var m, r := s[e].machine.value, Sweep(s, st, e, timed, orders, depth);
            r.store == EachFate(s, st, e, m, timed, now, st) && OnlyStatuses(e, m, st, r.store)
  {
    SweepFollowsFates(s, st, st, e, timed, now, orders, depth);
  }

  // ---------------------------------------------------------------------------------
  // Rows that are not due or are blocked
  // ---------------------------------------------------------------------------------

  /** What keeps a row from moving, and stays so while other rows of `e` move: its own table, or a failing
      guard on its own fields or on rows of another entity. */
  ghost predicate Blocked(s: Schema, st: Store, e: string, m: Machine, row: Row, to: Value) {
    || to !in Targets(m, Attr(row, m.field))
    || exists g :: g in GuardsFor(m, to) && !ReadsOthers(e, m, g) && !GuardHolds(s, st, row, g)
  }

  lemma BlockedNow(s: Schema, st: Store, cur: Store, e: string, k: Key, to: Value)
    requires HasMachine(s, e) && k.entity == e && OnlyStatuses(e, s[e].machine.value, st, cur)
    requires k in st.rows && cur.rows[k] == st.rows[k] && Blocked(s, st, e, s[e].machine.value, st.rows[k], to)
    ensures !MayMove(s, cur, k, to)
  {
    var m, row := s[e].machine.value, st.rows[k];
    if to in Targets(m, Attr(row, m.field)) {
      var g :| g in GuardsFor(m, to) && !ReadsOthers(e, m, g) && !GuardHolds(s, st, row, g);
      GuardIsSteady(s, e, m, st, cur, row, row, g);
    }
  }

  /** One pass over rows of `e`, whatever their guards read: it writes statuses only, and leaves `k` alone
      when it does not come up or is blocked. */
  lemma {:induction false} PassSpares(s: Schema, st: Store, cur: Store, e: string, to: Value, ids: seq<int>, depth: nat,
                                      k: Key)
    requires HasMachine(s, e) && depth > 0 && EffectsFor(s[e].machine.value, to) == []
    requires OnlyStatuses(e, s[e].machine.value, st, cur) && k in st.rows && cur.rows[k] == st.rows[k]
    requires forall id :: id in ids ==> Key(e, id) in cur.rows
    requires k.entity == e && k.id in ids ==> Blocked(s, st, e, s[e].machine.value, st.rows[k], to)
    ensures var r := SweepIds(s, cur, e, to, ids, depth);
            r.outcome == Done && OnlyStatuses(e, s[e].machine.value, st, r.store) && r.store.rows[k] == st.rows[k]
    decreases |ids|
  {
    if ids == [] {
    } else {
      var x := Key(e, ids[0]);
      EffectFreeOne(s, cur, e, ids[0], to, depth);
      if x == k {
        BlockedNow(s, st, cur, e, k, to);
      }
      PassSpares(s, st, SweepOne(s, cur, e, to, ids[0], depth).store, e, to, ids[1..], depth, k);
    }
  }

  lemma {:induction false} SweepSpares(s: Schema, st: Store, cur: Store, e: string, timed: seq<Timed>, now: int,
                                       orders: seq<seq<int>>, depth: nat, k: Key)
    requires HasMachine(s, e) && depth > 0 && EffectFree(s[e].machine.value, timed)
    requires OnlyStatuses(e, s[e].machine.value, st, cur) && k in st.rows && cur.rows[k] == st.rows[k]
    requires SweepOrders(s, cur, e, timed, now, orders, depth)
    requires forall t :: t in timed && k.entity == e && Due(s[e].machine.value, t, now, st.rows[k]) ==>
                         Blocked(s, st, e, s[e].machine.value, st.rows[k], t.target)
    ensures Sweep(s, cur, e, timed, orders, depth).store.rows[k] == st.rows[k]
    decreases |timed|
  {
    if timed == [] {
    } else {
      assert timed[0] in timed;
      assert k.entity == e ==> k == Key(e, k.id);
      PassSpares(s, st, cur, e, timed[0].target, orders[0], depth, k);
      var mid := SweepIds(s, cur, e, timed[0].target, orders[0], depth).store;
      SweepSpares(s, st, mid, e, timed[1..], now, orders[1..], depth, k);
    }
  }

  /** A row of which every due time transition is blocked keeps its status and everything else; so does
      every row of another entity. */
  lemma BlockedRowsStay(s: Schema, st: Store, e: string, timed: seq<Timed>, now: int, orders: seq<seq<int>>,
                        depth: nat, k: Key)
    requires HasMachine(s, e) && depth > 0 && EffectFree(s[e].machine.value, timed)
    requires SweepOrders(s, st, e, timed, now, orders, depth) && k in st.rows
    requires var m, row := s[e].machine.value, st.rows[k];
             forall t :: t in timed && k.entity == e && Holds(row, m.field, t.source)
                         && t.when in row && row[t.when].Int? && row[t.when].i < now ==>
                           Blocked(s, st, e, m, row, t.target)
    ensures Sweep(s, st, e, timed, orders, depth).store.rows[k] == st.rows[k]
  {
    SweepSpares(s, st, st, e, timed, now, orders, depth, k);
  }

  lemma {:induction false} PassIsIdle(s: Schema, st: Store, e: string, to: Value, ids: seq<int>, depth: nat)
    requires HasMachine(s, e) && depth > 0 && EffectsFor(s[e].machine.value, to) == []
    requires forall id :: id in ids ==> Key(e, id) in st.rows
    ensures var r := SweepIds(s, st, e, to, ids, depth);
            && (r.log == [] <==> forall id :: id in ids ==> !MayMove(s, st, Key(e, id), to))
            && (r.log == [] ==> r.store == st && r.outcome == Done)
    decreases |ids|
  {
    if ids == [] {
    } else {
      EffectFreeOne(s, st, e, ids[0], to, depth);
      assert ids[0] in ids && forall id :: id in ids <==> id == ids[0] || id in ids[1..];
      if !MayMove(s, st, Key(e, ids[0]), to) {
        PassIsIdle(s, st, e, to, ids[1..], depth);
      }
    }
  }

  /** Some row of `e` is due for the time transition and may make it. */
  ghost predicate Pending(s: Schema, st: Store, e: string, t: Timed, now: int)
    requires HasMachine(s, e)
  {
    exists k :: k in st.rows && k.entity == e && Due(s[e].machine.value, t, now, st.rows[k])
                && MayMove(s, st, k, t.target)
  }

  /** A sweep writes nothing exactly when every due row is blocked by its table or its guards, whatever
      those guards read. */
  lemma {:induction false} IdleSweep(s: Schema, st: Store, e: string, timed: seq<Timed>, now: int,
                                     orders: seq<seq<int>>, depth: nat)
    requires HasMachine(s, e) && depth > 0 && EffectFree(s[e].machine.value, timed)
    requires SweepOrders(s, st, e, timed, now, orders, depth)
    ensures var r := Sweep(s, st, e, timed, orders, depth);
            && (r.log == [] <==> forall t :: t in timed ==> !Pending(s, st, e, t, now))
            && (r.log == [] <==> r.moved == []) && (r.log == [] ==> r.store == st)
    decreases |timed|
  {
    if timed == [] {
    } else {
      var t, first := timed[0], SweepIds(s, st, e, timed[0].target, orders[0], depth);
      assert t in timed && forall x :: x in timed <==> x == t || x in timed[1..];
      PassReportsItsMoves(s, st, e, t.target, orders[0], depth);
      PassIsIdle(s, st, e, t.target, orders[0], depth);
      assert first.log == [] <==> !Pending(s, st, e, t, now) by {
        assert forall k :: k in st.rows && k.entity == e ==> k == Key(e, k.id);
      }
      if first.log == [] {
        IdleSweep(s, st, e, timed[1..], now, orders[1..], depth);
      } else {
        assert first.log[0] in first.log;
      }
    }
  }

  // ---------------------------------------------------------------------------------
  // Catch-up
  // ---------------------------------------------------------------------------------

  /** No time transition starts where it or a later one ends. */
  ghost predicate NeverBack(timed: seq<Timed>) {
    forall i, j :: 0 <= i <= j < |timed| ==> timed[i].source != timed[j].target
  }

  ghost predicate DistinctSources(timed: seq<Timed>) {
    forall i, j :: 0 <= i < j < |timed| ==> timed[i].source != timed[j].source
  }

  ghost predicate Forward(timed: seq<Timed>) {
    DistinctSources(timed) && NeverBack(timed)
  }

  lemma {:induction false} FateOfStatus(s: Schema, st: Store, m: Machine, timed: seq<Timed>, now: int, row: Row)
    ensures StatusOnly(m, row, Fate(s, st, m, timed, now, row))
    ensures var end := Fate(s, st, m, timed, now, row);
            end == row || exists t :: t in timed && Attr(end, m.field) == t.target
    ensures (forall t :: t in timed ==> t.source != Attr(row, m.field)) ==> Fate(s, st, m, timed, now, row) == row
    decreases |timed|
  {
    if timed == [] {
    } else {
      FateOfStatus(s, st, m, timed[1..], now, Step(s, st, m, timed[0], now, row));
      assert timed[0] in timed && forall t :: t in timed[1..] ==> t in timed;
    }
  }

  /** What is left over from a first pass over `timed` no longer concerns its first transition, and that one
      had done at n1 what it would have done at n2 - unless it is still waiting for its deadline. */
  lemma FirstIsSettled(s: Schema, st: Store, m: Machine, timed: seq<Timed>, n1: int, n2: int, row: Row)
    requires timed != [] && Forward(timed) && n1 <= n2
    ensures var t, row1 := timed[0], Step(s, st, m, timed[0], n1, row);
            var q := Fate(s, st, m, timed[1..], n1, row1);
            if row1 == row && Attr(row, m.field) == t.source then q == row
            else Step(s, st, m, t, n2, q) == q && Step(s, st, m, t, n2, row) == row1
  {
    var t, rest, row1 := timed[0], timed[1..], Step(s, st, m, timed[0], n1, row);
    var q := Fate(s, st, m, rest, n1, row1);
    FateOfStatus(s, st, m, rest, n1, row1);
    assert timed[0].source != timed[0].target;
    assert forall x :: x in rest ==> x.source != t.source && x.target != t.source by {
      forall j | 0 <= j < |rest|
        ensures rest[j].source != t.source && rest[j].target != t.source
      {
        assert rest[j] == timed[j + 1];
      }
    }
  }

  lemma {:induction false} FateCatchesUp(s: Schema, st: Store, m: Machine, timed: seq<Timed>, n1: int, n2: int,
                                         row: Row)
    requires Forward(timed) && n1 <= n2
    ensures Fate(s, st, m, timed, n2, Fate(s, st, m, timed, n1, row)) == Fate(s, st, m, timed, n2, row)
    decreases |timed|
  {
    if timed == [] {
    } else {
      FirstIsSettled(s, st, m, timed, n1, n2, row);
      FateCatchesUp(s, st, m, timed[1..], n1, n2, Step(s, st, m, timed[0], n1, row));
    }
  }

  lemma RowsCatchUp(s: Schema, st: Store, e: string, m: Machine, n1: int, n2: int)
    requires Forward(m.timed) && n1 <= n2
    ensures EachFate(s, st, e, m, m.timed, n2, EachFate(s, st, e, m, m.timed, n1, st))
            == EachFate(s, st, e, m, m.timed, n2, st)
  {
    var twice := EachFate(s, st, e, m, m.timed, n2, EachFate(s, st, e, m, m.timed, n1, st));
    var once := EachFate(s, st, e, m, m.timed, n2, st);
    forall k | k in st.rows
      ensures twice.rows[k] == once.rows[k]
    {
      FateCatchesUp(s, st, m, m.timed, n1, n2, st.rows[k]);
    }
    assert twice.rows == once.rows;
  }

  /** A late sweep makes up for an early one: sweeping at n1 and again at n2 leaves the store that a
      single sweep at n2 would. With n1 == n2, sweeping twice is sweeping once. */
  lemma SweepCatchesUp(s: Schema, st: Store, e: string, m: Machine, n1: int, n2: int, mid: Store, o1: seq<seq<int>>,
                       o12: seq<seq<int>>, o2: seq<seq<int>>, depth: nat)
    requires e in s && s[e].machine == Some(m) && depth > 0 && n1 <= n2
    requires EffectFree(m, m.timed) && SteadyGuards(e, m, m.timed) && Forward(m.timed)
    requires SweepOrders(s, st, e, m.timed, n1, o1, depth) && mid == Sweep(s, st, e, m.timed, o1, depth).store
    requires SweepOrders(s, mid, e, m.timed, n2, o12, depth) && SweepOrders(s, st, e, m.timed, n2, o2, depth)
    ensures Sweep(s, mid, e, m.timed, o12, depth).store == Sweep(s, st, e, m.timed, o2, depth).store
  {
    SweepIsRowByRow(s, st, e, m.timed, n1, o1, depth);
    SweepFollowsFates(s, st, mid, e, m.timed, n2, o12, depth);
    SweepIsRowByRow(s, st, e, m.timed, n2, o2, depth);
    RowsCatchUp(s, st, e, m, n1, n2);
  }

  /** After a first sweep the row is due for nothing it may do. */
  ghost predicate Settled(s: Schema, st: Store, m: Machine, timed: seq<Timed>, now: int, row: Row) {
    var end := Fate(s, st, m, timed, now, row);
    forall t :: t in timed && Due(m, t, now, end) ==> !RowMayMove(s, st, m, end, t.target)
  }

  /** A list that never goes back settles every row. */
  lemma {:induction false} NeverBackSettles(s: Schema, st: Store, m: Machine, timed: seq<Timed>, now: int, row: Row)
    requires NeverBack(timed)
    ensures Settled(s, st, m, timed, now, row)
    decreases |timed|
  {
    if timed == [] {
    } else {
      var t, rest, row1 := timed[0], timed[1..], Step(s, st, m, timed[0], now, row);
      FateOfStatus(s, st, m, rest, now, row1);
      NeverBackSettles(s, st, m, rest, now, row1);
      assert t.source != t.target;
      forall j | 0 <= j < |rest|
        ensures t.source != rest[j].target
      {
        assert rest[j] == timed[j + 1];
      }
      assert forall x :: x in timed <==> x == t || x in rest;
    }
  }

  lemma {:induction false} FateSplits(s: Schema, st: Store, m: Machine, a: seq<Timed>, b: seq<Timed>, now: int,
                                      row: Row)
    ensures Fate(s, st, m, a + b, now, row) == Fate(s, st, m, b, now, Fate(s, st, m, a, now, row))
    decreases |a|
  {
    if a == [] {
      assert a + b == b;
    } else {
      assert (a + b)[0] == a[0] && (a + b)[1..] == a[1..] + b;
      FateSplits(s, st, m, a[1..], b, now, Step(s, st, m, a[0], now, row));
    }
  }

  /** Every time transition is in the table, has no guard, and waits for a column of its own kind. */
  ghost predicate Free(m: Machine, timed: seq<Timed>) {
    forall t :: t in timed ==>
      t.when != m.field && t.target in Targets(m, t.source) && GuardsFor(m, t.target) == []
  }

  function Deadlines(timed: seq<Timed>): map<string, Value> {
    if timed == [] then map[] else Deadlines(timed[1..])[timed[0].when := Int(0)]
  }

  /** A row at `v` with every deadline past */
  function Overdue(m: Machine, timed: seq<Timed>, v: Value): Row {
    Deadlines(timed)[m.field := v]
  }

  lemma {:induction false} DeadlinePast(timed: seq<Timed>, t: Timed)
    requires t in timed
    ensures Attr(Deadlines(timed), t.when) == Int(0)
    decreases |timed|
  {
    if timed[0] == t {
    } else {
      DeadlinePast(timed[1..], t);
    }
  }

  lemma OverdueIsDue(s: Schema, st: Store, m: Machine, timed: seq<Timed>, t: Timed)
    requires Free(m, timed) && t in timed
    ensures var row := Overdue(m, timed, t.source); Due(m, t, 1, row) && RowMayMove(s, st, m, row, t.target)
    ensures Step(s, st, m, t, 1, Overdue(m, timed, t.source)) == Overdue(m, timed, t.target)
  {
    DeadlinePast(timed, t);
  }

  /** Of an overdue row with distinct sources, the transition at its status is the one that moves it, if nothing
      listed after starts where it ends. */
  lemma FateOfOverdue(s: Schema, st: Store, m: Machine, timed: seq<Timed>, j: nat)
    requires Free(m, timed) && DistinctSources(timed) && j < |timed|
    requires forall k :: j < k < |timed| ==> timed[k].source != timed[j].target
    ensures Fate(s, st, m, timed, 1, Overdue(m, timed, timed[j].source)) == Overdue(m, timed, timed[j].target)
  {
    var row, end := Overdue(m, timed, timed[j].source), Overdue(m, timed, timed[j].target);
    var before, rest := timed[..j], timed[j + 1..];
    FateOfStatus(s, st, m, before, 1, row);
    FateOfStatus(s, st, m, rest, 1, end);
    FateSplits(s, st, m, before, timed[j..], 1, row);
    assert before + timed[j..] == timed && timed[j..][0] == timed[j] && timed[j..][1..] == rest;
    OverdueIsDue(s, st, m, timed, timed[j]);
  }

  /** A transition that leads back to an earlier one leaves a row that is due again. */
  lemma BackIsUnsettled(s: Schema, st: Store, m: Machine, timed: seq<Timed>, i: nat, j: nat)
    requires Free(m, timed) && DistinctSources(timed)
    requires i <= j < |timed| && timed[i].source == timed[j].target
    ensures !Settled(s, st, m, timed, 1, Overdue(m, timed, timed[j].source))
  {
    FateOfOverdue(s, st, m, timed, j);
    OverdueIsDue(s, st, m, timed, timed[i]);
  }

  /** For unguarded transitions with distinct sources the static condition is exact: all rows settle, whenever
      the sweep is run, exactly when the list never goes back. */
  lemma SettlesExactly(s: Schema, st: Store, m: Machine, timed: seq<Timed>)
    requires Free(m, timed) && DistinctSources(timed)
    ensures (forall now, row :: Settled(s, st, m, timed, now, row)) <==> NeverBack(timed)
  {
    if NeverBack(timed) {
      forall now, row
        ensures Settled(s, st, m, timed, now, row)
      {
        NeverBackSettles(s, st, m, timed, now, row);
      }
    } else {
      var i, j :| 0 <= i <= j < |timed| && timed[i].source == timed[j].target;
      BackIsUnsettled(s, st, m, timed, i, j);
    }
  }

  /** Exactly when a second sweep moves nothing and reports nothing: when every row is settled, read off the
      store before the first sweep. A list that never goes back settles them all. */
  lemma SecondSweepIsIdle(s: Schema, st: Store, e: string, m: Machine, now: int, mid: Store, o1: seq<seq<int>>,
                          o2: seq<seq<int>>, depth: nat)
    requires e in s && s[e].machine == Some(m) && depth > 0
    requires EffectFree(m, m.timed) && SteadyGuards(e, m, m.timed)
    requires SweepOrders(s, st, e, m.timed, now, o1, depth) && mid == Sweep(s, st, e, m.timed, o1, depth).store
    requires SweepOrders(s, mid, e, m.timed, now, o2, depth)
    ensures Sweep(s, mid, e, m.timed, o2, depth).moved == [] <==>
            forall k :: k in st.rows && k.entity == e ==> Settled(s, st, m, m.timed, now, st.rows[k])
    ensures Sweep(s, mid, e, m.timed, o2, depth).moved == [] ==> Sweep(s, mid, e, m.timed, o2, depth).store == mid
    ensures NeverBack(m.timed) ==> Sweep(s, mid, e, m.timed, o2, depth).moved == []
  {
    if NeverBack(m.timed) {
      forall k | k in st.rows
        ensures Settled(s, st, m, m.timed, now, st.rows[k])
      {
        NeverBackSettles(s, st, m, m.timed, now, st.rows[k]);
      }
    }
    SweepIsRowByRow(s, st, e, m.timed, now, o1, depth);
    IdleSweep(s, mid, e, m.timed, now, o2, depth);
    forall k, t | k in st.rows && k.entity == e && t in m.timed
      ensures MayMove(s, mid, k, t.target) <==> RowMayMove(s, st, m, mid.rows[k], t.target)
    {
      assert StatusOnly(m, mid.rows[k], mid.rows[k]);
      GuardsAreSteady(s, e, m, st, mid, mid.rows[k], mid.rows[k], GuardsFor(m, t.target));
    }
  }

  /** A query can always be answered: some order of the rows. */
  lemma {:induction false} SomeOrder<T(!new)>(ids: set<T>) returns (order: seq<T>)
    ensures Enumerates(order, ids)
    decreases ids
  {
    if ids == {} {
      order := [];
    } else {
      var x :| x in ids;
      var rest := SomeOrder(ids - {x});
      order := [x] + rest;
    }
  }

  lemma {:induction false} SomeOrders(s: Schema, st: Store, e: string, timed: seq<Timed>, now: int, depth: nat)
    returns (orders: seq<seq<int>>)
    requires HasMachine(s, e)
    ensures SweepOrders(s, st, e, timed, now, orders, depth)
    decreases |timed|
  {
    if timed == [] {
      orders := [];
    } else {
      var ids := SomeOrder(DueIds(st, e, s[e].machine.value, timed[0], now));
      var first := SweepIds(s, st, e, timed[0].target, ids, depth);
      if first.outcome == Done {
        var rest := SomeOrders(s, first.store, e, timed[1..], now, depth);
        orders := [ids] + rest;
        assert orders[0] == ids && orders[1..] == rest;
      } else {
        orders := [ids];
        assert orders[0] == ids;
      }
    }
  }

  /** Sweeping twice at `now` moves something the second time. */
  ghost predicate MovesAgain(s: Schema, st: Store, e: string, m: Machine, now: int, o1: seq<seq<int>>,
                             o2: seq<seq<int>>, depth: nat)
    requires e in s && s[e].machine == Some(m)
  {
    && SweepOrders(s, st, e, m.timed, now, o1, depth)
    && SweepOrders(s, Sweep(s, st, e, m.timed, o1, depth).store, e, m.timed, now, o2, depth)
    && Sweep(s, Sweep(s, st, e, m.timed, o1, depth).store, e, m.timed, o2, depth).moved != []
  }

  lemma FreeIsSteady(e: string, m: Machine, timed: seq<Timed>)
    requires Free(m, timed)
    ensures SteadyGuards(e, m, timed)
  {
  }

  lemma UnsettledMovesAgain(s: Schema, st: Store, e: string, m: Machine, now: int, k: Key, depth: nat)
    returns (o1: seq<seq<int>>, o2: seq<seq<int>>)
    requires e in s && s[e].machine == Some(m) && depth > 0
    requires EffectFree(m, m.timed) && SteadyGuards(e, m, m.timed)
    requires k in st.rows && k.entity == e && !Settled(s, st, m, m.timed, now, st.rows[k])
    ensures MovesAgain(s, st, e, m, now, o1, o2, depth)
  {
    o1 := SomeOrders(s, st, e, m.timed, now, depth);
    var mid := Sweep(s, st, e, m.timed, o1, depth).store;
    o2 := SomeOrders(s, mid, e, m.timed, now, depth);
    SecondSweepIsIdle(s, st, e, m, now, mid, o1, o2, depth);
  }

  /** A list that goes back has a store and a time at which it moves a row again. */
  lemma BackMovesAgain(s: Schema, e: string, m: Machine, depth: nat, i: nat, j: nat)
    returns (st: Store, o1: seq<seq<int>>, o2: seq<seq<int>>)
    requires e in s && s[e].machine == Some(m) && depth > 0
    requires EffectFree(m, m.timed) && Free(m, m.timed) && DistinctSources(m.timed)
    requires i <= j < |m.timed| && m.timed[i].source == m.timed[j].target
    ensures IdsFresh(st) && MovesAgain(s, st, e, m, 1, o1, o2, depth)
  {
    var k, row := Key(e, 1), Overdue(m, m.timed, m.timed[j].source);
    st := Store(map[k := row], map[e := 2]);
    FreeIsSteady(e, m, m.timed);
    BackIsUnsettled(s, st, m, m.timed, i, j);
    assert st.rows[k] == row;
    o1, o2 := UnsettledMovesAgain(s, st, e, m, 1, k, depth);
  }

  lemma NeverBackStays(s: Schema, st: Store, e: string, m: Machine, now: int, o1: seq<seq<int>>, o2: seq<seq<int>>,
                       depth: nat)
    requires e in s && s[e].machine == Some(m) && depth > 0
    requires EffectFree(m, m.timed) && Free(m, m.timed) && NeverBack(m.timed)
    ensures !MovesAgain(s, st, e, m, now, o1, o2, depth)
  {
    if MovesAgain(s, st, e, m, now, o1, o2, depth) {
      FreeIsSteady(e, m, m.timed);
      SecondSweepIsIdle(s, st, e, m, now, Sweep(s, st, e, m.timed, o1, depth).store, o1, o2, depth);
    }
  }

  /** For unguarded, effect-free time transitions with distinct sources: the second sweep of every store, at any
      time and in any order, moves nothing exactly when the list never goes back. */
  lemma SweepsOnceExactly(s: Schema, e: string, m: Machine, depth: nat)
    requires e in s && s[e].machine == Some(m) && depth > 0
    requires EffectFree(m, m.timed) && Free(m, m.timed) && DistinctSources(m.timed)
    ensures (forall st, now, o1, o2 :: !MovesAgain(s, st, e, m, now, o1, o2, depth)) <==> NeverBack(m.timed)
  {
    if NeverBack(m.timed) {
      forall st, now, o1, o2
        ensures !MovesAgain(s, st, e, m, now, o1, o2, depth)
      {
        NeverBackStays(s, st, e, m, now, o1, o2, depth);
      }
    } else {
      var i, j :| 0 <= i <= j < |m.timed| && m.timed[i].source == m.timed[j].target;
      var st, o1, o2 := BackMovesAgain(s, e, m, depth, i, j);
    }
  }

  const A := Str("a")
  const B := Str("b")
  const C := Str("c")

  /** A chain of two time transitions, the later one listed first */
  function ChainMachine(): Machine {
    Machine("status", A, map[A := [B], B := [C]], map[], map[], [Timed(B, C, "due"), Timed(A, B, "due")])
  }

  function ChainSchema(): Schema {
    map["Job" := Entity(Some(ChainMachine()), map[], map[], [], None, None)]
  }

  function ChainStore(v: Value): Store {
    Store(map[Key("Job", 1) := map["status" := v, "due" := Int(0)]], map["Job" := 2])
  }

  lemma ChainSweep(v: Value, v1: Value, v2: Value, orders: seq<seq<int>>, depth: nat)
    requires depth > 0 && SweepOrders(ChainSchema(), ChainStore(v), "Job", ChainMachine().timed, 1, orders, depth)
    requires (v == A && v1 == A && v2 == B) || (v == B && v1 == C && v2 == C)
    ensures Sweep(ChainSchema(), ChainStore(v), "Job", ChainMachine().timed, orders, depth).store == ChainStore(v2)
  {
    var s, st, m := ChainSchema(), ChainStore(v), ChainMachine();
    ChainIsSteady();
    SweepIsRowByRow(s, st, "Job", m.timed, 1, orders, depth);
    ChainFate(st, v, v1, v2);
    ChainRow(v, v2);
  }

  lemma ChainIsSteady()
    ensures HasMachine(ChainSchema(), "Job") && ChainSchema()["Job"].machine.value == ChainMachine()
    ensures SteadyGuards("Job", ChainMachine(), ChainMachine().timed)
    ensures EffectFree(ChainMachine(), ChainMachine().timed)
  {
  }

  lemma ChainRow(v: Value, v2: Value)
    requires var row := ChainStore(v).rows[Key("Job", 1)];
             Fate(ChainSchema(), ChainStore(v), ChainMachine(), ChainMachine().timed, 1, row)
             == ChainStore(v2).rows[Key("Job", 1)]
    ensures EachFate(ChainSchema(), ChainStore(v), "Job", ChainMachine(), ChainMachine().timed, 1, ChainStore(v))
            == ChainStore(v2)
  {
    var st := ChainStore(v);
    assert EachFate(ChainSchema(), st, "Job", ChainMachine(), ChainMachine().timed, 1, st).rows == ChainStore(v2).rows;
  }

  /** Listed backwards, a chain of time transitions needs a second sweep: the order is needed. */
  lemma BackwardListNeedsTwoSweeps(o1: seq<seq<int>>, o2: seq<seq<int>>, depth: nat)
    requires depth > 0 && SweepOrders(ChainSchema(), ChainStore(A), "Job", ChainMachine().timed, 1, o1, depth)
    requires SweepOrders(ChainSchema(), ChainStore(B), "Job", ChainMachine().timed, 1, o2, depth)
    ensures Sweep(ChainSchema(), ChainStore(A), "Job", ChainMachine().timed, o1, depth).store == ChainStore(B)
    ensures Sweep(ChainSchema(), ChainStore(B), "Job", ChainMachine().timed, o2, depth).store == ChainStore(C)
    ensures ChainStore(B) != ChainStore(C)
  {
    ChainSweep(A, A, B, o1, depth);
    ChainSweep(B, C, C, o2, depth);
    assert Attr(ChainStore(B).rows[Key("Job", 1)], "status") == B;
    assert Attr(ChainStore(C).rows[Key("Job", 1)], "status") == C;
  }

  /** What the two time transitions make of a status */
  lemma ChainFate(st: Store, v: Value, v1: Value, v2: Value)
    requires (v == A && v1 == A && v2 == B) || (v == B && v1 == C && v2 == C)
    ensures Fate(ChainSchema(), st, ChainMachine(), ChainMachine().timed, 1, ChainStore(v).rows[Key("Job", 1)])
            == ChainStore(v2).rows[Key("Job", 1)]
  {
    var s, m, k := ChainSchema(), ChainMachine(), Key("Job", 1);
    var row, row1 := ChainStore(v).rows[k], ChainStore(v1).rows[k];
    assert Step(s, st, m, m.timed[0], 1, row) == row1;
    assert Step(s, st, m, m.timed[1], 1, row1) == ChainStore(v2).rows[k];
    assert m.timed[1..] == [m.timed[1]] && m.timed[1..][1..] == [];
    assert Fate(s, st, m, m.timed[1..], 1, row1) == Fate(s, st, m, [], 1, ChainStore(v2).rows[k]);
  }
}
