/** The no_overlap rule over whole runs: create() checks it once, nothing checks it again. */
module NoOverlap {
  import opened Workflow
  import opened Wrappers
  import opened Traces
  import opened Walks

  /** The row holds its scope value at instant `t`. */
  predicate Covers(o: Overlap, row: Row, t: int) {
    var a, b := Attr(row, o.start), Attr(row, o.end);
    a.Int? && b.Int? && a.i <= t < b.i
  }

  predicate Active(o: Overlap, row: Row) {
    Attr(row, "status") in o.active
  }

  /** At each instant at most one active row per scope value covers it. */
  ghost predicate Exclusive(st: Store, e: string, o: Overlap) {
    forall a, b, t ::
      (&& a in st.rows && b in st.rows && a.entity == e && b.entity == e
       && Active(o, st.rows[a]) && Active(o, st.rows[b])
       && Attr(st.rows[a], o.scope) == Attr(st.rows[b], o.scope) != Null
       && Covers(o, st.rows[a], t) && Covers(o, st.rows[b], t))
      ==> a == b
  }

  /** The columns the rule reads are ordinary ones: no default, not the id, not the status column. */
  ghost predicate PlainColumns(ent: Entity, o: Overlap) {
    IsPlain(ent, o.scope) && IsPlain(ent, o.start) && IsPlain(ent, o.end)
  }

  ghost predicate IsPlain(ent: Entity, f: string) {
    f !in Defaults(ent) && f != "id" && f != "status"
  }

  predicate SameColumns(o: Overlap, a: Row, b: Row) {
    && Attr(a, o.scope) == Attr(b, o.scope)
    && Attr(a, o.start) == Attr(b, o.start)
    && Attr(a, o.end) == Attr(b, o.end)
  }

  /** No move of the table enters an active status from one that is not. */
  ghost predicate NoReactivation(m: Machine, o: Overlap) {
    m.field == "status" ==> forall a, b :: b in Targets(m, a) && b in o.active ==> a in o.active
  }

  /** No effect anywhere creates rows of the entity or writes them directly. */
  ghost predicate EffectsSpare(s: Schema, e: string) {
    forall eff :: DeclaredEffect(s, eff) && eff.entity == e ==> eff.SetRelated? && eff.guarded
  }

  ghost predicate RuleIsSafe(s: Schema, e: string, o: Overlap) {
    && e in s && s[e].overlap == Some(o)
    && PlainColumns(s[e], o) && EffectsSpare(s, e)
    && (s[e].machine.Some? ==> NoReactivation(s[e].machine.value, o))
  }

  /** The data names no column the rule reads. */
  predicate Unread(o: Overlap, data: Row) {
    o.scope !in data && o.start !in data && o.end !in data && "status" !in data
  }

  /** An update of the entity leaves the columns of the rule alone. */
  predicate SparesRule(e: string, o: Overlap, ev: Event) {
    ev.Rewritten? && ev.key.entity == e ==> Unread(o, ev.data)
  }

  lemma RewriteKeepsExclusive(st: Store, k: Key, data: Row, e: string, o: Overlap)
    requires k in st.rows && (k.entity == e ==> Unread(o, data)) && Exclusive(st, e, o)
    ensures Exclusive(Updated(st, k, data), e, o)
  {
    var after := Updated(st, k, data);
    forall x | x in after.rows && x.entity == e
      ensures SameColumns(o, after.rows[x], st.rows[x]) && (Active(o, after.rows[x]) <==> Active(o, st.rows[x]))
    {
    }
  }

  /** Every active row of the entity is in `seen` too, active and with the same columns: `seen` hides no conflict. */
  ghost predicate ShowsActive(seen: Store, st: Store, e: string, o: Overlap) {
    forall k :: k in st.rows && k.entity == e && Active(o, st.rows[k]) ==>
      k in seen.rows && Active(o, seen.rows[k]) && SameColumns(o, seen.rows[k], st.rows[k])
  }

  lemma MoveKeepsRule(s: Schema, st: Store, k: Key, to: Value, e: string, o: Overlap)
    requires RuleIsSafe(s, e, o) && Enabled(s, st, Move(k, to))
    ensures var after := Apply(s, st, Move(k, to));
            forall x :: x in st.rows && x.entity == e ==>
              SameColumns(o, after.rows[x], st.rows[x]) && (Active(o, after.rows[x]) ==> Active(o, st.rows[x]))
  {
    assert k.entity == e ==> s[e].machine.value.field in Defaults(s[e]);
  }

  /** What a transition writes activates no row of the entity and leaves the columns of the rule alone. */
  lemma EventShowsActive(s: Schema, seen: Store, st: Store, ev: Event, e: string, o: Overlap)
    requires RuleIsSafe(s, e, o) && Enabled(s, st, ev) && (ev.Move? || ev.Assign? || ev.Spawn?)
    requires ShowsActive(seen, st, e, o)
    ensures ShowsActive(seen, Apply(s, st, ev), e, o)
  {
    if ev.Move? {
      MoveKeepsRule(s, st, ev.key, ev.to, e, o);
    }
  }

  lemma {:induction false} RunShowsActive(s: Schema, seen: Store, st: Store, log: seq<Event>, end: Store, e: string,
                                          o: Overlap)
    requires RuleIsSafe(s, e, o) && Run(s, st, log, end) && EffectsOnly(log) && ShowsActive(seen, st, e, o)
    ensures ShowsActive(seen, end, e, o)
    decreases |log|
  {
    if log == [] {
    } else {
      assert log[0] in log && forall ev :: ev in log[1..] ==> ev in log;
      EventShowsActive(s, seen, st, log[0], e, o);
      RunShowsActive(s, seen, Apply(s, st, log[0]), log[1..], end, e, o);
    }
  }

  /** Whatever has been flushed on the way still shows every active row. */
  lemma FlushedShowsActive(s: Schema, seen: Store, st: Store, log: seq<Event>, end: Store, now: Store, e: string,
                           o: Overlap)
    requires RuleIsSafe(s, e, o) && Run(s, st, log, end) && EffectsOnly(log) && ShowsActive(seen, st, e, o)
    requires OnTheWay(s, seen, st, log, end, now)
    ensures ShowsActive(now, end, e, o)
  {
    if now == seen {
      RunShowsActive(s, seen, st, log, end, e, o);
    } else {
      var x, y :| Through(s, st, x, now, y, end) && log == x + y;
      assert forall ev :: ev in y ==> ev in log;
      assert ShowsActive(now, now, e, o);
      RunShowsActive(s, now, now, y, end, e, o);
    }
  }

  lemma EventKeepsExclusive(s: Schema, st: Store, ev: Event, e: string, o: Overlap)
    requires RuleIsSafe(s, e, o) && Enabled(s, st, ev) && SparesRule(e, o, ev) && Exclusive(st, e, o)
    requires ev.Created? ==> ShowsActive(ev.seen, st, e, o)
    ensures Exclusive(Apply(s, st, ev), e, o)
  {
    match ev
    case Created(e2, data, seen) =>
      if e2 == e {
        CreateKeepsExclusive(s, st, seen, e, o, data);
      }
    case Move(k, to) => MoveKeepsRule(s, st, k, to, e, o);
    case Rewritten(k, data) => RewriteKeepsExclusive(st, k, data, e, o);
    case _ =>
  }

  /** The overlap query is enough, even on rows that are behind, as long as they show every active one. */
  lemma CreateKeepsExclusive(s: Schema, st: Store, seen: Store, e: string, o: Overlap, data: Row)
    requires e in s && s[e].overlap == Some(o) && PlainColumns(s[e], o)
    requires CreateAllowedIn(s, st, seen, e, data) && Exclusive(st, e, o) && ShowsActive(seen, st, e, o)
    ensures Exclusive(InsertRow(s, st, e, data), e, o)
  {
    var after, k := InsertRow(s, st, e, data), Key(e, NextId(st, e));
    var row := after.rows[k];
    assert SameColumns(o, row, data);
    forall x, t | x in st.rows && x.entity == e && Active(o, st.rows[x])
                  && Attr(st.rows[x], o.scope) == Attr(row, o.scope) != Null
                  && Covers(o, st.rows[x], t) && Covers(o, row, t)
      ensures false
    {
      assert Conflicts(o, seen.rows[x], data);
    }
  }

  lemma {:induction false} RunKeepsExclusive(s: Schema, st: Store, log: seq<Event>, end: Store, e: string, o: Overlap)
    requires RuleIsSafe(s, e, o) && Run(s, st, log, end) && Exclusive(st, e, o)
    requires forall ev :: ev in log ==> SparesRule(e, o, ev)
    requires forall ev :: ev in log && ev.Created? ==> log == [ev] && ShowsActive(ev.seen, st, e, o)
    ensures Exclusive(end, e, o)
    decreases |log|
  {
    if log == [] {
    } else {
      assert log[0] in log;
      EventKeepsExclusive(s, st, log[0], e, o);
      RunKeepsExclusive(s, Apply(s, st, log[0]), log[1..], end, e, o);
    }
  }

  lemma CallKeepsRule(s: Schema, db: Db, c: Call, e: string, o: Overlap)
    requires RuleIsSafe(s, e, o) && Callable(s, c) && (c.DoUpdate? && c.key.entity == e ==> Unread(o, c.data))
    requires Exclusive(db.working, e, o) && Exclusive(db.committed, e, o) && ShowsActive(Reads(db), db.working, e, o)
    ensures var next := Exec(s, db, c);
            && Exclusive(next.working, e, o) && Exclusive(next.committed, e, o)
            && ShowsActive(Reads(next), next.working, e, o)
  {
    var next, log := Exec(s, db, c), CallLog(s, db, c);
    assert ShowsActive(next.working, next.working, e, o);
    if !c.Commit? && !c.Drop? {
      CallIsRun(s, db, c);
      assert forall ev :: ev in log ==> SparesRule(e, o, ev);
      RunKeepsExclusive(s, db.working, log, next.working, e, o);
      if (c.DoTransition? || c.DoSweep?) && !db.autoflush {
        CallFlushes(s, db, c);
        FlushedShowsActive(s, db.flushed, db.working, log, next.working, next.flushed, e, o);
      }
    }
  }

  /** Reservations never overlap, whatever is created, moved, swept, deleted, erased or dropped, whatever
      status a create asks for, whatever is updated besides the columns of the rule, and however far the rows a
      create's query reads are behind. */
  lemma {:induction false} EveryRunKeepsExclusive(s: Schema, db: Db, calls: seq<Call>, e: string, o: Overlap)
    requires RuleIsSafe(s, e, o) && AllCallable(s, calls)
    requires forall c :: c in calls && c.DoUpdate? && c.key.entity == e ==> Unread(o, c.data)
    requires Exclusive(db.working, e, o) && Exclusive(db.committed, e, o) && ShowsActive(Reads(db), db.working, e, o)
    ensures Exclusive(ExecAll(s, db, calls).working, e, o)
    ensures Exclusive(ExecAll(s, db, calls).committed, e, o)
    decreases |calls|
  {
    if calls == [] {
    } else {
      assert calls[0] in calls;
      CallKeepsRule(s, db, calls[0], e, o);
      EveryRunKeepsExclusive(s, Exec(s, db, calls[0]), calls[1..], e, o);
    }
  }

  // ---------------------------------------------------------------------------------
  // A table that re-enters an active status
  // ---------------------------------------------------------------------------------

  /** Both rows hold the same scope value at some instant. */
  predicate Meet(o: Overlap, a: Row, b: Row) {
    && Attr(a, o.scope) == Attr(b, o.scope) != Null
    && Less(Attr(a, o.start), Attr(a, o.end)) && Less(Attr(b, o.start), Attr(b, o.end))
    && Less(Attr(a, o.start), Attr(b, o.end)) && Less(Attr(b, o.start), Attr(a, o.end))
  }

  lemma MeetIsShared(o: Overlap, a: Row, b: Row)
    requires Attr(a, o.scope) == Attr(b, o.scope) != Null
    ensures Meet(o, a, b) <==> exists t :: Covers(o, a, t) && Covers(o, b, t)
  {
    if Meet(o, a, b) {
      var x, y := Attr(a, o.start).i, Attr(b, o.start).i;
      var t := if x < y then y else x;
      assert Covers(o, a, t) && Covers(o, b, t);
    }
  }

  /** Exactly when an active status may be written on a row: when no other active row meets it.
      create() looks, transition() does not. */
  lemma ReactivationNeedsTheCheck(s: Schema, st: Store, k: Key, to: Value, o: Overlap)
    requires k.entity in s && k in st.rows && PlainColumns(s[k.entity], o) && to in o.active
    requires Exclusive(st, k.entity, o)
    ensures Exclusive(SetField(st, k, "status", to), k.entity, o) <==>
            forall x :: x in st.rows && x.entity == k.entity && x != k && Active(o, st.rows[x]) ==>
              !Meet(o, st.rows[x], st.rows[k])
  {
    var after := SetField(st, k, "status", to);
    assert forall x :: x in st.rows ==> SameColumns(o, after.rows[x], st.rows[x]);
    forall x | x in st.rows && x.entity == k.entity && x != k && Active(o, st.rows[x])
               && Attr(st.rows[x], o.scope) == Attr(st.rows[k], o.scope) != Null
      ensures Meet(o, st.rows[x], st.rows[k]) <==>
              exists t :: Covers(o, after.rows[x], t) && Covers(o, after.rows[k], t)
    {
      MeetIsShared(o, after.rows[x], after.rows[k]);
    }
  }

  const HELD := Str("held")
  const FREE := Str("free")

  function HoldRule(): Overlap {
    Overlap("tool", "a", "b", [HELD])
  }

  function HoldSchema(): Schema {
    map["Hold" := Entity(Some(Machine("status", FREE, map[HELD := [FREE], FREE := [HELD]], map[], map[], [])),
                         map[], map[], [], Some(HoldRule()), None)]
  }

  function HoldStore(): Store {
    Store(map[Key("Hold", 1) := map["status" := FREE, "tool" := Int(1), "a" := Int(0), "b" := Int(10)],
              Key("Hold", 2) := map["status" := HELD, "tool" := Int(1), "a" := Int(5), "b" := Int(15)]], map[])
  }

  /** A released hold taken up again meets the one created since: the table is the only thing that prevents it. */
  lemma ReactivatedHoldsOverlap()
    ensures var r := Transition(HoldSchema(), HoldStore(), "Hold", Int(1), HELD, 1);
            r.outcome == Done && Exclusive(HoldStore(), "Hold", HoldRule()) && !Exclusive(r.store, "Hold", HoldRule())
  {
    var s, st, k, other := HoldSchema(), HoldStore(), Key("Hold", 1), Key("Hold", 2);
    var st1 := SetField(st, k, "status", HELD);
    assert MayMove(s, st, k, HELD);
    assert RunEffects(s, st1, k, [], 0).store == st1;
    assert Transition(s, st, "Hold", Int(1), HELD, 1).store == st1;
    assert !Active(HoldRule(), st.rows[k]);
    assert Covers(HoldRule(), st1.rows[k], 5) && Covers(HoldRule(), st1.rows[other], 5);
    assert Active(HoldRule(), st1.rows[k]) && Active(HoldRule(), st1.rows[other]);
  }
}
