/** Every service call is a sequence of enabled primitive writes: the bridge from the
    interpreter to statements about whole runs. */
module Traces {
  import opened Workflow
  import opened SweepSteps
  import opened Flushing

  lemma {:induction false} RunsCompose(s: Schema, a: Store, x: seq<Event>, b: Store, y: seq<Event>, c: Store)
    requires Run(s, a, x, b) && Run(s, b, y, c)
    ensures Run(s, a, x + y, c)
    decreases |x|
  {
    if x == [] {
      assert x + y == y;
    } else {
      RunsCompose(s, Apply(s, a, x[0]), x[1..], b, y, c);
      assert (x + y)[1..] == x[1..] + y;
    }
  }

  /** Whatever the outcome, what `transition` wrote is a run: every status write was in the row's
      own table with its guards holding at that moment, nested transitions included. */
  lemma {:induction false} TransitionIsRun(s: Schema, st: Store, e: string, id: Value, to: Value, depth: nat)
    requires e in s && s[e].machine.Some?
    ensures var r := Transition(s, st, e, id, to, depth); Run(s, st, r.log, r.store)
    decreases depth, 0
  {
    if depth == 0 || !Has(st, e, id) || !MayMove(s, st, Key(e, id.i), to) {
    } else {
      var k := Key(e, id.i);
      var m := s[e].machine.value;
      var st1 := SetField(st, k, m.field, to);
      var r := RunEffects(s, st1, k, EffectsFor(m, to), depth - 1);
      forall eff | eff in EffectsFor(m, to)
        ensures DeclaredEffect(s, eff)
      {
      }
      EffectsAreRun(s, st1, k, EffectsFor(m, to), depth - 1);
      assert Apply(s, st, Move(k, to)) == st1;
      assert Run(s, st1, [], st1);
      assert Run(s, st, [Move(k, to)], st1);
      RunsCompose(s, st, [Move(k, to)], st1, r.log, r.store);
    }
  }

  lemma {:induction false} EffectsAreRun(s: Schema, st: Store, k: Key, effs: seq<Effect>, depth: nat)
    requires k in st.rows
    requires forall eff :: eff in effs ==> DeclaredEffect(s, eff)
    ensures var r := RunEffects(s, st, k, effs, depth); Run(s, st, r.log, r.store)
    decreases depth, 2 + |effs|
  {
    if effs == [] {
    } else {
      var first := RunEffect(s, st, k, effs[0], depth);
      EffectIsRun(s, st, k, effs[0], depth);
      if first.outcome == Done {
        EffectsAreRun(s, first.store, k, effs[1..], depth);
        var rest := RunEffects(s, first.store, k, effs[1..], depth);
        RunsCompose(s, st, first.log, first.store, rest.log, rest.store);
      }
    }
  }

  lemma {:induction false} EffectIsRun(s: Schema, st: Store, k: Key, eff: Effect, depth: nat)
    requires k in st.rows && DeclaredEffect(s, eff)
    ensures var r := RunEffect(s, st, k, eff, depth); Run(s, st, r.log, r.store)
    decreases depth, 1
  {
    var r := RunEffect(s, st, k, eff, depth);
    if eff.SetRelated? {
      var rid := Attr(st.rows[k], eff.ref);
      if rid != Null && eff.entity in s && eff.guarded && s[eff.entity].machine.Some? {
        TransitionIsRun(s, st, eff.entity, rid, eff.value, depth);
      }
    }
    if |r.log| == 1 && !(eff.SetRelated? && eff.guarded) {
      assert Run(s, r.store, [], r.store);
      assert Run(s, Apply(s, st, r.log[0]), r.log[1..], r.store);
    }
  }

  lemma SweepOneIsRun(s: Schema, st: Store, e: string, to: Value, id: int, depth: nat)
    requires e in s && s[e].machine.Some?
    ensures var r := SweepOne(s, st, e, to, id, depth); Run(s, st, r.log, r.store)
  {
    TransitionIsRun(s, st, e, Int(id), to, depth);
  }

  lemma {:induction false} SweepIdsAreRun(s: Schema, st: Store, e: string, to: Value, ids: seq<int>, depth: nat)
    requires e in s && s[e].machine.Some?
    ensures var r := SweepIds(s, st, e, to, ids, depth); Run(s, st, r.log, r.store)
    decreases |ids|
  {
    if ids == [] {
    } else {
      var one := SweepOne(s, st, e, to, ids[0], depth);
      SweepOneIsRun(s, st, e, to, ids[0], depth);
      SweepIdsAreRun(s, one.store, e, to, ids[1..], depth);
      var rest := SweepIds(s, one.store, e, to, ids[1..], depth);
      RunsCompose(s, st, one.log, one.store, rest.log, rest.store);
    }
  }

  /** A sweep is a run too, the writes of refused transitions included. */
  lemma {:induction false} SweepIsRun(s: Schema, st: Store, e: string, timed: seq<Timed>,
                                      orders: seq<seq<int>>, depth: nat)
    requires e in s && s[e].machine.Some?
    ensures var r := Sweep(s, st, e, timed, orders, depth); Run(s, st, r.log, r.store)
    decreases |timed|
  {
    if timed == [] || orders == [] {
    } else {
      var first := SweepIds(s, st, e, timed[0].target, orders[0], depth);
      SweepIdsAreRun(s, st, e, timed[0].target, orders[0], depth);
      SweepIsRun(s, first.store, e, timed[1..], orders[1..], depth);
      var rest := Sweep(s, first.store, e, timed[1..], orders[1..], depth);
      RunsCompose(s, st, first.log, first.store, rest.log, rest.store);
    }
  }

  // ---------------------------------------------------------------------------------
  // Which kinds of write a transition makes
  // ---------------------------------------------------------------------------------

  /** A transition never goes through create() or delete(). */
  ghost predicate EffectsOnly(log: seq<Event>) {
    forall ev :: ev in log ==> ev.Move? || ev.Assign? || ev.Spawn?
  }

  lemma {:induction false} NoCreatesInTransition(s: Schema, st: Store, e: string, id: Value, to: Value, depth: nat)
    requires e in s && s[e].machine.Some?
    ensures EffectsOnly(Transition(s, st, e, id, to, depth).log)
    decreases depth, 0
  {
    if depth == 0 || !Has(st, e, id) || !MayMove(s, st, Key(e, id.i), to) {
    } else {
      var m := s[e].machine.value;
      NoCreatesInEffects(s, SetField(st, Key(e, id.i), m.field, to), Key(e, id.i), EffectsFor(m, to), depth - 1);
    }
  }

  lemma {:induction false} NoCreatesInEffect(s: Schema, st: Store, k: Key, eff: Effect, depth: nat)
    requires k in st.rows
    ensures EffectsOnly(RunEffect(s, st, k, eff, depth).log)
    decreases depth, 1
  {
    if eff.SetRelated? && eff.guarded && eff.entity in s && s[eff.entity].machine.Some? {
      NoCreatesInTransition(s, st, eff.entity, Attr(st.rows[k], eff.ref), eff.value, depth);
    }
  }

  lemma {:induction false} NoCreatesInEffects(s: Schema, st: Store, k: Key, effs: seq<Effect>, depth: nat)
    requires k in st.rows
    ensures EffectsOnly(RunEffects(s, st, k, effs, depth).log)
    decreases depth, 2 + |effs|
  {
    if effs == [] {
    } else {
      var first := RunEffect(s, st, k, effs[0], depth);
      NoCreatesInEffect(s, st, k, effs[0], depth);
      NoCreatesInEffects(s, first.store, k, effs[1..], depth);
    }
  }

  lemma {:induction false} NoCreatesInSweepIds(s: Schema, st: Store, e: string, to: Value, ids: seq<int>, depth: nat)
    requires e in s && s[e].machine.Some?
    ensures EffectsOnly(SweepIds(s, st, e, to, ids, depth).log)
    decreases |ids|
  {
    if ids == [] {
    } else {
      NoCreatesInTransition(s, st, e, Int(ids[0]), to, depth);
      NoCreatesInSweepIds(s, SweepOne(s, st, e, to, ids[0], depth).store, e, to, ids[1..], depth);
    }
  }

  lemma {:induction false} NoCreatesInSweep(s: Schema, st: Store, e: string, timed: seq<Timed>,
                                            orders: seq<seq<int>>, depth: nat)
    requires e in s && s[e].machine.Some?
    ensures EffectsOnly(Sweep(s, st, e, timed, orders, depth).log)
    decreases |timed|
  {
    if timed == [] || orders == [] {
    } else {
      NoCreatesInSweepIds(s, st, e, timed[0].target, orders[0], depth);
      var first := SweepIds(s, st, e, timed[0].target, orders[0], depth);
      NoCreatesInSweep(s, first.store, e, timed[1..], orders[1..], depth);
    }
  }

  // ---------------------------------------------------------------------------------
  // What has been flushed is a store the run went through
  // ---------------------------------------------------------------------------------

  ghost predicate Through(s: Schema, st: Store, x: seq<Event>, now: Store, y: seq<Event>, end: Store) {
    Run(s, st, x, now) && Run(s, now, y, end)
  }

  ghost predicate PassesBy(s: Schema, st: Store, log: seq<Event>, end: Store, now: Store) {
    exists x, y :: Through(s, st, x, now, y, end) && log == x + y
  }

  /** `now` is what had been seen before, or a store on the way. */
  ghost predicate OnTheWay(s: Schema, seen: Store, st: Store, log: seq<Event>, end: Store, now: Store) {
    now == seen || PassesBy(s, st, log, end, now)
  }

  lemma EndIsOnTheWay(s: Schema, seen: Store, st: Store, log: seq<Event>, end: Store)
    requires Run(s, st, log, end)
    ensures OnTheWay(s, seen, st, log, end, end)
  {
    assert log == log + [];
    assert Through(s, st, log, end, [], end);
  }

  lemma PassesByLater(s: Schema, st: Store, a: seq<Event>, mid: Store, b: seq<Event>, end: Store, now: Store)
    requires Run(s, st, a, mid) && PassesBy(s, mid, b, end, now)
    ensures PassesBy(s, st, a + b, end, now)
  {
    var x, y :| Through(s, mid, x, now, y, end) && b == x + y;
    RunsCompose(s, st, a, mid, x, now);
    Regroup(a, x, y);
    assert Through(s, st, a + x, now, y, end);
  }

  lemma Regroup(a: seq<Event>, b: seq<Event>, c: seq<Event>)
    ensures a + (b + c) == a + b + c
  {
  }

  lemma PassesByBefore(s: Schema, st: Store, a: seq<Event>, mid: Store, b: seq<Event>, end: Store, now: Store)
    requires PassesBy(s, st, a, mid, now) && Run(s, mid, b, end)
    ensures PassesBy(s, st, a + b, end, now)
  {
    var x, y :| Through(s, st, x, now, y, mid) && a == x + y;
    RunsCompose(s, now, y, mid, b, end);
    Regroup(x, y, b);
    assert Through(s, st, x, now, y + b, end);
  }

  lemma OnTheWayTwice(s: Schema, seen: Store, st: Store, a: seq<Event>, mid: Store, b: seq<Event>, end: Store,
                      now1: Store, now2: Store)
    requires Run(s, st, a, mid) && Run(s, mid, b, end)
    requires OnTheWay(s, seen, st, a, mid, now1) && OnTheWay(s, now1, mid, b, end, now2)
    ensures OnTheWay(s, seen, st, a + b, end, now2)
  {
    if now2 != now1 {
      PassesByLater(s, st, a, mid, b, end, now2);
    } else if now1 != seen {
      PassesByBefore(s, st, a, mid, b, end, now1);
    }
  }

  lemma {:induction false} TransitionFlushes(s: Schema, seen: Store, st: Store, e: string, id: Value, to: Value,
                                             depth: nat)
    requires e in s && s[e].machine.Some?
    ensures var r := Transition(s, st, e, id, to, depth);
            OnTheWay(s, seen, st, r.log, r.store, SeenAfter(s, seen, st, e, id, to, depth))
    decreases depth, 0
  {
    if depth == 0 || !Has(st, e, id) || !MayMove(s, st, Key(e, id.i), to) {
    } else {
      MoveFlushes(s, seen, st, Key(e, id.i), to, depth - 1, Transition(s, st, e, id, to, depth),
                  SeenAfter(s, seen, st, e, id, to, depth));
    }
  }

  lemma {:induction false} MoveFlushes(s: Schema, seen: Store, st: Store, k: Key, to: Value, depth: nat, r: Result,
                                       now: Store)
    requires Enabled(s, st, Move(k, to))
    requires var m := s[k.entity].machine.value;
             var st1, effs := SetField(st, k, m.field, to), EffectsFor(m, to);
             && r == Prefixed([Move(k, to)], RunEffects(s, st1, k, effs, depth))
             && now == if r.outcome == Done then r.store else SeenAfterEffects(s, seen, st1, k, effs, depth)
    ensures OnTheWay(s, seen, st, r.log, r.store, now)
    decreases depth, 3
  {
    var m := s[k.entity].machine.value;
    var st1, effs := SetField(st, k, m.field, to), EffectsFor(m, to);
    var rest := RunEffects(s, st1, k, effs, depth);
    assert forall eff :: eff in effs ==> DeclaredEffect(s, eff);
    EffectsAreRun(s, st1, k, effs, depth);
    MoveIsRun(s, st, k, to);
    if r.outcome == Done {
      RunsCompose(s, st, [Move(k, to)], st1, rest.log, rest.store);
      EndIsOnTheWay(s, seen, st, r.log, r.store);
    } else {
      EffectsFlush(s, seen, st1, k, effs, depth);
      OnTheWayTwice(s, seen, st, [Move(k, to)], st1, rest.log, rest.store, seen, now);
    }
  }

  lemma MoveIsRun(s: Schema, st: Store, k: Key, to: Value)
    requires Enabled(s, st, Move(k, to))
    ensures Run(s, st, [Move(k, to)], SetField(st, k, s[k.entity].machine.value.field, to))
  {
    var st1 := SetField(st, k, s[k.entity].machine.value.field, to);
    assert Run(s, st1, [], st1);
    assert [Move(k, to)][1..] == [];
  }

  lemma {:induction false} EffectsFlush(s: Schema, seen: Store, st: Store, k: Key, effs: seq<Effect>, depth: nat)
    requires k in st.rows && forall eff :: eff in effs ==> DeclaredEffect(s, eff)
    ensures var r := RunEffects(s, st, k, effs, depth);
            OnTheWay(s, seen, st, r.log, r.store, SeenAfterEffects(s, seen, st, k, effs, depth))
    decreases depth, 2, |effs|
  {
    if effs == [] {
    } else {
      var first, now := RunEffect(s, st, k, effs[0], depth), SeenAfterEffect(s, seen, st, k, effs[0], depth);
      assert effs[0] in effs && forall eff :: eff in effs[1..] ==> eff in effs;
      EffectFlushes(s, seen, st, k, effs[0], depth);
      if first.outcome == Done {
        var rest := RunEffects(s, first.store, k, effs[1..], depth);
        EffectIsRun(s, st, k, effs[0], depth);
        EffectsAreRun(s, first.store, k, effs[1..], depth);
        EffectsFlush(s, now, first.store, k, effs[1..], depth);
        OnTheWayTwice(s, seen, st, first.log, first.store, rest.log, rest.store, now,
                      SeenAfterEffects(s, now, first.store, k, effs[1..], depth));
      }
    }
  }

  lemma {:induction false} EffectFlushes(s: Schema, seen: Store, st: Store, k: Key, eff: Effect, depth: nat)
    requires k in st.rows && DeclaredEffect(s, eff)
    ensures var r := RunEffect(s, st, k, eff, depth);
            OnTheWay(s, seen, st, r.log, r.store, SeenAfterEffect(s, seen, st, k, eff, depth))
    decreases depth, 1
  {
    if eff.SetRelated? && eff.guarded && eff.entity in s && s[eff.entity].machine.Some?
       && Attr(st.rows[k], eff.ref) != Null {
      TransitionFlushes(s, seen, st, eff.entity, Attr(st.rows[k], eff.ref), eff.value, depth);
    }
  }

  lemma {:induction false} PassFlushes(s: Schema, seen: Store, st: Store, e: string, to: Value, ids: seq<int>,
                                       depth: nat)
    requires e in s && s[e].machine.Some?
    ensures var r := SweepIds(s, st, e, to, ids, depth);
            OnTheWay(s, seen, st, r.log, r.store, PassSeen(s, seen, st, e, to, ids, depth))
    decreases |ids|
  {
    if ids == [] {
    } else {
      var n := |ids| - 1;
      var a, now := SweepIds(s, st, e, to, ids[..n], depth), PassSeen(s, seen, st, e, to, ids[..n], depth);
      PassFlushes(s, seen, st, e, to, ids[..n], depth);
      LastTurn(s, st, e, to, ids, depth);
      if a.outcome == Done {
        SweepIdsAreRun(s, st, e, to, ids[..n], depth);
        TurnFlushes(s, seen, st, a.log, a.store, now, e, to, ids[n], depth);
      }
    }
  }

  lemma TurnFlushes(s: Schema, seen: Store, st: Store, log: seq<Event>, cur: Store, now: Store, e: string, to: Value,
                    id: int, depth: nat)
    requires e in s && s[e].machine.Some? && Run(s, st, log, cur) && OnTheWay(s, seen, st, log, cur, now)
    ensures var one := SweepOne(s, cur, e, to, id, depth);
            OnTheWay(s, seen, st, log + one.log, one.store, SeenAfter(s, now, cur, e, Int(id), to, depth))
  {
    var one := SweepOne(s, cur, e, to, id, depth);
    SweepOneIsRun(s, cur, e, to, id, depth);
    TransitionFlushes(s, now, cur, e, Int(id), to, depth);
    OnTheWayTwice(s, seen, st, log, cur, one.log, one.store, now, SeenAfter(s, now, cur, e, Int(id), to, depth));
  }

  lemma {:induction false} SweepFlushes(s: Schema, seen: Store, st: Store, e: string, timed: seq<Timed>,
                                        orders: seq<seq<int>>, depth: nat)
    requires e in s && s[e].machine.Some? && |orders| <= |timed|
    ensures var r := Sweep(s, st, e, timed, orders, depth);
            OnTheWay(s, seen, st, r.log, r.store, SweepSeen(s, seen, st, e, timed, orders, depth))
    decreases |orders|
  {
    if orders == [] {
    } else {
      var n := |orders| - 1;
      var front := orders[..n];
      var a, now := Sweep(s, st, e, timed, front, depth), SweepSeen(s, seen, st, e, timed, front, depth);
      assert front + [orders[n]] == orders;
      SweepGrows(s, st, e, timed, front, orders[n], depth);
      SweepFlushes(s, seen, st, e, timed, front, depth);
      if a.outcome == Done {
        var pass := SweepIds(s, a.store, e, timed[n].target, orders[n], depth);
        SweepIsRun(s, st, e, timed, front, depth);
        SweepIdsAreRun(s, a.store, e, timed[n].target, orders[n], depth);
        PassFlushes(s, now, a.store, e, timed[n].target, orders[n], depth);
        OnTheWayTwice(s, seen, st, a.log, a.store, pass.log, pass.store, now,
                      PassSeen(s, now, a.store, e, timed[n].target, orders[n], depth));
      }
    }
  }
}
