/** What the database has seen: a session with autoflush off flushes where the code says so, and its queries read
    no more than that. */
module Flushing {
  import opened Workflow
  import opened SweepSteps

  /** What has been flushed after a transition(), of a session whose database had seen `seen`. It flushes when it
      succeeds, and so does each nested one; nothing else does. */
  function SeenAfter(s: Schema, seen: Store, st: Store, e: string, id: Value, to: Value, depth: nat): Store
    requires e in s && s[e].machine.Some?
    decreases depth, 0
  {
    if depth == 0 || !Has(st, e, id) || !MayMove(s, st, Key(e, id.i), to) then seen
    else
      var k, m := Key(e, id.i), s[e].machine.value;
      var st1, effs := SetField(st, k, m.field, to), EffectsFor(m, to);
      var r := RunEffects(s, st1, k, effs, depth - 1);
      if r.outcome == Done then r.store else SeenAfterEffects(s, seen, st1, k, effs, depth - 1)
  }

  function SeenAfterEffects(s: Schema, seen: Store, st: Store, k: Key, effs: seq<Effect>, depth: nat): Store
    requires k in st.rows
    decreases depth, 2 + |effs|
  {
    if effs == [] then seen
    else
      var first, now := RunEffect(s, st, k, effs[0], depth), SeenAfterEffect(s, seen, st, k, effs[0], depth);
      if first.outcome != Done then now else SeenAfterEffects(s, now, first.store, k, effs[1..], depth)
  }

  function SeenAfterEffect(s: Schema, seen: Store, st: Store, k: Key, eff: Effect, depth: nat): Store
    requires k in st.rows
    decreases depth, 1
  {
    if eff.SetRelated? && eff.guarded && eff.entity in s && s[eff.entity].machine.Some?
       && Attr(st.rows[k], eff.ref) != Null
    then SeenAfter(s, seen, st, eff.entity, Attr(st.rows[k], eff.ref), eff.value, depth)
    else seen
  }

  /** The same for a pass, up to the first uncaught error */
  function PassSeen(s: Schema, seen: Store, st: Store, e: string, to: Value, ids: seq<int>, depth: nat): Store
    requires e in s && s[e].machine.Some?
    decreases |ids|
  {
    if ids == [] then seen
    else
      var n := |ids| - 1;
      var before, now := SweepIds(s, st, e, to, ids[..n], depth), PassSeen(s, seen, st, e, to, ids[..n], depth);
      if before.outcome != Done then now else SeenAfter(s, now, before.store, e, Int(ids[n]), to, depth)
  }

  /** The same for a sweep, after the passes in `orders`, up to the first uncaught error */
  function SweepSeen(s: Schema, seen: Store, st: Store, e: string, timed: seq<Timed>, orders: seq<seq<int>>,
                     depth: nat): Store
    requires e in s && s[e].machine.Some? && |orders| <= |timed|
    decreases |orders|
  {
    if orders == [] then seen
    else
      var n := |orders| - 1;
      var before := Sweep(s, st, e, timed, orders[..n], depth);
      var now := SweepSeen(s, seen, st, e, timed, orders[..n], depth);
      if before.outcome != Done then now else PassSeen(s, now, before.store, e, timed[n].target, orders[n], depth)
  }

  /** What has been flushed when a sweep ends; without an uncaught error it flushes once more. */
  function SeenAfterSweep(s: Schema, seen: Store, st: Store, e: string, timed: seq<Timed>, orders: seq<seq<int>>,
                          depth: nat): Store
    requires e in s && s[e].machine.Some?
  {
    var r := Sweep(s, st, e, timed, orders, depth);
    if r.outcome == Done then r.store
    else SweepSeen(s, seen, st, e, timed, Asked(timed, orders), depth)
  }

  /** One order a time transition */
  function Asked(timed: seq<Timed>, orders: seq<seq<int>>): (asked: seq<seq<int>>)
    ensures |asked| <= |timed|
  {
    if |orders| <= |timed| then orders else orders[..|timed|]
  }

  lemma {:induction false} ExtraOrders(s: Schema, st: Store, e: string, timed: seq<Timed>, orders: seq<seq<int>>,
                                       depth: nat)
    requires e in s && s[e].machine.Some?
    ensures Sweep(s, st, e, timed, Asked(timed, orders), depth) == Sweep(s, st, e, timed, orders, depth)
    decreases |timed|
  {
    if timed == [] || orders == [] {
    } else {
      var first := SweepIds(s, st, e, timed[0].target, orders[0], depth);
      assert Asked(timed, orders)[0] == orders[0] && Asked(timed, orders)[1..] == Asked(timed[1..], orders[1..]);
      ExtraOrders(s, first.store, e, timed[1..], orders[1..], depth);
    }
  }

  /** What the query after the passes in `orders` reads */
  function QueryReads(s: Schema, autoflush: bool, seen: Store, st: Store, e: string, timed: seq<Timed>,
                      orders: seq<seq<int>>, depth: nat): Store
    requires e in s && s[e].machine.Some? && |orders| <= |timed|
  {
    if autoflush then Sweep(s, st, e, timed, orders, depth).store else SweepSeen(s, seen, st, e, timed, orders, depth)
  }

  ghost predicate AnswersQuery(s: Schema, autoflush: bool, seen: Store, st: Store, e: string, timed: seq<Timed>,
                               now: int, orders: seq<seq<int>>, i: nat, depth: nat)
    requires e in s && s[e].machine.Some? && i < |orders| <= |timed|
  {
    && Sweep(s, st, e, timed, orders[..i], depth).outcome == Done
    && Enumerates(orders[i], DueIds(QueryReads(s, autoflush, seen, st, e, timed, orders[..i], depth), e,
                                    s[e].machine.value, timed[i], now))
  }

  /** `orders` is a possible outcome of the queries of a sweep: each gives, in some order, the rows that are due by
      what it reads, and there is one for each time transition unless an uncaught error came first. */
  ghost predicate QueryOrders(s: Schema, autoflush: bool, seen: Store, st: Store, e: string, timed: seq<Timed>,
                              now: int, orders: seq<seq<int>>, depth: nat)
    requires e in s && s[e].machine.Some?
  {
    && |orders| <= |timed|
    && (forall i: nat :: i < |orders| ==> AnswersQuery(s, autoflush, seen, st, e, timed, now, orders, i, depth))
    && (Sweep(s, st, e, timed, orders, depth).outcome == Done ==> |orders| == |timed|)
  }

  lemma AnswersGrow(s: Schema, autoflush: bool, seen: Store, st: Store, e: string, timed: seq<Timed>, now: int,
                    orders: seq<seq<int>>, ids: seq<int>, depth: nat)
    requires e in s && s[e].machine.Some? && |orders| < |timed| && Sweep(s, st, e, timed, orders, depth).outcome == Done
    requires forall i: nat :: i < |orders| ==> AnswersQuery(s, autoflush, seen, st, e, timed, now, orders, i, depth)
    requires Enumerates(ids, DueIds(QueryReads(s, autoflush, seen, st, e, timed, orders, depth), e,
                                    s[e].machine.value, timed[|orders|], now))
    ensures forall i: nat :: i < |orders + [ids]| ==>
              AnswersQuery(s, autoflush, seen, st, e, timed, now, orders + [ids], i, depth)
  {
    forall i: nat | i < |orders + [ids]|
      ensures AnswersQuery(s, autoflush, seen, st, e, timed, now, orders + [ids], i, depth)
    {
      assert (orders + [ids])[..i] == orders[..i] && orders[..|orders|] == orders;
      if i < |orders| {
        assert AnswersQuery(s, autoflush, seen, st, e, timed, now, orders, i, depth);
      }
    }
  }

  lemma SeenGrows(s: Schema, seen: Store, st: Store, e: string, timed: seq<Timed>, orders: seq<seq<int>>,
                  ids: seq<int>, depth: nat)
    requires e in s && s[e].machine.Some? && |orders| < |timed| && Sweep(s, st, e, timed, orders, depth).outcome == Done
    ensures SweepSeen(s, seen, st, e, timed, orders + [ids], depth)
            == PassSeen(s, SweepSeen(s, seen, st, e, timed, orders, depth), Sweep(s, st, e, timed, orders, depth).store,
                        e, timed[|orders|].target, ids, depth)
  {
    assert (orders + [ids])[..|orders|] == orders;
  }

  lemma PassSeenStep(s: Schema, seen: Store, st: Store, e: string, to: Value, ids: seq<int>, i: nat, depth: nat)
    requires e in s && s[e].machine.Some? && i < |ids| && SweepIds(s, st, e, to, ids[..i], depth).outcome == Done
    ensures var before, now := SweepIds(s, st, e, to, ids[..i], depth), PassSeen(s, seen, st, e, to, ids[..i], depth);
            PassSeen(s, seen, st, e, to, ids[..i + 1], depth)
            == SeenAfter(s, now, before.store, e, Int(ids[i]), to, depth)
  {
    assert ids[..i + 1][..i] == ids[..i];
  }

  /** After an uncaught error nothing more is flushed. */
  lemma {:induction false} PassSeenStops(s: Schema, seen: Store, st: Store, e: string, to: Value, ids: seq<int>, i: nat,
                                         depth: nat)
    requires e in s && s[e].machine.Some? && i <= |ids| && SweepIds(s, st, e, to, ids[..i], depth).outcome != Done
    ensures PassSeen(s, seen, st, e, to, ids, depth) == PassSeen(s, seen, st, e, to, ids[..i], depth)
    decreases |ids|
  {
    if i == |ids| {
      assert ids[..i] == ids;
    } else {
      var n := |ids| - 1;
      var front := ids[..n];
      assert front[..i] == ids[..i] && front == front[..i] + front[i..];
      SweepIdsSplits(s, st, e, to, front[..i], front[i..], depth);
      PassSeenStops(s, seen, st, e, to, front, i, depth);
    }
  }

  // ---------------------------------------------------------------------------------
  // With autoflush on
  // ---------------------------------------------------------------------------------

  lemma SweepUnfolds(s: Schema, st: Store, e: string, timed: seq<Timed>, orders: seq<seq<int>>, i: nat, depth: nat)
    requires e in s && s[e].machine.Some? && timed != [] && i < |orders|
    ensures var first := SweepIds(s, st, e, timed[0].target, orders[0], depth);
            Sweep(s, st, e, timed, orders[..i + 1], depth)
            == Joined(first, Sweep(s, first.store, e, timed[1..], orders[1..][..i], depth))
  {
    assert orders[..i + 1][0] == orders[0] && orders[..i + 1][1..] == orders[1..][..i];
  }

  lemma AnswersInTail(s: Schema, seen: Store, st: Store, e: string, timed: seq<Timed>, now: int,
                      orders: seq<seq<int>>, i: nat, depth: nat)
    requires e in s && s[e].machine.Some? && i + 1 < |orders| <= |timed|
    ensures var first := SweepIds(s, st, e, timed[0].target, orders[0], depth);
            AnswersQuery(s, true, seen, st, e, timed, now, orders, i + 1, depth) <==>
            first.outcome == Done && AnswersQuery(s, true, seen, first.store, e, timed[1..], now, orders[1..], i, depth)
  {
    SweepUnfolds(s, st, e, timed, orders, i, depth);
  }

  /** A session that flushes before each query makes the queries of SweepOrders. */
  lemma {:induction false} FlushedOrders(s: Schema, seen: Store, st: Store, e: string, timed: seq<Timed>, now: int,
                                         orders: seq<seq<int>>, depth: nat)
    requires e in s && s[e].machine.Some?
    ensures QueryOrders(s, true, seen, st, e, timed, now, orders, depth) <==>
            SweepOrders(s, st, e, timed, now, orders, depth)
    decreases |timed|
  {
    if timed == [] || orders == [] || |orders| > |timed| {
      OrdersAreFew(s, st, e, timed, now, orders, depth);
    } else {
      var first := SweepIds(s, st, e, timed[0].target, orders[0], depth);
      FlushedOrders(s, seen, first.store, e, timed[1..], now, orders[1..], depth);
      OrdersUnfold(s, seen, st, e, timed, now, orders, depth);
    }
  }

  lemma {:induction false} OrdersAreFew(s: Schema, st: Store, e: string, timed: seq<Timed>, now: int,
                                        orders: seq<seq<int>>, depth: nat)
    requires e in s && s[e].machine.Some?
    ensures SweepOrders(s, st, e, timed, now, orders, depth) ==> |orders| <= |timed|
    decreases |timed|
  {
    if timed == [] || orders == [] {
    } else {
      var first := SweepIds(s, st, e, timed[0].target, orders[0], depth);
      OrdersAreFew(s, first.store, e, timed[1..], now, orders[1..], depth);
    }
  }

  lemma OrdersUnfold(s: Schema, seen: Store, st: Store, e: string, timed: seq<Timed>, now: int,
                     orders: seq<seq<int>>, depth: nat)
    requires e in s && s[e].machine.Some? && timed != [] && orders != [] && |orders| <= |timed|
    ensures var first := SweepIds(s, st, e, timed[0].target, orders[0], depth);
            QueryOrders(s, true, seen, st, e, timed, now, orders, depth) <==>
              && Enumerates(orders[0], DueIds(st, e, s[e].machine.value, timed[0], now))
              && if first.outcome != Done then |orders| == 1
                 else QueryOrders(s, true, seen, first.store, e, timed[1..], now, orders[1..], depth)
  {
    var first, rest := SweepIds(s, st, e, timed[0].target, orders[0], depth), orders[1..];
    assert orders[..0] == [];
    assert AnswersQuery(s, true, seen, st, e, timed, now, orders, 0, depth) <==>
           Enumerates(orders[0], DueIds(st, e, s[e].machine.value, timed[0], now));
    SweepUnfolds(s, st, e, timed, orders, |rest|, depth);
    assert orders[..|orders|] == orders && rest[..|rest|] == rest;
    if QueryOrders(s, true, seen, st, e, timed, now, orders, depth) {
      forall i: nat | i < |rest|
        ensures first.outcome == Done && AnswersQuery(s, true, seen, first.store, e, timed[1..], now, rest, i, depth)
      {
        assert AnswersQuery(s, true, seen, st, e, timed, now, orders, i + 1, depth);
        AnswersInTail(s, seen, st, e, timed, now, orders, i, depth);
      }
      if |rest| > 0 {
        assert AnswersQuery(s, true, seen, first.store, e, timed[1..], now, rest, 0, depth);
      }
    }
    if Enumerates(orders[0], DueIds(st, e, s[e].machine.value, timed[0], now))
       && (|rest| > 0 ==> first.outcome == Done)
       && (forall i: nat :: i < |rest| ==> AnswersQuery(s, true, seen, first.store, e, timed[1..], now, rest, i, depth))
    {
      forall i: nat | i < |orders|
        ensures AnswersQuery(s, true, seen, st, e, timed, now, orders, i, depth)
      {
        if i > 0 {
          AnswersInTail(s, seen, st, e, timed, now, orders, i - 1, depth);
        }
      }
    }
  }

  // ---------------------------------------------------------------------------------
  // With autoflush off
  // ---------------------------------------------------------------------------------

  /** The i-th transition of the pass succeeds or writes nothing: it is not refused half way. */
  ghost predicate WholeTurn(s: Schema, st: Store, e: string, to: Value, ids: seq<int>, i: nat, depth: nat)
    requires e in s && s[e].machine.Some? && i < |ids|
  {
    var before := SweepIds(s, st, e, to, ids[..i], depth);
    before.outcome == Done ==>
      var one := Transition(s, before.store, e, Int(ids[i]), to, depth);
      one.outcome == Done || one.log == []
  }

  ghost predicate WholePass(s: Schema, st: Store, e: string, to: Value, ids: seq<int>, depth: nat)
    requires e in s && s[e].machine.Some?
  {
    forall i: nat :: i < |ids| ==> WholeTurn(s, st, e, to, ids, i, depth)
  }

  ghost predicate WholeSweep(s: Schema, st: Store, e: string, timed: seq<Timed>, orders: seq<seq<int>>, depth: nat)
    requires e in s && s[e].machine.Some?
  {
    forall i: nat :: i < |orders| && i < |timed| ==> WholeAt(s, st, e, timed, orders, i, depth)
  }

  ghost predicate WholeAt(s: Schema, st: Store, e: string, timed: seq<Timed>, orders: seq<seq<int>>, i: nat, depth: nat)
    requires e in s && s[e].machine.Some? && i < |orders| && i < |timed|
  {
    WholePass(s, Sweep(s, st, e, timed, orders[..i], depth).store, e, timed[i].target, orders[i], depth)
  }

  lemma UnwrittenIsUnseen(s: Schema, seen: Store, st: Store, e: string, id: Value, to: Value, depth: nat)
    requires e in s && s[e].machine.Some?
    ensures var one := Transition(s, st, e, id, to, depth);
            && (one.outcome == Done ==> SeenAfter(s, seen, st, e, id, to, depth) == one.store)
            && (one.log == [] ==> SeenAfter(s, seen, st, e, id, to, depth) == seen && one.store == st)
  {
  }

  lemma {:induction false} PassIsSeen(s: Schema, st: Store, e: string, to: Value, ids: seq<int>, n: nat, depth: nat)
    requires e in s && s[e].machine.Some? && WholePass(s, st, e, to, ids, depth)
    requires n <= |ids| && SweepIds(s, st, e, to, ids[..n], depth).outcome == Done
    ensures PassSeen(s, st, st, e, to, ids[..n], depth) == SweepIds(s, st, e, to, ids[..n], depth).store
    decreases n
  {
    if n == 0 {
    } else {
      var front := ids[..n - 1];
      assert ids[..n][..n - 1] == front;
      SweepIdsSplits(s, st, e, to, front, ids[n - 1..n], depth);
      assert front + ids[n - 1..n] == ids[..n];
      PassIsSeen(s, st, e, to, ids, n - 1, depth);
      SweepPassStep(s, st, e, to, ids, n - 1, depth);
      assert WholeTurn(s, st, e, to, ids, n - 1, depth);
      UnwrittenIsUnseen(s, SweepIds(s, st, e, to, front, depth).store, SweepIds(s, st, e, to, front, depth).store, e,
                        Int(ids[n - 1]), to, depth);
    }
  }

  lemma {:induction false} SweepIsSeen(s: Schema, st: Store, e: string, timed: seq<Timed>, orders: seq<seq<int>>,
                                       n: nat, depth: nat)
    requires e in s && s[e].machine.Some? && WholeSweep(s, st, e, timed, orders, depth)
    requires n <= |orders| <= |timed| && Sweep(s, st, e, timed, orders[..n], depth).outcome == Done
    ensures SweepSeen(s, st, st, e, timed, orders[..n], depth) == Sweep(s, st, e, timed, orders[..n], depth).store
    decreases n
  {
    if n == 0 {
    } else {
      var front := orders[..n - 1];
      assert orders[..n][..n - 1] == front && orders[..n] == front + [orders[n - 1]];
      SweepGrows(s, st, e, timed, front, orders[n - 1], depth);
      SweepIsSeen(s, st, e, timed, orders, n - 1, depth);
      var mid := Sweep(s, st, e, timed, front, depth).store;
      assert WholeAt(s, st, e, timed, orders, n - 1, depth);
      var ids := orders[n - 1];
      assert ids[..|ids|] == ids;
      PassIsSeen(s, mid, e, timed[n - 1].target, ids, |ids|, depth);
    }
  }

  /** When no transition of a sweep is refused half way, and nothing was waiting to be flushed, no query of the
      sweep can tell whether autoflush is on. */
  lemma LazySweepIsSweep(s: Schema, st: Store, e: string, timed: seq<Timed>, now: int, orders: seq<seq<int>>,
                         depth: nat)
    requires e in s && s[e].machine.Some? && WholeSweep(s, st, e, timed, orders, depth)
    ensures QueryOrders(s, false, st, st, e, timed, now, orders, depth) <==>
            SweepOrders(s, st, e, timed, now, orders, depth)
  {
    FlushedOrders(s, st, st, e, timed, now, orders, depth);
    if |orders| <= |timed| {
      forall i: nat | i < |orders|
        ensures AnswersQuery(s, false, st, st, e, timed, now, orders, i, depth) <==>
                AnswersQuery(s, true, st, st, e, timed, now, orders, i, depth)
      {
        if Sweep(s, st, e, timed, orders[..i], depth).outcome == Done {
          SweepIsSeen(s, st, e, timed, orders, i, depth);
        }
      }
    }
  }
}
