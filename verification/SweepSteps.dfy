/** Passes and sweeps, one step at a time. */
module SweepSteps {
  import opened Workflow

  lemma JoinedAssociates(a: SweepResult, b: SweepResult, c: SweepResult)
    ensures Joined(a, Joined(b, c)) == Joined(Joined(a, b), c)
  {
    assert a.moved + (b.moved + c.moved) == a.moved + b.moved + c.moved;
    assert a.log + (b.log + c.log) == a.log + b.log + c.log;
  }

  /** A pass over `x + y` is the pass over `x`, then, unless that was cut short, the pass over `y`. */
  lemma {:induction false} SweepIdsSplits(s: Schema, st: Store, e: string, to: Value, x: seq<int>, y: seq<int>,
                                          depth: nat)
    requires e in s && s[e].machine.Some?
    ensures var a := SweepIds(s, st, e, to, x, depth);
            SweepIds(s, st, e, to, x + y, depth) == Joined(a, SweepIds(s, a.store, e, to, y, depth))
    decreases |x|
  {
    if x == [] {
      assert x + y == y;
    } else {
      assert (x + y)[0] == x[0] && (x + y)[1..] == x[1..] + y;
      var one := SweepOne(s, st, e, to, x[0], depth);
      SweepIdsSplits(s, one.store, e, to, x[1..], y, depth);
      var a := SweepIds(s, one.store, e, to, x[1..], depth);
      JoinedAssociates(one, a, SweepIds(s, a.store, e, to, y, depth));
    }
  }

  lemma OneId(s: Schema, st: Store, e: string, to: Value, ids: seq<int>, depth: nat)
    requires e in s && s[e].machine.Some? && ids != []
    ensures var one := SweepOne(s, st, e, to, ids[0], depth);
            |ids| == 1 || one.outcome != Done ==> SweepIds(s, st, e, to, ids, depth) == one
  {
    var one := SweepOne(s, st, e, to, ids[0], depth);
    assert one.outcome == Done ==> one.moved + [] == one.moved && one.log + [] == one.log;
  }

  /** The i-th id of a pass, after i ids that raised nothing uncaught */
  lemma SweepPassStep(s: Schema, st: Store, e: string, to: Value, ids: seq<int>, i: nat, depth: nat)
    requires e in s && s[e].machine.Some? && i < |ids|
    requires SweepIds(s, st, e, to, ids[..i], depth).outcome == Done
    ensures var a := SweepIds(s, st, e, to, ids[..i], depth);
            var one := SweepOne(s, a.store, e, to, ids[i], depth);
            && SweepIds(s, st, e, to, ids[..i + 1], depth) == Joined(a, one)
            && (one.outcome != Done ==> SweepIds(s, st, e, to, ids, depth) == Joined(a, one))
  {
    var a := SweepIds(s, st, e, to, ids[..i], depth);
    var one := SweepOne(s, a.store, e, to, ids[i], depth);
    SweepIdsSplits(s, st, e, to, ids[..i], [ids[i]], depth);
    SweepIdsSplits(s, st, e, to, ids[..i], ids[i..], depth);
    assert ids[..i] + [ids[i]] == ids[..i + 1] && ids[..i] + ids[i..] == ids;
    OneId(s, a.store, e, to, [ids[i]], depth);
    OneId(s, a.store, e, to, ids[i..], depth);
  }

  /** A pass, up to its last id and after it */
  lemma LastTurn(s: Schema, st: Store, e: string, to: Value, ids: seq<int>, depth: nat)
    requires e in s && s[e].machine.Some? && ids != []
    ensures var n := |ids| - 1;
            var a, r := SweepIds(s, st, e, to, ids[..n], depth), SweepIds(s, st, e, to, ids, depth);
            var one := SweepOne(s, a.store, e, to, ids[n], depth);
            if a.outcome == Done then r.log == a.log + one.log && r.store == one.store else r == a
  {
    var n := |ids| - 1;
    assert ids[..n] + [ids[n]] == ids;
    SweepIdsSplits(s, st, e, to, ids[..n], [ids[n]], depth);
    OneId(s, SweepIds(s, st, e, to, ids[..n], depth).store, e, to, [ids[n]], depth);
  }

  /** What the pass has done after its i-th transition(), by the outcome of that */
  lemma AfterOneId(s: Schema, st: Store, mid: Store, e: string, to: Value, ids: seq<int>, i: nat, depth: nat)
    requires e in s && s[e].machine.Some? && i < |ids|
    requires SweepIds(s, st, e, to, ids[..i], depth).outcome == Done
    requires mid == SweepIds(s, st, e, to, ids[..i], depth).store
    ensures var a := SweepIds(s, st, e, to, ids[..i], depth);
            var one := Transition(s, mid, e, Int(ids[i]), to, depth);
            var caught := one.outcome != NoTransition && one.outcome != TooDeep;
            var now := SweepIds(s, st, e, to, if caught then ids[..i + 1] else ids, depth);
            && now.store == one.store && now.outcome == (if caught then Done else one.outcome)
            && now.moved == if caught && one.outcome != Refused then a.moved + [ids[i]] else a.moved
  {
    SweepPassStep(s, st, e, to, ids, i, depth);
  }

  /** One more time transition: what has been done so far, then its pass */
  lemma {:induction false} SweepGrows(s: Schema, st: Store, e: string, timed: seq<Timed>, orders: seq<seq<int>>,
                                      ids: seq<int>, depth: nat)
    requires e in s && s[e].machine.Some? && |orders| < |timed|
    ensures var r := Sweep(s, st, e, timed, orders, depth);
            Sweep(s, st, e, timed, orders + [ids], depth)
            == Joined(r, SweepIds(s, r.store, e, timed[|orders|].target, ids, depth))
    decreases |orders|
  {
    if orders == [] {
      var pass := SweepIds(s, st, e, timed[0].target, ids, depth);
      assert [] + [ids] == [ids] && [ids][1..] == [];
      assert Sweep(s, pass.store, e, timed[1..], [], depth) == SweepResult(pass.store, Done, [], []);
      assert pass.moved + [] == pass.moved && pass.log + [] == pass.log;
      assert [] + pass.moved == pass.moved && [] + pass.log == pass.log;
    } else {
      var first := SweepIds(s, st, e, timed[0].target, orders[0], depth);
      assert (orders + [ids])[0] == orders[0] && (orders + [ids])[1..] == orders[1..] + [ids];
      SweepGrows(s, first.store, e, timed[1..], orders[1..], ids, depth);
      var r := Sweep(s, first.store, e, timed[1..], orders[1..], depth);
      JoinedAssociates(first, r, SweepIds(s, r.store, e, timed[|orders|].target, ids, depth));
    }
  }

  lemma OneSweepPass(s: Schema, st: Store, e: string, timed: seq<Timed>, now: int, ids: seq<int>, depth: nat)
    requires e in s && s[e].machine.Some? && timed != []
    requires Enumerates(ids, DueIds(st, e, s[e].machine.value, timed[0], now))
    requires |timed| == 1 || SweepIds(s, st, e, timed[0].target, ids, depth).outcome != Done
    ensures SweepOrders(s, st, e, timed, now, [ids], depth)
    ensures Sweep(s, st, e, timed, [ids], depth) == SweepIds(s, st, e, timed[0].target, ids, depth)
  {
    var pass := SweepIds(s, st, e, timed[0].target, ids, depth);
    var none := SweepResult(pass.store, Done, [], []);
    assert Sweep(s, pass.store, e, timed[1..], [], depth) == none;
    assert Joined(pass, none) == pass;
    assert [ids][1..] == [];
  }
}
