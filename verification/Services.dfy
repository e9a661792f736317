/** The emitted service methods over one database session, in the order they read and write. */
module Services {
  import opened Workflow
  import opened Wrappers
  import opened Erasure
  import opened SweepSteps
  import opened Flushing
  import opened PlainTerms

  class Session {
    const schema: Schema
    const autoflush: bool
    /** The rows as the session has them, and as its database has seen them */
    var working: Store
    var flushed: Store

    constructor (schema: Schema, committed: Store, autoflush: bool)
      ensures this.schema == schema && this.autoflush == autoflush && working == flushed == committed
    {
      this.schema, this.autoflush := schema, autoflush;
      working, flushed := committed, committed;
    }

    /** What a query reads */
    function Reads(): Store
      reads this
    {
      if autoflush then working else flushed
    }

    /** create(): reference rules, then the overlap query, then the INSERT */
    method Create(e: string, data: Row) returns (id: Option<int>)
      requires e in schema
      modifies this`working, this`flushed
      ensures id.Some? <==>
                CreateAllowedIn(schema, old(working), if autoflush then old(working) else old(flushed), e, data)
      ensures id.Some? ==> forall r :: r in schema[e].refRules && r.field in data && data[r.field] != Null ==>
                && data[r.field].Int? && Key(r.entity, data[r.field].i) in old(working).rows
                && (r.allowed != [] ==>
                      exists v :: v in r.allowed
                        && Holds(old(working).rows[Key(r.entity, data[r.field].i)], r.statusField, v))
      ensures id == None && schema[e].overlap == None ==>
                exists r :: r in schema[e].refRules && r.field in data && data[r.field] != Null
                  && (data[r.field].Int? && Key(r.entity, data[r.field].i) in old(working).rows ==>
                        && r.allowed != []
                        && forall v :: Holds(old(working).rows[Key(r.entity, data[r.field].i)], r.statusField, v) ==>
                             v !in r.allowed)
      ensures id == None ==> working == old(working) && flushed == old(flushed)
      ensures id.Some? ==> id.value == NextId(old(working), e)
                           && working == flushed == InsertRow(schema, old(working), e, data)
    {
      CreateAllowedExactly(schema, working, Reads(), e, data);
      var rules := schema[e].refRules;
      for i := 0 to |rules|
        invariant working == old(working) && flushed == old(flushed)
        invariant forall r :: r in rules[..i] ==> RefRuleHolds(working, data, r)
      {
        var v := Attr(data, rules[i].field);
        assert rules[i] in rules;
        if v != Null {
          if !Has(working, rules[i].entity, v) {
            return None;
          }
          var found := working.rows[Key(rules[i].entity, v.i)];
          if rules[i].allowed != [] && Attr(found, rules[i].statusField) !in rules[i].allowed {
            return None;
          }
        }
      }
      assert rules[..|rules|] == rules;
      if schema[e].overlap.Some? {
        var o := schema[e].overlap.value;
        if Attr(data, o.scope) != Null && Attr(data, o.start) != Null && Attr(data, o.end) != Null {
          var seen := Reads();
          var hits := set k | k in seen.rows && k.entity == e && Conflicts(o, seen.rows[k], data);
          if hits != {} {
            var hit :| hit in hits;
            return None;
          }
          forall k | k in seen.rows && k.entity == e
            ensures !Conflicts(o, seen.rows[k], data)
          {
            assert k !in hits;
          }
        }
      }
      id := Some(NextId(working, e));
      working := InsertRow(schema, working, e, data);
      flushed := working;
    }

    /** update(): setattr of every field given, with no check of any kind */
    method Update(e: string, id: int, data: Row) returns (found: bool)
      modifies this`working, this`flushed
      ensures found <==> Key(e, id) in old(working).rows
      ensures working.next == old(working).next && working.rows.Keys == old(working).rows.Keys
      ensures forall k :: k in working.rows && k != Key(e, id) ==> working.rows[k] == old(working).rows[k]
      ensures found ==> forall f :: Attr(working.rows[Key(e, id)], f)
                                    == if f in data then data[f] else Attr(old(working).rows[Key(e, id)], f)
      ensures found ==> working == flushed == Updated(old(working), Key(e, id), data)
      ensures !found ==> flushed == old(flushed)
    {
      found := Key(e, id) in working.rows;
      if found {
        working := Updated(working, Key(e, id), data);
        flushed := working;
      }
    }

    /** delete(): the row goes, and every row with a chain of cascading foreign keys to it; no other row changes. */
    method Delete(e: string, id: int) returns (found: bool)
      modifies this`working, this`flushed
      ensures found <==> Key(e, id) in old(working).rows
      ensures working.next == old(working).next
      ensures !found ==> working == old(working) && flushed == old(flushed)
      ensures found ==> forall k :: k in working.rows <==>
                k in old(working).rows && !Chained(schema, old(working), {Key(e, id)}, k)
      ensures forall k :: k in working.rows ==> k in old(working).rows && working.rows[k] == old(working).rows[k]
      ensures found ==> working == flushed == DeleteRows(schema, old(working), {Key(e, id)})
    {
      found := Key(e, id) in working.rows;
      if found {
        CascadeIsChained(schema, working, {Key(e, id)});
        forall k | k in working.rows && Chained(schema, working, {Key(e, id)}, k)
          ensures k in Cascade(schema, working, {Key(e, id)})
        {
          CascadeIsTransitive(schema, working, {Key(e, id)}, k);
        }
        working := DeleteRows(schema, working, {Key(e, id)});
        flushed := working;
      }
    }

    /** transition(): table, guards, the status write, then the effects one by one on the live row; a flush if
        all goes well */
    method Transition(e: string, id: Value, to: Value, depth: nat) returns (outcome: Outcome)
      requires e in schema && schema[e].machine.Some?
      modifies this`working, this`flushed
      ensures var r := Workflow.Transition(schema, old(working), e, id, to, depth);
              working == r.store && outcome == r.outcome
      ensures flushed == SeenAfter(schema, old(flushed), old(working), e, id, to, depth)
      decreases depth, 0
    {
      if depth == 0 {
        return TooDeep;
      }
      if !Has(working, e, id) {
        return Missing;
      }
      var k := Key(e, id.i);
      var m := schema[e].machine.value;
      if to !in Targets(m, Attr(working.rows[k], m.field)) {
        return Refused;
      }
      var pass := CheckGuards(working.rows[k], GuardsFor(m, to));
      if !pass {
        return Refused;
      }
      working := SetField(working, k, m.field, to);
      outcome := Fire(k, EffectsFor(m, to), depth - 1);
      if outcome == Done {
        flushed := working;
      }
    }

    method CheckGuards(row: Row, gs: seq<Guard>) returns (pass: bool)
      ensures pass <==> GuardsHold(schema, working, row, gs)
      ensures pass <==>
        && (forall f, v :: FieldIs(f, v) in gs ==> Holds(row, f, v))
        && (forall ref, other, f, allowed :: RelatedIn(ref, other, f, allowed) in gs ==>
              && other in schema && ref in row && row[ref].Int? && Key(other, row[ref].i) in working.rows
              && exists v :: v in allowed && Holds(working.rows[Key(other, row[ref].i)], f, v))
    {
      GuardsInPlainTerms(schema, working, row, gs);
      for i := 0 to |gs|
        invariant forall g :: g in gs[..i] ==> GuardHolds(schema, working, row, g)
      {
        if !GuardHolds(schema, working, row, gs[i]) {
          assert gs[i] in gs;
          return false;
        }
      }
      assert gs[..|gs|] == gs;
      pass := true;
    }

    /** The effect loop; the first error leaves it with everything written so far. */
    method Fire(k: Key, effs: seq<Effect>, depth: nat) returns (outcome: Outcome)
      requires k in working.rows
      modifies this`working, this`flushed
      ensures var r := RunEffects(schema, old(working), k, effs, depth);
              working == r.store && outcome == r.outcome
      ensures flushed == SeenAfterEffects(schema, old(flushed), old(working), k, effs, depth)
      decreases depth, 2
    {
      assert effs[0..] == effs;
      for i := 0 to |effs|
        invariant k in working.rows
        invariant SameEnd(RunEffects(schema, old(working), k, effs, depth),
                          RunEffects(schema, working, k, effs[i..], depth))
        invariant SeenAfterEffects(schema, old(flushed), old(working), k, effs, depth)
                  == SeenAfterEffects(schema, flushed, working, k, effs[i..], depth)
      {
        EffectsUnfold(schema, flushed, working, k, effs[i..], depth);
        outcome := ApplyEffect(k, effs[i], depth);
        if outcome != Done {
          return;
        }
        assert effs[i..][1..] == effs[i + 1..];
      }
      outcome := Done;
    }

    method ApplyEffect(k: Key, eff: Effect, depth: nat) returns (outcome: Outcome)
      requires k in working.rows
      modifies this`working, this`flushed
      ensures var r := RunEffect(schema, old(working), k, eff, depth);
              working == r.store && outcome == r.outcome
      ensures flushed == SeenAfterEffect(schema, old(flushed), old(working), k, eff, depth)
      decreases depth, 1
    {
      outcome := Done;
      if eff.SetRelated? {
        var rid := Attr(working.rows[k], eff.ref);
        if eff.guarded && eff.entity in schema {
          if rid != Null {
            if schema[eff.entity].machine.None? {
              return NoTransition;
            }
            outcome := Transition(eff.entity, rid, eff.value, depth);
            if outcome == Missing {
              outcome := Refused;
            }
          }
        } else if rid != Null && eff.entity in schema && Has(working, eff.entity, rid) {
          working := SetField(working, Key(eff.entity, rid.i), eff.field, eff.value);
        }
      } else if eff.entity in schema {
        working := InsertRow(schema, working, eff.entity, ChildValues(eff.values, working.rows[k]));
      }
    }

    /** sweep(): for each time transition, query the rows past their deadline, in whatever order the database
        returns them, and push each through transition(). The query reads what has been flushed. */
    method Sweep(e: string, now: int, depth: nat)
      returns (outcome: Outcome, done: seq<int>, ghost orders: seq<seq<int>>)
      requires e in schema && schema[e].machine.Some?
      modifies this`working, this`flushed
      ensures QueryOrders(schema, autoflush, old(flushed), old(working), e, schema[e].machine.value.timed, now, orders,
                          depth)
      ensures var r := Workflow.Sweep(schema, old(working), e, schema[e].machine.value.timed, orders, depth);
              working == r.store && outcome == r.outcome && done == r.moved
      ensures outcome == Done ==> flushed == working
      ensures autoflush || flushed == SeenAfterSweep(schema, old(flushed), old(working), e,
                                                     schema[e].machine.value.timed, orders, depth)
    {
      done, orders := [], [];
      var m := schema[e].machine.value;
      for i := 0 to |m.timed|
        invariant |orders| == i
        invariant var r := Workflow.Sweep(schema, old(working), e, m.timed, orders, depth);
                  working == r.store && r.outcome == Done && done == r.moved
        invariant autoflush || flushed == SweepSeen(schema, old(flushed), old(working), e, m.timed, orders, depth)
        invariant forall j: nat :: j < i ==>
          AnswersQuery(schema, autoflush, old(flushed), old(working), e, m.timed, now, orders, j, depth)
      {
        if autoflush {
          flushed := working;
        }
        var pending := Enumerate(DueIds(flushed, e, m, m.timed[i], now));
        AnswersGrow(schema, autoflush, old(flushed), old(working), e, m.timed, now, orders, pending, depth);
        SweepGrows(schema, old(working), e, m.timed, orders, pending, depth);
        SeenGrows(schema, old(flushed), old(working), e, m.timed, orders, pending, depth);
        var passed, moved := SweepPass(e, m.timed[i].target, pending, depth);
        done, orders := done + moved, orders + [pending];
        if passed != Done {
          return passed, done, orders;
        }
      }
      flushed := working;
      outcome := Done;
    }

    /** The inner loop of sweep(): only a WorkflowError is caught, and nothing is rolled back. */
    method SweepPass(e: string, to: Value, ids: seq<int>, depth: nat) returns (outcome: Outcome, moved: seq<int>)
      requires e in schema && schema[e].machine.Some?
      modifies this`working, this`flushed
      ensures var r := SweepIds(schema, old(working), e, to, ids, depth);
              working == r.store && outcome == r.outcome && moved == r.moved
      ensures flushed == PassSeen(schema, old(flushed), old(working), e, to, ids, depth)
    {
      moved := [];
      for i := 0 to |ids|
        invariant var r := SweepIds(schema, old(working), e, to, ids[..i], depth);
                  working == r.store && r.outcome == Done && moved == r.moved
        invariant flushed == PassSeen(schema, old(flushed), old(working), e, to, ids[..i], depth)
      {
        AfterOneTurn(schema, old(flushed), old(working), working, flushed, e, to, ids, i, depth);
        outcome := Transition(e, Int(ids[i]), to, depth);
        if outcome == NoTransition || outcome == TooDeep {
          return;
        }
        if outcome != Refused {
          moved := moved + [ids[i]];
        }
      }
      assert ids[..|ids|] == ids;
      outcome := Done;
    }

    /** delete_user_data: one DELETE per owned table, each with its cascades. All of it together
        is one cascade from the user's rows; a count is of the user's rows still there when the
        table's turn comes. */
    method DeleteUserData(owned: seq<string>, user: int) returns (counts: map<string, int>)
      requires IsOwnedList(schema, owned)
      modifies this`working, this`flushed
      ensures working == flushed == Erased(schema, old(working), owned, user)
      ensures Counted(schema, old(working), owned, user, |owned|, counts)
    {
      counts := map[];
      EraseNothing(schema, working, user);
      for i := 0 to |owned|
        invariant working == Erased(schema, old(working), owned[..i], user)
        invariant Counted(schema, old(working), owned, user, i, counts)
      {
        var hit := OwnedKeys(schema, working, owned[i], user);
        EraseOneMore(schema, old(working), owned, user, i, counts);
        working := DeleteRows(schema, working, hit);
        counts := counts[owned[i] := |hit|];
      }
      assert owned[..|owned|] == owned;
      flushed := working;
    }

    method ExportUserData(owned: seq<string>, user: int) returns (out: map<string, map<Key, Row>>)
      requires IsOwnedList(schema, owned)
      ensures out == Export(schema, working, owned, user)
    {
      out := map[];
      for i := 0 to |owned|
        invariant out == Export(schema, working, owned[..i], user)
      {
        var rows := ExportRows(schema, working, owned[i], user);
        ExportOneMore(schema, working, owned[..i], owned[i], user);
        assert owned[..i + 1] == owned[..i] + [owned[i]];
        if rows != map[] {
          out := out[owned[i] := rows];
        }
      }
      assert owned[..|owned|] == owned;
    }
  }

  /** The first `n` tables are counted: each by the user's rows still there when its turn comes. */
  ghost predicate Counted(s: Schema, st: Store, owned: seq<string>, user: int, n: nat, counts: map<string, int>)
    requires n <= |owned|
  {
    && (forall e :: e in counts <==> e in owned[..n])
    && (forall i :: 0 <= i < n ==> counts[owned[i]] == CountAt(s, st, owned, user, i))
  }

  function CountAt(s: Schema, st: Store, owned: seq<string>, user: int, i: nat): int
    requires i < |owned|
  {
    |OwnedKeys(s, Erased(s, st, owned[..i], user), owned[i], user)|
  }

  lemma EraseOneMore(s: Schema, st: Store, owned: seq<string>, user: int, n: nat, counts: map<string, int>)
    requires n < |owned| && Counted(s, st, owned, user, n, counts) && IsOwnedList(s, owned)
    ensures var cur := Erased(s, st, owned[..n], user);
            var hit := OwnedKeys(s, cur, owned[n], user);
            && DeleteRows(s, cur, hit) == Erased(s, st, owned[..n + 1], user)
            && Counted(s, st, owned, user, n + 1, counts[owned[n] := |hit|])
  {
    assert owned[..n + 1] == owned[..n] + [owned[n]];
    EraseNextTable(s, st, owned[..n], owned[n], user);
    CountOneMore(s, st, owned, user, n, counts);
  }

  lemma CountOneMore(s: Schema, st: Store, owned: seq<string>, user: int, n: nat, counts: map<string, int>)
    requires n < |owned| && Counted(s, st, owned, user, n, counts)
    requires forall i, j :: 0 <= i < j < |owned| ==> owned[i] != owned[j]
    ensures Counted(s, st, owned, user, n + 1, counts[owned[n] := CountAt(s, st, owned, user, n)])
  {
    assert owned[..n + 1] == owned[..n] + [owned[n]];
  }

  lemma ExportOneMore(s: Schema, st: Store, done: seq<string>, e: string, user: int)
    ensures var rows, before := ExportRows(s, st, e, user), Export(s, st, done, user);
            Export(s, st, done + [e], user) == if rows != map[] then before[e := rows] else before
  {
    assert forall x :: x in done + [e] <==> x in done || x == e;
  }

  /** A query result: each id of the set once, in no particular order */
  method Enumerate<T(==,!new)>(s: set<T>) returns (ids: seq<T>)
    ensures Enumerates(ids, s)
  {
    ids := [];
    var left := s;
    while left != {}
      invariant left <= s
      invariant forall x :: x in ids <==> x in s && x !in left
      invariant forall i, j :: 0 <= i < j < |ids| ==> ids[i] != ids[j]
      decreases left
    {
      var x :| x in left;
      ids, left := ids + [x], left - {x};
    }
  }

  ghost predicate SameEnd(a: Result, b: Result) {
    a.store == b.store && a.outcome == b.outcome
  }

  lemma EffectsUnfold(s: Schema, seen: Store, st: Store, k: Key, effs: seq<Effect>, depth: nat)
    requires k in st.rows && effs != []
    ensures var first := RunEffect(s, st, k, effs[0], depth);
            SameEnd(RunEffects(s, st, k, effs, depth),
                    if first.outcome != Done then first else RunEffects(s, first.store, k, effs[1..], depth))
    ensures var first, now := RunEffect(s, st, k, effs[0], depth), SeenAfterEffect(s, seen, st, k, effs[0], depth);
            SeenAfterEffects(s, seen, st, k, effs, depth)
            == if first.outcome != Done then now else SeenAfterEffects(s, now, first.store, k, effs[1..], depth)
  {
  }

  /** What a pass has done, and flushed, after its i-th transition(), by the outcome of that */
  lemma AfterOneTurn(s: Schema, seen: Store, st: Store, mid: Store, now: Store, e: string, to: Value, ids: seq<int>,
                     i: nat, depth: nat)
    requires e in s && s[e].machine.Some? && i < |ids|
    requires SweepIds(s, st, e, to, ids[..i], depth).outcome == Done
    requires mid == SweepIds(s, st, e, to, ids[..i], depth).store
    requires now == PassSeen(s, seen, st, e, to, ids[..i], depth)
    ensures var a := SweepIds(s, st, e, to, ids[..i], depth);
            var one := Workflow.Transition(s, mid, e, Int(ids[i]), to, depth);
            var caught := one.outcome != NoTransition && one.outcome != TooDeep;
            var upTo := if caught then ids[..i + 1] else ids;
            var r := SweepIds(s, st, e, to, upTo, depth);
            && r.store == one.store && r.outcome == (if caught then Done else one.outcome)
            && r.moved == (if caught && one.outcome != Refused then a.moved + [ids[i]] else a.moved)
            && PassSeen(s, seen, st, e, to, upTo, depth) == SeenAfter(s, now, mid, e, Int(ids[i]), to, depth)
  {
    AfterOneId(s, st, mid, e, to, ids, i, depth);
    PassSeenStep(s, seen, st, e, to, ids, i, depth);
    var one := Workflow.Transition(s, mid, e, Int(ids[i]), to, depth);
    if one.outcome == NoTransition || one.outcome == TooDeep {
      UncaughtId(s, st, e, to, ids, i, depth);
      PassSeenStops(s, seen, st, e, to, ids, i + 1, depth);
    }
  }

  lemma UncaughtId(s: Schema, st: Store, e: string, to: Value, ids: seq<int>, i: nat, depth: nat)
    requires e in s && s[e].machine.Some? && i < |ids| && SweepIds(s, st, e, to, ids[..i], depth).outcome == Done
    requires SweepOne(s, SweepIds(s, st, e, to, ids[..i], depth).store, e, to, ids[i], depth).outcome != Done
    ensures SweepIds(s, st, e, to, ids[..i + 1], depth).outcome != Done
  {
    SweepPassStep(s, st, e, to, ids, i, depth);
  }
}
