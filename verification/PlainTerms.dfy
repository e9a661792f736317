/** What transition() and sweep() promise, in terms of rows and tables alone. */
module PlainTerms {
  import opened Workflow
  import opened Walks
  import opened Sweeping

  /** transition() on a row that is there writes exactly when the table leads from the row's status to `to`, every
      guard on a column finds its value there, and every guard on a related row finds that row at a status of the
      list; otherwise it refuses and leaves the store alone. */
  lemma TransitionWritesExactly(s: Schema, st: Store, e: string, id: int, to: Value, depth: nat)
    requires e in s && s[e].machine.Some? && Key(e, id) in st.rows && depth > 0
    ensures var m, row, r := s[e].machine.value, st.rows[Key(e, id)], Transition(s, st, e, Int(id), to, depth);
      && (r.log != [] <==>
            && (exists cur :: Holds(row, m.field, cur) && cur in m.transitions && to in m.transitions[cur])
            && (to in m.guards ==>
                  && (forall f, v :: FieldIs(f, v) in m.guards[to] ==> Holds(row, f, v))
                  && (forall ref, other, f, allowed :: RelatedIn(ref, other, f, allowed) in m.guards[to] ==>
                        && other in s && ref in row && row[ref].Int? && Key(other, row[ref].i) in st.rows
                        && exists v :: v in allowed && Holds(st.rows[Key(other, row[ref].i)], f, v))))
      && (r.log == [] ==> r == Result(st, Refused, []))
      && (r.log != [] ==> r.log[0] == Move(Key(e, id), to))
  {
    var m, row := s[e].machine.value, st.rows[Key(e, id)];
    assert Holds(row, m.field, Attr(row, m.field));
    if to in m.guards {
      GuardsInPlainTerms(s, st, row, m.guards[to]);
    }
  }

  /** Into a state without effects, a transition that writes sets the status of the row and nothing else. */
  lemma TransitionSetsStatus(s: Schema, st: Store, e: string, id: int, to: Value, depth: nat)
    requires e in s && s[e].machine.Some? && Key(e, id) in st.rows && depth > 0
    requires to in s[e].machine.value.effects ==> s[e].machine.value.effects[to] == []
    ensures var m, k, r := s[e].machine.value, Key(e, id), Transition(s, st, e, Int(id), to, depth);
            if r.log == [] then r == Result(st, Refused, [])
            else r == Result(Store(st.rows[k := st.rows[k][m.field := to]], st.next), Done, [Move(k, to)])
  {
    EffectFreeTransition(s, st, e, id, to, depth);
  }

  // ---------------------------------------------------------------------------------
  // Effects
  // ---------------------------------------------------------------------------------

  /** A row that its effects refer to and that is missing makes a refusal. */
  lemma {:induction false} EffectsAreNotMissing(s: Schema, st: Store, k: Key, effs: seq<Effect>, depth: nat)
    requires k in st.rows
    ensures RunEffects(s, st, k, effs, depth).outcome != Missing
    decreases |effs|
  {
    if effs == [] {
    } else {
      var first := RunEffect(s, st, k, effs[0], depth);
      EffectsAreNotMissing(s, first.store, k, effs[1..], depth);
    }
  }

  lemma FoundIsNotMissing(s: Schema, st: Store, e: string, id: int, to: Value, depth: nat)
    requires e in s && s[e].machine.Some? && Key(e, id) in st.rows
    ensures Transition(s, st, e, Int(id), to, depth).outcome != Missing
  {
    var k, m := Key(e, id), s[e].machine.value;
    if depth > 0 {
      EffectsAreNotMissing(s, SetField(st, k, m.field, to), k, EffectsFor(m, to), depth - 1);
    }
  }

  /** An effect on a related row: nothing if the row refers to none; unguarded, the one column of the row referred to,
      if it is there; guarded, that row's own transition, and a refusal if it is not there. */
  lemma RelatedEffectExactly(s: Schema, st: Store, k: Key, ref: string, entity: string, field: string, value: Value,
                             guarded: bool, depth: nat)
    requires k in st.rows
    ensures var row, r := st.rows[k], RunEffect(s, st, k, SetRelated(ref, entity, field, value, guarded), depth);
      if ref !in row || row[ref] == Null || entity !in s then r == Result(st, Done, [])
      else if !guarded then
        && r.outcome == Done && r.store.next == st.next && r.store.rows.Keys == st.rows.Keys
        && forall x :: x in st.rows ==>
             r.store.rows[x] == if row[ref].Int? && x == Key(entity, row[ref].i) then st.rows[x][field := value]
                                else st.rows[x]
      else if s[entity].machine.None? then r == Result(st, NoTransition, [])
      else if row[ref].Int? && Key(entity, row[ref].i) in st.rows then
        r == Transition(s, st, entity, row[ref], value, depth)
      else r == Result(st, if depth == 0 then TooDeep else Refused, [])
  {
    if ref in st.rows[k] && st.rows[k][ref].Int? && Key(entity, st.rows[k][ref].i) in st.rows && entity in s
       && s[entity].machine.Some? {
      FoundIsNotMissing(s, st, entity, st.rows[k][ref].i, value, depth);
    }
  }

  /** No effects do nothing, and one does what it does. */
  lemma OneEffect(s: Schema, st: Store, k: Key, eff: Effect, depth: nat)
    requires k in st.rows
    ensures RunEffects(s, st, k, [], depth) == Result(st, Done, [])
    ensures RunEffects(s, st, k, [eff], depth) == RunEffect(s, st, k, eff, depth)
  {
    assert [eff][1..] == [];
    var r := RunEffect(s, st, k, eff, depth);
    assert RunEffects(s, r.store, k, [], depth) == Result(r.store, Done, []);
    assert r.log + [] == r.log;
  }

  lemma EffectsStep(s: Schema, st: Store, k: Key, effs: seq<Effect>, depth: nat, first: Result, r: Result)
    requires k in st.rows && effs != [] && first == RunEffect(s, st, k, effs[0], depth)
    requires r == RunEffects(s, st, k, effs, depth)
    ensures k in first.store.rows
    ensures r == if first.outcome != Done then first
                 else Prefixed(first.log, RunEffects(s, first.store, k, effs[1..], depth))
  {
  }

  lemma PrefixedTwice(a: seq<Event>, b: seq<Event>, r: Result)
    ensures Prefixed([], r) == r && Prefixed(a, Prefixed(b, r)) == Prefixed(a + b, r)
  {
    assert a + (b + r.log) == a + b + r.log && [] + r.log == r.log;
  }

  /** Effects run one after the other, each on the rows as the ones before it left them, up to the first error. */
  lemma {:induction false} EffectsInOrder(s: Schema, st: Store, k: Key, effs: seq<Effect>, more: seq<Effect>,
                                          depth: nat, r: Result)
    requires k in st.rows && r == RunEffects(s, st, k, effs, depth)
    ensures RunEffects(s, st, k, effs + more, depth) ==
            if r.outcome == Done then Prefixed(r.log, RunEffects(s, r.store, k, more, depth)) else r
    decreases |effs|
  {
    if effs == [] {
      assert effs + more == more;
      PrefixedTwice([], [], RunEffects(s, st, k, more, depth));
    } else {
      var rest, first := effs[1..], RunEffect(s, st, k, effs[0], depth);
      assert (effs + more)[0] == effs[0] && (effs + more)[1..] == rest + more;
      EffectsStep(s, st, k, effs, depth, first, r);
      EffectsStep(s, st, k, effs + more, depth, first, RunEffects(s, st, k, effs + more, depth));
      if first.outcome == Done {
        var tail := RunEffects(s, first.store, k, rest, depth);
        EffectsInOrder(s, first.store, k, rest, more, depth, tail);
        PrefixedTwice(first.log, tail.log, RunEffects(s, tail.store, k, more, depth));
      }
    }
  }

  // ---------------------------------------------------------------------------------
  // sweep
  // ---------------------------------------------------------------------------------

  /** A pass moves a row it reports, and leaves alone a row it does not. */
  lemma {:induction false} PassMovesOrKeeps(s: Schema, st: Store, e: string, to: Value, ids: seq<int>, depth: nat,
                                            k: Key)
    requires HasMachine(s, e) && depth > 0 && EffectsFor(s[e].machine.value, to) == []
    requires k in st.rows && forall id :: id in ids ==> Key(e, id) in st.rows
    ensures var m, r := s[e].machine.value, SweepIds(s, st, e, to, ids, depth);
      && r.outcome == Done && r.store.rows.Keys == st.rows.Keys
      && (k.entity == e && k.id in r.moved ==> k.id in ids && to in Targets(m, Attr(st.rows[k], m.field)))
      && (k.entity == e && k.id in ids && to in Targets(m, Attr(st.rows[k], m.field)) && GuardsFor(m, to) == [] ==>
            k.id in r.moved)
      && (k.entity != e || k.id !in r.moved ==> r.store.rows[k] == st.rows[k])
    decreases |ids|
  {
    if ids == [] {
    } else {
      EffectFreeOne(s, st, e, ids[0], to, depth);
      var one := SweepOne(s, st, e, to, ids[0], depth);
      PassMovesOrKeeps(s, one.store, e, to, ids[1..], depth, k);
    }
  }

  /** Which rows a sweep into states without effects moves: only rows of the entity at the source of a time transition
      its table allows, past its deadline; and, where that has no guards, all of them. Every other row is left as
      it was. */
  lemma {:induction false} SweepMovesOverdue(s: Schema, st: Store, e: string, timed: seq<Timed>, now: int,
                                             orders: seq<seq<int>>, depth: nat, k: Key)
    requires HasMachine(s, e) && depth > 0 && EffectFree(s[e].machine.value, timed)
    requires SweepOrders(s, st, e, timed, now, orders, depth) && k in st.rows
    ensures var m, row, r := s[e].machine.value, st.rows[k], Sweep(s, st, e, timed, orders, depth);
      && (k.entity == e && k.id in r.moved ==>
            exists t :: t in timed && Holds(row, m.field, t.source) && t.target in Targets(m, t.source)
                        && t.when in row && row[t.when].Int? && row[t.when].i < now)
      && (k.entity == e && (exists t :: t in timed && Holds(row, m.field, t.source) && t.target in Targets(m, t.source)
                                        && t.when in row && row[t.when].Int? && row[t.when].i < now
                                        && GuardsFor(m, t.target) == []) ==>
            k.id in r.moved)
      && (k.entity != e || k.id !in r.moved ==> r.store.rows[k] == row)
    decreases |timed|
  {
    if timed == [] {
    } else {
      var m, row, t := s[e].machine.value, st.rows[k], timed[0];
      assert t in timed && forall x :: x in timed <==> x == t || x in timed[1..];
      var first := SweepIds(s, st, e, t.target, orders[0], depth);
      PassMovesOrKeeps(s, st, e, t.target, orders[0], depth, k);
      assert k.entity == e ==> k == Key(e, k.id);
      assert k.entity == e ==> (k.id in orders[0] <==> Due(m, t, now, row));
      if k.entity != e || k.id !in first.moved {
        SweepMovesOverdue(s, first.store, e, timed[1..], now, orders[1..], depth, k);
      }
    }
  }

  // ---------------------------------------------------------------------------------
  // create
  // ---------------------------------------------------------------------------------

  /** A reference rule: the reference is not given, or names a row that is there, at a status of the rule's list if
      it has one. */
  lemma RefRuleInPlainTerms(st: Store, data: Row, r: RefRule)
    ensures RefRuleHolds(st, data, r) <==>
      (r.field in data && data[r.field] != Null ==>
        && data[r.field].Int? && Key(r.entity, data[r.field].i) in st.rows
        && (r.allowed != [] ==>
              var found := st.rows[Key(r.entity, data[r.field].i)];
              if r.statusField in found then found[r.statusField] in r.allowed else Null in r.allowed))
  {
  }

  /** A row stands in the way of a new one exactly when it is active for the same scope value and the two half-open
      intervals meet. */
  lemma ConflictInPlainTerms(o: Overlap, row: Row, data: Row)
    requires o.scope in data && data[o.scope] != Null
    ensures Conflicts(o, row, data) <==>
      && o.scope in row && row[o.scope] == data[o.scope]
      && (if "status" in row then row["status"] in o.active else Null in o.active)
      && o.start in row && row[o.start].Int? && o.end in row && row[o.end].Int?
      && o.start in data && data[o.start].Int? && o.end in data && data[o.end].Int?
      && row[o.start].i < data[o.end].i && data[o.start].i < row[o.end].i
  {
  }

  /** create() goes ahead exactly when each reference that is given names a row that is there, at a status of the
      rule's list if it has one, and, where there is an overlap rule, no row its query reads is active for the same
      scope value in an interval that meets the new one. */
  lemma CreateAllowedExactly(s: Schema, st: Store, seen: Store, e: string, data: Row)
    requires e in s
    ensures CreateAllowedIn(s, st, seen, e, data) <==>
      && (forall r :: r in s[e].refRules && r.field in data && data[r.field] != Null ==>
            && data[r.field].Int? && Key(r.entity, data[r.field].i) in st.rows
            && (r.allowed != [] ==>
                  var found := st.rows[Key(r.entity, data[r.field].i)];
                  if r.statusField in found then found[r.statusField] in r.allowed else Null in r.allowed))
      && (s[e].overlap.Some? ==>
            var o := s[e].overlap.value;
            forall k :: k in seen.rows && k.entity == e ==>
              var row := seen.rows[k];
              || o.scope !in data || data[o.scope] == Null || o.scope !in row || row[o.scope] != data[o.scope]
              || (if "status" in row then row["status"] !in o.active else Null !in o.active)
              || o.start !in row || !row[o.start].Int? || o.end !in row || !row[o.end].Int?
              || o.start !in data || !data[o.start].Int? || o.end !in data || !data[o.end].Int?
              || row[o.end].i <= data[o.start].i || data[o.end].i <= row[o.start].i)
  {
    forall r | r in s[e].refRules
      ensures RefRuleHolds(st, data, r) <==>
              (r.field in data && data[r.field] != Null ==>
                && data[r.field].Int? && Key(r.entity, data[r.field].i) in st.rows
                && (r.allowed != [] ==>
                      var found := st.rows[Key(r.entity, data[r.field].i)];
                      if r.statusField in found then found[r.statusField] in r.allowed else Null in r.allowed))
    {
      RefRuleInPlainTerms(st, data, r);
    }
    if s[e].overlap.Some? && s[e].overlap.value.scope in data && data[s[e].overlap.value.scope] != Null {
      forall k | k in seen.rows && k.entity == e
        ensures Conflicts(s[e].overlap.value, seen.rows[k], data) ==>
                  !OverlapFree(seen, e, s[e].overlap.value, data)
      {
      }
      forall k | k in seen.rows
      {
        ConflictInPlainTerms(s[e].overlap.value, seen.rows[k], data);
      }
    }
  }

  /** The new row: what was given as given, and for the rest the column's default, the status starting at the
      initial one; its id is the next free one, and no other row changes. */
  lemma CreatedRow(s: Schema, st: Store, e: string, data: Row)
    requires e in s
    ensures var ent, id, after := s[e], NextId(st, e), InsertRow(s, st, e, data);
      && id == (if e in st.next then st.next[e] else 1)
      && after.rows.Keys == st.rows.Keys + {Key(e, id)} && after.next == st.next[e := id + 1]
      && (forall k :: k in st.rows && k != Key(e, id) ==> after.rows[k] == st.rows[k])
      && Holds(after.rows[Key(e, id)], "id", Int(id))
      && (forall f :: f != "id" && f in data && data[f] != Null ==> Holds(after.rows[Key(e, id)], f, data[f]))
      && (forall f :: f != "id" && (f !in data || data[f] == Null) ==>
            if ent.machine.Some? && f == ent.machine.value.field
            then Holds(after.rows[Key(e, id)], f, ent.machine.value.initial)
            else if f in ent.defaults then Holds(after.rows[Key(e, id)], f, ent.defaults[f])
            else Holds(after.rows[Key(e, id)], f, Null))
  {
  }

  /** The values of an effect-created child: the constants given, and for `$field` what the acting row holds */
  lemma ChildOfRow(values: map<string, Source>, acting: Row)
    ensures var child := ChildValues(values, acting);
      && child.Keys == values.Keys
      && (forall f, v :: f in values && values[f] == Const(v) ==> Holds(child, f, v))
      && (forall f, g :: f in values && values[f] == Copy(g) ==>
            if g in acting then Holds(child, f, acting[g]) else Holds(child, f, Null))
  {
  }
}
