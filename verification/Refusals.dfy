/** How far a transition gets before a guarded effect refuses it, and what a sweep then leaves unreported. */
module Refusals {
  import opened Workflow
  import opened Wrappers
  import opened SweepSteps
  import opened Walks

  /** A call of transition() */
  datatype Link = Link(entity: string, id: Value, to: Value)

  /** A state has one effect at most: guarded, found by a reference column, on an entity with a machine. */
  ghost predicate LoneGuarded(s: Schema) {
    forall e, to, eff :: HasMachine(s, e) && eff in EffectsFor(s[e].machine.value, to) ==> LoneCall(s, e, to, eff)
  }

  ghost predicate LoneCall(s: Schema, e: string, to: Value, eff: Effect)
    requires HasMachine(s, e)
  {
    && EffectsFor(s[e].machine.value, to) == [eff]
    && eff.SetRelated? && eff.guarded && eff.ref != s[e].machine.value.field
    && (eff.entity in s ==> s[eff.entity].machine.Some?)
  }

  predicate Known(s: Schema, l: Link) {
    l.entity in s && s[l.entity].machine.Some?
  }

  /** The row is there, its table has the move, and its guards hold. */
  predicate Passes(s: Schema, st: Store, l: Link) {
    Known(s, l) && Has(st, l.entity, l.id) && MayMove(s, st, Key(l.entity, l.id.i), l.to)
  }

  /** The transition the effect of this one calls for, on the row its reference names */
  function NextLink(s: Schema, st: Store, l: Link): Option<Link> {
    if !Known(s, l) || !Has(st, l.entity, l.id) then None
    else
      var effs := EffectsFor(s[l.entity].machine.value, l.to);
      if effs == [] || !effs[0].SetRelated? || effs[0].entity !in s then None
      else
        var rid := Attr(st.rows[Key(l.entity, l.id.i)], effs[0].ref);
        if rid == Null then None else Some(Link(effs[0].entity, rid, effs[0].value))
  }

  /** The status write of one link */
  function After(s: Schema, st: Store, l: Link): Store {
    if Known(s, l) && Has(st, l.entity, l.id)
    then SetField(st, Key(l.entity, l.id.i), s[l.entity].machine.value.field, l.to)
    else st
  }

  function AfterAll(s: Schema, st: Store, links: seq<Link>): Store
    decreases |links|
  {
    if links == [] then st else AfterAll(s, After(s, st, links[0]), links[1..])
  }

  function Moves(links: seq<Link>): seq<Event> {
    if links == [] then []
    else (if links[0].id.Int? then [Move(Key(links[0].entity, links[0].id.i), links[0].to)] else []) + Moves(links[1..])
  }

  /** The references lead from link to link, as the store has them before anything moves. */
  ghost predicate IsChain(s: Schema, st: Store, links: seq<Link>) {
    && links != [] && Known(s, links[0])
    && (forall i: nat :: i < |links| - 1 ==> Leads(s, st, links, i))
  }

  ghost predicate Leads(s: Schema, st: Store, links: seq<Link>, i: nat)
    requires i + 1 < |links|
  {
    NextLink(s, st, links[i]) == Some(links[i + 1])
  }

  /** The first `n` links pass, each in the store the ones before it leave. */
  ghost predicate AllPass(s: Schema, st: Store, links: seq<Link>, n: nat)
    requires n <= |links|
  {
    forall i: nat :: i < n ==> PassesAt(s, st, links, i)
  }

  ghost predicate PassesAt(s: Schema, st: Store, links: seq<Link>, i: nat)
    requires i < |links|
  {
    Passes(s, AfterAll(s, st, links[..i]), links[i])
  }

  /** The chain from `start` whose last link is the first that is missing or blocked */
  ghost predicate StopsAt(s: Schema, st: Store, start: Link, links: seq<Link>) {
    && IsChain(s, st, links) && links[0] == start
    && AllPass(s, st, links, |links| - 1) && !PassesAt(s, st, links, |links| - 1)
  }

  /** The chain from `start` to its end, all of which passes */
  ghost predicate RunsThrough(s: Schema, st: Store, start: Link, links: seq<Link>) {
    && IsChain(s, st, links) && links[0] == start
    && AllPass(s, st, links, |links|) && NextLink(s, st, links[|links| - 1]) == None
  }

  // ---------------------------------------------------------------------------------
  // One link at a time
  // ---------------------------------------------------------------------------------

  /** What a transition does, in terms of the one it calls for */
  lemma OneLink(s: Schema, st: Store, l: Link, depth: nat)
    requires LoneGuarded(s) && Known(s, l) && depth > 0
    ensures NextLink(s, st, l).Some? ==> Known(s, NextLink(s, st, l).value)
    ensures var r, next := Transition(s, st, l.entity, l.id, l.to, depth), NextLink(s, st, l);
      if !Has(st, l.entity, l.id) then r == Result(st, Missing, [])
      else if !Passes(s, st, l) then r == Result(st, Refused, [])
      else
        var k, st1 := Key(l.entity, l.id.i), After(s, st, l);
        if next == None then r == Result(st1, Done, [Move(k, l.to)])
        else r == Then(Move(k, l.to), Transition(s, st1, next.value.entity, next.value.id, next.value.to, depth - 1))
  {
    NextIsKnown(s, st, l);
    NextLinkStays(s, st, l, l);
    if Passes(s, st, l) {
      var k, m := Key(l.entity, l.id.i), s[l.entity].machine.value;
      var st1, effs := After(s, st, l), EffectsFor(m, l.to);
      if effs == [] {
        assert RunEffects(s, st1, k, [], depth - 1) == Result(st1, Done, []);
        assert [Move(k, l.to)] + [] == [Move(k, l.to)];
      } else {
        assert effs[0] in effs;
        assert LoneCall(s, l.entity, l.to, effs[0]);
        LoneEffect(s, st1, k, effs[0], depth - 1);
      }
    }
  }

  /** The nested call after the status write; a missing row is a refusal. */
  function Then(ev: Event, r: Result): Result {
    Result(r.store, if r.outcome == Missing then Refused else r.outcome, [ev] + r.log)
  }

  lemma LoneEffect(s: Schema, st: Store, k: Key, eff: Effect, depth: nat)
    requires k in st.rows && eff.SetRelated? && eff.guarded && (eff.entity in s ==> s[eff.entity].machine.Some?)
    ensures RunEffects(s, st, k, [eff], depth) == RunEffect(s, st, k, eff, depth)
  {
    var first := RunEffect(s, st, k, eff, depth);
    assert [eff][1..] == [];
    assert RunEffects(s, first.store, k, [], depth) == Result(first.store, Done, []);
    assert first.log + [] == first.log;
  }

  /** Statuses are not references: moves leave the chain as it was. */
  lemma NextLinkStays(s: Schema, st: Store, moved: Link, l: Link)
    requires LoneGuarded(s)
    ensures NextLink(s, After(s, st, moved), l) == NextLink(s, st, l)
  {
    if Known(s, l) && Has(st, l.entity, l.id) {
      var effs := EffectsFor(s[l.entity].machine.value, l.to);
      if effs != [] {
        assert effs[0] in effs;
        assert LoneCall(s, l.entity, l.to, effs[0]);
      }
    }
  }

  lemma ChainStays(s: Schema, st: Store, moved: Link, links: seq<Link>)
    requires LoneGuarded(s)
    ensures IsChain(s, After(s, st, moved), links) <==> IsChain(s, st, links)
  {
    forall i: nat | i < |links| - 1
      ensures Leads(s, After(s, st, moved), links, i) <==> Leads(s, st, links, i)
    {
      NextLinkStays(s, st, moved, links[i]);
    }
  }

  lemma ChainTail(s: Schema, st: Store, links: seq<Link>)
    requires LoneGuarded(s) && IsChain(s, st, links) && |links| > 1
    ensures IsChain(s, st, links[1..]) && NextLink(s, st, links[0]) == Some(links[1])
  {
    assert Leads(s, st, links, 0);
    NextIsKnown(s, st, links[0]);
    var rest := links[1..];
    forall i: nat | i < |rest| - 1
      ensures Leads(s, st, rest, i)
    {
      assert Leads(s, st, links, i + 1);
    }
  }

  lemma NextIsKnown(s: Schema, st: Store, l: Link)
    requires LoneGuarded(s)
    ensures NextLink(s, st, l).Some? ==> Known(s, NextLink(s, st, l).value)
  {
    if NextLink(s, st, l).Some? {
      var effs := EffectsFor(s[l.entity].machine.value, l.to);
      assert effs[0] in effs;
      assert LoneCall(s, l.entity, l.to, effs[0]);
    }
  }

  lemma PassesInTail(s: Schema, st: Store, links: seq<Link>, i: nat)
    requires i + 1 < |links|
    ensures PassesAt(s, After(s, st, links[0]), links[1..], i) <==> PassesAt(s, st, links, i + 1)
  {
    assert links[..i + 1][1..] == links[1..][..i] && links[..i + 1][0] == links[0];
  }

  lemma AllPassTail(s: Schema, st: Store, links: seq<Link>, n: nat)
    requires 0 < n <= |links| && links != []
    ensures AllPass(s, st, links, n) <==>
            Passes(s, st, links[0]) && AllPass(s, After(s, st, links[0]), links[1..], n - 1)
  {
    assert links[..0] == [];
    assert PassesAt(s, st, links, 0) <==> Passes(s, st, links[0]);
    forall i: nat | i < n - 1
      ensures PassesAt(s, After(s, st, links[0]), links[1..], i) <==> PassesAt(s, st, links, i + 1)
    {
      PassesInTail(s, st, links, i);
    }
    if Passes(s, st, links[0]) && AllPass(s, After(s, st, links[0]), links[1..], n - 1) {
      forall i: nat | i < n
        ensures PassesAt(s, st, links, i)
      {
        if i > 0 {
          assert PassesAt(s, After(s, st, links[0]), links[1..], i - 1);
        }
      }
    }
  }

  // ---------------------------------------------------------------------------------
  // The whole chain
  // ---------------------------------------------------------------------------------

  /** What the transition comes to: the moves before the last link, or all of them */
  ghost predicate Decided(s: Schema, st: Store, links: seq<Link>, r: Result)
    requires links != []
  {
    var n := |links| - 1;
    && (!PassesAt(s, st, links, n) ==>
          && r.store == AfterAll(s, st, links[..n]) && r.log == Moves(links[..n])
          && r.outcome == if n == 0 && !Has(st, links[0].entity, links[0].id) then Missing else Refused)
    && (PassesAt(s, st, links, n) && NextLink(s, st, links[n]) == None ==>
          r == Result(AfterAll(s, st, links), Done, Moves(links)))
  }

  lemma DecidedStep(s: Schema, st: Store, links: seq<Link>, r: Result)
    requires LoneGuarded(s) && |links| > 1 && Passes(s, st, links[0])
    requires Decided(s, After(s, st, links[0]), links[1..], r)
    ensures Decided(s, st, links, Then(Move(Key(links[0].entity, links[0].id.i), links[0].to), r))
  {
    var n, rest := |links| - 1, links[1..];
    PassesInTail(s, st, links, n - 1);
    NextLinkStays(s, st, links[0], links[n]);
    assert links[..n][0] == links[0] && links[..n][1..] == rest[..n - 1];
  }

  /** A chain that passes up to its last link settles the transition, if the stack has room for it. */
  lemma {:induction false} ChainDecides(s: Schema, st: Store, links: seq<Link>, depth: nat)
    requires LoneGuarded(s) && IsChain(s, st, links) && |links| <= depth && AllPass(s, st, links, |links| - 1)
    ensures Decided(s, st, links, Transition(s, st, links[0].entity, links[0].id, links[0].to, depth))
    decreases |links|
  {
    var n, l := |links| - 1, links[0];
    OneLink(s, st, l, depth);
    if n == 0 {
      assert links[..0] == [] && links[1..] == [];
    } else {
      ChainTail(s, st, links);
      ChainStays(s, st, l, links[1..]);
      AllPassTail(s, st, links, n);
      ChainDecides(s, After(s, st, l), links[1..], depth - 1);
      DecidedStep(s, st, links, Transition(s, After(s, st, l), links[1].entity, links[1].id, links[1].to, depth - 1));
    }
  }

  /** Unless the stack overflows there is such a chain, to a link that stops it or to its end. */
  lemma {:induction false} SomeChain(s: Schema, st: Store, start: Link, depth: nat) returns (links: seq<Link>)
    requires LoneGuarded(s) && Known(s, start)
    requires Transition(s, st, start.entity, start.id, start.to, depth).outcome != TooDeep
    ensures |links| <= depth && (StopsAt(s, st, start, links) || RunsThrough(s, st, start, links))
    decreases depth
  {
    OneLink(s, st, start, depth);
    var next := NextLink(s, st, start);
    if !Passes(s, st, start) || next == None {
      links := [start];
      assert links[..0] == [];
      assert PassesAt(s, st, links, 0) <==> Passes(s, st, start);
    } else {
      var st1 := After(s, st, start);
      var rest := SomeChain(s, st1, next.value, depth - 1);
      links := [start] + rest;
      ChainGrows(s, st, start, rest);
    }
  }

  lemma ChainGrows(s: Schema, st: Store, start: Link, rest: seq<Link>)
    requires LoneGuarded(s) && Passes(s, st, start) && rest != [] && NextLink(s, st, start) == Some(rest[0])
    ensures StopsAt(s, After(s, st, start), rest[0], rest) ==> StopsAt(s, st, start, [start] + rest)
    ensures RunsThrough(s, After(s, st, start), rest[0], rest) ==> RunsThrough(s, st, start, [start] + rest)
  {
    var links := [start] + rest;
    var n := |rest|;
    assert links[1..] == rest && links[0] == start;
    ChainStays(s, st, start, rest);
    if IsChain(s, st, rest) {
      forall i: nat | i < |links| - 1
        ensures Leads(s, st, links, i)
      {
        if i > 0 {
          assert Leads(s, st, rest, i - 1);
        }
      }
    }
    AllPassTail(s, st, links, n);
    AllPassTail(s, st, links, n + 1);
    PassesInTail(s, st, links, n - 1);
    NextLinkStays(s, st, start, rest[n - 1]);
  }

  /** When effects are single and guarded: a transition is refused exactly when the chain of rows its references
      lead to, from effect to effect, has a first link that is missing or blocked; and then exactly the rows
      before that link have moved. */
  lemma RefusedByChain(s: Schema, st: Store, e: string, id: Value, to: Value, depth: nat)
    requires LoneGuarded(s) && HasMachine(s, e) && Has(st, e, id)
    ensures Transition(s, st, e, id, to, depth).outcome == Refused <==> RefusingChain(s, st, Link(e, id, to), depth)
    ensures forall links :: |links| <= depth && StopsAt(s, st, Link(e, id, to), links) ==>
              var moved := links[..|links| - 1];
              Transition(s, st, e, id, to, depth) == Result(AfterAll(s, st, moved), Refused, Moves(moved))
  {
    var start := Link(e, id, to);
    forall links | |links| <= depth && StopsAt(s, st, start, links)
      ensures var moved := links[..|links| - 1];
              Transition(s, st, e, id, to, depth) == Result(AfterAll(s, st, moved), Refused, Moves(moved))
    {
      ChainDecides(s, st, links, depth);
    }
    if Transition(s, st, e, id, to, depth).outcome == Refused {
      var links := SomeChain(s, st, start, depth);
      if RunsThrough(s, st, start, links) {
        ChainDecides(s, st, links, depth);
      }
    }
  }

  ghost predicate RefusingChain(s: Schema, st: Store, start: Link, depth: nat) {
    exists links :: |links| <= depth && StopsAt(s, st, start, links)
  }

  // ---------------------------------------------------------------------------------
  // What a sweep moves and does not report
  // ---------------------------------------------------------------------------------

  lemma {:induction false} MovedAreIds(s: Schema, st: Store, e: string, to: Value, ids: seq<int>, depth: nat)
    requires HasMachine(s, e)
    ensures forall x :: x in SweepIds(s, st, e, to, ids, depth).moved ==> x in ids
    decreases |ids|
  {
    if ids == [] {
    } else {
      MovedAreIds(s, SweepOne(s, st, e, to, ids[0], depth).store, e, to, ids[1..], depth);
    }
  }

  /** The store in which the i-th id of a pass has its turn */
  function Turn(s: Schema, st: Store, e: string, to: Value, ids: seq<int>, i: nat, depth: nat): Store
    requires e in s && s[e].machine.Some? && i <= |ids|
  {
    SweepIds(s, st, e, to, ids[..i], depth).store
  }

  /** An id is reported exactly when its own transition was not refused in its turn. */
  lemma ReportedInTurn(s: Schema, st: Store, e: string, to: Value, ids: seq<int>, i: nat, depth: nat)
    requires HasMachine(s, e) && i < |ids| && SweepIds(s, st, e, to, ids, depth).outcome == Done
    requires forall j, k :: 0 <= j < k < |ids| ==> ids[j] != ids[k]
    ensures ids[i] in SweepIds(s, st, e, to, ids, depth).moved <==>
            Transition(s, Turn(s, st, e, to, ids, i, depth), e, Int(ids[i]), to, depth).outcome != Refused
  {
    var cur := Turn(s, st, e, to, ids, i, depth);
    TurnSplits(s, st, e, to, ids, i, depth);
    MovedAreIds(s, st, e, to, ids[..i], depth);
    MovedAreIds(s, SweepOne(s, cur, e, to, ids[i], depth).store, e, to, ids[i + 1..], depth);
    assert ids[i] !in ids[..i] && ids[i] !in ids[i + 1..];
  }

  lemma TurnSplits(s: Schema, st: Store, e: string, to: Value, ids: seq<int>, i: nat, depth: nat)
    requires HasMachine(s, e) && i < |ids| && SweepIds(s, st, e, to, ids, depth).outcome == Done
    ensures var one := SweepOne(s, Turn(s, st, e, to, ids, i, depth), e, to, ids[i], depth);
            && one.outcome == Done
            && SweepIds(s, st, e, to, ids, depth).moved
               == SweepIds(s, st, e, to, ids[..i], depth).moved + one.moved
                  + SweepIds(s, one.store, e, to, ids[i + 1..], depth).moved
  {
    PrefixDone(s, st, e, to, ids, i, depth);
    PrefixDone(s, st, e, to, ids, i + 1, depth);
    UpToTurn(s, st, e, to, ids, i, depth);
  }

  lemma PrefixDone(s: Schema, st: Store, e: string, to: Value, ids: seq<int>, i: nat, depth: nat)
    requires HasMachine(s, e) && i <= |ids| && SweepIds(s, st, e, to, ids, depth).outcome == Done
    ensures var a := SweepIds(s, st, e, to, ids[..i], depth);
            && a.outcome == Done
            && SweepIds(s, st, e, to, ids, depth).moved == a.moved + SweepIds(s, a.store, e, to, ids[i..], depth).moved
  {
    assert ids[..i] + ids[i..] == ids;
    SweepIdsSplits(s, st, e, to, ids[..i], ids[i..], depth);
  }

  lemma UpToTurn(s: Schema, st: Store, e: string, to: Value, ids: seq<int>, i: nat, depth: nat)
    requires HasMachine(s, e) && i < |ids| && SweepIds(s, st, e, to, ids[..i], depth).outcome == Done
    requires SweepIds(s, st, e, to, ids[..i + 1], depth).outcome == Done
    ensures var a, b := SweepIds(s, st, e, to, ids[..i], depth), SweepIds(s, st, e, to, ids[..i + 1], depth);
            var one := SweepOne(s, a.store, e, to, ids[i], depth);
            one.outcome == Done && b.moved == a.moved + one.moved && b.store == one.store
  {
    SweepPassStep(s, st, e, to, ids, i, depth);
  }

  /** A row is left out of the result exactly when its chain stops in its own turn; in that turn it has moved all
      the same exactly when the chain stops at a later link. */
  lemma UnreportedInTurn(s: Schema, st: Store, e: string, to: Value, ids: seq<int>, i: nat, depth: nat)
    requires LoneGuarded(s) && HasMachine(s, e) && i < |ids| && SweepIds(s, st, e, to, ids, depth).outcome == Done
    requires forall j, k :: 0 <= j < k < |ids| ==> ids[j] != ids[k]
    requires forall id :: id in ids ==> Key(e, id) in st.rows
    ensures var cur, start := Turn(s, st, e, to, ids, i, depth), Link(e, Int(ids[i]), to);
            && (ids[i] !in SweepIds(s, st, e, to, ids, depth).moved <==> RefusingChain(s, cur, start, depth))
            && (ids[i] !in SweepIds(s, st, e, to, ids, depth).moved && Passes(s, cur, start) <==>
                  StopsFurtherOn(s, cur, start, depth))
  {
    var cur, start := Turn(s, st, e, to, ids, i, depth), Link(e, Int(ids[i]), to);
    assert ids[i] in ids;
    ReportedInTurn(s, st, e, to, ids, i, depth);
    RefusedByChain(s, cur, e, Int(ids[i]), to, depth);
    forall links | |links| <= depth && StopsAt(s, cur, start, links)
      ensures |links| >= 2 <==> Passes(s, cur, start)
    {
      StopsLater(s, cur, start, links);
    }
  }

  /** The row passes, and a later link of its chain is missing or blocked. */
  ghost predicate StopsFurtherOn(s: Schema, st: Store, start: Link, depth: nat) {
    exists links :: 2 <= |links| <= depth && StopsAt(s, st, start, links)
  }

  lemma StopsLater(s: Schema, st: Store, start: Link, links: seq<Link>)
    requires StopsAt(s, st, start, links)
    ensures |links| >= 2 <==> Passes(s, st, start)
  {
    assert links[..0] == [];
    assert PassesAt(s, st, links, 0) <==> Passes(s, st, start);
  }

  // ---------------------------------------------------------------------------------
  // All the rows a pass moves, its own and those its effects lead to
  // ---------------------------------------------------------------------------------

  /** The j-th link of the chain passes: those before the one that stops it, or all. */
  ghost predicate PassesOn(s: Schema, st: Store, start: Link, links: seq<Link>, j: nat) {
    || (StopsAt(s, st, start, links) && j < |links| - 1)
    || (RunsThrough(s, st, start, links) && j < |links|)
  }

  /** The row is one that the chain from `start` moves, to `v`. */
  ghost predicate ChainMoves(s: Schema, st: Store, start: Link, depth: nat, k: Key, v: Value) {
    exists links, j: nat ::
      |links| <= depth && PassesOn(s, st, start, links, j) && links[j] == Link(k.entity, Int(k.id), v)
  }

  lemma {:induction false} MovesMembers(links: seq<Link>, k: Key, v: Value)
    ensures Move(k, v) in Moves(links) <==> Link(k.entity, Int(k.id), v) in links
    decreases |links|
  {
    if links == [] {
    } else {
      MovesMembers(links[1..], k, v);
      assert links[0] == Link(k.entity, Int(k.id), v) <==>
             links[0].id.Int? && Move(Key(links[0].entity, links[0].id.i), links[0].to) == Move(k, v);
    }
  }

  /** A transition moves exactly the rows of its chain that pass. */
  lemma TransitionMoves(s: Schema, st: Store, start: Link, depth: nat, k: Key, v: Value)
    requires LoneGuarded(s) && Known(s, start)
    requires Transition(s, st, start.entity, start.id, start.to, depth).outcome != TooDeep
    ensures Move(k, v) in Transition(s, st, start.entity, start.id, start.to, depth).log <==>
            ChainMoves(s, st, start, depth, k, v)
  {
    var l, log := Link(k.entity, Int(k.id), v), Transition(s, st, start.entity, start.id, start.to, depth).log;
    forall links, j: nat | |links| <= depth && PassesOn(s, st, start, links, j) && links[j] == l
      ensures Move(k, v) in log
    {
      PassingLinksMove(s, st, start, links, depth);
      MovesMembers(Passing(s, st, start, links), k, v);
      assert Passing(s, st, start, links)[j] == l;
    }
    if Move(k, v) in log {
      var links := SomeChain(s, st, start, depth);
      PassingLinksMove(s, st, start, links, depth);
      MovesMembers(Passing(s, st, start, links), k, v);
      var j :| 0 <= j < |Passing(s, st, start, links)| && Passing(s, st, start, links)[j] == l;
      assert PassesOn(s, st, start, links, j) && links[j] == l;
    }
  }

  ghost function Passing(s: Schema, st: Store, start: Link, links: seq<Link>): seq<Link> {
    if RunsThrough(s, st, start, links) then links else if links == [] then [] else links[..|links| - 1]
  }

  lemma PassingLinksMove(s: Schema, st: Store, start: Link, links: seq<Link>, depth: nat)
    requires LoneGuarded(s) && Known(s, start) && |links| <= depth
    requires StopsAt(s, st, start, links) || RunsThrough(s, st, start, links)
    ensures Transition(s, st, start.entity, start.id, start.to, depth).log == Moves(Passing(s, st, start, links))
    ensures StopsAt(s, st, start, links) ==> !RunsThrough(s, st, start, links)
  {
    ChainDecides(s, st, links, depth);
    if RunsThrough(s, st, start, links) {
      assert PassesAt(s, st, links, |links| - 1);
    }
  }

  /** What a pass writes is what its turns write. */
  lemma {:induction false} PassLog(s: Schema, st: Store, e: string, to: Value, ids: seq<int>, depth: nat, ev: Event)
    requires HasMachine(s, e) && SweepIds(s, st, e, to, ids, depth).outcome == Done
    ensures ev in SweepIds(s, st, e, to, ids, depth).log <==>
            exists i: nat :: i < |ids| && WrittenInTurn(s, st, e, to, ids, i, depth, ev)
    decreases |ids|
  {
    if ids == [] {
    } else {
      var n := |ids| - 1;
      LastLog(s, st, e, to, ids, depth, ev);
      PassLog(s, st, e, to, ids[..n], depth, ev);
      forall i: nat | i < n
        ensures WrittenInTurn(s, st, e, to, ids, i, depth, ev) <==> WrittenInTurn(s, st, e, to, ids[..n], i, depth, ev)
      {
        SameTurn(s, st, e, to, ids, i, depth, ev);
      }
    }
  }

  lemma LastLog(s: Schema, st: Store, e: string, to: Value, ids: seq<int>, depth: nat, ev: Event)
    requires HasMachine(s, e) && ids != [] && SweepIds(s, st, e, to, ids, depth).outcome == Done
    ensures var n := |ids| - 1;
            && SweepIds(s, st, e, to, ids[..n], depth).outcome == Done
            && (ev in SweepIds(s, st, e, to, ids, depth).log <==>
                  ev in SweepIds(s, st, e, to, ids[..n], depth).log || WrittenInTurn(s, st, e, to, ids, n, depth, ev))
  {
    var n := |ids| - 1;
    var a, r := SweepIds(s, st, e, to, ids[..n], depth), SweepIds(s, st, e, to, ids, depth);
    LastTurn(s, st, e, to, ids, depth);
    OneLog(s, a.store, e, to, ids[n], depth);
    InEither(a.log, SweepOne(s, a.store, e, to, ids[n], depth).log, r.log, ev);
  }

  lemma OneLog(s: Schema, st: Store, e: string, to: Value, id: int, depth: nat)
    requires HasMachine(s, e)
    ensures SweepOne(s, st, e, to, id, depth).log == Transition(s, st, e, Int(id), to, depth).log
  {
  }

  lemma InEither(a: seq<Event>, b: seq<Event>, c: seq<Event>, ev: Event)
    requires c == a + b
    ensures ev in c <==> ev in a || ev in b
  {
  }

  lemma SameTurn(s: Schema, st: Store, e: string, to: Value, ids: seq<int>, i: nat, depth: nat, ev: Event)
    requires HasMachine(s, e) && i < |ids| - 1
    ensures WrittenInTurn(s, st, e, to, ids, i, depth, ev) <==>
            WrittenInTurn(s, st, e, to, ids[..|ids| - 1], i, depth, ev)
  {
    assert ids[..|ids| - 1][..i] == ids[..i];
  }

  ghost predicate WrittenInTurn(s: Schema, st: Store, e: string, to: Value, ids: seq<int>, i: nat, depth: nat,
                                ev: Event)
    requires e in s && s[e].machine.Some? && i < |ids|
  {
    ev in Transition(s, Turn(s, st, e, to, ids, i, depth), e, Int(ids[i]), to, depth).log
  }

  /** In the i-th turn of the pass the row is moved, by its own transition or by an effect of another row's. */
  ghost predicate MovedInTurn(s: Schema, st: Store, e: string, to: Value, ids: seq<int>, i: nat, depth: nat, k: Key,
                              v: Value)
    requires e in s && s[e].machine.Some? && i < |ids|
  {
    ChainMoves(s, Turn(s, st, e, to, ids, i, depth), Link(e, Int(ids[i]), to), depth, k, v)
  }

  ghost predicate MovedInSomeTurn(s: Schema, st: Store, e: string, to: Value, ids: seq<int>, depth: nat, k: Key,
                                  v: Value)
    requires e in s && s[e].machine.Some?
  {
    exists i: nat :: i < |ids| && MovedInTurn(s, st, e, to, ids, i, depth, k, v)
  }

  /** A pass moves exactly the rows that pass in the chains of its turns. */
  lemma PassMoves(s: Schema, st: Store, e: string, to: Value, ids: seq<int>, depth: nat, k: Key, v: Value)
    requires LoneGuarded(s) && HasMachine(s, e) && SweepIds(s, st, e, to, ids, depth).outcome == Done
    ensures Move(k, v) in SweepIds(s, st, e, to, ids, depth).log <==> MovedInSomeTurn(s, st, e, to, ids, depth, k, v)
  {
    PassLog(s, st, e, to, ids, depth, Move(k, v));
    forall i: nat | i < |ids|
      ensures WrittenInTurn(s, st, e, to, ids, i, depth, Move(k, v)) <==> MovedInTurn(s, st, e, to, ids, i, depth, k, v)
    {
      TurnMoves(s, st, e, to, ids, i, depth, k, v);
    }
  }

  lemma TurnMoves(s: Schema, st: Store, e: string, to: Value, ids: seq<int>, i: nat, depth: nat, k: Key, v: Value)
    requires LoneGuarded(s) && HasMachine(s, e) && i < |ids| && SweepIds(s, st, e, to, ids, depth).outcome == Done
    ensures WrittenInTurn(s, st, e, to, ids, i, depth, Move(k, v)) <==> MovedInTurn(s, st, e, to, ids, i, depth, k, v)
  {
    TurnSplits(s, st, e, to, ids, i, depth);
    TransitionMoves(s, Turn(s, st, e, to, ids, i, depth), Link(e, Int(ids[i]), to), depth, k, v);
  }

  ghost predicate Moved(s: Schema, st: Store, e: string, to: Value, ids: seq<int>, depth: nat, k: Key)
    requires e in s && s[e].machine.Some?
  {
    exists v :: Move(k, v) in SweepIds(s, st, e, to, ids, depth).log
  }

  /** The full account of a row the pass was given: it has moved and is not reported exactly when its chain stops
      in its own turn, and the chain of that turn or another's moves it. */
  lemma MovedUnreported(s: Schema, st: Store, e: string, to: Value, ids: seq<int>, i: nat, depth: nat)
    requires LoneGuarded(s) && HasMachine(s, e) && i < |ids| && SweepIds(s, st, e, to, ids, depth).outcome == Done
    requires forall j, k :: 0 <= j < k < |ids| ==> ids[j] != ids[k]
    requires forall id :: id in ids ==> Key(e, id) in st.rows
    ensures var k, r := Key(e, ids[i]), SweepIds(s, st, e, to, ids, depth);
            Moved(s, st, e, to, ids, depth, k) && ids[i] !in r.moved <==>
              && RefusingChain(s, Turn(s, st, e, to, ids, i, depth), Link(e, Int(ids[i]), to), depth)
              && exists v :: MovedInSomeTurn(s, st, e, to, ids, depth, k, v)
  {
    var k := Key(e, ids[i]);
    UnreportedInTurn(s, st, e, to, ids, i, depth);
    forall v
      ensures Move(k, v) in SweepIds(s, st, e, to, ids, depth).log <==>
              MovedInSomeTurn(s, st, e, to, ids, depth, k, v)
    {
      PassMoves(s, st, e, to, ids, depth, k, v);
    }
  }

  /** Effects lead from `e` to entities of `beyond`, and never back. */
  ghost predicate LeadsAway(s: Schema, e: string, beyond: set<string>) {
    && e !in beyond
    && AimsInto(s, e, beyond) && (forall f :: f in beyond ==> AimsInto(s, f, beyond))
  }

  ghost predicate AimsInto(s: Schema, e: string, beyond: set<string>) {
    HasMachine(s, e) ==>
      forall to, eff :: eff in EffectsFor(s[e].machine.value, to) && eff.SetRelated? ==> eff.entity in beyond
  }

  lemma {:induction false} ChainLeadsAway(s: Schema, st: Store, links: seq<Link>, e: string, beyond: set<string>,
                                          j: nat)
    requires LeadsAway(s, e, beyond) && IsChain(s, st, links) && links[0].entity == e && j < |links|
    ensures if j == 0 then links[j].entity == e else links[j].entity in beyond
    decreases j
  {
    if j == 0 {
    } else {
      ChainLeadsAway(s, st, links, e, beyond, j - 1);
      assert Leads(s, st, links, j - 1);
      var l := links[j - 1];
      var eff := EffectsFor(s[l.entity].machine.value, l.to)[0];
      assert eff in EffectsFor(s[l.entity].machine.value, l.to);
    }
  }

  /** When effects never lead back into the swept entity, a row has moved and is not reported exactly when, in its
      own turn, it passes and a later link of its chain is missing or blocked. */
  lemma MovedUnreportedAway(s: Schema, st: Store, e: string, to: Value, ids: seq<int>, i: nat, depth: nat,
                            beyond: set<string>)
    requires LoneGuarded(s) && HasMachine(s, e) && i < |ids| && SweepIds(s, st, e, to, ids, depth).outcome == Done
    requires forall j, k :: 0 <= j < k < |ids| ==> ids[j] != ids[k]
    requires forall id :: id in ids ==> Key(e, id) in st.rows
    requires LeadsAway(s, e, beyond)
    ensures Moved(s, st, e, to, ids, depth, Key(e, ids[i])) && ids[i] !in SweepIds(s, st, e, to, ids, depth).moved <==>
            StopsFurtherOn(s, Turn(s, st, e, to, ids, i, depth), Link(e, Int(ids[i]), to), depth)
  {
    var k, cur, start := Key(e, ids[i]), Turn(s, st, e, to, ids, i, depth), Link(e, Int(ids[i]), to);
    UnreportedInTurn(s, st, e, to, ids, i, depth);
    MovedUnreported(s, st, e, to, ids, i, depth);
    forall j: nat, v | j < |ids| && MovedInTurn(s, st, e, to, ids, j, depth, k, v)
      ensures j == i && Passes(s, cur, start)
    {
      MovedInOwnTurn(s, Turn(s, st, e, to, ids, j, depth), e, to, ids[j], depth, k, v, beyond);
    }
    if links :| 2 <= |links| <= depth && StopsAt(s, cur, start, links) {
      assert PassesOn(s, cur, start, links, 0) && links[0] == Link(k.entity, Int(k.id), to);
      assert ChainMoves(s, cur, start, depth, k, to);
      assert MovedInTurn(s, st, e, to, ids, i, depth, k, to);
      assert MovedInSomeTurn(s, st, e, to, ids, depth, k, to);
    }
  }

  lemma MovedInOwnTurn(s: Schema, st: Store, e: string, to: Value, id: int, depth: nat, k: Key, v: Value,
                       beyond: set<string>)
    requires LeadsAway(s, e, beyond) && k.entity == e && ChainMoves(s, st, Link(e, Int(id), to), depth, k, v)
    ensures k.id == id && Passes(s, st, Link(e, Int(id), to))
  {
    var start := Link(e, Int(id), to);
    var links, j: nat :|
      |links| <= depth && PassesOn(s, st, start, links, j) && links[j] == Link(k.entity, Int(k.id), v);
    ChainLeadsAway(s, st, links, e, beyond, j);
    assert links[..0] == [];
    assert PassesAt(s, st, links, 0) <==> Passes(s, st, start);
  }
}
