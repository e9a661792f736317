/** The generated owner-scoped HTTP handlers: one session per request, committed at the end or dropped. */
module Handlers {
  import opened Workflow
  import opened Wrappers
  import opened Erasure
  import opened Services
  import opened Sweeping
  import opened Walks
  import opened PlainTerms

  datatype Request =
    | Post(e: string, payload: Row)
    | Put(e: string, id: int, payload: Row)
    | Delete(e: string, id: int)
    | PostTransition(e: string, id: int, to: Value)

  datatype Reply = Success | NotFound | Conflict | Unprocessable | ServerError

  datatype Response = Response(reply: Reply, committed: Store)

  /** model_dump(exclude_none=True), with the owner forced to the caller */
  function CreateData(owner: string, payload: Row, user: int): Row {
    (map f | f in payload && payload[f] != Null :: payload[f])[owner := Int(user)]
  }

  /** A missing, empty or zero target state */
  predicate Falsy(v: Value) {
    v == Null || v == Int(0) || v == Str("")
  }

  ghost predicate OwnedEntity(s: Schema, e: string) {
    e in s && s[e].owner.Some?
  }

  /** The route exists: the entity is owner-scoped, and has a state machine for transitions. A payload
      has the fields of the Create or Update schema, which have no id. */
  ghost predicate Routed(s: Schema, r: Request) {
    && OwnedEntity(s, r.e)
    && (r.PostTransition? ==> s[r.e].machine.Some?)
    && (r.Post? || r.Put? ==> "id" !in r.payload)
  }

  /** What the database holds after the request, and what the client is told */
  function Handle(s: Schema, st: Store, r: Request, user: int, depth: nat): Response
    requires r.e in s && s[r.e].owner.Some? && (r.PostTransition? ==> s[r.e].machine.Some?)
  {
    var owner := s[r.e].owner.value;
    if r.Post? then
      var data := CreateData(owner, r.payload, user);
      if CreateAllowed(s, st, r.e, data) then Response(Success, InsertRow(s, st, r.e, data)) else Response(Conflict, st)
    else if r.PostTransition? && Falsy(r.to) then Response(Unprocessable, st)
    else
      var k := Key(r.e, r.id);
      if k !in st.rows || !OwnedBy(s, r.e, st.rows[k], user) then Response(NotFound, st)
      else if r.Put? then Response(Success, Updated(st, k, r.payload - {owner}))
      else if r.Delete? then Response(Success, DeleteRows(s, st, {k}))
      else
        var t := Transition(s, st, r.e, Int(r.id), r.to, depth);
        match t.outcome
        case Done => Response(Success, t.store)
        case Missing => Response(Success, t.store)
        case Refused => Response(Conflict, st)
        case _ => Response(ServerError, st)
  }

  class Api {
    const schema: Schema
    var committed: Store

    constructor (schema: Schema)
      ensures this.schema == schema && committed == EMPTY
    {
      this.schema := schema;
      committed := EMPTY;
    }

    /** Whatever the reply is, other than success, the database is as it was. */
    method Serve(r: Request, user: int, depth: nat) returns (reply: Reply)
      requires Routed(schema, r)
      modifies this`committed
      ensures var h := Handle(schema, old(committed), r, user, depth);
              reply == h.reply && committed == h.committed
      ensures reply != Success ==> committed == old(committed)
    {
      var db := new Session(schema, committed, false);
      var owner := schema[r.e].owner.value;
      match r {
      case Post(e, payload) =>
        var id := db.Create(e, CreateData(owner, payload, user));
        if id == None {
          return Conflict;
        }
        committed := db.working;
      case Put(e, id, payload) =>
        if !Visible(db.working, e, id, user) {
          return NotFound;
        }
        var _ := db.Update(e, id, payload - {owner});
        committed := db.working;
      case Delete(e, id) =>
        if !Visible(db.working, e, id, user) {
          return NotFound;
        }
        var _ := db.Delete(e, id);
        committed := db.working;
      case PostTransition(e, id, to) =>
        if Falsy(to) {
          return Unprocessable;
        }
        if !Visible(db.working, e, id, user) {
          return NotFound;
        }
        var outcome := db.Transition(e, Int(id), to, depth);
        if outcome == Refused {
          return Conflict;
        } else if outcome == NoTransition || outcome == TooDeep {
          return ServerError;
        }
        committed := db.working;
      }
      reply := Success;
    }

    /** `obj and obj.<owner> == uid` */
    predicate Visible(st: Store, e: string, id: int, user: int) {
      Key(e, id) in st.rows && OwnedBy(schema, e, st.rows[Key(e, id)], user)
    }
  }

  // ---------------------------------------------------------------------------------
  // Isolation
  // ---------------------------------------------------------------------------------

  /** No effects on owned entities, and the owner column is neither the id nor the status. */
  ghost predicate Isolating(s: Schema) {
    forall e :: OwnedEntity(s, e) ==>
      && s[e].owner.value != "id"
      && (s[e].machine.Some? ==>
            s[e].machine.value.field != s[e].owner.value
            && forall to :: EffectsFor(s[e].machine.value, to) == [])
  }

  /** `after` differs from `st` in rows of this user only: rows of the user may have changed, but are still
      the user's, and every new row is the user's. */
  ghost predicate OnlyTouches(s: Schema, st: Store, after: Store, user: int) {
    && (forall k :: k in st.rows ==> k in after.rows)
    && (forall k :: k in after.rows ==>
          if k in st.rows && after.rows[k] == st.rows[k] then true
          else OwnedBy(s, k.entity, after.rows[k], user) && (k in st.rows ==> OwnedBy(s, k.entity, st.rows[k], user)))
  }

  lemma CreateTouchesOwnRows(s: Schema, st: Store, e: string, payload: Row, user: int)
    requires Isolating(s) && OwnedEntity(s, e) && IdsFresh(st)
    ensures var after := InsertRow(s, st, e, CreateData(s[e].owner.value, payload, user));
            OnlyTouches(s, st, after, user) && IdsFresh(after)
  {
  }

  lemma WriteTouchesOwnRow(s: Schema, st: Store, k: Key, row: Row, user: int)
    requires k in st.rows && OwnedBy(s, k.entity, st.rows[k], user) && OwnedBy(s, k.entity, row, user) && IdsFresh(st)
    ensures var after := st.(rows := st.rows[k := row]); OnlyTouches(s, st, after, user) && IdsFresh(after)
  {
  }

  lemma RequestTouchesOwnRows(s: Schema, st: Store, r: Request, user: int, depth: nat)
    requires Isolating(s) && Routed(s, r) && !r.Delete? && IdsFresh(st)
    ensures var after := Handle(s, st, r, user, depth).committed;
            OnlyTouches(s, st, after, user) && IdsFresh(after)
  {
    if r.Post? {
      CreateTouchesOwnRows(s, st, r.e, r.payload, user);
    } else if Key(r.e, r.id) in st.rows && OwnedBy(s, r.e, st.rows[Key(r.e, r.id)], user) {
      var k, owner := Key(r.e, r.id), s[r.e].owner.value;
      if r.Put? {
        WriteTouchesOwnRow(s, st, k, st.rows[k] + (r.payload - {owner}), user);
      } else if depth > 0 {
        EffectFreeTransition(s, st, r.e, r.id, r.to, depth);
        WriteTouchesOwnRow(s, st, k, st.rows[k][s[r.e].machine.value.field := r.to], user);
      }
    }
  }

  datatype Visit = Visit(request: Request, user: int, depth: nat)

  ghost predicate AllRouted(s: Schema, visits: seq<Visit>) {
    forall v :: v in visits ==> Routed(s, v.request)
  }

  ghost predicate Absent(visits: seq<Visit>, user: int) {
    forall v :: v in visits ==> v.user != user
  }

  ghost function HandleAll(s: Schema, st: Store, visits: seq<Visit>): Store
    requires AllRouted(s, visits)
    decreases |visits|
  {
    if visits == [] then st
    else HandleAll(s, Handle(s, st, visits[0].request, visits[0].user, visits[0].depth).committed, visits[1..])
  }

  /** No row is gone, and none has changed hands. */
  ghost predicate SameHands(s: Schema, st: Store, end: Store) {
    forall k :: k in st.rows ==>
      k in end.rows
      && (OwnedEntity(s, k.entity) ==>
            Attr(end.rows[k], s[k.entity].owner.value) == Attr(st.rows[k], s[k.entity].owner.value))
  }

  /** The user has no row but the ones there were, as they were. */
  ghost predicate Spared(s: Schema, st: Store, end: Store, user: int) {
    forall k :: k in end.rows && OwnedBy(s, k.entity, end.rows[k], user) ==> k in st.rows && end.rows[k] == st.rows[k]
  }

  lemma OthersTouch(s: Schema, st: Store, mid: Store, end: Store, other: int, user: int)
    requires OnlyTouches(s, st, mid, other) && other != user && Spared(s, mid, end, user)
    ensures Spared(s, st, end, user)
  {
  }

  lemma TouchesKeepHands(s: Schema, st: Store, mid: Store, end: Store, user: int)
    requires OnlyTouches(s, st, mid, user) && SameHands(s, mid, end)
    ensures SameHands(s, st, end)
  {
  }

  /** Over any run of create, update and transition requests by any users: no row disappears, no row changes
      hands, and a user who made no request has exactly the rows, with exactly the contents, as before. */
  lemma {:induction false} OwnersAreIsolated(s: Schema, st: Store, visits: seq<Visit>)
    requires Isolating(s) && AllRouted(s, visits) && IdsFresh(st)
    requires forall v :: v in visits ==> !v.request.Delete?
    ensures var end := HandleAll(s, st, visits);
            SameHands(s, st, end) && forall user :: Absent(visits, user) ==> Spared(s, st, end, user)
    decreases |visits|
  {
    if visits == [] {
    } else {
      var v := visits[0];
      var mid, end := Handle(s, st, v.request, v.user, v.depth).committed, HandleAll(s, st, visits);
      RequestTouchesOwnRows(s, st, v.request, v.user, v.depth);
      OwnersAreIsolated(s, mid, visits[1..]);
      TouchesKeepHands(s, st, mid, end, v.user);
      forall user | Absent(visits, user)
        ensures Spared(s, st, end, user)
      {
        assert v in visits && Absent(visits[1..], user);
        OthersTouch(s, st, mid, end, v.user, user);
      }
    }
  }

  /** A delete takes the row and, through the cascades, exactly the rows chained to it, whoever owns them. */
  lemma DeleteTakesTheChain(s: Schema, st: Store, e: string, id: int, user: int, k: Key)
    requires OwnedEntity(s, e) && Key(e, id) in st.rows && OwnedBy(s, e, st.rows[Key(e, id)], user)
    ensures var after := Handle(s, st, Delete(e, id), user, 0).committed;
      && (k in after.rows <==> k in st.rows && !Chained(s, st, {Key(e, id)}, k))
      && (k in after.rows ==> after.rows[k] == st.rows[k])
  {
    CascadeIsTransitive(s, st, {Key(e, id)}, k);
  }

  // ---------------------------------------------------------------------------------
  // What each request does, in terms of rows and replies
  // ---------------------------------------------------------------------------------

  /** POST: the new row has every value the client gave, but is owned by the caller whatever the client says; a
      broken rule is a conflict. */
  lemma PostExactly(s: Schema, st: Store, e: string, payload: Row, user: int, depth: nat)
    requires OwnedEntity(s, e) && "id" !in payload && s[e].owner.value != "id"
    ensures var h := Handle(s, st, Post(e, payload), user, depth);
            var id, o := NextId(st, e), s[e].owner.value;
      && (h.reply == Success || (h.reply == Conflict && h.committed == st))
      && (h.reply == Success ==>
            && h.committed.rows.Keys == st.rows.Keys + {Key(e, id)}
            && (forall k :: k in st.rows && k != Key(e, id) ==> h.committed.rows[k] == st.rows[k])
            && o in h.committed.rows[Key(e, id)] && h.committed.rows[Key(e, id)][o] == Int(user)
            && (forall f :: f in payload && payload[f] != Null && f != o ==>
                  f in h.committed.rows[Key(e, id)] && h.committed.rows[Key(e, id)][f] == payload[f]))
      && (s[e].refRules == [] && s[e].overlap == None ==> h.reply == Success)
  {
  }

  /** PUT, DELETE and POST .../transition find only a row whose owner column holds the caller. */
  lemma OthersAreNotFound(s: Schema, st: Store, r: Request, user: int, depth: nat)
    requires OwnedEntity(s, r.e) && !r.Post? && (r.PostTransition? ==> s[r.e].machine.Some?)
    ensures var h, k, o := Handle(s, st, r, user, depth), Key(r.e, r.id), s[r.e].owner.value;
      && (h.reply == Unprocessable <==> r.PostTransition? && r.to in {Null, Int(0), Str("")})
      && (h.reply == NotFound <==>
            h.reply != Unprocessable && !(k in st.rows && o in st.rows[k] && st.rows[k][o] == Int(user)))
      && (h.reply == NotFound || h.reply == Unprocessable ==> h.committed == st)
  {
  }

  /** PUT: every value given is set, except that the owner stays; nothing else changes. */
  lemma PutExactly(s: Schema, st: Store, e: string, id: int, payload: Row, user: int, depth: nat)
    requires OwnedEntity(s, e)
    ensures var h, k, o := Handle(s, st, Put(e, id, payload), user, depth), Key(e, id), s[e].owner.value;
      h.reply != NotFound ==>
        && h.reply == Success && h.committed.rows.Keys == st.rows.Keys && k in st.rows
        && (forall x :: x in st.rows && x != k ==> h.committed.rows[x] == st.rows[x])
        && h.committed.rows[k].Keys == st.rows[k].Keys + (payload.Keys - {o})
        && (forall f :: f in payload && f != o ==> h.committed.rows[k][f] == payload[f])
        && (forall f :: f in st.rows[k] && (f !in payload || f == o) ==> h.committed.rows[k][f] == st.rows[k][f])
  {
  }

  /** POST .../transition on a row of the caller: what the transition wrote is committed if it went through, else a
      refusal is a conflict and any other error a server error, with nothing committed. */
  lemma TransitionReplies(s: Schema, st: Store, e: string, id: int, to: Value, user: int, depth: nat)
    requires OwnedEntity(s, e) && s[e].machine.Some?
    ensures var h, t := Handle(s, st, PostTransition(e, id, to), user, depth), Transition(s, st, e, Int(id), to, depth);
      h.reply != NotFound && h.reply != Unprocessable ==>
        && (h.reply == Success <==> t.outcome == Done)
        && (h.reply == Conflict <==> t.outcome == Refused)
        && (h.reply == ServerError <==> t.outcome == NoTransition || t.outcome == TooDeep)
        && h.committed == if t.outcome == Done then t.store else st
  {
    if Key(e, id) in st.rows {
      FoundIsNotMissing(s, st, e, id, to, depth);
    }
  }
}
