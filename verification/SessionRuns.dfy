/** The runs of Walks are runs of the emitted code. */
module SessionRuns {
  import opened Workflow
  import opened Services
  import opened Erasure
  import opened Walks
  import opened Flushing

  /** One call on a session does to what it works on, and to what its queries read, what Exec says of it. A sweep is
      the one with the orders its queries happened to return. */
  method Perform(session: Session, c: Call, now: int) returns (ghost done: Call)
    requires c.DoCreate? ==> c.e in session.schema
    requires c.DoTransition? || c.DoSweep? ==> c.e in session.schema && session.schema[c.e].machine.Some?
    requires c.DoErase? ==> IsOwnedList(session.schema, c.owned)
    requires !c.Commit? && !c.Drop?
    modifies session
    ensures !c.DoSweep? ==> done == c
    ensures c.DoSweep? ==>
      && done.DoSweep? && done.e == c.e && done.depth == c.depth
      && QueryOrders(session.schema, session.autoflush, old(session.flushed), old(session.working), c.e,
                     session.schema[c.e].machine.value.timed, now, done.orders, c.depth)
    ensures Callable(session.schema, done)
    ensures forall committed ::
              var after := Exec(session.schema,
                                Db(session.autoflush, old(session.working), old(session.flushed), committed), done);
              && session.working == after.working && session.Reads() == Walks.Reads(after)
              && after.committed == committed
  {
    done := c;
    match c
    case DoCreate(e, data) =>
      var id := session.Create(e, data);
    case DoUpdate(k, data) =>
      var found := session.Update(k.entity, k.id, data);
      assert k == Key(k.entity, k.id);
    case DoTransition(e, id, to, depth) =>
      var outcome := session.Transition(e, id, to, depth);
    case DoSweep(e, _, depth) =>
      var outcome, moved;
      ghost var orders;
      outcome, moved, orders := session.Sweep(e, now, depth);
      done := DoSweep(e, orders, depth);
    case DoDelete(k) =>
      var found := session.Delete(k.entity, k.id);
      assert k == Key(k.entity, k.id);
    case DoErase(owned, user) =>
      var counts := session.DeleteUserData(owned, user);
  }
}
