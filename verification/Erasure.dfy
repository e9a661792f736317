/** Deletion under ON DELETE CASCADE foreign keys, and the privacy helpers built on it. */
module Erasure {
  import opened Reachability
  import opened Workflow

  /** The rows a row refers to through its foreign keys */
  function References(s: Schema, k: Key, row: Row): set<Key> {
    if k.entity !in s then {}
    else
      var fks := s[k.entity].foreignKeys;
      set f | f in fks && Attr(row, f).Int? :: Key(fks[f], Attr(row, f).i)
  }

  function RefGraph(s: Schema, st: Store): Graph<Key> {
    map k | k in st.rows :: References(s, k, st.rows[k])
  }

  /** `dead` and every row that transitively references a row of it */
  function Cascade(s: Schema, st: Store, dead: set<Key>): (r: set<Key>)
    requires dead <= st.rows.Keys
    ensures dead <= r <= st.rows.Keys
    decreases |st.rows.Keys - dead|
  {
    var g := RefGraph(s, st);
    var next := set k | k in st.rows && k !in dead && Succ(g, k) * dead != {};
    if next == {} then dead
    else
      assert st.rows.Keys - (dead + next) < st.rows.Keys - dead;
      SmallerSet(st.rows.Keys - (dead + next), st.rows.Keys - dead);
      Cascade(s, st, dead + next)
  }

  function DeleteRows(s: Schema, st: Store, dead: set<Key>): Store
    requires dead <= st.rows.Keys
  {
    st.(rows := st.rows - Cascade(s, st, dead))
  }

  /** Every row that references a row of `c` is in `c`. */
  ghost predicate UpClosed(s: Schema, st: Store, c: set<Key>) {
    forall k :: k in st.rows && References(s, k, st.rows[k]) * c != {} ==> k in c
  }

  lemma {:induction false} CascadeIsLeast(s: Schema, st: Store, dead: set<Key>)
    requires dead <= st.rows.Keys
    ensures UpClosed(s, st, Cascade(s, st, dead))
    ensures forall c :: dead <= c && UpClosed(s, st, c) ==> Cascade(s, st, dead) <= c
    decreases |st.rows.Keys - dead|
  {
    var g := RefGraph(s, st);
    var next := set k | k in st.rows && k !in dead && Succ(g, k) * dead != {};
    if next == {} {
      forall k | k in st.rows && References(s, k, st.rows[k]) * dead != {}
        ensures k in dead
      {
        assert Succ(g, k) * dead != {};
        assert k !in next;
      }
    } else {
      SmallerSet(st.rows.Keys - (dead + next), st.rows.Keys - dead);
      CascadeIsLeast(s, st, dead + next);
      forall c | dead <= c && UpClosed(s, st, c)
        ensures Cascade(s, st, dead) <= c
      {
        forall k | k in next
          ensures k in c
        {
          assert References(s, k, st.rows[k]) * c >= Succ(g, k) * dead;
        }
        assert dead + next <= c;
      }
    }
  }

  /** A chain of foreign keys leads from the row into `dead`. */
  ghost predicate Chained(s: Schema, st: Store, dead: set<Key>, k: Key) {
    exists d :: d in dead && Reaches(RefGraph(s, st), k, d)
  }

  lemma ChainedIsUpClosed(s: Schema, st: Store, dead: set<Key>, x: Key, y: Key)
    requires x in st.rows && y in References(s, x, st.rows[x]) && Chained(s, st, dead, y)
    ensures Chained(s, st, dead, x)
  {
    var d :| d in dead && Reaches(RefGraph(s, st), y, d);
    EdgeThenReaches(RefGraph(s, st), x, y, d);
  }

  /** What a cascade removes: exactly the rows with a chain of foreign keys into `dead`. */
  lemma CascadeIsTransitive(s: Schema, st: Store, dead: set<Key>, k: Key)
    requires dead <= st.rows.Keys
    ensures k in Cascade(s, st, dead) <==> k in st.rows && Chained(s, st, dead, k)
  {
    if k in st.rows && Chained(s, st, dead, k) {
      var d :| d in dead && Reaches(RefGraph(s, st), k, d);
      var p :| PathFromTo(RefGraph(s, st), p, k, d);
      ChainIsRemoved(s, st, dead, p);
    }
    CascadeIsChained(s, st, dead);
  }

  lemma CascadeIsChained(s: Schema, st: Store, dead: set<Key>)
    requires dead <= st.rows.Keys
    ensures forall k :: k in Cascade(s, st, dead) ==> Chained(s, st, dead, k)
  {
    var chained := set x | x in st.rows && Chained(s, st, dead, x);
    forall d | d in dead
      ensures d in chained
    {
      ReachesSelf(RefGraph(s, st), d);
    }
    forall x | x in st.rows && References(s, x, st.rows[x]) * chained != {}
      ensures x in chained
    {
      var y :| y in References(s, x, st.rows[x]) && y in chained;
      ChainedIsUpClosed(s, st, dead, x, y);
    }
    assert UpClosed(s, st, chained);
    CascadeIsLeast(s, st, dead);
  }

  lemma {:induction false} ChainIsRemoved(s: Schema, st: Store, dead: set<Key>, p: seq<Key>)
    requires dead <= st.rows.Keys
    requires IsPath(RefGraph(s, st), p) && p[|p| - 1] in dead
    ensures p[0] in Cascade(s, st, dead)
    decreases |p|
  {
    if |p| == 1 {
    } else {
      PathTail(RefGraph(s, st), p);
      ChainIsRemoved(s, st, dead, p[1..]);
      CascadeIsLeast(s, st, dead);
      assert p[1] in References(s, p[0], st.rows[p[0]]) * Cascade(s, st, dead);
    }
  }

  lemma StagesAreClosed(s: Schema, st: Store, c: set<Key>, mid: Store, d: set<Key>)
    requires UpClosed(s, st, c) && mid == st.(rows := st.rows - c) && UpClosed(s, mid, d)
    ensures UpClosed(s, st, c + d)
  {
    forall k | k in st.rows && References(s, k, st.rows[k]) * (c + d) != {}
      ensures k in c + d
    {
      if k !in c {
        assert References(s, k, st.rows[k]) * c == {};
        assert References(s, k, mid.rows[k]) * d != {};
      }
    }
  }

  lemma ClosedAfterwards(s: Schema, st: Store, c: set<Key>, mid: Store, all: set<Key>)
    requires mid == st.(rows := st.rows - c) && UpClosed(s, st, all)
    ensures UpClosed(s, mid, all)
  {
    forall k | k in mid.rows && References(s, k, mid.rows[k]) * all != {}
      ensures k in all
    {
      assert st.rows[k] == mid.rows[k];
    }
  }

  /** Two deletions one after the other remove what one deletion of both would. */
  lemma CascadeInStages(s: Schema, st: Store, a: set<Key>, b: set<Key>)
    requires a <= st.rows.Keys && b <= st.rows.Keys
    ensures var mid := DeleteRows(s, st, a);
            var rest := b * mid.rows.Keys;
            DeleteRows(s, mid, rest).rows == DeleteRows(s, st, a + b).rows
  {
    var c := Cascade(s, st, a);
    var mid := DeleteRows(s, st, a);
    var rest := b * mid.rows.Keys;
    var d := Cascade(s, mid, rest);
    var all := Cascade(s, st, a + b);
    CascadeIsLeast(s, st, a);
    CascadeIsLeast(s, mid, rest);
    CascadeIsLeast(s, st, a + b);
    StagesAreClosed(s, st, c, mid, d);
    assert a + b <= c + d;
    ClosedAfterwards(s, st, c, mid, all);
    assert rest <= all;
    assert c + d == all;
  }

  // ---------------------------------------------------------------------------------
  // export_user_data and delete_user_data
  // ---------------------------------------------------------------------------------

  predicate OwnedBy(s: Schema, e: string, row: Row, user: int) {
    e in s && s[e].owner.Some? && Attr(row, s[e].owner.value) == Int(user)
  }

  function OwnedKeys(s: Schema, st: Store, e: string, user: int): set<Key> {
    set k | k in st.rows && k.entity == e && OwnedBy(s, e, st.rows[k], user)
  }

  /** The generated OWNED list: every entity with an owner, once */
  ghost predicate IsOwnedList(s: Schema, owned: seq<string>) {
    && (forall e :: e in owned <==> e in s && s[e].owner.Some?)
    && (forall i, j :: 0 <= i < j < |owned| ==> owned[i] != owned[j])
  }

  function ExportRows(s: Schema, st: Store, e: string, user: int): map<Key, Row> {
    map k | k in OwnedKeys(s, st, e, user) :: st.rows[k]
  }

  /** A table with no row of the user has no entry. */
  function Export(s: Schema, st: Store, owned: seq<string>, user: int): map<string, map<Key, Row>> {
    map e | e in owned && ExportRows(s, st, e, user) != map[] :: ExportRows(s, st, e, user)
  }

  /** The user's rows in the given tables */
  function UserKeys(s: Schema, st: Store, owned: seq<string>, user: int): set<Key> {
    set k | k in st.rows && k.entity in owned && OwnedBy(s, k.entity, st.rows[k], user)
  }

  function Erased(s: Schema, st: Store, owned: seq<string>, user: int): Store {
    DeleteRows(s, st, UserKeys(s, st, owned, user))
  }

  /** Erasing one more table, in a store where the earlier tables are done */
  lemma EraseNextTable(s: Schema, st: Store, done: seq<string>, e: string, user: int)
    ensures var mid := Erased(s, st, done, user);
            DeleteRows(s, mid, OwnedKeys(s, mid, e, user)) == Erased(s, st, done + [e], user)
  {
    var a, b := UserKeys(s, st, done, user), OwnedKeys(s, st, e, user);
    var mid := Erased(s, st, done, user);
    assert OwnedKeys(s, mid, e, user) == b * mid.rows.Keys;
    assert UserKeys(s, st, done + [e], user) == a + b;
    CascadeInStages(s, st, a, b);
  }

  lemma EraseNothing(s: Schema, st: Store, user: int)
    ensures Erased(s, st, [], user) == st
  {
    assert UserKeys(s, st, [], user) == {};
    assert UpClosed(s, st, {});
    CascadeIsLeast(s, st, {});
    assert st.rows - {} == st.rows;
  }

  /** Right to erasure: nothing the user owns is left, and the export has nothing to show. */
  lemma ErasureIsComplete(s: Schema, st: Store, owned: seq<string>, user: int)
    requires IsOwnedList(s, owned)
    ensures forall k :: k in Erased(s, st, owned, user).rows ==>
      !OwnedBy(s, k.entity, Erased(s, st, owned, user).rows[k], user)
    ensures Export(s, Erased(s, st, owned, user), owned, user) == map[]
  {
    var after := Erased(s, st, owned, user);
    forall k | k in after.rows
      ensures !OwnedBy(s, k.entity, after.rows[k], user)
    {
      assert k !in UserKeys(s, st, owned, user);
    }
    forall e | e in owned
      ensures ExportRows(s, after, e, user) == map[]
    {
      assert OwnedKeys(s, after, e, user) == {};
    }
  }

  /** No row the other user has in this table transitively references a row of the erased user. */
  ghost predicate TableSpared(s: Schema, st: Store, owned: seq<string>, e: string, user: int, other: int) {
    forall k :: k in OwnedKeys(s, st, e, other) ==> !Chained(s, st, UserKeys(s, st, owned, user), k)
  }

  /** Exactly when erasing one user costs another nothing */
  lemma ErasureSparesOthers(s: Schema, st: Store, owned: seq<string>, user: int, other: int)
    requires IsOwnedList(s, owned) && user != other
    ensures Export(s, Erased(s, st, owned, user), owned, other) == Export(s, st, owned, other) <==>
            forall e :: e in owned ==> TableSpared(s, st, owned, e, user, other)
  {
    var after := Erased(s, st, owned, user);
    ExportByTable(s, after, st, owned, other);
    forall e | e in owned
      ensures ExportRows(s, after, e, other) == ExportRows(s, st, e, other) <==>
              TableSpared(s, st, owned, e, user, other)
    {
      ExportRowsKept(s, st, owned, e, user, other);
    }
  }

  lemma ExportByTable(s: Schema, a: Store, b: Store, owned: seq<string>, user: int)
    ensures Export(s, a, owned, user) == Export(s, b, owned, user) <==>
            forall e :: e in owned ==> ExportRows(s, a, e, user) == ExportRows(s, b, e, user)
  {
    var x, y := Export(s, a, owned, user), Export(s, b, owned, user);
    if x == y {
      forall e | e in owned
        ensures ExportRows(s, a, e, user) == ExportRows(s, b, e, user)
      {
        assert e in x <==> e in y;
      }
    }
    if forall e :: e in owned ==> ExportRows(s, a, e, user) == ExportRows(s, b, e, user) {
      assert x == y;
    }
  }

  lemma ExportRowsKept(s: Schema, st: Store, owned: seq<string>, e: string, user: int, other: int)
    ensures ExportRows(s, Erased(s, st, owned, user), e, other) == ExportRows(s, st, e, other) <==>
            TableSpared(s, st, owned, e, user, other)
  {
    var after := Erased(s, st, owned, user);
    var mine := UserKeys(s, st, owned, user);
    forall k | k in OwnedKeys(s, st, e, other)
      ensures k in after.rows <==> !Chained(s, st, mine, k)
    {
      CascadeIsTransitive(s, st, mine, k);
    }
    var x, y := ExportRows(s, after, e, other), ExportRows(s, st, e, other);
    if x == y {
      forall k | k in OwnedKeys(s, st, e, other)
        ensures !Chained(s, st, mine, k)
      {
        assert k in y;
      }
    }
    if TableSpared(s, st, owned, e, user, other) {
      assert OwnedKeys(s, after, e, other) == OwnedKeys(s, st, e, other);
      assert x == y;
    }
  }

  // ---------------------------------------------------------------------------------
  // In terms of the columns
  // ---------------------------------------------------------------------------------

  /** A row refers to the row of the entity a foreign key is for whose id the column holds. */
  lemma ReferencesExactly(s: Schema, k: Key, row: Row, target: Key)
    ensures target in References(s, k, row) <==>
            k.entity in s && exists f :: f in s[k.entity].foreignKeys && f in row && row[f] == Int(target.id)
                                         && s[k.entity].foreignKeys[f] == target.entity
  {
  }

  /** The export has, for each owned table, exactly the rows whose owner column holds the user, as they are; a table
      without any has no entry. */
  lemma ExportExactly(s: Schema, st: Store, owned: seq<string>, user: int, e: string, k: Key)
    requires IsOwnedList(s, owned) && e in s && s[e].owner.Some?
    ensures forall x :: x in Export(s, st, owned, user) ==> x in s && s[x].owner.Some?
    ensures var out, o := Export(s, st, owned, user), s[e].owner.value;
      && (e in out && k in out[e] <==> k in st.rows && k.entity == e && o in st.rows[k] && st.rows[k][o] == Int(user))
      && (e in out && k in out[e] ==> out[e][k] == st.rows[k])
      && (e in out ==> exists x :: x in st.rows && x.entity == e && o in st.rows[x] && st.rows[x][o] == Int(user))
  {
    var rows := ExportRows(s, st, e, user);
    assert e in owned;
    if rows != map[] {
      var x :| x in rows;
    } else {
      assert k !in rows;
    }
  }

  /** A row survives erasure exactly when no chain of foreign keys leads from it to a row whose owner column holds the
      user; and then it is as it was. */
  lemma ErasureExactly(s: Schema, st: Store, owned: seq<string>, user: int, k: Key)
    requires IsOwnedList(s, owned)
    ensures var after := Erased(s, st, owned, user);
      && (k in after.rows <==>
            && k in st.rows
            && forall d :: d in st.rows && d.entity in s && s[d.entity].owner.Some? ==>
                 var o := s[d.entity].owner.value;
                 o in st.rows[d] && st.rows[d][o] == Int(user) ==> !Reaches(RefGraph(s, st), k, d))
      && (k in after.rows ==> after.rows[k] == st.rows[k])
      && after.next == st.next
  {
    var mine := UserKeys(s, st, owned, user);
    CascadeIsTransitive(s, st, mine, k);
    forall d | d in st.rows && d.entity in s && s[d.entity].owner.Some?
      ensures d in mine <==>
              s[d.entity].owner.value in st.rows[d] && st.rows[d][s[d.entity].owner.value] == Int(user)
    {
    }
  }

  /** Another user's rows all survive exactly when none of them has such a chain. */
  lemma OthersSurviveExactly(s: Schema, st: Store, owned: seq<string>, user: int, other: int)
    requires IsOwnedList(s, owned)
    ensures
      (forall k :: k in st.rows && k.entity in s && s[k.entity].owner.Some? ==>
         var o := s[k.entity].owner.value;
         o in st.rows[k] && st.rows[k][o] == Int(other) ==> k in Erased(s, st, owned, user).rows) <==>
      (forall k, d :: k in st.rows && d in st.rows && k.entity in s && s[k.entity].owner.Some?
                      && d.entity in s && s[d.entity].owner.Some? && Reaches(RefGraph(s, st), k, d) ==>
         var o, p := s[k.entity].owner.value, s[d.entity].owner.value;
         !(o in st.rows[k] && st.rows[k][o] == Int(other) && p in st.rows[d] && st.rows[d][p] == Int(user)))
  {
    forall k | k in st.rows
      ensures k in Erased(s, st, owned, user).rows <==>
              forall d :: d in st.rows && d.entity in s && s[d.entity].owner.Some? ==>
                var o := s[d.entity].owner.value;
                o in st.rows[d] && st.rows[d][o] == Int(user) ==> !Reaches(RefGraph(s, st), k, d)
    {
      ErasureExactly(s, st, owned, user, k);
    }
  }
}
