/** sorted() on a list of distinct strings: the one ascending list of them. */
module Sorting {
  /** The order of strings, by code point */
  predicate Before(a: string, b: string) {
    b != [] && (a == [] || a[0] < b[0] || (a[0] == b[0] && Before(a[1..], b[1..])))
  }

  /** One string comes before another exactly when it is a proper prefix of it, or has the smaller code point where
      they first differ. */
  lemma {:induction false} BeforeExactly(a: string, b: string)
    ensures Before(a, b) <==>
            exists i :: 0 <= i <= |a| && i < |b| && a[..i] == b[..i] && (i < |a| ==> a[i] < b[i])
    decreases |a|
  {
    if a != [] && b != [] && a[0] == b[0] {
      BeforeExactly(a[1..], b[1..]);
      forall i | 0 <= i < |a| && i + 1 < |b| && a[1..][..i] == b[1..][..i]
        ensures a[..i + 1] == b[..i + 1]
      {
        assert a[..i + 1] == [a[0]] + a[1..][..i] && b[..i + 1] == [b[0]] + b[1..][..i];
      }
      forall i | 0 < i <= |a| && i < |b| && a[..i] == b[..i]
        ensures a[1..][..i - 1] == b[1..][..i - 1]
      {
        assert a[1..][..i - 1] == a[..i][1..];
        assert b[1..][..i - 1] == b[..i][1..];
      }
    } else if b != [] {
      assert a[..0] == b[..0];
    }
  }

  lemma {:induction false} BeforeIsTotal(a: string, b: string)
    ensures a == b || Before(a, b) || Before(b, a)
    decreases |a|
  {
    if a == [] || b == [] || a[0] != b[0] {
    } else {
      BeforeIsTotal(a[1..], b[1..]);
      assert a == [a[0]] + a[1..] && b == [b[0]] + b[1..];
    }
  }

  lemma {:induction false} BeforeIsTransitive(a: string, b: string, c: string)
    requires Before(a, b) && Before(b, c)
    ensures Before(a, c)
    decreases |a|
  {
    if a == [] || a[0] != b[0] || b[0] != c[0] {
    } else {
      BeforeIsTransitive(a[1..], b[1..], c[1..]);
    }
  }

  lemma {:induction false} BeforeIsStrict(a: string)
    ensures !Before(a, a)
    decreases |a|
  {
    if a == [] {
    } else {
      BeforeIsStrict(a[1..]);
    }
  }

  ghost predicate Ascending(s: seq<string>) {
    forall i, j :: 0 <= i < j < |s| ==> Before(s[i], s[j])
  }

  lemma AscendingCons(x: string, s: seq<string>)
    ensures Ascending([x] + s) <==> Ascending(s) && forall y :: y in s ==> Before(x, y)
  {
    var all := [x] + s;
    if Ascending(all) {
      assert forall i :: 0 <= i < |s| ==> all[i + 1] == s[i];
      forall y | y in s
        ensures Before(x, y)
      {
        var i :| 0 <= i < |s| && s[i] == y;
        assert Before(all[0], all[i + 1]) && all[i + 1] == s[i];
      }
    }
    if Ascending(s) && forall y :: y in s ==> Before(x, y) {
      forall i, j | 0 <= i < j < |all|
        ensures Before(all[i], all[j])
      {
        assert all[j] == s[j - 1] && s[j - 1] in s;
        assert i > 0 ==> all[i] == s[i - 1];
      }
    }
  }

  function Insert(s: seq<string>, x: string): seq<string> {
    if s == [] || Before(x, s[0]) then [x] + s else [s[0]] + Insert(s[1..], x)
  }

  function Sorted(s: seq<string>): seq<string> {
    if s == [] then [] else Insert(Sorted(s[1..]), s[0])
  }

  lemma {:induction false} InsertAscends(s: seq<string>, x: string)
    requires Ascending(s) && x !in s
    ensures Ascending(Insert(s, x)) && forall y :: y in Insert(s, x) <==> y in s || y == x
    decreases |s|
  {
    if s == [] {
      AscendingCons(x, s);
    } else {
      var first, rest := s[0], s[1..];
      assert s == [first] + rest;
      AscendingCons(first, rest);
      BeforeIsTotal(x, first);
      if Before(x, first) {
        forall y | y in s
          ensures Before(x, y)
        {
          if y != first {
            BeforeIsTransitive(x, first, y);
          }
        }
        AscendingCons(x, s);
      } else {
        InsertAscends(rest, x);
        AscendingCons(first, Insert(rest, x));
      }
    }
  }

  /** The sorted list has the same names, in ascending order. */
  lemma {:induction false} SortedAscends(s: seq<string>)
    requires forall i, j :: 0 <= i < j < |s| ==> s[i] != s[j]
    ensures Ascending(Sorted(s)) && forall x :: x in Sorted(s) <==> x in s
    decreases |s|
  {
    if s == [] {
    } else {
      SortedAscends(s[1..]);
      InsertAscends(Sorted(s[1..]), s[0]);
    }
  }

  /** There is only one such list. */
  lemma {:induction false} AscendingIsUnique(a: seq<string>, b: seq<string>)
    requires Ascending(a) && Ascending(b) && forall x :: x in a <==> x in b
    ensures a == b
    decreases |a|
  {
    assert a != [] ==> a[0] in b;
    assert b != [] ==> b[0] in a;
    if a == [] {
    } else {
      FirstIsFirst(a, b);
      assert a == [a[0]] + a[1..] && b == [b[0]] + b[1..];
      AscendingCons(a[0], a[1..]);
      AscendingCons(b[0], b[1..]);
      BeforeIsStrict(a[0]);
      assert forall x :: x in a[1..] <==> x in a && x != a[0];
      assert forall x :: x in b[1..] <==> x in b && x != b[0];
      AscendingIsUnique(a[1..], b[1..]);
    }
  }

  lemma FirstIsFirst(a: seq<string>, b: seq<string>)
    requires Ascending(a) && Ascending(b) && a != [] && b != [] && a[0] in b && b[0] in a
    ensures a[0] == b[0]
  {
    if a[0] != b[0] {
      BeforeIsTransitive(a[0], b[0], a[0]);
      BeforeIsStrict(a[0]);
    }
  }
}
