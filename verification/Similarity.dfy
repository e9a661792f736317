/** Semantic recall (scrapyard/agents/conversation_state.py) over exact reals: cosine similarity and ranking. */
module Similarity {

  type Vector = seq<real>

  // ---------------------------------------------------------------------------------
  // Products
  // ---------------------------------------------------------------------------------

  function Mul(x: real, y: real): real {
    x * y
  }

  lemma MulSign(x: real, y: real)
    requires x >= 0.0 && y >= 0.0
    ensures Mul(x, y) >= 0.0 && (x > 0.0 && y > 0.0 ==> Mul(x, y) > 0.0)
  {
  }

  lemma MulNegated(x: real, y: real)
    ensures Mul(-x, -y) == Mul(x, y) && Mul(x, -y) == -Mul(x, y)
  {
  }

  lemma MulSquare(x: real)
    ensures Mul(x, x) >= 0.0 && (Mul(x, x) == 0.0 <==> x == 0.0)
  {
    if x >= 0.0 {
      MulSign(x, x);
    } else {
      MulSign(-x, -x);
      MulNegated(x, x);
    }
  }

  lemma MulNonZero(x: real, y: real)
    requires x != 0.0 && y != 0.0
    ensures Mul(x, y) != 0.0
  {
  }

  lemma MulZero(x: real)
    ensures Mul(0.0, x) == 0.0 && Mul(x, 0.0) == 0.0
  {
  }

  lemma MulSums(a: real, b: real, c: real, d: real)
    ensures Mul(a + b, c + d) == Mul(a, c) + Mul(a, d) + Mul(b, c) + Mul(b, d)
  {
  }

  lemma MulCommutes(x: real, y: real)
    ensures Mul(x, y) == Mul(y, x)
  {
  }

  lemma MulRegroups(a: real, b: real, c: real, d: real)
    ensures Mul(Mul(a, b), Mul(c, d)) == Mul(Mul(a, c), Mul(b, d)) && Mul(Mul(a, b), c) == Mul(a, Mul(b, c))
  {
  }

  // ---------------------------------------------------------------------------------
  // Dot product, norm, cosine
  // ---------------------------------------------------------------------------------

  /** sum(x * y for x, y in zip(a, b)), for vectors of one length */
  function Dot(a: Vector, b: Vector): real
    requires |a| == |b|
  {
    if a == [] then 0.0 else Mul(a[0], b[0]) + Dot(a[1..], b[1..])
  }

  /** An exact square root of everything that has one */
  ghost predicate IsRoot(sqrt: real -> real) {
    forall x :: x >= 0.0 ==> sqrt(x) >= 0.0 && Mul(sqrt(x), sqrt(x)) == x
  }

  /** _cosine_similarity() */
  function Cosine(sqrt: real -> real, a: Vector, b: Vector): real {
    if |a| != |b| then 0.0
    else
      var na, nb := sqrt(Dot(a, a)), sqrt(Dot(b, b));
      if na == 0.0 || nb == 0.0 then 0.0
      else
        MulNonZero(na, nb);
        Dot(a, b) / Mul(na, nb)
  }

  lemma {:induction false} DotSymmetric(a: Vector, b: Vector)
    requires |a| == |b|
    ensures Dot(a, b) == Dot(b, a)
    decreases |a|
  {
    if a == [] {
    } else {
      MulCommutes(a[0], b[0]);
      DotSymmetric(a[1..], b[1..]);
    }
  }

  /** The squared norm is zero for the zero vectors only. */
  lemma {:induction false} SelfDotSign(a: Vector)
    ensures Dot(a, a) >= 0.0
    ensures Dot(a, a) == 0.0 <==> forall i :: 0 <= i < |a| ==> a[i] == 0.0
    decreases |a|
  {
    if a == [] {
    } else {
      SelfDotSign(a[1..]);
      MulSquare(a[0]);
      assert forall i :: 0 < i < |a| ==> a[i] == a[1..][i - 1];
    }
  }

  // ---------------------------------------------------------------------------------
  // Cauchy-Schwarz
  // ---------------------------------------------------------------------------------

  /** The quadratic form p*y*y - 2*d*x*y + q*x*x is never negative. */
  lemma CrossTerm(p: real, q: real, d: real, x: real, y: real)
    requires p >= 0.0 && q >= 0.0 && Mul(d, d) <= Mul(p, q)
    ensures 2.0 * Mul(d, Mul(x, y)) <= Mul(p, Mul(y, y)) + Mul(Mul(x, x), q)
  {
    MulSquare(x);
    if p == 0.0 {
      MulZero(q);
      MulSquare(d);
      MulZero(Mul(x, y));
      MulZero(Mul(y, y));
      MulSign(Mul(x, x), q);
    } else {
      var gap := Mul(p, Mul(y, y)) + Mul(Mul(x, x), q) - 2.0 * Mul(d, Mul(x, y));
      GapTimes(p, q, d, x, y);
      MulSquare(Mul(p, y) - Mul(d, x));
      MulSign(Mul(p, q) - Mul(d, d), Mul(x, x));
      if gap < 0.0 {
        MulSign(p, -gap);
        MulNegated(p, gap);
      }
    }
  }

  /** p times the form is a square and a non-negative rest. */
  lemma GapTimes(p: real, q: real, d: real, x: real, y: real)
    ensures Mul(p, Mul(p, Mul(y, y)) + Mul(Mul(x, x), q) - 2.0 * Mul(d, Mul(x, y)))
            == Mul(Mul(p, y) - Mul(d, x), Mul(p, y) - Mul(d, x)) + Mul(Mul(p, q) - Mul(d, d), Mul(x, x))
  {
    var py, dx, xx, yy, m := Mul(p, y), Mul(d, x), Mul(x, x), Mul(y, y), Mul(x, y);
    MulDifference(py, dx);
    MulRegroups(p, y, p, y);
    MulRegroups(p, p, yy, 0.0);
    MulRegroups(p, y, d, x);
    MulRegroups(p, d, m, 0.0);
    MulCommutes(y, x);
    MulRegroups(d, x, d, x);
    MulMinus(Mul(p, q), Mul(d, d), xx);
    MulRegroups(p, q, xx, 0.0);
    MulCommutes(q, xx);
    MulForm(p, Mul(p, yy), Mul(xx, q), Mul(d, m));
  }

  lemma MulDifference(u: real, v: real)
    ensures Mul(u - v, u - v) == Mul(u, u) - 2.0 * Mul(u, v) + Mul(v, v)
  {
  }

  lemma MulMinus(u: real, v: real, w: real)
    ensures Mul(u - v, w) == Mul(u, w) - Mul(v, w)
  {
  }

  lemma MulForm(p: real, a: real, b: real, c: real)
    ensures Mul(p, a + b - 2.0 * c) == Mul(p, a) + Mul(p, b) - 2.0 * Mul(p, c)
  {
  }

  /** From d*d <= p*q to the same with one more coordinate, x and y, in each vector */
  lemma OneMoreCoordinate(p: real, q: real, d: real, x: real, y: real)
    requires p >= 0.0 && q >= 0.0 && Mul(d, d) <= Mul(p, q)
    ensures Mul(Mul(x, y) + d, Mul(x, y) + d) <= Mul(Mul(x, x) + p, Mul(y, y) + q)
  {
    CrossTerm(p, q, d, x, y);
    MulSums(Mul(x, y), d, Mul(x, y), d);
    MulSums(Mul(x, x), p, Mul(y, y), q);
    MulRegroups(x, x, y, y);
    MulCommutes(Mul(x, y), d);
  }

  lemma {:induction false} CauchySchwarz(a: Vector, b: Vector)
    requires |a| == |b|
    ensures Mul(Dot(a, b), Dot(a, b)) <= Mul(Dot(a, a), Dot(b, b))
    decreases |a|
  {
    if a == [] {
    } else {
      CauchySchwarz(a[1..], b[1..]);
      SelfDotSign(a[1..]);
      SelfDotSign(b[1..]);
      OneMoreCoordinate(Dot(a[1..], a[1..]), Dot(b[1..], b[1..]), Dot(a[1..], b[1..]), a[0], b[0]);
    }
  }

  // ---------------------------------------------------------------------------------
  // The similarity score
  // ---------------------------------------------------------------------------------

  lemma CosineSymmetric(sqrt: real -> real, a: Vector, b: Vector)
    ensures Cosine(sqrt, a, b) == Cosine(sqrt, b, a)
  {
    if |a| == |b| {
      DotSymmetric(a, b);
      MulCommutes(sqrt(Dot(a, a)), sqrt(Dot(b, b)));
    }
  }

  /** |d| <= n, from their squares */
  lemma SquaresCompare(d: real, n: real)
    requires n > 0.0 && Mul(d, d) <= Mul(n, n)
    ensures -n <= d <= n
  {
    DifferenceOfSquares(d, n);
    if d > n {
      MulSign(d - n, d + n);
    } else if d < -n {
      MulSign(-(d - n), -(d + n));
      MulNegated(d - n, d + n);
    }
  }

  lemma DifferenceOfSquares(d: real, n: real)
    ensures Mul(d - n, d + n) == Mul(d, d) - Mul(n, n)
  {
  }

  lemma QuotientWithin(d: real, n: real)
    requires n > 0.0 && -n <= d <= n
    ensures -1.0 <= d / n <= 1.0
  {
  }

  /** A score is always between -1 and 1, for vectors of any length. */
  lemma CosineInRange(sqrt: real -> real, a: Vector, b: Vector)
    requires IsRoot(sqrt)
    ensures -1.0 <= Cosine(sqrt, a, b) <= 1.0
  {
    if |a| == |b| {
      var na, nb := sqrt(Dot(a, a)), sqrt(Dot(b, b));
      SelfDotSign(a);
      SelfDotSign(b);
      if na != 0.0 && nb != 0.0 {
        CauchySchwarz(a, b);
        MulSign(na, nb);
        MulRegroups(na, nb, na, nb);
        SquaresCompare(Dot(a, b), Mul(na, nb));
        QuotientWithin(Dot(a, b), Mul(na, nb));
      }
    }
  }

  lemma RootIsUnique(sqrt: real -> real, y: real)
    requires IsRoot(sqrt) && y >= 0.0
    ensures sqrt(Mul(y, y)) == y
  {
    MulSquare(y);
    var r := sqrt(Mul(y, y));
    DifferenceOfSquares(r, y);
    if r != y && r + y != 0.0 {
      MulNonZero(r - y, r + y);
    }
  }

  lemma DividedBySelf(x: real)
    requires x != 0.0
    ensures x / x == 1.0
  {
  }

  /** A vector is entirely like itself, exactly when it is not the zero vector. */
  lemma CosineOfSelf(sqrt: real -> real, a: Vector)
    requires IsRoot(sqrt)
    ensures Cosine(sqrt, a, a) == (if exists i :: 0 <= i < |a| && a[i] != 0.0 then 1.0 else 0.0)
  {
    SelfDotSign(a);
    var n := sqrt(Dot(a, a));
    MulSquare(n);
    assert Mul(n, n) == Dot(a, a);
    if Dot(a, a) != 0.0 {
      DividedBySelf(Dot(a, a));
    }
  }

  function Scale(k: real, a: Vector): (r: Vector)
    ensures |r| == |a|
  {
    if a == [] then [] else [Mul(k, a[0])] + Scale(k, a[1..])
  }

  /** The dot product is the sum of the products, coordinate by coordinate. */
  lemma {:induction false} DotGrows(a: Vector, b: Vector, x: real, y: real)
    requires |a| == |b|
    ensures Dot([], []) == 0.0 && Dot(a + [x], b + [y]) == Dot(a, b) + x * y
    decreases |a|
  {
    if a == [] {
      assert a + [x] == [x] && b + [y] == [y];
      assert [x][1..] == [] && [y][1..] == [];
    } else {
      assert (a + [x])[0] == a[0] && (a + [x])[1..] == a[1..] + [x];
      assert (b + [y])[0] == b[0] && (b + [y])[1..] == b[1..] + [y];
      DotGrows(a[1..], b[1..], x, y);
    }
  }

  /** The score times the two lengths is the dot product; without a direction, or of different dimensions, vectors
      score 0. */
  lemma ScoreTimesLengths(sqrt: real -> real, a: Vector, b: Vector)
    requires IsRoot(sqrt)
    ensures |a| != |b| ==> Cosine(sqrt, a, b) == 0.0
    ensures |a| == |b| && ((forall i :: 0 <= i < |a| ==> a[i] == 0.0) || (forall i :: 0 <= i < |b| ==> b[i] == 0.0)) ==>
              Cosine(sqrt, a, b) == 0.0
    ensures |a| == |b| ==> Mul(Cosine(sqrt, a, b), Mul(sqrt(Dot(a, a)), sqrt(Dot(b, b)))) == Dot(a, b)
  {
    if |a| == |b| {
      SelfDotSign(a);
      SelfDotSign(b);
      var na, nb := sqrt(Dot(a, a)), sqrt(Dot(b, b));
      assert Mul(na, na) == Dot(a, a) && Mul(nb, nb) == Dot(b, b);
      MulSquare(na);
      MulSquare(nb);
      if na == 0.0 || nb == 0.0 {
        CauchySchwarz(a, b);
        MulZero(Dot(a, a));
        MulZero(Dot(b, b));
        MulSquare(Dot(a, b));
        MulZero(Mul(na, nb));
      } else {
        MulNonZero(na, nb);
        TimesDivisor(Dot(a, b), Mul(na, nb));
      }
    }
  }

  lemma TimesDivisor(d: real, n: real)
    requires n != 0.0
    ensures Mul(d / n, n) == d
  {
  }

  lemma {:induction false} DotScaled(k: real, a: Vector, b: Vector)
    requires |a| == |b|
    ensures Dot(Scale(k, a), b) == Mul(k, Dot(a, b))
    decreases |a|
  {
    if a == [] {
      MulZero(k);
    } else {
      DotScaled(k, a[1..], b[1..]);
      assert Scale(k, a)[1..] == Scale(k, a[1..]);
      MulRegroups(k, a[0], b[0], 0.0);
      MulSums(k, 0.0, Mul(a[0], b[0]), Dot(a[1..], b[1..]));
      MulZero(Mul(a[0], b[0]));
      MulZero(Dot(a[1..], b[1..]));
    }
  }

  /** Only the direction of a vector matters. */
  lemma CosineIgnoresScale(sqrt: real -> real, k: real, a: Vector, b: Vector)
    requires IsRoot(sqrt) && k > 0.0
    ensures Cosine(sqrt, Scale(k, a), b) == Cosine(sqrt, a, b)
  {
    if |a| == |b| {
      var ka, na, nb := Scale(k, a), sqrt(Dot(a, a)), sqrt(Dot(b, b));
      SelfDotSign(a);
      DotScaled(k, a, b);
      DotScaled(k, a, a);
      DotScaled(k, a, ka);
      DotSymmetric(a, ka);
      MulRegroups(k, k, Dot(a, a), 0.0);
      MulRegroups(k, na, k, na);
      assert Dot(ka, ka) == Mul(Mul(k, na), Mul(k, na));
      MulSign(k, na);
      RootIsUnique(sqrt, Mul(k, na));
      if na == 0.0 {
        MulZero(k);
      } else if nb != 0.0 {
        MulNonZero(k, na);
        CommonFactor(k, Dot(a, b), na, nb);
      }
    }
  }

  lemma CommonFactor(k: real, d: real, na: real, nb: real)
    requires k > 0.0 && na != 0.0 && nb != 0.0
    ensures Mul(na, nb) != 0.0 && Mul(Mul(k, na), nb) != 0.0
    ensures Mul(k, d) / Mul(Mul(k, na), nb) == d / Mul(na, nb)
  {
    MulNonZero(na, nb);
    MulNonZero(k, Mul(na, nb));
    MulRegroups(k, na, nb, 0.0);
    CancelFactor(k, d, Mul(na, nb));
  }

  lemma CancelFactor(k: real, d: real, n: real)
    requires k > 0.0 && n != 0.0 && Mul(k, n) != 0.0
    ensures Mul(k, d) / Mul(k, n) == d / n
  {
    var q := d / n;
    assert q * n == d;
    assert q * (k * n) == k * (q * n);
  }

  // ---------------------------------------------------------------------------------
  // Ranking
  // ---------------------------------------------------------------------------------

  datatype Scored = Scored(score: real, id: string)

  ghost predicate Descending(s: seq<Scored>) {
    forall i, j :: 0 <= i < j < |s| ==> s[i].score >= s[j].score
  }

  /** Into a descending list, behind everything that scores at least as much */
  function Insert(s: seq<Scored>, x: Scored): seq<Scored> {
    if s == [] || s[|s| - 1].score >= x.score then s + [x]
    else Insert(s[..|s| - 1], x) + [s[|s| - 1]]
  }

  /** list.sort(reverse=True, key=score): descending, and stable */
  function SortDescending(s: seq<Scored>): seq<Scored> {
    if s == [] then [] else Insert(SortDescending(s[..|s| - 1]), s[|s| - 1])
  }

  /** The entries with one score, in order */
  function WithScore(s: seq<Scored>, score: real): seq<Scored> {
    if s == [] then []
    else WithScore(s[..|s| - 1], score) + (if s[|s| - 1].score == score then [s[|s| - 1]] else [])
  }

  lemma {:induction false} InsertMembers(s: seq<Scored>, x: Scored)
    ensures multiset(Insert(s, x)) == multiset(s) + multiset{x}
    decreases |s|
  {
    if s == [] || s[|s| - 1].score >= x.score {
    } else {
      assert s == s[..|s| - 1] + [s[|s| - 1]];
      InsertMembers(s[..|s| - 1], x);
    }
  }

  lemma AppendDescends(s: seq<Scored>, x: Scored)
    requires Descending(s) && forall e :: e in s ==> e.score >= x.score
    ensures Descending(s + [x])
  {
  }

  lemma {:induction false} InsertDescends(s: seq<Scored>, x: Scored)
    requires Descending(s)
    ensures Descending(Insert(s, x))
    decreases |s|
  {
    if s == [] || s[|s| - 1].score >= x.score {
      AppendDescends(s, x);
    } else {
      var front, last := s[..|s| - 1], s[|s| - 1];
      InsertDescends(front, x);
      InsertMembers(front, x);
      forall e | e in Insert(front, x)
        ensures e.score >= last.score
      {
        assert e in multiset(Insert(front, x));
        assert e in front || e == x;
      }
      AppendDescends(Insert(front, x), last);
    }
  }

  lemma WithScoreLast(s: seq<Scored>, x: Scored, score: real)
    ensures WithScore(s + [x], score) == WithScore(s, score) + (if x.score == score then [x] else [])
  {
    assert (s + [x])[..|s|] == s;
  }

  lemma {:induction false} InsertIsStable(s: seq<Scored>, x: Scored, score: real)
    ensures WithScore(Insert(s, x), score) == WithScore(s + [x], score)
    decreases |s|
  {
    if s == [] || s[|s| - 1].score >= x.score {
    } else {
      var front, last := s[..|s| - 1], s[|s| - 1];
      assert s == front + [last];
      InsertIsStable(front, x, score);
      WithScoreLast(Insert(front, x), last, score);
      WithScoreLast(front, x, score);
      WithScoreLast(front, last, score);
      WithScoreLast(s, x, score);
    }
  }

  /** The ranking is the scores, all of them, in descending order, ties in their original order. */
  lemma {:induction false} SortIsStable(s: seq<Scored>, score: real)
    ensures Descending(SortDescending(s)) && multiset(SortDescending(s)) == multiset(s)
    ensures WithScore(SortDescending(s), score) == WithScore(s, score)
    decreases |s|
  {
    if s == [] {
    } else {
      var front, last := s[..|s| - 1], s[|s| - 1];
      assert s == front + [last];
      SortIsStable(front, score);
      var r := SortDescending(front);
      InsertMembers(r, last);
      InsertDescends(r, last);
      InsertIsStable(r, last, score);
      WithScoreLast(r, last, score);
      WithScoreLast(front, last, score);
    }
  }

  datatype Stored = Stored(id: string, embedding: Vector)

  function Scores(sqrt: real -> real, rows: seq<Stored>, query: Vector): seq<Scored> {
    if rows == [] then []
    else Scores(sqrt, rows[..|rows| - 1], query)
         + [Scored(Cosine(sqrt, rows[|rows| - 1].embedding, query), rows[|rows| - 1].id)]
  }

  /** The scores, one for each stored vector: its own against the query, under its own id */
  lemma {:induction false} ScoresAt(sqrt: real -> real, rows: seq<Stored>, query: Vector, i: nat)
    requires i < |rows|
    ensures |Scores(sqrt, rows, query)| == |rows|
    ensures Scores(sqrt, rows, query)[i] == Scored(Cosine(sqrt, rows[i].embedding, query), rows[i].id)
    decreases |rows|
  {
    var n := |rows| - 1;
    ScoresLength(sqrt, rows[..n], query);
    if i == n {
    } else {
      ScoresAt(sqrt, rows[..n], query, i);
    }
  }

  /** rank_memories(): score every stored vector, then sort */
  method RankMemories(sqrt: real -> real, rows: seq<Stored>, query: Vector) returns (ranked: seq<Scored>)
    ensures ranked == SortDescending(Scores(sqrt, rows, query))
    ensures Descending(ranked) && multiset(ranked) == multiset(Scores(sqrt, rows, query))
  {
    var results: seq<Scored> := [];
    for i := 0 to |rows|
      invariant results == Scores(sqrt, rows[..i], query)
    {
      assert rows[..i + 1][..i] == rows[..i];
      results := results + [Scored(Cosine(sqrt, rows[i].embedding, query), rows[i].id)];
    }
    assert rows[..|rows|] == rows;
    SortIsStable(results, 0.0);
    ranked := SortDescending(results);
  }

  /** How many a slice [:n] of a list keeps */
  function Taken(length: nat, n: int): nat {
    if n >= 0 then if n < length then n else length
    else if length + n > 0 then length + n else 0
  }

  /** recall_top_n(): what is returned and what is left out make up all the scores, and nothing left out
      scores above anything returned. */
  method RecallTopN(sqrt: real -> real, rows: seq<Stored>, query: Vector, n: int)
    returns (top: seq<Scored>, ghost omitted: seq<Scored>)
    ensures n >= |rows| ==> |top| == |rows|
    ensures 0 <= n <= |rows| ==> |top| == n
    ensures n < 0 ==> |top| == if |rows| + n >= 0 then |rows| + n else 0
    ensures multiset(top) + multiset(omitted) == multiset(Scores(sqrt, rows, query))
    ensures Descending(top)
    ensures forall x, y :: x in top && y in omitted ==> x.score >= y.score
  {
    var ranked := RankMemories(sqrt, rows, query);
    ScoresLength(sqrt, rows, query);
    assert |multiset(ranked)| == |multiset(Scores(sqrt, rows, query))|;
    var k := Taken(|ranked|, n);
    top, omitted := ranked[..k], ranked[k..];
    CutDescending(ranked, k);
  }

  lemma CutDescending(s: seq<Scored>, k: nat)
    requires Descending(s) && k <= |s|
    ensures multiset(s[..k]) + multiset(s[k..]) == multiset(s) && Descending(s[..k])
    ensures forall x, y :: x in s[..k] && y in s[k..] ==> x.score >= y.score
  {
    assert s == s[..k] + s[k..];
  }

  lemma {:induction false} ScoresLength(sqrt: real -> real, rows: seq<Stored>, query: Vector)
    ensures |Scores(sqrt, rows, query)| == |rows|
    decreases |rows|
  {
    if rows == [] {
    } else {
      ScoresLength(sqrt, rows[..|rows| - 1], query);
    }
  }
}
