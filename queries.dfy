/** The two shapes of query the application issues against a table held as a
    sequence of rows in insertion order: every row that matches
    (`filter_by(...).all()`) and the first row that matches
    (`filter_by(...).first()`, `query.get(id)`). */
module Queries {

  datatype Option<+T> = None | Some(value: T)

  /** The rows of `s` that satisfy `keep`, in table order. */
  function Filter<T(!new)>(s: seq<T>, keep: T -> bool): (r: seq<T>)
    ensures |r| <= |s|
    ensures forall x :: x in r <==> x in s && keep(x)
  {
    if s == [] then []
    else if keep(s[0]) then [s[0]] + Filter(s[1..], keep)
    else Filter(s[1..], keep)
  }

  /** The first row of `s` that satisfies `keep`, if there is one. */
  function First<T(!new)>(s: seq<T>, keep: T -> bool): (r: Option<T>)
    ensures r.Some? <==> exists x :: x in s && keep(x)
    ensures r.Some? ==> r.value in s && keep(r.value)
  {
    if s == [] then None
    else if keep(s[0]) then Some(s[0])
    else First(s[1..], keep)
  }

  /** Every two distinct rows of `s`, earlier one first, are related by `ok`
      (a uniqueness constraint on a table). */
  ghost predicate Pairwise<T>(s: seq<T>, ok: (T, T) -> bool)
  {
    forall i, j :: 0 <= i < j < |s| ==> ok(s[i], s[j])
  }

  lemma {:induction false} FilterPairwise<T(!new)>(s: seq<T>, keep: T -> bool, ok: (T, T) -> bool)
    requires Pairwise(s, ok)
    ensures Pairwise(Filter(s, keep), ok)
  {
    if s != [] {
      assert Pairwise(s[1..], ok);
      FilterPairwise(s[1..], keep, ok);
      var rest := Filter(s[1..], keep);
      if keep(s[0]) {
        forall j | 0 <= j < |rest| ensures ok(s[0], rest[j]) {
          assert rest[j] in s[1..];
          var k :| 0 <= k < |s[1..]| && s[1..][k] == rest[j];
          assert s[k + 1] == rest[j];
        }
        assert Pairwise([s[0]] + rest, ok);
      }
    }
  }

  lemma PairwiseAppend<T>(s: seq<T>, x: T, ok: (T, T) -> bool)
    requires Pairwise(s, ok)
    requires forall y :: y in s ==> ok(y, x)
    ensures Pairwise(s + [x], ok)
  {
    var t := s + [x];
    forall i, j | 0 <= i < j < |t| ensures ok(t[i], t[j]) {
      if j < |s| {
        assert t[i] == s[i] && t[j] == s[j];
      } else {
        assert t[i] == s[i] && t[j] == x;
      }
    }
  }

  lemma {:induction false} FilterAll<T(!new)>(s: seq<T>, keep: T -> bool)
    requires forall x :: x in s ==> keep(x)
    ensures Filter(s, keep) == s
  {
    if s != [] {
      FilterAll(s[1..], keep);
    }
  }

  /** Each matching row occurs in the result as often as in the table, so a
      row the table holds once is listed once; a row that does not match
      never occurs. */
  lemma {:induction false} FilterCount<T(!new)>(s: seq<T>, keep: T -> bool, x: T)
    ensures multiset(Filter(s, keep))[x] == if keep(x) then multiset(s)[x] else 0
  {
    if s != [] {
      assert s == [s[0]] + s[1..];
      FilterCount(s[1..], keep, x);
    }
  }

  lemma FilterNone<T(!new)>(s: seq<T>, keep: T -> bool)
    requires forall x :: x in s ==> !keep(x)
    ensures Filter(s, keep) == []
  {
  }

  lemma {:induction false} FilterCongruent<T(!new)>(s: seq<T>, p: T -> bool, q: T -> bool)
    requires forall x :: x in s ==> p(x) == q(x)
    ensures Filter(s, p) == Filter(s, q)
  {
    if s != [] {
      FilterCongruent(s[1..], p, q);
    }
  }

  /** Filtering twice is filtering once by the conjunction. */
  lemma {:induction false} FilterFilter<T(!new)>(s: seq<T>, p: T -> bool, q: T -> bool, both: T -> bool)
    requires forall x :: x in s ==> both(x) == (p(x) && q(x))
    ensures Filter(Filter(s, p), q) == Filter(s, both)
  {
    if s != [] {
      FilterFilter(s[1..], p, q, both);
    }
  }

  lemma {:induction false} FilterAppend<T(!new)>(s: seq<T>, t: seq<T>, keep: T -> bool)
    ensures Filter(s + t, keep) == Filter(s, keep) + Filter(t, keep)
  {
    if s == [] {
      assert s + t == t;
    } else {
      assert (s + t)[1..] == s[1..] + t;
      FilterAppend(s[1..], t, keep);
    }
  }
}
