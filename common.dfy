/** Vocabulary shared by every table and handler: optional values, HTTP
    replies, and the row-level operations a SQL statement performs on a
    table that is held as a sequence of rows in insertion order. */
module Common {

  /** `undefined` / a missing row versus a present value. */
  datatype Option<T> = None | Some(value: T)

  /** An HTTP reply: the status code and, when one is sent, the JSON body. */
  datatype Reply<T> = Reply(status: nat, body: Option<T>)

  /** No value occurs twice in `s` (a PRIMARY KEY or UNIQUE column). */
  predicate NoDuplicates<T(==)>(s: seq<T>)
  {
    forall i, j :: 0 <= i < j < |s| ==> s[i] != s[j]
  }

  /** In a sequence without duplicates every value occurs at most once. */
  lemma {:induction false} NoDuplicatesCount<T>(s: seq<T>, x: T)
    requires NoDuplicates(s)
    ensures multiset(s)[x] <= 1
    decreases |s|
  {
    if s != [] {
      assert s == [s[0]] + s[1..];
      NoDuplicatesCount(s[1..], x);
      if s[0] == x {
        assert x !in s[1..];
      }
    }
  }

  /** The rows of `s` that satisfy `p`, in table order: a `WHERE` clause. */
  function Filter<T(!new)>(s: seq<T>, p: T -> bool): (r: seq<T>)
    ensures |r| <= |s|
    ensures forall x :: x in r <==> x in s && p(x)
    decreases |s|
  {
    if s == [] then []
    else (if p(s[0]) then [s[0]] else []) + Filter(s[1..], p)
  }

  /** A filter that rejects nothing returns the table unchanged. */
  lemma {:induction false} FilterKeepsAll<T(!new)>(s: seq<T>, p: T -> bool)
    requires forall x :: x in s ==> p(x)
    ensures Filter(s, p) == s
    decreases |s|
  {
    if s != [] {
      FilterKeepsAll(s[1..], p);
    }
  }

  /** Filtering a table without duplicates yields none. */
  lemma {:induction false} FilterNoDuplicates<T(!new)>(s: seq<T>, p: T -> bool)
    requires NoDuplicates(s)
    ensures NoDuplicates(Filter(s, p))
    decreases |s|
  {
    if s != [] {
      FilterNoDuplicates(s[1..], p);
      var r := Filter(s[1..], p);
      assert s[0] !in s[1..];
      assert s[0] !in r;
    }
  }

  /** Filtering twice is filtering once by both conditions: a filter of a
      query result keeps the table order of the rows it keeps. */
  lemma {:induction false} FilterFilter<T(!new)>(s: seq<T>, p: T -> bool, q: T -> bool, pq: T -> bool)
    requires forall x :: pq(x) == (p(x) && q(x))
    ensures Filter(Filter(s, p), q) == Filter(s, pq)
    decreases |s|
  {
    if s != [] {
      FilterFilter(s[1..], p, q, pq);
      var rest := Filter(s[1..], p);
      if p(s[0]) {
        assert Filter(s, p) == [s[0]] + rest;
        assert ([s[0]] + rest)[1..] == rest;
      } else {
        assert Filter(s, p) == rest;
      }
    }
  }

  /** The first row satisfying `p`: what `db.get` resolves for a `SELECT`
      with a `WHERE` clause, or `undefined` when no row matches. */
  function FirstWhere<T(!new)>(s: seq<T>, p: T -> bool): (r: Option<T>)
    ensures r.Some? ==> r.value in s && p(r.value)
    ensures r.None? <==> forall x :: x in s ==> !p(x)
    decreases |s|
  {
    if s == [] then None
    else if p(s[0]) then Some(s[0])
    else FirstWhere(s[1..], p)
  }

  /** A row that satisfies `p` and comes before every other such row is
      the one `FirstWhere` returns. */
  lemma {:induction false} FirstWhereIsFirst<T(!new)>(s: seq<T>, p: T -> bool, k: nat)
    requires k < |s| && p(s[k])
    requires forall i :: 0 <= i < k ==> !p(s[i])
    ensures FirstWhere(s, p) == Some(s[k])
    decreases k
  {
    if k > 0 {
      FirstWhereIsFirst(s[1..], p, k - 1);
    }
  }

  /** `s` with every element replaced by `f` of it: an `UPDATE` that
      rewrites the rows it matches and leaves the others as they were. */
  function MapRows<T, U>(s: seq<T>, f: T -> U): (r: seq<U>)
    ensures |r| == |s|
    ensures forall i :: 0 <= i < |s| ==> r[i] == f(s[i])
  {
    seq(|s|, i requires 0 <= i < |s| => f(s[i]))
  }
}
