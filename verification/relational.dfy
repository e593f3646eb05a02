/** The LINQ query operators the controller's queries are built from
    (`Where`, `SelectMany`, `DefaultIfEmpty`, `FirstOrDefault`), on
    sequences standing for tables, plus the notion of a primary key. */
module Relational {
  import opened Wrappers

  /** The rows of `s` that satisfy `keep`, in their original order. */
  function Filter<T(!new)>(s: seq<T>, keep: T -> bool): (r: seq<T>)
    ensures |r| <= |s|
    ensures forall x :: x in r <==> x in s && keep(x)
    ensures forall x :: multiset(r)[x] == if keep(x) then multiset(s)[x] else 0
  {
    if |s| == 0 then []
    else
      assert s == [s[0]] + s[1..];
      (if keep(s[0]) then [s[0]] else []) + Filter(s[1..], keep)
  }

  /** `f` applied to every row of `xs`, the results concatenated
      (LINQ's `SelectMany`). */
  function FlatMap<A, B>(xs: seq<A>, f: A -> seq<B>): seq<B> {
    if |xs| == 0 then [] else f(xs[0]) + FlatMap(xs[1..], f)
  }

  /** A row is produced by `FlatMap` exactly when some input row's
      expansion contains it. */
  lemma {:induction false} FlatMapMember<A(!new), B>(xs: seq<A>, f: A -> seq<B>, y: B)
    ensures y in FlatMap(xs, f) <==> exists x :: x in xs && y in f(x)
  {
    if |xs| > 0 {
      FlatMapMember(xs[1..], f, y);
      assert forall x :: x in xs <==> x == xs[0] || x in xs[1..];
    }
  }

  /** The input row whose expansion produced `y`. */
  lemma FlatMapSource<A(!new), B>(xs: seq<A>, f: A -> seq<B>, y: B) returns (x: A)
    requires y in FlatMap(xs, f)
    ensures x in xs && y in f(x)
  {
    FlatMapMember(xs, f, y);
    x :| x in xs && y in f(x);
  }

  /** Every row of an input row's expansion is produced. */
  lemma FlatMapIncludes<A(!new), B>(xs: seq<A>, f: A -> seq<B>, x: A, y: B)
    requires x in xs && y in f(x)
    ensures y in FlatMap(xs, f)
  {
    FlatMapMember(xs, f, y);
  }

  /** Every row of `s` wrapped in `Some`. */
  function Somes<T(!new)>(s: seq<T>): (r: seq<Option<T>>)
    ensures |r| == |s|
    ensures None !in r
    ensures forall x :: multiset(r)[Some(x)] == multiset(s)[x]
  {
    if |s| == 0 then []
    else
      assert s == [s[0]] + s[1..];
      [Some(s[0])] + Somes(s[1..])
  }

  /** LINQ's `DefaultIfEmpty`: the rows of `s`, or one NULL when `s` is
      empty; this is what turns a group join into a left outer join. */
  function DefaultIfEmpty<T(!new)>(s: seq<T>): (r: seq<Option<T>>)
    ensures |r| == if |s| == 0 then 1 else |s|
    ensures None in r <==> |s| == 0
    ensures forall x :: Some(x) in r <==> x in s
    ensures forall x :: multiset(r)[Some(x)] == multiset(s)[x]
    ensures |s| == 0 ==> multiset(r)[None] == 1
  {
    if |s| == 0 then [None] else Somes(s)
  }

  /** The position of the first row satisfying `p` (LINQ's `FirstOrDefault`
      on a filtered query, returning where the row is). */
  function IndexOfFirst<T>(s: seq<T>, p: T -> bool): (r: Option<nat>)
    ensures r.Some? ==> r.value < |s| && p(s[r.value])
    ensures r.Some? ==> forall j :: 0 <= j < r.value ==> !p(s[j])
    ensures r.None? <==> forall x :: x in s ==> !p(x)
  {
    if |s| == 0 then None
    else if p(s[0]) then Some(0)
    else
      match IndexOfFirst(s[1..], p)
      case None => None
      case Some(k) => Some(k + 1)
  }

  /** `s` without its first row satisfying `p`, or `s` itself when no row
      does (the `FirstOrDefault` lookup followed by `Remove`). */
  function RemoveFirst<T(!new)>(s: seq<T>, p: T -> bool): (r: seq<T>)
    ensures (forall x :: x in s ==> !p(x)) ==> r == s
    ensures (exists x :: x in s && p(x)) ==>
      exists k :: 0 <= k < |s| && p(s[k]) && (forall j :: 0 <= j < k ==> !p(s[j]))
        && r == s[..k] + s[k + 1..]
        && multiset(r) == multiset(s) - multiset{s[k]}
  {
    match IndexOfFirst(s, p)
    case None => s
    case Some(k) =>
      assert s == s[..k] + [s[k]] + s[k + 1..];
      s[..k] + s[k + 1..]
  }

  /** `RemoveFirst` with a predicate that singles out the row `x`: a
      no-op when `x` is absent, and otherwise the deletion of its first
      occurrence. */
  lemma RemoveFirstOf<T(!new)>(s: seq<T>, p: T -> bool, x: T)
    requires forall y :: p(y) <==> y == x
    ensures x !in s ==> RemoveFirst(s, p) == s
    ensures x in s ==>
      exists k :: 0 <= k < |s| && s[k] == x && x !in s[..k]
        && RemoveFirst(s, p) == s[..k] + s[k + 1..]
        && multiset(RemoveFirst(s, p)) == multiset(s) - multiset{x}
  {
    match IndexOfFirst(s, p)
    case None =>
      assert x !in s by {
        assert forall y :: y in s ==> !p(y);
      }
    case Some(k) =>
      assert s[k] == x;
      assert x !in s[..k] by {
        forall j | 0 <= j < k
          ensures s[..k][j] != x
        {
          assert !p(s[j]);
        }
      }
      assert RemoveFirst(s, p) == s[..k] + s[k + 1..];
      assert multiset(RemoveFirst(s, p)) == multiset(s) - multiset{x} by {
        assert s == s[..k] + [s[k]] + s[k + 1..];
      }
  }

  /** No two rows of `s` share a key, and no row is stored twice: `key`
      is a primary key of the table `s`. */
  ghost predicate KeyedBy<T(!new), K>(s: seq<T>, key: T -> K) {
    && (forall x, y :: x in s && y in s && key(x) == key(y) ==> x == y)
    && (forall x :: multiset(s)[x] <= 1)
  }

  /** Two rows of a keyed table with the same key are the same row. */
  lemma KeyedSame<T(!new), K>(s: seq<T>, key: T -> K, x: T, y: T)
    requires KeyedBy(s, key) && x in s && y in s && key(x) == key(y)
    ensures x == y
  {
  }

  /** A row held by a keyed table occurs in it exactly once. */
  lemma KeyedCountOne<T(!new), K>(s: seq<T>, key: T -> K, x: T)
    requires KeyedBy(s, key) && x in s
    ensures multiset(s)[x] == 1
  {
  }

  /** Any sub-multiset of a keyed table is keyed (e.g. a filter of it). */
  lemma KeyedSub<T(!new), K>(s: seq<T>, r: seq<T>, key: T -> K)
    requires KeyedBy(s, key)
    requires forall x :: multiset(r)[x] <= multiset(s)[x]
    ensures KeyedBy(r, key)
  {
    forall x, y | x in r && y in r && key(x) == key(y)
      ensures x == y
    {
      assert multiset(r)[x] > 0 && multiset(r)[y] > 0;
    }
  }

  /** A keyed table whose rows all carry the same key has at most one row. */
  lemma {:induction false} AtMostOneWithKey<T(!new), K>(s: seq<T>, key: T -> K, k: K)
    requires KeyedBy(s, key)
    requires forall x :: x in s ==> key(x) == k
    ensures |s| <= 1
  {
    FirstTwoRows(s);
  }

  /** The first two rows of a longer table are members, and counted twice
      when equal. */
  lemma FirstTwoRows<T>(s: seq<T>)
    ensures |s| >= 2 ==> s[0] in s && s[1] in s
    ensures |s| >= 2 && s[0] == s[1] ==> multiset(s)[s[0]] >= 2
  {
    if |s| >= 2 {
      assert s == [s[0], s[1]] + s[2..];
    }
  }

  /** Counting one output row of `FlatMap` when only the input `x0` can
      produce it: it occurs as often as `x0` occurs times as often as
      `f(x0)` produces it. */
  lemma {:induction false} FlatMapCount<A, B>(xs: seq<A>, f: A -> seq<B>, x0: A, y: B)
    requires forall x :: x in xs && y in f(x) ==> x == x0
    ensures multiset(FlatMap(xs, f))[y] == multiset(xs)[x0] * multiset(f(x0))[y]
  {
    if |xs| > 0 {
      var rest := FlatMap(xs[1..], f);
      var k := multiset(f(x0))[y];
      var c := multiset(xs[1..])[x0];
      assert multiset(rest)[y] == c * k by {
        FlatMapCount(xs[1..], f, x0, y);
      }
      assert multiset(FlatMap(xs, f))[y] == multiset(f(xs[0]))[y] + c * k by {
        assert FlatMap(xs, f) == f(xs[0]) + rest;
      }
      assert multiset(xs)[x0] == c + (if xs[0] == x0 then 1 else 0) by {
        assert xs == [xs[0]] + xs[1..];
      }
      if xs[0] == x0 {
        SuccTimes(c, k);
      } else {
        assert y !in f(xs[0]);
      }
    }
  }

  lemma SuccTimes(c: nat, k: nat)
    ensures (c + 1) * k == k + c * k
  {
  }

  /** `FlatMapCount` for an input row stored once. */
  lemma FlatMapCountOnce<A, B>(xs: seq<A>, f: A -> seq<B>, x0: A, y: B)
    requires forall x :: x in xs && y in f(x) ==> x == x0
    requires multiset(xs)[x0] == 1
    ensures multiset(FlatMap(xs, f))[y] == multiset(f(x0))[y]
  {
    FlatMapCount(xs, f, x0, y);
  }

  /** `SelectMany` over a single row is just that row's expansion. */
  lemma FlatMapSingle<A, B>(x: A, f: A -> seq<B>)
    ensures FlatMap([x], f) == f(x)
  {
    assert [x][1..] == [];
  }

  /** A left join against at most one partner yields exactly one row. */
  lemma DefaultIfEmptyOfAtMostOne<T(!new)>(s: seq<T>)
    requires |s| <= 1
    ensures DefaultIfEmpty(s) == [if |s| == 0 then None else Some(s[0])]
  {
    if |s| == 1 {
      assert Somes(s) == [Some(s[0])] + Somes(s[1..]);
    }
  }
}
