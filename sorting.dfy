/**
 * `OrderBy(...).ThenBy(...)` as one stable insertion sort driven by a
 * comparator: LINQ's ordering is stable, so elements the comparator
 * ties keep their input order.
 */
module Sorting {

  /** `le` is total and transitive: a legal ordering for `OrderBy`. */
  ghost predicate TotalPreorder<T(!new)>(le: (T, T) -> bool)
  {
    (forall a, b :: le(a, b) || le(b, a)) &&
    (forall a, b, c :: le(a, b) && le(b, c) ==> le(a, c))
  }

  predicate SortedBy<T>(s: seq<T>, le: (T, T) -> bool)
  {
    forall i, j :: 0 <= i < j < |s| ==> le(s[i], s[j])
  }

  /** `x` placed before the first element it does not sort after. */
  function Insert<T>(x: T, s: seq<T>, le: (T, T) -> bool): (r: seq<T>)
    ensures |r| == |s| + 1
    ensures multiset(r) == multiset(s) + multiset{x}
  {
    if s == [] || le(x, s[0]) then [x] + s
    else
      assert s == [s[0]] + s[1..];
      [s[0]] + Insert(x, s[1..], le)
  }

  /** The stable sort of `s` under `le`. */
  function SortBy<T>(s: seq<T>, le: (T, T) -> bool): (r: seq<T>)
    ensures |r| == |s|
    ensures multiset(r) == multiset(s)
  {
    if s == [] then []
    else
      assert s == [s[0]] + s[1..];
      Insert(s[0], SortBy(s[1..], le), le)
  }

  lemma InsertMember<T>(x: T, s: seq<T>, le: (T, T) -> bool, y: T)
    requires y in Insert(x, s, le)
    ensures y == x || y in s
  {
    assert y in multiset(Insert(x, s, le));
  }

  /** What sorts after the head of a sorted sequence, and after nothing in it, sorts after its head. */
  lemma HeadBelow<T(!new)>(x: T, s: seq<T>, le: (T, T) -> bool, y: T)
    requires TotalPreorder(le) && SortedBy(s, le) && s != [] && !le(x, s[0])
    requires y == x || y in s[1..]
    ensures le(s[0], y)
  {
    if y != x {
      var k :| 0 <= k < |s[1..]| && s[1..][k] == y;
      assert s[k + 1] == y;
    }
  }

  lemma {:induction false} InsertSorted<T(!new)>(x: T, s: seq<T>, le: (T, T) -> bool)
    requires TotalPreorder(le) && SortedBy(s, le)
    ensures SortedBy(Insert(x, s, le), le)
  {
    if s != [] && !le(x, s[0]) {
      var t := Insert(x, s[1..], le);
      InsertSorted(x, s[1..], le);
      forall y | y in t ensures le(s[0], y) {
        InsertMember(x, s[1..], le, y);
        HeadBelow(x, s, le, y);
      }
      var r := [s[0]] + t;
      forall i, j | 0 <= i < j < |r| ensures le(r[i], r[j]) {
        if i == 0 {
          assert r[j] == t[j - 1];
          assert r[j] in t;
        } else {
          assert r[i] == t[i - 1] && r[j] == t[j - 1];
        }
      }
    }
  }

  /** `OrderBy` sorts. */
  lemma {:induction false} SortBySorted<T(!new)>(s: seq<T>, le: (T, T) -> bool)
    requires TotalPreorder(le)
    ensures SortedBy(SortBy(s, le), le)
  {
    if s != [] {
      SortBySorted(s[1..], le);
      InsertSorted(s[0], SortBy(s[1..], le), le);
    }
  }

  /** The elements of `s` that `le` ties with `k`, in order. */
  function Ties<T>(s: seq<T>, k: T, le: (T, T) -> bool): (r: seq<T>)
    ensures |r| <= |s|
  {
    if s == [] then []
    else (if le(s[0], k) && le(k, s[0]) then [s[0]] else []) + Ties(s[1..], k, le)
  }

  lemma TiesCons<T>(a: T, s: seq<T>, k: T, le: (T, T) -> bool)
    ensures Ties([a] + s, k, le) == Ties([a], k, le) + Ties(s, k, le)
  {
    assert ([a] + s)[1..] == s;
  }

  lemma {:induction false} TiesAfterInsert<T(!new)>(x: T, s: seq<T>, k: T, le: (T, T) -> bool)
    requires TotalPreorder(le)
    ensures Ties(Insert(x, s, le), k, le) == Ties([x], k, le) + Ties(s, k, le)
  {
    if s == [] || le(x, s[0]) {
      TiesCons(x, s, k, le);
    } else {
      var t := Insert(x, s[1..], le);
      var tx := Ties([x], k, le);
      var t0 := Ties([s[0]], k, le);
      calc {
        Ties(Insert(x, s, le), k, le);
        { assert Insert(x, s, le) == [s[0]] + t; TiesCons(s[0], t, k, le); }
        t0 + Ties(t, k, le);
        { TiesAfterInsert(x, s[1..], k, le); }
        t0 + (tx + Ties(s[1..], k, le));
        { assert tx == [] || t0 == [] by { assert !(le(x, k) && le(k, s[0])); } }
        tx + (t0 + Ties(s[1..], k, le));
        { TiesCons(s[0], s[1..], k, le); assert s == [s[0]] + s[1..]; }
        tx + Ties(s, k, le);
      }
    }
  }

  /** `OrderBy` is stable: tied elements keep their input order. */
  lemma {:induction false} SortByStable<T(!new)>(s: seq<T>, k: T, le: (T, T) -> bool)
    requires TotalPreorder(le)
    ensures Ties(SortBy(s, le), k, le) == Ties(s, k, le)
  {
    if s != [] {
      SortByStable(s[1..], k, le);
      TiesAfterInsert(s[0], SortBy(s[1..], le), k, le);
      TiesCons(s[0], s[1..], k, le);
      assert s == [s[0]] + s[1..];
    }
  }

  /** Concatenation distributes over `Ties`. */
  lemma {:induction false} TiesAppend<T>(a: seq<T>, b: seq<T>, k: T, le: (T, T) -> bool)
    ensures Ties(a + b, k, le) == Ties(a, k, le) + Ties(b, k, le)
  {
    if a != [] {
      TiesAppend(a[1..], b, k, le);
      assert (a + b)[1..] == a[1..] + b;
    } else {
      assert a + b == b;
    }
  }
}
