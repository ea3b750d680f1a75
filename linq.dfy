/**
 * The LINQ operators the specification service chains: `Where`,
 * `Distinct`, `GroupBy` and `FirstOrDefault`, on sequences.
 */
module Linq {
  import opened Wrappers

  predicate NoDuplicates<T(==)>(s: seq<T>)
  {
    forall i, j :: 0 <= i < j < |s| ==> s[i] != s[j]
  }

  /** `s.Where(f)`. */
  function Filter<T(!new)>(s: seq<T>, f: T -> bool): (r: seq<T>)
    ensures |r| <= |s|
    ensures forall x :: x in r <==> x in s && f(x)
  {
    if s == [] then []
    else
      assert s == [s[0]] + s[1..];
      (if f(s[0]) then [s[0]] else []) + Filter(s[1..], f)
  }

  lemma FilterUnfold<T(!new)>(s: seq<T>, f: T -> bool)
    requires s != []
    ensures Filter(s, f) == (if f(s[0]) then [s[0]] else []) + Filter(s[1..], f)
  {
  }

  lemma {:induction false} FilterAppend<T(!new)>(a: seq<T>, b: seq<T>, f: T -> bool)
    ensures Filter(a + b, f) == Filter(a, f) + Filter(b, f)
  {
    if a == [] {
      assert a + b == b;
    } else {
      var head := if f(a[0]) then [a[0]] else [];
      calc {
        Filter(a + b, f);
        { FilterUnfold(a + b, f); assert (a + b)[0] == a[0] && (a + b)[1..] == a[1..] + b; }
        head + Filter(a[1..] + b, f);
        { FilterAppend(a[1..], b, f); }
        head + (Filter(a[1..], f) + Filter(b, f));
        (head + Filter(a[1..], f)) + Filter(b, f);
        { FilterUnfold(a, f); }
        Filter(a, f) + Filter(b, f);
      }
    }
  }

  /** `s.Distinct()`: the first occurrence of each value, in order. */
  function Distinct<T(==,!new)>(s: seq<T>): (r: seq<T>)
    ensures |r| <= |s|
    ensures forall x :: x in r <==> x in s
    ensures NoDuplicates(r)
  {
    if s == [] then []
    else
      var d := Distinct(s[..|s| - 1]);
      assert s == s[..|s| - 1] + [s[|s| - 1]];
      if s[|s| - 1] in d then d else d + [s[|s| - 1]]
  }

  /** One group of `GroupBy`: its key and its elements, in input order. */
  datatype Grouping<K, T> = Grouping(key: K, items: seq<T>)

  /**
   * `s.GroupBy(key)`: one group per distinct key, in the order the keys
   * first occur, each holding the elements with that key in input order.
   */
  function GroupBy<T(!new), K(==)>(s: seq<T>, key: T -> K): (r: seq<Grouping<K, T>>)
    ensures |r| <= |s|
    decreases |s|
  {
    if s == [] then []
    else
      var k := key(s[0]);
      [Grouping(k, Filter(s, x => key(x) == k))] + GroupBy(Filter(s[1..], x => key(x) != k), key)
  }

  /** Every group is non-empty and its first element has its key. */
  ghost predicate GroupsNonEmpty<T, K>(r: seq<Grouping<K, T>>, key: T -> K)
  {
    forall g <- r :: g.items != [] && key(g.items[0]) == g.key
  }

  /** Each group holds exactly the elements of `s` with its key. */
  ghost predicate GroupsExact<T(!new), K>(r: seq<Grouping<K, T>>, s: seq<T>, key: T -> K)
  {
    forall g <- r, x :: x in g.items <==> x in s && key(x) == g.key
  }

  /** Every element of `s` has its key's group. */
  ghost predicate GroupsCover<T, K>(r: seq<Grouping<K, T>>, s: seq<T>, key: T -> K)
  {
    forall x <- s :: exists g <- r :: g.key == key(x)
  }

  /** No two groups share a key. */
  ghost predicate KeysDistinct<T, K>(r: seq<Grouping<K, T>>)
  {
    forall i, j :: 0 <= i < j < |r| ==> r[i].key != r[j].key
  }

  lemma {:induction false} GroupByNonEmpty<T(!new), K>(s: seq<T>, key: T -> K)
    ensures GroupsNonEmpty(GroupBy(s, key), key)
    decreases |s|
  {
    if s != [] {
      var k := key(s[0]);
      var here := Filter(s, x => key(x) == k);
      assert s[0] in here;
      GroupByNonEmpty(Filter(s[1..], x => key(x) != k), key);
    }
  }

  lemma {:induction false} GroupByExact<T(!new), K>(s: seq<T>, key: T -> K)
    ensures GroupsExact(GroupBy(s, key), s, key)
    decreases |s|
  {
    if s != [] {
      var k := key(s[0]);
      var rest := Filter(s[1..], x => key(x) != k);
      var tail := GroupBy(rest, key);
      assert GroupBy(s, key) == [Grouping(k, Filter(s, x => key(x) == k))] + tail;
      forall g <- GroupBy(s, key), x ensures x in g.items <==> x in s && key(x) == g.key {
        if g in tail {
          GroupByExact(rest, key);
          GroupByNonEmpty(rest, key);
          assert g.items[0] in rest;
          if x in s && key(x) == g.key {
            assert x == s[0] || x in s[1..];
          }
        }
      }
    }
  }

  lemma {:induction false} GroupByCovers<T(!new), K>(s: seq<T>, key: T -> K)
    ensures GroupsCover(GroupBy(s, key), s, key)
    decreases |s|
  {
    if s != [] {
      var k := key(s[0]);
      var rest := Filter(s[1..], x => key(x) != k);
      var tail := GroupBy(rest, key);
      GroupByCovers(rest, key);
      var r := GroupBy(s, key);
      assert r == [Grouping(k, Filter(s, x => key(x) == k))] + tail;
      forall x <- s ensures exists g <- r :: g.key == key(x) {
        if key(x) == k {
          assert r[0].key == key(x);
        } else {
          assert x == s[0] || x in s[1..];
          assert x in rest;
          var g :| g in tail && g.key == key(x);
          assert g in r;
        }
      }
    }
  }

  lemma {:induction false} GroupByKeysDistinct<T(!new), K>(s: seq<T>, key: T -> K)
    ensures KeysDistinct(GroupBy(s, key))
    decreases |s|
  {
    if s != [] {
      var k := key(s[0]);
      var rest := Filter(s[1..], x => key(x) != k);
      var tail := GroupBy(rest, key);
      GroupByKeysDistinct(rest, key);
      GroupByExact(rest, key);
      GroupByNonEmpty(rest, key);
      var r := GroupBy(s, key);
      assert r == [Grouping(k, Filter(s, x => key(x) == k))] + tail;
      forall j | 0 < j < |r| ensures r[j].key != k {
        assert r[j] == tail[j - 1];
        assert tail[j - 1].items[0] in rest;
      }
    }
  }

  /** An element of a group is an element of the input with the group's key. */
  lemma GroupByMember<T(!new), K>(s: seq<T>, key: T -> K, g: Grouping<K, T>, x: T)
    requires g in GroupBy(s, key) && x in g.items
    ensures x in s && key(x) == g.key
  {
    GroupByExact(s, key);
  }

  /** An element of the input is in the group of its key. */
  lemma GroupByContains<T(!new), K>(s: seq<T>, key: T -> K, g: Grouping<K, T>, x: T)
    requires g in GroupBy(s, key) && x in s && key(x) == g.key
    ensures x in g.items
  {
    GroupByExact(s, key);
  }

  /** Every element of the input lies in the group of its key. */
  lemma GroupIndexOf<T(!new), K>(s: seq<T>, key: T -> K, x: T) returns (i: nat)
    requires x in s
    ensures i < |GroupBy(s, key)| && GroupBy(s, key)[i].key == key(x) && x in GroupBy(s, key)[i].items
  {
    var groups := GroupBy(s, key);
    GroupByCovers(s, key);
    var g :| g in groups && g.key == key(x);
    i :| 0 <= i < |groups| && groups[i] == g;
    GroupByContains(s, key, g, x);
  }

  /** Filtering by a stronger predicate after a weaker one is filtering by the stronger one alone. */
  lemma {:induction false} FilterFilter<T(!new)>(s: seq<T>, g: T -> bool, f: T -> bool)
    requires forall x :: f(x) ==> g(x)
    ensures Filter(Filter(s, g), f) == Filter(s, f)
  {
    if s != [] {
      var head := if f(s[0]) then [s[0]] else [];
      if g(s[0]) {
        var gs := Filter(s, g);
        assert gs == [s[0]] + Filter(s[1..], g) by { FilterUnfold(s, g); }
        calc {
          Filter(gs, f);
          { FilterUnfold(gs, f); assert gs[0] == s[0] && gs[1..] == Filter(s[1..], g); }
          head + Filter(Filter(s[1..], g), f);
          { FilterFilter(s[1..], g, f); }
          head + Filter(s[1..], f);
          { FilterUnfold(s, f); }
          Filter(s, f);
        }
      } else {
        assert !f(s[0]);
        calc {
          Filter(Filter(s, g), f);
          { FilterUnfold(s, g); assert [] + Filter(s[1..], g) == Filter(s[1..], g); }
          Filter(Filter(s[1..], g), f);
          { FilterFilter(s[1..], g, f); }
          Filter(s[1..], f);
          { FilterUnfold(s, f); assert [] + Filter(s[1..], f) == Filter(s[1..], f); }
          Filter(s, f);
        }
      }
    }
  }

  lemma GroupByUnfold<T(!new), K>(s: seq<T>, key: T -> K)
    requires s != []
    ensures var k := key(s[0]);
      GroupBy(s, key) == [Grouping(k, Filter(s, x => key(x) == k))] + GroupBy(Filter(s[1..], x => key(x) != k), key)
  {
  }

  /**
   * Group `i > 0` is group `n == i - 1` of the groups of the rest, and its
   * key is not the key of the input's first element.
   */
  lemma LaterKey<T(!new), K>(s: seq<T>, key: T -> K, i: int, n: int)
    requires s != [] && 0 < i < |GroupBy(s, key)| && n == i - 1
    ensures var k := key(s[0]);
      var tail := GroupBy(Filter(s[1..], x => key(x) != k), key);
      |GroupBy(s, key)| == 1 + |tail| && GroupBy(s, key)[i] == tail[n] && tail[n].key != k &&
      FirstWithKey(s[1..], key, tail[n].key) < |s| - 1
  {
    var k := key(s[0]);
    var rest := Filter(s[1..], x => key(x) != k);
    var tail := GroupBy(rest, key);
    GroupByUnfold(s, key);
    var g := tail[n];
    GroupByNonEmpty(rest, key);
    assert g in tail;
    GroupByMember(rest, key, g, g.items[0]);
    FirstWithKeyFound(s[1..], key, g.items[0]);
  }

  /**
   * Each group keeps input order: group `i` holds exactly the elements
   * of `s` with its key, in the order they occur in `s`.
   */
  lemma {:induction false} GroupByItems<T(!new), K>(s: seq<T>, key: T -> K, i: int)
    requires 0 <= i < |GroupBy(s, key)|
    ensures GroupBy(s, key)[i].items == Filter(s, x => key(x) == GroupBy(s, key)[i].key)
    decreases |s|
  {
    var k := key(s[0]);
    var rest := Filter(s[1..], x => key(x) != k);
    GroupByUnfold(s, key);
    if i > 0 {
      var n := i - 1;
      LaterKey(s, key, i, n);
      var g := GroupBy(rest, key)[n];
      var gk := g.key;
      calc {
        g.items;
        { GroupByItems(rest, key, n); }
        Filter(rest, x => key(x) == gk);
        { FilterFilter(s[1..], x => key(x) != k, x => key(x) == gk); }
        Filter(s[1..], x => key(x) == gk);
        { FilterUnfold(s, x => key(x) == gk); assert [] + Filter(s[1..], x => key(x) == gk) == Filter(s[1..], x => key(x) == gk); }
        Filter(s, x => key(x) == gk);
      }
    }
  }

  /** The position of the first element of `s` with key `k`, or `|s|` when there is none. */
  function FirstWithKey<T, K(==)>(s: seq<T>, key: T -> K, k: K): nat
  {
    if s == [] then 0
    else if key(s[0]) == k then 0
    else 1 + FirstWithKey(s[1..], key, k)
  }

  lemma {:induction false} FirstWithKeySpec<T, K>(s: seq<T>, key: T -> K, k: K)
    ensures FirstWithKey(s, key, k) <= |s|
    ensures FirstWithKey(s, key, k) < |s| ==> key(s[FirstWithKey(s, key, k)]) == k
    ensures forall q :: 0 <= q < FirstWithKey(s, key, k) ==> key(s[q]) != k
  {
    if s != [] && key(s[0]) != k {
      FirstWithKeySpec(s[1..], key, k);
      assert forall q :: 1 <= q < |s| ==> s[q] == s[1..][q - 1];
    }
  }

  /** Filtering out no element carrying `k1` or `k2` keeps the order of their first occurrences. */
  lemma {:induction false} FirstWithKeyFilter<T(!new), K>(t: seq<T>, f: T -> bool, key: T -> K, k1: K, k2: K)
    requires forall x :: key(x) == k1 || key(x) == k2 ==> f(x)
    requires FirstWithKey(Filter(t, f), key, k1) < FirstWithKey(Filter(t, f), key, k2)
    ensures FirstWithKey(t, key, k1) < FirstWithKey(t, key, k2)
  {
    if t != [] && key(t[0]) != k1 {
      var ft := Filter(t, f);
      var u := Filter(t[1..], f);
      FilterUnfold(t, f);
      if f(t[0]) {
        assert ft == [t[0]] + u;
        assert ft[0] == t[0] && ft[1..] == u;
      } else {
        assert ft == u;
      }
      FirstWithKeyFilter(t[1..], f, key, k1, k2);
    }
  }

  /**
   * Groups come in the order their keys first occur: the first element
   * with an earlier group's key precedes the first element with a later
   * group's key, and both keys occur.
   */
  lemma {:induction false} GroupByKeyOrder<T(!new), K>(s: seq<T>, key: T -> K, i: int, j: int)
    requires 0 <= i < j < |GroupBy(s, key)|
    ensures FirstWithKey(s, key, GroupBy(s, key)[i].key) < FirstWithKey(s, key, GroupBy(s, key)[j].key) < |s|
    decreases |s|
  {
    var k := key(s[0]);
    var f := x => key(x) != k;
    var rest := Filter(s[1..], f);
    var tail := GroupBy(rest, key);
    var i', j' := i - 1, j - 1;
    LaterKey(s, key, j, j');
    var ki := GroupBy(s, key)[i].key;
    var kj := GroupBy(s, key)[j].key;
    assert FirstWithKey(s, key, kj) == 1 + FirstWithKey(s[1..], key, kj);
    if i == 0 {
      assert ki == k by {
        GroupByUnfold(s, key);
      }
    } else {
      LaterKey(s, key, i, i');
      GroupByKeyOrder(rest, key, i', j');
      FirstWithKeyFilter(s[1..], f, key, ki, kj);
    }
  }

  /** A key that occurs has a first position. */
  lemma FirstWithKeyFound<T, K>(s: seq<T>, key: T -> K, x: T)
    requires x in s
    ensures FirstWithKey(s, key, key(x)) < |s|
  {
    var p :| 0 <= p < |s| && s[p] == x;
    FirstWithKeySpec(s, key, key(x));
  }

  /** The elements of all groups, group after group. */
  function Ungroup<K, T>(gs: seq<Grouping<K, T>>): seq<T>
  {
    if gs == [] then [] else gs[0].items + Ungroup(gs[1..])
  }

  /** `GroupBy` partitions: its groups hold every element exactly once. */
  lemma {:induction false} GroupByPartitions<T(!new), K>(s: seq<T>, key: T -> K)
    ensures multiset(Ungroup(GroupBy(s, key))) == multiset(s)
    decreases |s|
  {
    if s != [] {
      var k := key(s[0]);
      var rest := Filter(s[1..], x => key(x) != k);
      var here := Filter(s, x => key(x) == k);
      GroupByPartitions(rest, key);
      FilterSplits(s, x => key(x) == k, x => key(x) != k);
      assert s == [s[0]] + s[1..];
      assert Filter(s, x => key(x) != k) == rest;
    }
  }

  /** A filter and its complement together keep every element. */
  lemma {:induction false} FilterSplits<T(!new)>(s: seq<T>, f: T -> bool, g: T -> bool)
    requires forall x :: g(x) == !f(x)
    ensures multiset(Filter(s, f)) + multiset(Filter(s, g)) == multiset(s)
  {
    if s != [] {
      var t := s[1..];
      FilterSplits(t, f, g);
      assert multiset(s) == multiset{s[0]} + multiset(t) by {
        assert s == [s[0]] + t;
      }
      assert multiset(Filter(s, f)) + multiset(Filter(s, g)) ==
        multiset{s[0]} + (multiset(Filter(t, f)) + multiset(Filter(t, g))) by {
        if f(s[0]) {
          assert Filter(s, f) == [s[0]] + Filter(t, f);
          assert Filter(s, g) == Filter(t, g) by {
            assert !g(s[0]);
          }
        } else {
          assert Filter(s, f) == Filter(t, f);
          assert Filter(s, g) == [s[0]] + Filter(t, g) by {
            assert g(s[0]);
          }
        }
      }
    }
  }

  /** `s.FirstOrDefault(x => x != null)`. */
  function FirstSome<T>(s: seq<Option<T>>): (r: Option<T>)
    ensures r.Some? <==> exists i :: 0 <= i < |s| && s[i].Some?
    ensures r.Some? ==> exists i :: 0 <= i < |s| && s[i] == r && forall j :: 0 <= j < i ==> s[j].None?
  {
    if s == [] then None
    else if s[0].Some? then s[0]
    else
      var r := FirstSome(s[1..]);
      assert forall i :: 1 <= i < |s| ==> s[i] == s[1..][i - 1];
      r
  }

  /** In a sequence without repeats, each element occurs once. */
  lemma {:induction false} NoDuplicatesOccurOnce<T>(s: seq<T>, x: T)
    requires NoDuplicates(s) && x in s
    ensures multiset(s)[x] == 1
  {
    assert s == [s[0]] + s[1..];
    if s[0] == x {
      assert x !in s[1..] by {
        forall j | 0 <= j < |s[1..]| ensures s[1..][j] != x {
          assert s[1..][j] == s[j + 1];
        }
      }
    } else {
      NoDuplicatesOccurOnce(s[1..], x);
    }
  }

  /**
   * `s.Select(f).ToList()` where `f` may throw: every result in order,
   * or the failure of the first element that fails.
   */
  function SelectAll<T, U, E(==)>(s: seq<T>, f: T --> Result<U, E>): (r: Result<seq<U>, E>)
    requires forall i :: 0 <= i < |s| ==> f.requires(s[i])
    ensures r.Success? <==> forall i :: 0 <= i < |s| ==> f(s[i]).Success?
    ensures r.Success? ==> |r.value| == |s| && forall i :: 0 <= i < |s| ==> r.value[i] == f(s[i]).value
    ensures r.Failure? ==>
      exists i :: 0 <= i < |s| && f(s[i]).Failure? && f(s[i]).error == r.error &&
        forall j :: 0 <= j < i ==> f(s[j]).Success?
  {
    if s == [] then Success([])
    else
      match f(s[0])
      case Failure(e) => Failure(e)
      case Success(x) =>
        var rest := SelectAll(s[1..], f);
        assert forall i :: 1 <= i < |s| ==> s[i] == s[1..][i - 1];
        if rest.Failure? then
          var i :| 0 <= i < |s[1..]| && f(s[1..][i]).Failure? && f(s[1..][i]).error == rest.error &&
            forall j :: 0 <= j < i ==> f(s[1..][j]).Success?;
          assert s[i + 1] == s[1..][i];
          Failure(rest.error)
        else
          Success([x] + rest.value)
  }
}
