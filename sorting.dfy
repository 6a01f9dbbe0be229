/**
 * Sorting a table by a key order (pandas `sort_values`). The order is a total
 * preorder, so rows may tie. The insertion sort here is stable: tied rows keep
 * their input order, as pandas' sort on several columns does. pandas' default
 * sort on one column gives no such promise, and the lemmas about those sorts
 * use only that the output is ordered and a permutation.
 */
module Sorting {
  import opened Seqs

  /** `le` is total and transitive: a sort key order with possible ties. */
  ghost predicate TotalPreorder<T(!new)>(le: (T, T) -> bool)
  {
    && (forall x, y :: le(x, y) || le(y, x))
    && (forall x, y, z :: le(x, y) && le(y, z) ==> le(x, z))
  }

  /** `x` placed before the first element it does not rank after. */
  function Insert<T>(x: T, s: seq<T>, le: (T, T) -> bool): (r: seq<T>)
    ensures multiset(r) == multiset(s) + multiset{x}
  {
    if s == [] || le(x, s[0]) then [x] + s
    else
      assert s == [s[0]] + s[1..];
      [s[0]] + Insert(x, s[1..], le)
  }

  /** `s` sorted by `le`. */
  function SortBy<T>(s: seq<T>, le: (T, T) -> bool): (r: seq<T>)
    ensures multiset(r) == multiset(s)
  {
    if s == [] then []
    else
      assert s == [s[0]] + s[1..];
      Insert(s[0], SortBy(s[1..], le), le)
  }

  lemma InsertMembers<T(!new)>(x: T, s: seq<T>, le: (T, T) -> bool)
    ensures forall y :: y in Insert(x, s, le) <==> y == x || y in s
  {
    var r := Insert(x, s, le);
    assert forall y :: y in r <==> y in multiset(r);
    assert forall y :: y in s <==> y in multiset(s);
  }

  lemma {:induction false} InsertSorted<T(!new)>(x: T, s: seq<T>, le: (T, T) -> bool)
    requires TotalPreorder(le) && SortedBy(s, le)
    ensures SortedBy(Insert(x, s, le), le)
  {
    if s != [] && !le(x, s[0]) {
      var rest := Insert(x, s[1..], le);
      InsertSorted(x, s[1..], le);
      InsertMembers(x, s[1..], le);
      forall y | y in rest
        ensures le(s[0], y)
      {
        if y != x {
          var k :| 0 <= k < |s[1..]| && s[1..][k] == y;
          assert s[k + 1] == y;
        }
      }
      var r := [s[0]] + rest;
      forall i, j | 0 <= i < j < |r|
        ensures le(r[i], r[j])
      {
        if i == 0 {
          assert r[j] == rest[j - 1] && r[j] in rest;
        } else {
          assert r[i] == rest[i - 1] && r[j] == rest[j - 1];
        }
      }
    }
  }

  /** The sort's output is ordered (it is a permutation by the contract of SortBy). */
  lemma {:induction false} SortBySorted<T(!new)>(s: seq<T>, le: (T, T) -> bool)
    requires TotalPreorder(le)
    ensures SortedBy(SortBy(s, le), le)
  {
    if s != [] {
      SortBySorted(s[1..], le);
      InsertSorted(s[0], SortBy(s[1..], le), le);
    }
  }

  /** The elements that tie with `y` under `le`: each ranks no later than the other. */
  function TiedWith<T>(y: T, le: (T, T) -> bool): T -> bool
  {
    (x: T) => le(x, y) && le(y, x)
  }

  /**
   * Inserting `x` puts it before every element that ranks no earlier than it, so within
   * a class `p` of elements that `x` ranks no later than, `x` comes first.
   */
  lemma {:induction false} InsertStable<T(!new)>(x: T, s: seq<T>, le: (T, T) -> bool, p: T -> bool)
    requires forall e :: p(x) && p(e) ==> le(x, e)
    ensures Where(Insert(x, s, le), p) == Where([x], p) + Where(s, p)
  {
    if s == [] || le(x, s[0]) {
      WhereConcat([x], s, p);
    } else {
      var first, tail := s[0], s[1..];
      var rest := Insert(x, tail, le);
      InsertStable(x, tail, le, p);
      WhereConcat([first], rest, p);
      WhereConcat([first], tail, p);
      assert [first] + tail == s;
      WhereSingle(x, p);
      WhereSingle(first, p);
      assert !(p(x) && p(first));
      SwapOneEmpty(Where([first], p), Where([x], p), Where(tail, p));
    }
  }

  /** Two sequences of which one is empty may be swapped in front of a third. */
  lemma SwapOneEmpty<T>(a: seq<T>, b: seq<T>, c: seq<T>)
    requires a == [] || b == []
    ensures a + (b + c) == b + (a + c)
  {
    if a == [] {
      assert a + (b + c) == b + c == b + (a + c);
    } else {
      assert a + (b + c) == a + c == b + (a + c);
    }
  }

  /** Elements tied with `y` rank no later than one another. */
  lemma TiedRankTogether<T(!new)>(le: (T, T) -> bool, y: T, a: T)
    requires TotalPreorder(le)
    ensures forall e :: TiedWith(y, le)(a) && TiedWith(y, le)(e) ==> le(a, e)
  {
  }

  /** The sort is stable: the elements tied with any `y` come out in their input order. */
  lemma {:induction false} SortByStable<T(!new)>(s: seq<T>, le: (T, T) -> bool, y: T)
    requires TotalPreorder(le)
    ensures Where(SortBy(s, le), TiedWith(y, le)) == Where(s, TiedWith(y, le))
  {
    if s != [] {
      var tied := TiedWith(y, le);
      var rest := SortBy(s[1..], le);
      SortByStable(s[1..], le, y);
      TiedRankTogether(le, y, s[0]);
      InsertStable(s[0], rest, le, tied);
      assert Where([s[0]], tied) == if tied(s[0]) then [s[0]] else [] by {
        assert [s[0]][1..] == [];
      }
    }
  }

  /** A prefix of a sorted sequence is sorted (what `head(n)` keeps of a sort). */
  lemma SortedPrefix<T>(s: seq<T>, k: nat, le: (T, T) -> bool)
    requires SortedBy(s, le) && k <= |s|
    ensures SortedBy(s[..k], le)
  {
    assert forall i :: 0 <= i < k ==> s[..k][i] == s[i];
  }

  /** In a sorted sequence, everything in the first `k` ranks no later than everything after it. */
  lemma SortedPrefixFirst<T>(s: seq<T>, k: nat, le: (T, T) -> bool)
    requires SortedBy(s, le) && k <= |s|
    ensures forall x, y :: x in s[..k] && y in s[k..] ==> le(x, y)
  {
    forall x, y | x in s[..k] && y in s[k..]
      ensures le(x, y)
    {
      var i :| 0 <= i < k && s[..k][i] == x;
      var j :| 0 <= j < |s| - k && s[k..][j] == y;
      assert s[i] == x && s[k + j] == y;
    }
  }
}
