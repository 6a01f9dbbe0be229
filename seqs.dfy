/**
 * Sequence operations that the dashboard's table expressions are built from:
 * a boolean mask (`Where`), a filtered list comprehension (`MapWhere`),
 * keep-first de-duplication on a key (`DistinctBy`) and `head(n)` (`Take`),
 * with the facts the pipeline relies on.
 */
module Seqs {

  /** `a` is `b` with some elements deleted and the rest kept in order. */
  ghost predicate SubsequenceOf<T(!new)>(a: seq<T>, b: seq<T>)
    decreases |b|
  {
    a == [] || (b != [] && ((a[0] == b[0] && SubsequenceOf(a[1..], b[1..])) || SubsequenceOf(a, b[1..])))
  }

  lemma {:induction false} SubsequenceMembers<T(!new)>(a: seq<T>, b: seq<T>)
    requires SubsequenceOf(a, b)
    ensures |a| <= |b|
    ensures forall x :: x in a ==> x in b
    decreases |b|
  {
    if a != [] {
      if a[0] == b[0] && SubsequenceOf(a[1..], b[1..]) {
        SubsequenceMembers(a[1..], b[1..]);
        assert a == [a[0]] + a[1..] && b == [b[0]] + b[1..];
      } else {
        SubsequenceMembers(a, b[1..]);
      }
    }
  }

  lemma {:induction false} SubsequenceTrans<T(!new)>(a: seq<T>, b: seq<T>, c: seq<T>)
    requires SubsequenceOf(a, b) && SubsequenceOf(b, c)
    ensures SubsequenceOf(a, c)
    decreases |c|
  {
    if a != [] {
      assert b != [] && c != [];
      if b[0] == c[0] && SubsequenceOf(b[1..], c[1..]) {
        if a[0] == b[0] && SubsequenceOf(a[1..], b[1..]) {
          SubsequenceTrans(a[1..], b[1..], c[1..]);
        } else {
          SubsequenceTrans(a, b[1..], c[1..]);
        }
      } else {
        SubsequenceTrans(a, b, c[1..]);
      }
    }
  }

  /** Every element is related by `le` to every element after it (sorted, for an order). */
  ghost predicate SortedBy<T>(s: seq<T>, le: (T, T) -> bool)
  {
    forall i, j :: 0 <= i < j < |s| ==> le(s[i], s[j])
  }

  /** Slicing a suffix of `s` is slicing `s` itself, shifted. */
  lemma SliceOfSuffix<T>(s: seq<T>, i: nat, j: nat)
    requires i <= |s| && j <= |s| - i
    ensures s[i..][..j] == s[i..i + j]
    ensures s[i..][j..] == s[i + j..]
  {
  }

  /** The elements of `s` for which `p` holds, in their original order: a boolean mask applied to a table. */
  function Where<T(!new)>(s: seq<T>, p: T -> bool): (r: seq<T>)
    ensures |r| <= |s|
    ensures forall x :: x in r <==> x in s && p(x)
  {
    if s == [] then []
    else if p(s[0]) then [s[0]] + Where(s[1..], p)
    else Where(s[1..], p)
  }

  /** A mask keeps order: what it keeps is a subsequence of what it was given. */
  lemma {:induction false} WhereIsSubsequence<T(!new)>(s: seq<T>, p: T -> bool)
    ensures SubsequenceOf(Where(s, p), s)
  {
    if s != [] {
      WhereIsSubsequence(s[1..], p);
      if !p(s[0]) && Where(s[1..], p) != [] {
        assert Where(s, p) == Where(s[1..], p);
      }
    }
  }

  /** A mask keeps every copy of an element it accepts and no copy of one it rejects. */
  lemma {:induction false} WhereCount<T(!new)>(s: seq<T>, p: T -> bool, x: T)
    ensures multiset(Where(s, p))[x] == if p(x) then multiset(s)[x] else 0
  {
    if s != [] {
      WhereCount(s[1..], p, x);
      assert s == [s[0]] + s[1..];
    }
  }

  /** Concatenation is associative (kept apart so that proofs about masks need not rediscover it). */
  lemma ConcatAssoc<T>(a: seq<T>, b: seq<T>, c: seq<T>)
    ensures a + (b + c) == (a + b) + c
  {
  }

  /** A mask on one element keeps it or drops it. */
  lemma WhereSingle<T(!new)>(x: T, p: T -> bool)
    ensures Where([x], p) == if p(x) then [x] else []
  {
    assert [x][1..] == [];
  }

  /** A mask applied to an element placed in front of a table. */
  lemma WhereCons<T(!new)>(x: T, t: seq<T>, p: T -> bool)
    ensures Where([x] + t, p) == Where([x], p) + Where(t, p)
  {
    WhereSingle(x, p);
    assert ([x] + t)[0] == x && ([x] + t)[1..] == t;
  }

  /** A mask applied to two tables placed end to end is the two masked tables end to end. */
  lemma {:induction false} WhereConcat<T(!new)>(a: seq<T>, b: seq<T>, p: T -> bool)
    ensures Where(a + b, p) == Where(a, p) + Where(b, p)
  {
    if a == [] {
      assert a + b == b;
    } else {
      var h, t := a[0], a[1..];
      WhereConcat(t, b, p);
      assert a == [h] + t;
      ConcatAssoc([h], t, b);
      WhereCons(h, t + b, p);
      WhereCons(h, t, p);
      ConcatAssoc(Where([h], p), Where(t, p), Where(b, p));
    }
  }

  /** Applying the same mask twice is applying it once. */
  lemma {:induction false} WhereIdempotent<T(!new)>(s: seq<T>, p: T -> bool)
    ensures Where(Where(s, p), p) == Where(s, p)
  {
    if s != [] {
      WhereIdempotent(s[1..], p);
      if p(s[0]) {
        assert ([s[0]] + Where(s[1..], p))[1..] == Where(s[1..], p);
      }
    }
  }

  /** Masking by `p` and then by `q` is masking once by their conjunction. */
  lemma {:induction false} WhereWhere<T(!new)>(s: seq<T>, p: T -> bool, q: T -> bool, pq: T -> bool)
    requires forall x :: pq(x) == (p(x) && q(x))
    ensures Where(Where(s, p), q) == Where(s, pq)
  {
    if s != [] {
      WhereWhere(s[1..], p, q, pq);
      if p(s[0]) {
        assert ([s[0]] + Where(s[1..], p))[1..] == Where(s[1..], p);
      }
    }
  }

  /** Masks that accept the same elements keep the same elements. */
  lemma {:induction false} WhereSame<T(!new)>(s: seq<T>, p: T -> bool, q: T -> bool)
    requires forall x :: p(x) == q(x)
    ensures Where(s, p) == Where(s, q)
  {
    if s != [] {
      WhereSame(s[1..], p, q);
    }
  }

  /** A mask that rejects everything keeps nothing. */
  lemma WhereNone<T(!new)>(s: seq<T>, p: T -> bool)
    requires forall x :: x in s ==> !p(x)
    ensures Where(s, p) == []
  {
    if Where(s, p) != [] {
      assert Where(s, p)[0] in Where(s, p);
    }
  }

  /** A weaker mask keeps at least what a stronger one keeps, in the same order. */
  lemma {:induction false} WhereMonotone<T(!new)>(s: seq<T>, p: T -> bool, q: T -> bool)
    requires forall x :: p(x) ==> q(x)
    ensures SubsequenceOf(Where(s, p), Where(s, q))
  {
    if s != [] {
      WhereMonotone(s[1..], p, q);
      var a, b := Where(s[1..], p), Where(s[1..], q);
      if p(s[0]) {
        assert ([s[0]] + a)[1..] == a && ([s[0]] + b)[1..] == b;
      } else if q(s[0]) {
        if a != [] {
          assert ([s[0]] + b)[1..] == b;
        }
      }
    }
  }

  /** `[f(x) for x in s if p(x)]`: `f` applied to each element that `p` accepts, in order. */
  function MapWhere<T(!new), U>(s: seq<T>, p: T -> bool, f: T --> U): seq<U>
    requires forall x :: p(x) ==> f.requires(x)
  {
    if s == [] then []
    else if p(s[0]) then [f(s[0])] + MapWhere(s[1..], p, f)
    else MapWhere(s[1..], p, f)
  }

  /** The k-th result of a filtered comprehension is `f` of the k-th element the filter keeps. */
  lemma {:induction false} MapWhereOrder<T(!new), U>(s: seq<T>, p: T -> bool, f: T --> U)
    requires forall x :: p(x) ==> f.requires(x)
    ensures |MapWhere(s, p, f)| == |Where(s, p)|
    ensures forall k :: 0 <= k < |Where(s, p)| ==> p(Where(s, p)[k]) && MapWhere(s, p, f)[k] == f(Where(s, p)[k])
  {
    if s != [] {
      MapWhereOrder(s[1..], p, f);
      var rest, tail := MapWhere(s[1..], p, f), Where(s[1..], p);
      if p(s[0]) {
        var mapped, kept := MapWhere(s, p, f), Where(s, p);
        assert mapped == [f(s[0])] + rest;
        assert kept == [s[0]] + tail;
        forall k | 0 < k < |kept|
          ensures p(kept[k]) && mapped[k] == f(kept[k])
        {
          assert mapped[k] == rest[k - 1] && kept[k] == tail[k - 1];
        }
      }
    }
  }

  /** The set of keys that occur in `s`. */
  ghost function KeysOf<T(!new), K(!new)>(s: seq<T>, key: T -> K): set<K>
  {
    set x | x in s :: key(x)
  }

  /**
   * Keep-first de-duplication on `key` (pandas `drop_duplicates(subset=...)`), skipping
   * the keys already in `seen`.
   */
  function DistinctAfter<T(!new), K(==, !new)>(s: seq<T>, key: T -> K, seen: set<K>): (r: seq<T>)
    ensures forall x :: x in r ==> x in s && key(x) !in seen
    ensures forall i, j :: 0 <= i < j < |r| ==> key(r[i]) != key(r[j])
    ensures KeysOf(r, key) == KeysOf(s, key) - seen
  {
    if s == [] then []
    else if key(s[0]) in seen then
      var r := DistinctAfter(s[1..], key, seen);
      assert KeysOf(s, key) == {key(s[0])} + KeysOf(s[1..], key) by {
        assert s == [s[0]] + s[1..];
      }
      r
    else
      var rest := DistinctAfter(s[1..], key, seen + {key(s[0])});
      var r := [s[0]] + rest;
      assert KeysOf(s, key) == {key(s[0])} + KeysOf(s[1..], key) by {
        assert s == [s[0]] + s[1..];
      }
      assert KeysOf(r, key) == {key(s[0])} + KeysOf(rest, key);
      r
  }

  /** Keep-first de-duplication of `s` on `key`. */
  function DistinctBy<T(!new), K(==, !new)>(s: seq<T>, key: T -> K): (r: seq<T>)
  {
    DistinctAfter(s, key, {})
  }

  /** The key of an element that is its own key. */
  function Identity<T>(x: T): T
  {
    x
  }

  /** No element occurs twice. */
  ghost predicate NoDuplicates<T>(s: seq<T>)
  {
    forall i, j :: 0 <= i < j < |s| ==> s[i] != s[j]
  }

  /** Without duplicates, every element is counted at most once, and back. */
  lemma {:induction false} NoDuplicatesCount<T>(s: seq<T>)
    ensures NoDuplicates(s) <==> forall x :: multiset(s)[x] <= 1
  {
    if s != [] {
      NoDuplicatesCount(s[1..]);
      assert s == [s[0]] + s[1..];
      if NoDuplicates(s) {
        assert NoDuplicates(s[1..]) by {
          forall i, j | 0 <= i < j < |s[1..]|
            ensures s[1..][i] != s[1..][j]
          {
            assert s[1..][i] == s[i + 1] && s[1..][j] == s[j + 1];
          }
        }
        assert forall k :: 0 <= k < |s[1..]| ==> s[1..][k] == s[k + 1];
      }
      if forall x :: multiset(s)[x] <= 1 {
        assert forall x :: multiset(s[1..])[x] <= 1 by {
          forall x
            ensures multiset(s[1..])[x] <= 1
          {
            assert multiset(s)[x] == multiset([s[0]])[x] + multiset(s[1..])[x];
          }
        }
        assert multiset(s)[s[0]] == 1 + multiset(s[1..])[s[0]];
        forall i, j | 0 <= i < j < |s|
          ensures s[i] != s[j]
        {
          if i == 0 {
            assert s[j] in s[1..] by {
              assert s[1..][j - 1] == s[j];
            }
          } else {
            assert s[1..][i - 1] == s[i] && s[1..][j - 1] == s[j];
          }
        }
      }
    }
  }

  /** The first element of `s` whose key is `k`: the reference for "keep first". */
  function First<T(!new), K(==, !new)>(s: seq<T>, key: T -> K, k: K): (x: T)
    requires k in KeysOf(s, key)
    ensures x in s && key(x) == k
  {
    if key(s[0]) == k then s[0]
    else
      assert k in KeysOf(s[1..], key) by {
        var y :| y in s && key(y) == k;
        assert y != s[0];
      }
      First(s[1..], key, k)
  }

  /** Every element kept by the de-duplication is the first element of `s` with its key. */
  lemma {:induction false} DistinctAfterKeepsFirst<T(!new), K(!new)>(s: seq<T>, key: T -> K, seen: set<K>)
    ensures forall x :: x in DistinctAfter(s, key, seen) ==> key(x) in KeysOf(s, key) && x == First(s, key, key(x))
  {
    if s != [] {
      if key(s[0]) in seen {
        DistinctAfterKeepsFirst(s[1..], key, seen);
      } else {
        DistinctAfterKeepsFirst(s[1..], key, seen + {key(s[0])});
      }
    }
  }

  /** De-duplication keeps order. */
  lemma {:induction false} DistinctAfterIsSubsequence<T(!new), K(!new)>(s: seq<T>, key: T -> K, seen: set<K>)
    ensures SubsequenceOf(DistinctAfter(s, key, seen), s)
  {
    if s != [] {
      if key(s[0]) in seen {
        var r := DistinctAfter(s[1..], key, seen);
        DistinctAfterIsSubsequence(s[1..], key, seen);
        if r != [] {
          assert SubsequenceOf(r, s[1..]);
        }
      } else {
        var r := DistinctAfter(s[1..], key, seen + {key(s[0])});
        DistinctAfterIsSubsequence(s[1..], key, seen + {key(s[0])});
        assert ([s[0]] + r)[1..] == r;
      }
    }
  }

  /** The first `n` elements of `s`, or all of them when there are fewer (pandas `head(n)`). */
  function Take<T(!new)>(s: seq<T>, n: nat): (r: seq<T>)
    ensures |r| == if n <= |s| then n else |s|
    ensures r == s[..|r|]
  {
    if n <= |s| then s[..n] else s
  }
}
