/** Sequence operations behind the source's list comprehensions, `set()`
    deduplication and `sorted()`, with the specifications they satisfy. */
module Seqs {

  predicate NoDuplicates<T(==)>(s: seq<T>)
  {
    forall i, j :: 0 <= i < j < |s| ==> s[i] != s[j]
  }

  predicate StrictlyIncreasing(s: seq<int>)
  {
    forall i, j :: 0 <= i < j < |s| ==> s[i] < s[j]
  }

  predicate SortedBy<T>(s: seq<T>, key: T -> int)
  {
    forall i, j :: 0 <= i < j < |s| ==> key(s[i]) <= key(s[j])
  }

  predicate StrictlySortedBy<T>(s: seq<T>, key: T -> int)
  {
    forall i, j :: 0 <= i < j < |s| ==> key(s[i]) < key(s[j])
  }

  function Elements<T>(s: seq<T>): set<T>
  {
    set x | x in s
  }

  /** A duplicate-free sequence has as many distinct elements as entries. */
  lemma {:induction false} DistinctCardinality<T>(s: seq<T>)
    requires NoDuplicates(s)
    ensures |Elements(s)| == |s|
    decreases |s|
  {
    if |s| > 0 {
      DistinctCardinality(s[1..]);
      assert Elements(s) == {s[0]} + Elements(s[1..]);
      assert s[0] !in Elements(s[1..]);
    }
  }

  /** Only one sequence strictly sorted by `f` holds given elements. */
  lemma {:induction false} StrictlySortedUnique<T>(a: seq<T>, b: seq<T>, f: T -> int)
    requires StrictlySortedBy(a, f) && StrictlySortedBy(b, f)
    requires forall x :: x in a <==> x in b
    ensures a == b
    decreases |a|
  {
    if |a| == 0 {
      EmptyWhenNoMembers(b);
    } else {
      assert a[0] in b && b[0] in a;
      var i :| 0 <= i < |b| && b[i] == a[0];
      var j :| 0 <= j < |a| && a[j] == b[0];
      assert a[0] == b[0];
      assert a == [a[0]] + a[1..] && b == [b[0]] + b[1..];
      forall x
        ensures x in a[1..] <==> x in b[1..]
      {
        SortedTailMember(a, b, f, x);
        SortedTailMember(b, a, f, x);
      }
      StrictlySortedUnique(a[1..], b[1..], f);
    }
  }

  /** With equal heads and equal members, a member of one tail is a member
      of the other tail. */
  lemma SortedTailMember<T>(a: seq<T>, b: seq<T>, f: T -> int, x: T)
    requires StrictlySortedBy(a, f) && 0 < |a| && 0 < |b| && a[0] == b[0]
    requires forall y :: y in a <==> y in b
    ensures x in a[1..] ==> x in b[1..]
  {
    if x in a[1..] {
      var m :| 0 <= m < |a[1..]| && a[1..][m] == x;
      assert f(a[0]) < f(a[m + 1]);
      assert x in b && x != b[0];
      var n :| 0 <= n < |b| && b[n] == x;
      assert b[1..][n - 1] == x;
    }
  }

  /** A sequence with no members is empty. */
  lemma EmptyWhenNoMembers<T>(s: seq<T>)
    ensures (forall x :: x !in s) ==> s == []
  {
    if |s| > 0 {
      assert s[0] in s;
    }
  }

  /** `r` keeps some of the entries of `s`, in their order. */
  predicate IsSubsequence<T(==)>(r: seq<T>, s: seq<T>)
    decreases |s|
  {
    |r| == 0 || (0 < |s| && if r[0] == s[0] then IsSubsequence(r[1..], s[1..]) else IsSubsequence(r, s[1..]))
  }

  lemma {:induction false} SubsequenceOfSelf<T>(s: seq<T>)
    ensures IsSubsequence(s, s)
    decreases |s|
  {
    if |s| > 0 {
      SubsequenceOfSelf(s[1..]);
    }
  }

  /** The entries of `s` satisfying `p`, in order: a list comprehension
      `[x for x in s if p(x)]`. */
  function Filter<T(==,!new)>(s: seq<T>, p: T -> bool): (r: seq<T>)
    ensures IsSubsequence(r, s)
    ensures forall i :: 0 <= i < |r| ==> p(r[i])
    decreases |s|
  {
    if |s| == 0 then []
    else
      var rest := Filter(s[1..], p);
      if p(s[0]) then
        var r := [s[0]] + rest;
        assert r[1..] == rest;
        r
      else
        rest
  }

  /** The filter keeps every passing entry as often as the input holds it,
      and no failing entry. */
  lemma {:induction false} FilterCount<T(!new)>(s: seq<T>, p: T -> bool)
    ensures forall x :: multiset(Filter(s, p))[x] == if p(x) then multiset(s)[x] else 0
    decreases |s|
  {
    if |s| > 0 {
      FilterCount(s[1..], p);
      FilterUnfold(s, p);
      var head := if p(s[0]) then [s[0]] else [];
      assert s == [s[0]] + s[1..];
      assert multiset(s) == multiset{s[0]} + multiset(s[1..]);
      assert multiset(Filter(s, p)) == multiset(head) + multiset(Filter(s[1..], p));
    }
  }

  /** Filtering with the same test twice changes nothing. */
  lemma {:induction false} FilterIdempotent<T(!new)>(s: seq<T>, p: T -> bool)
    ensures Filter(Filter(s, p), p) == Filter(s, p)
    decreases |s|
  {
    if |s| > 0 {
      FilterIdempotent(s[1..], p);
      if p(s[0]) {
        assert ([s[0]] + Filter(s[1..], p))[1..] == Filter(s[1..], p);
      }
    }
  }

  /** Filtering an extended sequence filters the old part and tests the
      new entry: what one more turn of a filtering loop does. */
  lemma {:induction false} FilterAppend<T(!new)>(s: seq<T>, x: T, p: T -> bool)
    ensures Filter(s + [x], p) == Filter(s, p) + (if p(x) then [x] else [])
    decreases |s|
  {
    var tail := if p(x) then [x] else [];
    if |s| == 0 {
      assert s + [x] == [x] && [x][1..] == [];
    } else {
      var t := s + [x];
      assert t[0] == s[0] && t[1..] == s[1..] + [x];
      FilterUnfold(t, p);
      FilterUnfold(s, p);
      FilterAppend(s[1..], x, p);
      var head := if p(s[0]) then [s[0]] else [];
      assert Filter(t, p) == head + (Filter(s[1..], p) + tail);
      assert head + (Filter(s[1..], p) + tail) == (head + Filter(s[1..], p)) + tail;
    }
  }

  /** One step of the comprehension: the first entry, when it passes, then
      the filtered rest. */
  lemma FilterUnfold<T(!new)>(s: seq<T>, p: T -> bool)
    requires 0 < |s|
    ensures Filter(s, p) == (if p(s[0]) then [s[0]] else []) + Filter(s[1..], p)
  {
    if !p(s[0]) {
      assert [] + Filter(s[1..], p) == Filter(s[1..], p);
    }
  }

  /** Nothing passes a test no entry satisfies. */
  lemma {:induction false} FilterNone<T(!new)>(s: seq<T>, p: T -> bool)
    requires forall x :: x in s ==> !p(x)
    ensures Filter(s, p) == []
    decreases |s|
  {
    if |s| > 0 {
      assert s[0] in s;
      FilterNone(s[1..], p);
    }
  }

  /** Everything passes a test every entry satisfies. */
  lemma {:induction false} FilterAll<T(!new)>(s: seq<T>, p: T -> bool)
    requires forall i :: 0 <= i < |s| ==> p(s[i])
    ensures Filter(s, p) == s
    decreases |s|
  {
    if |s| > 0 {
      FilterAll(s[1..], p);
      assert s == [s[0]] + s[1..];
    }
  }

  /** The entries of a filter are the entries of the input passing the
      test. */
  lemma FilterMembers<T(!new)>(s: seq<T>, p: T -> bool)
    ensures forall x :: x in Filter(s, p) <==> x in s && p(x)
  {
    var r := Filter(s, p);
    FilterCount(s, p);
    forall x
      ensures x in r <==> x in s && p(x)
    {
      assert x in r <==> x in multiset(r);
      assert x in s <==> x in multiset(s);
    }
  }

  /** Tests that agree everywhere filter alike. */
  lemma {:induction false} FilterExt<T(!new)>(s: seq<T>, p: T -> bool, q: T -> bool)
    requires forall x :: p(x) == q(x)
    ensures Filter(s, p) == Filter(s, q)
    decreases |s|
  {
    if |s| > 0 {
      FilterExt(s[1..], p, q);
    }
  }

  /** The conjunction of two tests. */
  function Both<T>(p: T -> bool, q: T -> bool): T -> bool
  {
    x => p(x) && q(x)
  }

  /** Two filters in a row are one filter on both tests. */
  lemma {:induction false} FilterTwice<T(!new)>(s: seq<T>, p: T -> bool, q: T -> bool)
    ensures Filter(Filter(s, p), q) == Filter(s, Both(p, q))
    decreases |s|
  {
    if |s| > 0 {
      FilterTwice(s[1..], p, q);
      if p(s[0]) {
        assert ([s[0]] + Filter(s[1..], p))[1..] == Filter(s[1..], p);
      }
    }
  }

  /** Filtering a duplicate-free sequence keeps it duplicate-free and keeps
      exactly the entries satisfying the test. */
  lemma FilterOfDistinct<T(!new)>(s: seq<T>, p: T -> bool)
    requires NoDuplicates(s)
    ensures NoDuplicates(Filter(s, p))
    ensures forall x :: x in Filter(s, p) <==> x in s && p(x)
  {
    var r := Filter(s, p);
    FilterCount(s, p);
    MultisetNoDuplicates(s);
    AtMostOnceNoDuplicates(r);
    forall x
      ensures x in r <==> x in s && p(x)
    {
      assert x in r <==> x in multiset(r);
      assert x in s <==> x in multiset(s);
    }
  }

  /** Distinct entries in order of first appearance, as the keys of a dict
      filled by a loop. */
  function Dedup<T(==,!new)>(s: seq<T>): (r: seq<T>)
    ensures NoDuplicates(r)
    ensures forall x :: x in r <==> x in s
    ensures |r| <= |s|
  {
    DedupAfter([], s)
  }

  function DedupAfter<T(==,!new)>(acc: seq<T>, s: seq<T>): (r: seq<T>)
    requires NoDuplicates(acc)
    ensures NoDuplicates(r)
    ensures forall x :: x in r <==> x in acc || x in s
    ensures |acc| <= |r| <= |acc| + |s|
    ensures r[..|acc|] == acc
    decreases |s|
  {
    if |s| == 0 then acc
    else if s[0] in acc then DedupAfter(acc, s[1..])
    else
      var r := DedupAfter(acc + [s[0]], s[1..]);
      assert r[..|acc| + 1] == acc + [s[0]];
      assert r[..|acc|] == r[..|acc| + 1][..|acc|];
      r
  }

  function InsertBy<T>(x: T, s: seq<T>, key: T -> int): (r: seq<T>)
    requires SortedBy(s, key)
    ensures |r| == |s| + 1
    ensures multiset(r) == multiset(s) + multiset{x}
    ensures SortedBy(r, key)
    decreases |s|
  {
    if |s| == 0 then [x]
    else if key(x) <= key(s[0]) then [x] + s
    else
      var rest := InsertBy(x, s[1..], key);
      assert s == [s[0]] + s[1..];
      InsertedAboveHead(x, s, key, rest);
      [s[0]] + rest
  }

  lemma InsertedAboveHead<T>(x: T, s: seq<T>, key: T -> int, rest: seq<T>)
    requires SortedBy(s, key) && 0 < |s| && key(s[0]) < key(x)
    requires multiset(rest) == multiset(s[1..]) + multiset{x}
    ensures forall k :: 0 <= k < |rest| ==> key(s[0]) <= key(rest[k])
  {
    forall k | 0 <= k < |rest|
      ensures key(s[0]) <= key(rest[k])
    {
      assert rest[k] in multiset(rest);
      if rest[k] != x {
        assert rest[k] in multiset(s[1..]);
        var m :| 0 <= m < |s[1..]| && s[1..][m] == rest[k];
        assert s[m + 1] == rest[k];
      }
    }
  }

  /** `sorted(s, key=key)` (insertion sort; stability is not needed because
      every use has pairwise different keys). */
  function SortBy<T>(s: seq<T>, key: T -> int): (r: seq<T>)
    ensures SortedBy(r, key)
    ensures multiset(r) == multiset(s)
    ensures |r| == |s|
    decreases |s|
  {
    if |s| == 0 then []
    else
      assert s == [s[0]] + s[1..];
      InsertBy(s[0], SortBy(s[1..], key), key)
  }

  /** Sorting entries whose keys are pairwise different gives strictly
      increasing keys. */
  lemma SortByDistinctKeys<T>(s: seq<T>, key: T -> int)
    requires forall x, y :: x in s && y in s && x != y ==> key(x) != key(y)
    requires NoDuplicates(s)
    ensures StrictlySortedBy(SortBy(s, key), key)
    ensures NoDuplicates(SortBy(s, key))
    ensures forall x :: x in SortBy(s, key) <==> x in s
  {
    var r := SortBy(s, key);
    SameMultisetSameElements(r, s);
    MultisetNoDuplicates(s);
    AtMostOnceNoDuplicates(r);
    DistinctKeysOnSameElements(s, r, key);
    SortedDistinctKeysStrict(r, key);
  }

  lemma DistinctKeysOnSameElements<T>(s: seq<T>, r: seq<T>, key: T -> int)
    requires forall x, y :: x in s && y in s && x != y ==> key(x) != key(y)
    requires forall x :: x in r <==> x in s
    ensures forall x, y :: x in r && y in r && x != y ==> key(x) != key(y)
  {
  }

  lemma SameMultisetSameElements<T>(r: seq<T>, s: seq<T>)
    requires multiset(r) == multiset(s)
    ensures forall x :: x in r <==> x in s
  {
    forall x
      ensures x in r <==> x in s
    {
      assert x in r <==> x in multiset(r);
      assert x in s <==> x in multiset(s);
    }
  }

  lemma SortedDistinctKeysStrict<T>(r: seq<T>, key: T -> int)
    requires SortedBy(r, key) && NoDuplicates(r)
    requires forall x, y :: x in r && y in r && x != y ==> key(x) != key(y)
    ensures StrictlySortedBy(r, key)
  {
    forall i, j | 0 <= i < j < |r|
      ensures key(r[i]) < key(r[j])
    {
      assert r[i] in r && r[j] in r && r[i] != r[j];
    }
  }

  lemma StrictlySortedNoDuplicates<T>(s: seq<T>, key: T -> int)
    requires StrictlySortedBy(s, key)
    ensures NoDuplicates(s)
  {
    forall i, j | 0 <= i < j < |s|
      ensures s[i] != s[j]
    {
      assert key(s[i]) < key(s[j]);
    }
  }

  lemma {:induction false} AtMostOnceNoDuplicates<T>(s: seq<T>)
    requires forall x :: multiset(s)[x] <= 1
    ensures NoDuplicates(s)
    decreases |s|
  {
    if |s| > 0 {
      assert s == [s[0]] + s[1..];
      assert multiset(s) == multiset{s[0]} + multiset(s[1..]);
      assert forall x :: multiset(s[1..])[x] <= multiset(s)[x];
      AtMostOnceNoDuplicates(s[1..]);
      assert multiset(s[1..])[s[0]] == 0;
    }
  }

  lemma {:induction false} MultisetNoDuplicates<T>(s: seq<T>)
    requires NoDuplicates(s)
    ensures forall x :: multiset(s)[x] <= 1
    decreases |s|
  {
    if |s| > 0 {
      MultisetNoDuplicates(s[1..]);
      assert s == [s[0]] + s[1..];
      assert multiset(s) == multiset{s[0]} + multiset(s[1..]);
      assert s[0] !in s[1..];
    }
  }

  function InsertUnique(x: int, s: seq<int>): (r: seq<int>)
    requires StrictlyIncreasing(s)
    ensures StrictlyIncreasing(r)
    ensures forall y :: y in r <==> y == x || y in s
    decreases |s|
  {
    if |s| == 0 then [x]
    else if x < s[0] then [x] + s
    else if x == s[0] then s
    else
      var rest := InsertUnique(x, s[1..]);
      assert forall k :: 0 <= k < |rest| ==> s[0] < rest[k] by {
        forall k | 0 <= k < |rest|
          ensures s[0] < rest[k]
        {
          assert rest[k] in rest;
          if rest[k] != x {
            assert rest[k] in s[1..];
            var m :| 0 <= m < |s[1..]| && s[1..][m] == rest[k];
            assert s[m + 1] == rest[k];
          }
        }
      }
      [s[0]] + rest
  }

  /** `sorted(list(set(s)))` on integers. */
  function SortedUnique(s: seq<int>): (r: seq<int>)
    ensures StrictlyIncreasing(r)
    ensures forall y :: y in r <==> y in s
    ensures |r| == |Elements(s)|
    decreases |s|
  {
    if |s| == 0 then []
    else
      var r := InsertUnique(s[0], SortedUnique(s[1..]));
      assert NoDuplicates(r);
      DistinctCardinality(r);
      assert Elements(r) == Elements(s);
      r
  }

  /** Smallest entry (`min(s)`). */
  function Min(s: seq<int>): (m: int)
    requires 0 < |s|
    ensures m in s
    ensures forall x :: x in s ==> m <= x
  {
    if |s| == 1 then s[0]
    else
      var m := Min(s[1..]);
      assert s == [s[0]] + s[1..];
      if s[0] <= m then s[0] else m
  }

  /** Largest entry (`max(s)`). */
  function Max(s: seq<int>): (m: int)
    requires 0 < |s|
    ensures m in s
    ensures forall x :: x in s ==> x <= m
  {
    if |s| == 1 then s[0]
    else
      var m := Max(s[1..]);
      assert s == [s[0]] + s[1..];
      if s[0] >= m then s[0] else m
  }
}
