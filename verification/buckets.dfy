/** The dict-of-lists grouping loop the cinema queries use:
    `if d.get(k) is None: d[k] = []` then `d[k].append(x)`. A dict whose keys
    are objects compared by `__eq__` keeps the object first stored, so a
    bucket is represented by its entries alone and its key is the key of its
    first entry; buckets come in order of first appearance. */
module Buckets {
  import opened Seqs

  /** The test "has key `k`". */
  function KeyIs<T, K(==)>(key: T -> K, k: K): T -> bool
  {
    x => key(x) == k
  }

  predicate NonEmptyBuckets<T>(bs: seq<seq<T>>)
  {
    forall i :: 0 <= i < |bs| ==> 0 < |bs[i]|
  }

  /** Bucket keys are pairwise different. */
  predicate BucketKeysDistinct<T, K(==)>(key: T -> K, bs: seq<seq<T>>)
    requires NonEmptyBuckets(bs)
  {
    forall i, j :: 0 <= i < j < |bs| ==> key(bs[i][0]) != key(bs[j][0])
  }

  /** Each bucket holds exactly the entries of `s` with its key, in their
      order in `s`. */
  predicate BucketsAreFilters<T(==,!new), K(==)>(key: T -> K, s: seq<T>, bs: seq<seq<T>>)
    requires NonEmptyBuckets(bs)
  {
    forall i :: 0 <= i < |bs| ==> bs[i] == Filter(s, KeyIs(key, key(bs[i][0])))
  }

  /** Every entry of `s` has a bucket. */
  predicate BucketsCover<T(==), K(==)>(key: T -> K, s: seq<T>, bs: seq<seq<T>>)
    requires NonEmptyBuckets(bs)
  {
    forall x :: x in s ==> exists i :: 0 <= i < |bs| && key(bs[i][0]) == key(x)
  }

  /** Position of the first entry of `s` with key `k`, or `|s|` when there
      is none: the moment the dict first sees `k`. */
  function FirstKeyIndex<T, K(==)>(key: T -> K, s: seq<T>, k: K): (i: nat)
    ensures i <= |s|
    ensures i < |s| ==> key(s[i]) == k
  {
    if |s| == 0 then 0
    else if key(s[0]) == k then 0
    else 1 + FirstKeyIndex(key, s[1..], k)
  }

  /** No entry before `FirstKeyIndex` has the key. */
  lemma {:induction false} FirstKeyIndexIsFirst<T, K>(key: T -> K, s: seq<T>, k: K)
    ensures forall j :: 0 <= j < FirstKeyIndex(key, s, k) ==> key(s[j]) != k
    decreases |s|
  {
    if |s| > 0 && key(s[0]) != k {
      FirstKeyIndexIsFirst(key, s[1..], k);
      forall j | 0 < j < FirstKeyIndex(key, s, k)
        ensures key(s[j]) != k
      {
        assert s[j] == s[1..][j - 1];
      }
    }
  }

  /** Buckets come in the order their keys first appear in `s`: a dict
      iterates in insertion order. */
  predicate BucketsInFirstOrder<T, K(==)>(key: T -> K, s: seq<T>, bs: seq<seq<T>>)
    requires NonEmptyBuckets(bs)
  {
    forall i, j :: 0 <= i < j < |bs| ==> FirstKeyIndex(key, s, key(bs[i][0])) < FirstKeyIndex(key, s, key(bs[j][0]))
  }

  /** `bs` is the dict `s` groups into under `key`. */
  predicate Bucketed<T(==,!new), K(==)>(key: T -> K, s: seq<T>, bs: seq<seq<T>>)
  {
    && NonEmptyBuckets(bs)
    && BucketKeysDistinct(key, bs)
    && BucketsAreFilters(key, s, bs)
    && BucketsCover(key, s, bs)
  }

  /** Position of the bucket for key `k`, or `|bs|` when there is none
      (`d.get(k) is None`). */
  function BucketIndex<T, K(==)>(bs: seq<seq<T>>, key: T -> K, k: K): (i: nat)
    requires NonEmptyBuckets(bs)
    ensures i <= |bs|
    ensures i < |bs| ==> key(bs[i][0]) == k
    ensures forall j :: 0 <= j < i ==> key(bs[j][0]) != k
  {
    if |bs| == 0 then 0
    else if key(bs[0][0]) == k then 0
    else 1 + BucketIndex(bs[1..], key, k)
  }

  /** One turn of the loop: append `x` to its bucket, opening a new bucket
      at the end when its key is new. */
  function AddToBucket<T, K(==)>(bs: seq<seq<T>>, key: T -> K, x: T): seq<seq<T>>
    requires NonEmptyBuckets(bs)
  {
    var i := BucketIndex(bs, key, key(x));
    if i < |bs| then bs[i := bs[i] + [x]] else bs + [[x]]
  }

  /** The whole loop over `s`. */
  function GroupByKey<T(==,!new), K(==)>(key: T -> K, s: seq<T>): (bs: seq<seq<T>>)
    ensures Bucketed(key, s, bs)
    ensures BucketsInFirstOrder(key, s, bs)
    decreases |s|
  {
    if |s| == 0 then []
    else
      var prefix := s[..|s| - 1];
      var x := s[|s| - 1];
      LastSplit(s);
      var bs := GroupByKey(key, prefix);
      AddKeepsBucketed(key, prefix, bs, x);
      AddKeepsOrder(key, prefix, bs, x);
      AddToBucket(bs, key, x)
  }

  /** Appending an entry leaves the first position of a key already seen
      alone, puts a new key at the end, and leaves other keys unseen. */
  lemma {:induction false} FirstKeyIndexAppend<T, K>(key: T -> K, s: seq<T>, x: T, k: K)
    ensures FirstKeyIndex(key, s + [x], k) ==
      if FirstKeyIndex(key, s, k) < |s| then FirstKeyIndex(key, s, k)
      else if key(x) == k then |s| else |s| + 1
    decreases |s|
  {
    if |s| > 0 && key(s[0]) != k {
      assert (s + [x])[1..] == s[1..] + [x];
      FirstKeyIndexAppend(key, s[1..], x, k);
    }
  }

  /** The key of an entry of `s` is first seen inside `s`. */
  lemma SeenKey<T, K>(key: T -> K, s: seq<T>, y: T)
    requires y in s
    ensures FirstKeyIndex(key, s, key(y)) < |s|
  {
    var j :| 0 <= j < |s| && s[j] == y;
    FirstKeyIndexIsFirst(key, s, key(y));
  }

  /** One turn of the loop keeps the buckets in first-appearance order. */
  lemma AddKeepsOrder<T(!new), K>(key: T -> K, s: seq<T>, bs: seq<seq<T>>, x: T)
    requires Bucketed(key, s, bs) && BucketsInFirstOrder(key, s, bs)
    ensures NonEmptyBuckets(AddToBucket(bs, key, x))
    ensures BucketsInFirstOrder(key, s + [x], AddToBucket(bs, key, x))
  {
    AddKeepsBucketed(key, s, bs, x);
    OldKeysStay(key, s, bs, x);
    var k := BucketIndex(bs, key, key(x));
    if k < |bs| {
      GrownBucketHeads(bs, k, x);
      assert AddToBucket(bs, key, x) == bs[k := bs[k] + [x]];
    } else {
      assert AddToBucket(bs, key, x) == bs + [[x]];
      NewKeyLast(key, s, bs, x);
    }
  }

  /** The first position of every bucket key lies in `s` and does not move
      when an entry is appended. */
  lemma OldKeysStay<T(!new), K>(key: T -> K, s: seq<T>, bs: seq<seq<T>>, x: T)
    requires NonEmptyBuckets(bs) && BucketsAreFilters(key, s, bs)
    ensures forall i :: 0 <= i < |bs| ==>
      FirstKeyIndex(key, s + [x], key(bs[i][0])) == FirstKeyIndex(key, s, key(bs[i][0])) < |s|
  {
    forall i | 0 <= i < |bs|
      ensures FirstKeyIndex(key, s + [x], key(bs[i][0])) == FirstKeyIndex(key, s, key(bs[i][0])) < |s|
    {
      BucketEntries(key, s, bs, i, bs[i][0]);
      SeenKey(key, s, bs[i][0]);
      FirstKeyIndexAppend(key, s, x, key(bs[i][0]));
    }
  }

  /** A bucket opened for a new key comes after every older bucket. */
  lemma NewKeyLast<T(!new), K>(key: T -> K, s: seq<T>, bs: seq<seq<T>>, x: T)
    requires NonEmptyBuckets(bs) && BucketsCover(key, s, bs) && BucketsInFirstOrder(key, s, bs)
    requires forall i :: 0 <= i < |bs| ==> key(bs[i][0]) != key(x)
    requires forall i :: 0 <= i < |bs| ==>
      FirstKeyIndex(key, s + [x], key(bs[i][0])) == FirstKeyIndex(key, s, key(bs[i][0])) < |s|
    ensures NonEmptyBuckets(bs + [[x]])
    ensures BucketsInFirstOrder(key, s + [x], bs + [[x]])
  {
    UnseenKey(key, s, bs, x);
    FirstKeyIndexAppend(key, s, x, key(x));
    OpenedLast(key, bs, x, k => FirstKeyIndex(key, s, k), k => FirstKeyIndex(key, s + [x], k), |s|);
  }

  /** A bucket opened at position `n`, after every older bucket's
      position, keeps the buckets ordered by position. */
  lemma OpenedLast<T, K>(key: T -> K, bs: seq<seq<T>>, x: T, before: K -> int, after: K -> int, n: int)
    requires NonEmptyBuckets(bs)
    requires forall i, j :: 0 <= i < j < |bs| ==> before(key(bs[i][0])) < before(key(bs[j][0]))
    requires forall i :: 0 <= i < |bs| ==> after(key(bs[i][0])) == before(key(bs[i][0])) < n
    requires after(key(x)) == n
    ensures NonEmptyBuckets(bs + [[x]])
    ensures forall i, j :: 0 <= i < j < |bs + [[x]]| ==> after(key((bs + [[x]])[i][0])) < after(key((bs + [[x]])[j][0]))
  {
    NewBucketHeads(bs, x);
  }

  /** A key no bucket holds is not the key of any entry of `s`. */
  lemma UnseenKey<T(!new), K>(key: T -> K, s: seq<T>, bs: seq<seq<T>>, x: T)
    requires NonEmptyBuckets(bs) && BucketsCover(key, s, bs)
    requires forall i :: 0 <= i < |bs| ==> key(bs[i][0]) != key(x)
    ensures FirstKeyIndex(key, s, key(x)) == |s|
  {
    var n := FirstKeyIndex(key, s, key(x));
    if n < |s| {
      assert false;
    }
  }

  /** Opening a bucket leaves the older ones, and their heads, in place. */
  lemma NewBucketHeads<T>(bs: seq<seq<T>>, x: T)
    requires NonEmptyBuckets(bs)
    ensures NonEmptyBuckets(bs + [[x]])
    ensures forall i :: 0 <= i < |bs| ==> (bs + [[x]])[i] == bs[i]
    ensures (bs + [[x]])[|bs|][0] == x
  {
  }

  /** The key of entry `n` is first seen no later than `n`, and exactly
      at `n` when no earlier entry has it. */
  lemma FirstKeyIndexOfEntry<T, K>(key: T -> K, s: seq<T>, n: nat)
    requires n < |s|
    ensures FirstKeyIndex(key, s, key(s[n])) <= n
    ensures (forall k :: 0 <= k < n ==> key(s[k]) != key(s[n])) ==> FirstKeyIndex(key, s, key(s[n])) == n
  {
    FirstKeyIndexIsFirst(key, s, key(s[n]));
  }

  /** In first-appearance order, a bucket whose key was seen earlier comes
      first. */
  lemma BucketOrderFollowsFirstSeen<T, K>(key: T -> K, s: seq<T>, bs: seq<seq<T>>, a: nat, b: nat)
    requires NonEmptyBuckets(bs) && BucketsInFirstOrder(key, s, bs)
    requires a < |bs| && b < |bs|
    requires FirstKeyIndex(key, s, key(bs[a][0])) < FirstKeyIndex(key, s, key(bs[b][0]))
    ensures a < b
  {
  }

  /** In first-appearance order, only the first bucket can hold the key
      seen at position 0. */
  lemma LaterBucketsSeenLater<T, K>(key: T -> K, s: seq<T>, bs: seq<seq<T>>)
    requires NonEmptyBuckets(bs) && BucketsInFirstOrder(key, s, bs)
    ensures forall i :: 0 < i < |bs| ==> 0 < FirstKeyIndex(key, s, key(bs[i][0]))
  {
    forall i | 0 < i < |bs|
      ensures 0 < FirstKeyIndex(key, s, key(bs[i][0]))
    {
      assert FirstKeyIndex(key, s, key(bs[0][0])) < FirstKeyIndex(key, s, key(bs[i][0]));
    }
  }

  /** The key of every bucket, in bucket order. */
  function BucketKeys<T, K>(key: T -> K, bs: seq<seq<T>>): seq<K>
    requires NonEmptyBuckets(bs)
  {
    seq(|bs|, i requires 0 <= i < |bs| => key(bs[i][0]))
  }

  /** The bucket keys are exactly the keys of the entries of `s`. */
  lemma BucketKeysAreSourceKeys<T(!new), K>(key: T -> K, s: seq<T>, bs: seq<seq<T>>, k: K)
    requires Bucketed(key, s, bs)
    ensures k in BucketKeys(key, bs) <==> exists y :: y in s && key(y) == k
  {
    var ks := BucketKeys(key, bs);
    if k in ks {
      var i :| 0 <= i < |ks| && ks[i] == k;
      BucketEntries(key, s, bs, i, bs[i][0]);
    }
    if exists y :: y in s && key(y) == k {
      var y :| y in s && key(y) == k;
      var i :| 0 <= i < |bs| && key(bs[i][0]) == key(y);
      assert ks[i] == k;
    }
  }

  /** Only one list of buckets groups `s` in first-appearance order, so
      the contract of `GroupByKey` fixes its result entirely. */
  lemma BucketedInOrderUnique<T(!new), K>(key: T -> K, s: seq<T>, a: seq<seq<T>>, b: seq<seq<T>>)
    requires Bucketed(key, s, a) && BucketsInFirstOrder(key, s, a)
    requires Bucketed(key, s, b) && BucketsInFirstOrder(key, s, b)
    ensures a == b
  {
    var ka := BucketKeys(key, a);
    var kb := BucketKeys(key, b);
    var f := (k: K) => FirstKeyIndex(key, s, k);
    assert StrictlySortedBy(ka, f);
    assert StrictlySortedBy(kb, f);
    forall k
      ensures k in ka <==> k in kb
    {
      BucketKeysAreSourceKeys(key, s, a, k);
      BucketKeysAreSourceKeys(key, s, b, k);
    }
    StrictlySortedUnique(ka, kb, f);
    assert |a| == |ka| == |kb| == |b|;
    forall i | 0 <= i < |a|
      ensures a[i] == b[i]
    {
      assert ka[i] == kb[i];
    }
  }

  lemma LastSplit<T>(s: seq<T>)
    requires 0 < |s|
    ensures s == s[..|s| - 1] + [s[|s| - 1]]
  {
  }

  lemma AddKeepsBucketed<T(!new), K>(key: T -> K, s: seq<T>, bs: seq<seq<T>>, x: T)
    requires Bucketed(key, s, bs)
    ensures Bucketed(key, s + [x], AddToBucket(bs, key, x))
  {
    if BucketIndex(bs, key, key(x)) < |bs| {
      AddToOldBucket(key, s, bs, x);
    } else {
      AddToNewBucket(key, s, bs, x);
    }
  }

  lemma AddToOldBucket<T(!new), K>(key: T -> K, s: seq<T>, bs: seq<seq<T>>, x: T)
    requires Bucketed(key, s, bs)
    requires BucketIndex(bs, key, key(x)) < |bs|
    ensures Bucketed(key, s + [x], AddToBucket(bs, key, x))
  {
    var k := BucketIndex(bs, key, key(x));
    var r := bs[k := bs[k] + [x]];
    assert AddToBucket(bs, key, x) == r;
    GrownBucketHeads(bs, k, x);
    assert BucketKeysDistinct(key, r);
    GrownBucketFilters(key, s, bs, k, x);
    GrownBucketCover(key, s, bs, k, x);
  }

  lemma GrownBucketHeads<T>(bs: seq<seq<T>>, k: nat, x: T)
    requires NonEmptyBuckets(bs) && k < |bs|
    ensures NonEmptyBuckets(bs[k := bs[k] + [x]])
    ensures forall i :: 0 <= i < |bs| ==> bs[k := bs[k] + [x]][i][0] == bs[i][0]
  {
  }

  lemma GrownBucketFilters<T(!new), K>(key: T -> K, s: seq<T>, bs: seq<seq<T>>, k: nat, x: T)
    requires NonEmptyBuckets(bs) && BucketKeysDistinct(key, bs) && BucketsAreFilters(key, s, bs)
    requires k < |bs| && key(bs[k][0]) == key(x)
    ensures NonEmptyBuckets(bs[k := bs[k] + [x]])
    ensures BucketsAreFilters(key, s + [x], bs[k := bs[k] + [x]])
  {
    var r := bs[k := bs[k] + [x]];
    GrownBucketHeads(bs, k, x);
    forall i | 0 <= i < |r|
      ensures r[i] == Filter(s + [x], KeyIs(key, key(r[i][0])))
    {
      FilterAppend(s, x, KeyIs(key, key(bs[i][0])));
    }
  }

  lemma GrownBucketCover<T(!new), K>(key: T -> K, s: seq<T>, bs: seq<seq<T>>, k: nat, x: T)
    requires NonEmptyBuckets(bs) && BucketsCover(key, s, bs)
    requires k < |bs| && key(bs[k][0]) == key(x)
    ensures NonEmptyBuckets(bs[k := bs[k] + [x]])
    ensures BucketsCover(key, s + [x], bs[k := bs[k] + [x]])
  {
    var r := bs[k := bs[k] + [x]];
    GrownBucketHeads(bs, k, x);
    forall y | y in s + [x]
      ensures exists i :: 0 <= i < |r| && key(r[i][0]) == key(y)
    {
      if y == x {
        assert key(r[k][0]) == key(y);
      } else {
        assert y in s;
        var i :| 0 <= i < |bs| && key(bs[i][0]) == key(y);
        assert key(r[i][0]) == key(y);
      }
    }
  }

  lemma AddToNewBucket<T(!new), K>(key: T -> K, s: seq<T>, bs: seq<seq<T>>, x: T)
    requires Bucketed(key, s, bs)
    requires BucketIndex(bs, key, key(x)) == |bs|
    ensures Bucketed(key, s + [x], AddToBucket(bs, key, x))
  {
    assert AddToBucket(bs, key, x) == bs + [[x]];
    NewBucketDistinct(key, bs, x);
    NewBucketFilters(key, s, bs, x);
    NewBucketCover(key, s, bs, x);
  }

  lemma NewBucketDistinct<T, K>(key: T -> K, bs: seq<seq<T>>, x: T)
    requires NonEmptyBuckets(bs) && BucketKeysDistinct(key, bs)
    requires forall i :: 0 <= i < |bs| ==> key(bs[i][0]) != key(x)
    ensures NonEmptyBuckets(bs + [[x]])
    ensures BucketKeysDistinct(key, bs + [[x]])
  {
    var r := bs + [[x]];
    forall i | 0 <= i < |r|
      ensures 0 < |r[i]|
    {
      if i < |bs| {
        assert r[i] == bs[i];
      }
    }
    forall i, j | 0 <= i < j < |r|
      ensures key(r[i][0]) != key(r[j][0])
    {
      assert r[i] == bs[i];
      if j < |bs| {
        assert r[j] == bs[j];
      } else {
        assert r[j] == [x];
      }
    }
  }

  lemma NewBucketFilters<T(!new), K>(key: T -> K, s: seq<T>, bs: seq<seq<T>>, x: T)
    requires NonEmptyBuckets(bs) && BucketsAreFilters(key, s, bs) && BucketsCover(key, s, bs)
    requires forall i :: 0 <= i < |bs| ==> key(bs[i][0]) != key(x)
    ensures NonEmptyBuckets(bs + [[x]])
    ensures BucketsAreFilters(key, s + [x], bs + [[x]])
  {
    var r := bs + [[x]];
    forall y | y in s
      ensures !KeyIs(key, key(x))(y)
    {
      var i :| 0 <= i < |bs| && key(bs[i][0]) == key(y);
    }
    FilterNone(s, KeyIs(key, key(x)));
    FilterAppend(s, x, KeyIs(key, key(x)));
    forall i | 0 <= i < |r|
      ensures r[i] == Filter(s + [x], KeyIs(key, key(r[i][0])))
    {
      if i < |bs| {
        FilterAppend(s, x, KeyIs(key, key(bs[i][0])));
      }
    }
  }

  lemma NewBucketCover<T(!new), K>(key: T -> K, s: seq<T>, bs: seq<seq<T>>, x: T)
    requires NonEmptyBuckets(bs) && BucketsCover(key, s, bs)
    ensures NonEmptyBuckets(bs + [[x]])
    ensures BucketsCover(key, s + [x], bs + [[x]])
  {
    var r := bs + [[x]];
    forall y | y in s + [x]
      ensures exists i :: 0 <= i < |r| && key(r[i][0]) == key(y)
    {
      if y == x {
        assert key(r[|bs|][0]) == key(y);
      } else {
        assert y in s;
        var i :| 0 <= i < |bs| && key(bs[i][0]) == key(y);
        assert key(r[i][0]) == key(y);
      }
    }
  }

  /** Every bucket entry comes from `s` and has its bucket's key; so each
      entry of `s` sits in exactly one bucket. */
  lemma BucketEntries<T(!new), K>(key: T -> K, s: seq<T>, bs: seq<seq<T>>, i: nat, x: T)
    requires NonEmptyBuckets(bs) && BucketsAreFilters(key, s, bs)
    requires i < |bs|
    ensures x in bs[i] <==> x in s && key(x) == key(bs[i][0])
  {
    FilterMembers(s, KeyIs(key, key(bs[i][0])));
  }

  /** Each entry of `s` sits in exactly one bucket. */
  lemma OneBucketEach<T(!new), K>(key: T -> K, s: seq<T>, bs: seq<seq<T>>, x: T)
    requires Bucketed(key, s, bs)
    requires x in s
    ensures exists i :: 0 <= i < |bs| && x in bs[i]
    ensures forall i, j :: 0 <= i < j < |bs| ==> !(x in bs[i] && x in bs[j])
  {
    var i :| 0 <= i < |bs| && key(bs[i][0]) == key(x);
    BucketEntries(key, s, bs, i, x);
    forall i, j | 0 <= i < j < |bs|
      ensures !(x in bs[i] && x in bs[j])
    {
      BucketEntries(key, s, bs, i, x);
      BucketEntries(key, s, bs, j, x);
    }
  }

  /** The first entry of every bucket: one entry per key, as
      `list(set(...))` keeps one object per equivalence class. */
  function Representatives<T>(bs: seq<seq<T>>): seq<T>
    requires NonEmptyBuckets(bs)
  {
    seq(|bs|, i requires 0 <= i < |bs| => bs[i][0])
  }

  /** Deduplication under `key`: no two kept entries share a key, every kept
      entry comes from `s`, and every key of `s` is kept. */
  function DistinctBy<T(==,!new), K(==)>(key: T -> K, s: seq<T>): (r: seq<T>)
    ensures forall i, j :: 0 <= i < j < |r| ==> key(r[i]) != key(r[j])
    ensures forall x :: x in r ==> x in s
    ensures forall x :: x in s ==> exists y :: y in r && key(y) == key(x)
  {
    var bs := GroupByKey(key, s);
    RepresentativesFacts(key, s, bs);
    Representatives(bs)
  }

  lemma RepresentativesFacts<T(!new), K>(key: T -> K, s: seq<T>, bs: seq<seq<T>>)
    requires Bucketed(key, s, bs)
    ensures forall i, j :: 0 <= i < j < |bs| ==> key(Representatives(bs)[i]) != key(Representatives(bs)[j])
    ensures forall x :: x in Representatives(bs) ==> x in s
    ensures forall x :: x in s ==> exists y :: y in Representatives(bs) && key(y) == key(x)
  {
    RepresentativesFromSource(key, s, bs);
    RepresentativesCover(key, s, bs);
  }

  lemma RepresentativesFromSource<T(!new), K>(key: T -> K, s: seq<T>, bs: seq<seq<T>>)
    requires NonEmptyBuckets(bs) && BucketsAreFilters(key, s, bs)
    ensures forall x :: x in Representatives(bs) ==> x in s
  {
    var r := Representatives(bs);
    forall x | x in r
      ensures x in s
    {
      var i :| 0 <= i < |r| && r[i] == x;
      BucketEntries(key, s, bs, i, x);
    }
  }

  lemma RepresentativesCover<T, K>(key: T -> K, s: seq<T>, bs: seq<seq<T>>)
    requires NonEmptyBuckets(bs) && BucketsCover(key, s, bs)
    ensures forall x :: x in s ==> exists y :: y in Representatives(bs) && key(y) == key(x)
  {
    var r := Representatives(bs);
    forall x | x in s
      ensures exists y :: y in r && key(y) == key(x)
    {
      var i :| 0 <= i < |bs| && key(bs[i][0]) == key(x);
      assert r[i] in r;
    }
  }
}
