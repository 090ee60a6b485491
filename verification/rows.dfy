/** The row dictionaries the command-line tools build before handing them
    to the table renderer (`app/main.py:12-21,131-158`, `seances.py:13-22,
    145-207`): a `dict[str, str]` as an association list in insertion order,
    and `extract_field_names`. */
module Rows {
  import opened Results
  import opened Text
  import opened Seqs

  type Row = seq<(string, string)>

  function Keys(row: Row): seq<string>
  {
    seq(|row|, i requires 0 <= i < |row| => row[i].0)
  }

  /** A dict has each key once. */
  predicate IsDict(row: Row)
  {
    NoDuplicates(Keys(row))
  }

  /** Position of key `k`, or `|row|` when absent. */
  function KeyPos(row: Row, k: string): (i: nat)
    ensures i <= |row|
    ensures i < |row| ==> row[i].0 == k
    ensures forall j :: 0 <= j < i ==> row[j].0 != k
  {
    if |row| == 0 then 0
    else if row[0].0 == k then 0
    else 1 + KeyPos(row[1..], k)
  }

  /** `row.get(k)`. */
  function Get(row: Row, k: string): (r: Option<string>)
    ensures r.Some? <==> k in Keys(row)
    ensures r.Some? ==> (k, r.value) in row
  {
    var i := KeyPos(row, k);
    if i < |row| then
      assert row[i] in row && Keys(row)[i] == k;
      Some(row[i].1)
    else
      assert forall j :: 0 <= j < |row| ==> Keys(row)[j] != k;
      None
  }

  /** In a dict, the value stored under a key is the one `Get` finds. */
  lemma GetFindsEntry(row: Row, k: string, v: string)
    requires IsDict(row)
    ensures Get(row, k) == Some(v) <==> (k, v) in row
  {
    if (k, v) in row {
      var i :| 0 <= i < |row| && row[i] == (k, v);
      var p := KeyPos(row, k);
      assert p <= i;
      assert Keys(row)[p] == Keys(row)[i];
    }
  }

  /** `row[k] = v`: an existing key keeps its place and takes the new
      value; a new key goes at the end. */
  function Put(row: Row, k: string, v: string): (r: Row)
    requires IsDict(row)
    ensures IsDict(r)
    ensures k in Keys(row) ==> Keys(r) == Keys(row)
    ensures k !in Keys(row) ==> Keys(r) == Keys(row) + [k]
  {
    var i := KeyPos(row, k);
    if i < |row| then
      var r := row[i := (k, v)];
      assert Keys(r) == Keys(row);
      assert Keys(row)[i] == k;
      r
    else
      var r := row + [(k, v)];
      assert Keys(r) == Keys(row) + [k];
      assert k !in Keys(row) by {
        assert forall j :: 0 <= j < |row| ==> Keys(row)[j] != k;
      }
      r
  }

  /** After `row[k] = v`, `k` reads `v` and every other key reads as
      before. */
  lemma PutThenGet(row: Row, k: string, v: string, j: string)
    requires IsDict(row)
    ensures Get(Put(row, k, v), k) == Some(v)
    ensures j != k ==> Get(Put(row, k, v), j) == Get(row, j)
  {
    var r := Put(row, k, v);
    var i := KeyPos(row, k);
    assert (k, v) in r by {
      if i < |row| {
        assert r[i] == (k, v);
      } else {
        assert r[|row|] == (k, v);
      }
    }
    GetFindsEntry(r, k, v);
    if j != k {
      var g := Get(row, j);
      if g.Some? {
        GetFindsEntry(row, j, g.value);
        var m :| 0 <= m < |row| && row[m] == (j, g.value);
        assert r[m] == (j, g.value);
        GetFindsEntry(r, j, g.value);
      } else {
        assert j !in Keys(r);
      }
    }
  }

  /** Some row has key `k`. */
  predicate HasKey(rows: seq<Row>, k: string)
  {
    exists i :: 0 <= i < |rows| && k in Keys(rows[i])
  }

  /** Every key of every row, row after row. */
  function AllKeys(rows: seq<Row>): (ks: seq<string>)
    ensures forall k :: k in ks <==> HasKey(rows, k)
    decreases |rows|
  {
    if |rows| == 0 then []
    else
      var ks := Keys(rows[0]) + AllKeys(rows[1..]);
      forall k
        ensures k in ks <==> HasKey(rows, k)
      {
        if HasKey(rows, k) && k !in Keys(rows[0]) {
          var i :| 0 <= i < |rows| && k in Keys(rows[i]);
          assert rows[1..][i - 1] == rows[i];
        }
        if k in AllKeys(rows[1..]) {
          var i :| 0 <= i < |rows[1..]| && k in Keys(rows[1..][i]);
          assert rows[i + 1] == rows[1..][i];
        }
      }
      ks
  }

  /** Strictly ascending in Python's string order. */
  predicate LexSorted(s: seq<string>)
  {
    forall i, j :: 0 <= i < j < |s| ==> LexLess(s[i], s[j])
  }

  function InsertLex(x: string, s: seq<string>): (r: seq<string>)
    requires LexSorted(s)
    ensures LexSorted(r)
    ensures forall y :: y in r <==> y == x || y in s
    decreases |s|
  {
    if |s| == 0 then [x]
    else if LexLess(x, s[0]) then
      forall j | 0 <= j < |s|
        ensures LexLess(x, s[j])
      {
        if j > 0 {
          LexLessTransitive(x, s[0], s[j]);
        }
      }
      [x] + s
    else if x == s[0] then s
    else
      LexLessTotal(x, s[0]);
      var rest := InsertLex(x, s[1..]);
      forall k | 0 <= k < |rest|
        ensures LexLess(s[0], rest[k])
      {
        if rest[k] != x {
          assert rest[k] in s[1..];
          var m :| 0 <= m < |s[1..]| && s[1..][m] == rest[k];
          assert s[m + 1] == rest[k];
        }
      }
      [s[0]] + rest
  }

  /** `sorted(list(set(s)))` on strings. */
  function SortedStrings(s: seq<string>): (r: seq<string>)
    ensures LexSorted(r)
    ensures forall y :: y in r <==> y in s
    decreases |s|
  {
    if |s| == 0 then [] else InsertLex(s[0], SortedStrings(s[1..]))
  }

  /** `extract_field_names`: the keys of all rows, each once, in ascending
      string order. */
  function ExtractFieldNames(rows: seq<Row>): (r: seq<string>)
    ensures LexSorted(r)
    ensures NoDuplicates(r)
    ensures forall k :: k in r <==> HasKey(rows, k)
  {
    var r := SortedStrings(AllKeys(rows));
    forall i, j | 0 <= i < j < |r|
      ensures r[i] != r[j]
    {
      LexLessIrreflexive(r[i]);
    }
    r
  }

  /** Only one strictly ascending list holds a given set of strings. */
  lemma {:induction false} LexSortedUnique(a: seq<string>, b: seq<string>)
    requires LexSorted(a) && LexSorted(b)
    requires forall x :: x in a <==> x in b
    ensures a == b
    decreases |a|
  {
    if |a| == 0 {
      EmptyWhenNoMembers(b);
    } else {
      assert a[0] in b && b[0] in a;
      var i :| 0 <= i < |b| && b[i] == a[0];
      var j :| 0 <= j < |a| && a[j] == b[0];
      if i > 0 && j > 0 {
        LexLessTransitive(a[0], b[0], a[0]);
        LexLessIrreflexive(a[0]);
      }
      assert a[0] == b[0] by {
        if i > 0 {
          assert j == 0;
        }
      }
      assert a == [a[0]] + a[1..] && b == [b[0]] + b[1..];
      forall x
        ensures x in a[1..] <==> x in b[1..]
      {
        if x in a[1..] {
          var m :| 0 <= m < |a[1..]| && a[1..][m] == x;
          assert LexLess(a[0], a[m + 1]);
          LexLessIrreflexive(x);
          assert x in b && x != b[0];
        }
        if x in b[1..] {
          var m :| 0 <= m < |b[1..]| && b[1..][m] == x;
          assert LexLess(b[0], b[m + 1]);
          LexLessIrreflexive(x);
          assert x in a && x != a[0];
        }
      }
      LexSortedUnique(a[1..], b[1..]);
      assert a == [a[0]] + a[1..] && b == [b[0]] + b[1..];
    }
  }

  /** The field names depend on the set of keys alone, not on the rows'
      order or on which row holds a key. */
  lemma FieldNamesOnlyDependOnKeys(rows1: seq<Row>, rows2: seq<Row>)
    requires forall k :: HasKey(rows1, k) <==> HasKey(rows2, k)
    ensures ExtractFieldNames(rows1) == ExtractFieldNames(rows2)
  {
    LexSortedUnique(ExtractFieldNames(rows1), ExtractFieldNames(rows2));
  }
}
