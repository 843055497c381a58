/** Generic facts about tables held as sequences of rows in primary-key
    order: first match of a query, filtering, and relations that hold
    between every earlier and every later row. */
module Rows {
  import opened Wrappers

  /** `rel(a, b)` holds for every row `a` that comes before a row `b`. */
  ghost predicate Pairwise<T>(rows: seq<T>, rel: (T, T) -> bool) {
    forall i, j :: 0 <= i < j < |rows| ==> rel(rows[i], rows[j])
  }

  /** The position of the first row that satisfies `p`, as
      `query.filter(p).first()` returns it when rows come in key order. */
  function FirstIndex<T>(rows: seq<T>, p: T -> bool): (r: Option<nat>)
    ensures r.Some? ==> r.value < |rows| && p(rows[r.value])
    ensures r.Some? ==> forall k :: 0 <= k < r.value ==> !p(rows[k])
    ensures r.None? <==> forall x :: x in rows ==> !p(x)
  {
    if rows == [] then None
    else if p(rows[0]) then Some(0)
    else match FirstIndex(rows[1..], p)
      case None => None
      case Some(k) => Some(k + 1)
  }

  /** A row appended after rows that all fail `p` is the first match when it
      satisfies `p`. */
  lemma FirstIndexAppended<T>(rows: seq<T>, x: T, p: T -> bool)
    requires forall y :: y in rows ==> !p(y)
    requires p(x)
    ensures FirstIndex(rows + [x], p) == Some(|rows|)
  {
    var s := rows + [x];
    assert s[|rows|] == x;
    assert forall i :: 0 <= i < |rows| ==> s[i] == rows[i] && rows[i] in rows;
  }

  /** The rows that satisfy `keep`, in their original order. */
  function Keep<T>(rows: seq<T>, keep: T -> bool): (r: seq<T>)
    ensures |r| <= |rows|
    ensures forall x :: x in r ==> x in rows && keep(x)
    ensures forall x :: x in rows && keep(x) ==> x in r
  {
    if rows == [] then []
    else (if keep(rows[0]) then [rows[0]] else []) + Keep(rows[1..], keep)
  }

  /** Two rows of a filtered table come from two rows of the original table
      in the same order. */
  lemma {:induction false} KeepOrder<T>(rows: seq<T>, keep: T -> bool, i: nat, j: nat)
    requires i < j < |Keep(rows, keep)|
    ensures exists i', j' :: 0 <= i' < j' < |rows| && Keep(rows, keep)[i] == rows[i'] && Keep(rows, keep)[j] == rows[j']
  {
    var rest := Keep(rows[1..], keep);
    if keep(rows[0]) {
      assert Keep(rows, keep) == [rows[0]] + rest;
      if i == 0 {
        var y := rest[j - 1];
        assert y in rows[1..];
        var j'' :| 0 <= j'' < |rows[1..]| && rows[1..][j''] == y;
        assert Keep(rows, keep)[0] == rows[0] && Keep(rows, keep)[j] == rows[j'' + 1];
      } else {
        KeepOrder(rows[1..], keep, i - 1, j - 1);
        var i'', j'' :| 0 <= i'' < j'' < |rows[1..]| && rest[i - 1] == rows[1..][i''] && rest[j - 1] == rows[1..][j''];
        assert Keep(rows, keep)[i] == rows[i'' + 1] && Keep(rows, keep)[j] == rows[j'' + 1];
      }
    } else {
      assert Keep(rows, keep) == rest;
      KeepOrder(rows[1..], keep, i, j);
      var i'', j'' :| 0 <= i'' < j'' < |rows[1..]| && rest[i] == rows[1..][i''] && rest[j] == rows[1..][j''];
      assert Keep(rows, keep)[i] == rows[i'' + 1] && Keep(rows, keep)[j] == rows[j'' + 1];
    }
  }

  /** Filtering keeps every relation that held between earlier and later
      rows. */
  lemma KeepPairwise<T>(rows: seq<T>, keep: T -> bool, rel: (T, T) -> bool)
    requires Pairwise(rows, rel)
    ensures Pairwise(Keep(rows, keep), rel)
  {
    var r := Keep(rows, keep);
    forall i, j | 0 <= i < j < |r| ensures rel(r[i], r[j]) {
      KeepOrder(rows, keep, i, j);
    }
  }

  /** Filtering with a condition every row meets changes nothing. */
  lemma {:induction false} KeepAll<T>(rows: seq<T>, keep: T -> bool)
    requires forall x :: x in rows ==> keep(x)
    ensures Keep(rows, keep) == rows
  {
    if rows != [] {
      KeepAll(rows[1..], keep);
      assert [rows[0]] + rows[1..] == rows;
    }
  }

  /** Appending a row that every earlier row relates to keeps `Pairwise`. */
  lemma AppendPairwise<T>(rows: seq<T>, x: T, rel: (T, T) -> bool)
    requires Pairwise(rows, rel)
    requires forall y :: y in rows ==> rel(y, x)
    ensures Pairwise(rows + [x], rel)
  {
    var s := rows + [x];
    forall i, j | 0 <= i < j < |s| ensures rel(s[i], s[j]) {
      if j < |rows| { assert s[i] == rows[i] && s[j] == rows[j]; }
      else { assert s[i] == rows[i] && rows[i] in rows; }
    }
  }

  /** The key SQLite gives a new row when the table declares an integer
      primary key and no explicit value is given: one more than the largest
      key in use, which in key order is the last row's, or 1 in an empty
      table. */
  function NextKey<T>(rows: seq<T>, key: T -> nat): (k: nat)
    ensures k >= 1
    ensures rows != [] ==> key(rows[|rows| - 1]) < k
  {
    if rows == [] then 1 else key(rows[|rows| - 1]) + 1
  }

  /** In a table whose keys increase, the next key is larger than every key
      in use. */
  lemma NextKeyFresh<T>(rows: seq<T>, key: T -> nat, less: (T, T) -> bool)
    requires Pairwise(rows, less)
    requires forall a, b :: less(a, b) ==> key(a) < key(b)
    ensures forall x :: x in rows ==> key(x) < NextKey(rows, key)
  {
    forall x | x in rows ensures key(x) < NextKey(rows, key) {
      var k :| 0 <= k < |rows| && rows[k] == x;
      if k < |rows| - 1 { assert less(rows[k], rows[|rows| - 1]); }
    }
  }
}
