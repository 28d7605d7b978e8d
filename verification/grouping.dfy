/**
 `SELECT key, COUNT(*) ... GROUP BY key ORDER BY ...`: one row per distinct
 key with its number of occurrences, in the order a score dictates.
 */
module Grouping {
  import opened Tally
  import opened Sorting

  /** `rows` is a complete, duplicate-free grouping of `xs`. */
  predicate GroupsOf<K(==,!new)>(rows: seq<Row<K>>, xs: seq<K>) {
    && NoDup(Keys(rows))
    && (forall i :: 0 <= i < |rows| ==> rows[i].count == Count(xs, rows[i].key))
    && (forall x :: x in xs ==> x in Keys(rows))
    && (forall x :: x in Keys(rows) ==> x in xs)
  }

  /** Groups `xs` by value and orders the groups by non-increasing `score`. */
  function GroupBy<K(==,!new)>(xs: seq<K>, score: Row<K> -> int): (rows: seq<Row<K>>)
    ensures GroupsOf(rows, xs)
    ensures SortedDesc(rows, score)
    ensures RowTotal(rows) == |xs|
  {
    var keys := Distinct(xs);
    var table := Tabulate(keys, xs);
    var rows := SortDesc(table, score);
    GroupByFacts(xs, keys, table, rows);
    rows
  }

  lemma GroupByFacts<K(!new)>(xs: seq<K>, keys: seq<K>, table: seq<Row<K>>, rows: seq<Row<K>>)
    requires NoDup(keys) && forall x :: x in keys <==> x in xs
    requires table == Tabulate(keys, xs)
    requires multiset(rows) == multiset(table)
    ensures GroupsOf(rows, xs)
    ensures RowTotal(rows) == |xs|
  {
    TabulateNoDup(keys, xs);
    NoDupPermutation(table, rows);
    SameElements(table, rows);
    TabulateTotal(keys, xs);
    SumOfPermutation(table, rows, RowCount);
    forall i | 0 <= i < |rows| ensures rows[i].count == Count(xs, rows[i].key) {
      assert rows[i] in table;
    }
    forall i, j | 0 <= i < j < |rows| ensures Keys(rows)[i] != Keys(rows)[j] {
      assert rows[i] in table && rows[j] in table;
      assert rows[i] != rows[j];
    }
    forall x ensures x in xs <==> x in Keys(rows) {
      if x in xs {
        var k :| 0 <= k < |keys| && keys[k] == x;
        assert table[k] in rows;
        var i :| 0 <= i < |rows| && rows[i] == table[k];
        assert Keys(rows)[i] == x;
      }
      if x in Keys(rows) {
        var i :| 0 <= i < |rows| && Keys(rows)[i] == x;
        assert rows[i] in table;
        var k :| 0 <= k < |table| && table[k] == rows[i];
        assert keys[k] == x;
      }
    }
  }

  /** Every group is non-empty. */
  lemma GroupCountsPositive<K(!new)>(rows: seq<Row<K>>, xs: seq<K>, i: int)
    requires GroupsOf(rows, xs) && 0 <= i < |rows|
    ensures rows[i].count > 0
  {
    assert Keys(rows)[i] in Keys(rows);
  }
}
