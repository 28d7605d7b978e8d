/**
 `ORDER BY <score> DESC` over a finite result set, as a stable insertion sort:
 rows with equal scores keep the order in which they were produced.
 */
module Sorting {
  import opened Tally

  /** Scores never increase from left to right. */
  predicate SortedDesc<T>(s: seq<T>, score: T -> int) {
    forall i, j :: 0 <= i < j < |s| ==> score(s[i]) >= score(s[j])
  }

  /** Inserts `x` in front of the first element that does not outscore it. */
  function InsertDesc<T(==)>(x: T, s: seq<T>, score: T -> int): (r: seq<T>)
    requires SortedDesc(s, score)
    ensures SortedDesc(r, score)
    ensures multiset(r) == multiset([x] + s)
    ensures |r| == |s| + 1
  {
    if s == [] || score(x) >= score(s[0]) then
      InsertFrontSorted(x, s, score);
      [x] + s
    else
      var rest := InsertDesc(x, s[1..], score);
      assert s == [s[0]] + s[1..];
      InsertBehindSorted(x, s, rest, score);
      [s[0]] + rest
  }

  lemma InsertFrontSorted<T>(x: T, s: seq<T>, score: T -> int)
    requires SortedDesc(s, score)
    requires s == [] || score(x) >= score(s[0])
    ensures SortedDesc([x] + s, score)
  {
    var r := [x] + s;
    forall i, j | 0 <= i < j < |r| ensures score(r[i]) >= score(r[j]) {
      assert r[j] == s[j - 1];
      if i > 0 {
        assert r[i] == s[i - 1];
      } else if j > 1 {
        assert score(s[0]) >= score(s[j - 1]);
      }
    }
  }

  lemma InsertBehindSorted<T>(x: T, s: seq<T>, rest: seq<T>, score: T -> int)
    requires s != [] && SortedDesc(s, score) && score(x) < score(s[0])
    requires SortedDesc(rest, score)
    requires multiset(rest) == multiset([x] + s[1..])
    ensures SortedDesc([s[0]] + rest, score)
    ensures multiset([s[0]] + rest) == multiset([x] + s)
  {
    forall k | 0 <= k < |rest| ensures score(rest[k]) <= score(s[0]) {
      var y := rest[k];
      assert y in multiset(rest);
      assert y in multiset([x] + s[1..]);
      if y != x {
        assert y in s[1..];
        var m :| 0 <= m < |s[1..]| && s[1..][m] == y;
        assert s[m + 1] == y;
      }
    }
    var r := [s[0]] + rest;
    forall i, j | 0 <= i < j < |r| ensures score(r[i]) >= score(r[j]) {
      assert r[j] == rest[j - 1];
      if i > 0 {
        assert r[i] == rest[i - 1];
      }
    }
    assert s == [s[0]] + s[1..];
    assert multiset(r) == multiset{s[0]} + multiset(rest);
  }

  /** The rows of `s` ordered by non-increasing score. */
  function SortDesc<T(==)>(s: seq<T>, score: T -> int): (r: seq<T>)
    ensures SortedDesc(r, score)
    ensures multiset(r) == multiset(s)
    ensures |r| == |s|
  {
    if s == [] then []
    else
      assert s == [s[0]] + s[1..];
      InsertDesc(s[0], SortDesc(s[1..], score), score)
  }

  /** An integer scored by itself. */
  function Itself(x: int): int {
    x
  }

  /** Two descending sequences of integers with the same multiset are equal:
      a descending order of plain values leaves no ties to break. */
  lemma {:induction false} SortedValuesUnique(a: seq<int>, b: seq<int>)
    requires SortedDesc(a, Itself) && SortedDesc(b, Itself)
    requires multiset(a) == multiset(b)
    ensures a == b
  {
    assert |a| == |multiset(a)| == |multiset(b)| == |b|;
    if a != [] {
      SortedHeadsEqual(a, b);
      var ta, tb := a[1..], b[1..];
      DropFirst(a);
      DropFirst(b);
      MultisetCancel(multiset(ta), multiset(tb), a[0]);
      SortedValuesUnique(ta, tb);
      assert a == [a[0]] + ta && b == [b[0]] + tb;
    }
  }

  lemma DropFirst<T>(s: seq<T>)
    requires s != []
    ensures multiset(s) == multiset(s[1..]) + multiset{s[0]}
  {
    assert s == [s[0]] + s[1..];
  }

  /** The largest value heads every descending arrangement of a multiset. */
  lemma SortedHeadsEqual(a: seq<int>, b: seq<int>)
    requires SortedDesc(a, Itself) && SortedDesc(b, Itself)
    requires multiset(a) == multiset(b) && a != [] && b != []
    ensures a[0] == b[0]
  {
    assert a[0] in multiset(b);
    var k :| 0 <= k < |b| && b[k] == a[0];
    assert b[0] in multiset(a);
    var m :| 0 <= m < |a| && a[m] == b[0];
    assert Itself(b[0]) >= Itself(b[k]) && Itself(a[0]) >= Itself(a[m]);
  }

  /** However a sort orders rows with equal scores, the scores it produces
      are the same: those of the input, largest first. */
  lemma SortedScores<T>(s: seq<T>, score: T -> int)
    ensures Map(SortDesc(s, score), score) == SortDesc(Map(s, score), Itself)
  {
    var sorted := SortDesc(s, score);
    MapPermutation(sorted, s, score);
    assert SortedDesc(Map(sorted, score), Itself);
    SortedValuesUnique(Map(sorted, score), SortDesc(Map(s, score), Itself));
  }

  /** Rearranging a sequence keeps every element and nothing else. */
  lemma SameElements<T>(a: seq<T>, b: seq<T>)
    requires multiset(a) == multiset(b)
    ensures forall x :: x in a <==> x in b
  {
    forall x ensures x in a <==> x in b {
      assert x in a <==> x in multiset(a);
      assert x in b <==> x in multiset(b);
    }
  }

  lemma {:induction false} NoDupMultiplicity<T>(a: seq<T>, x: T)
    requires NoDup(a)
    ensures multiset(a)[x] <= 1
  {
    if a != [] {
      assert a == [a[0]] + a[1..];
      NoDupMultiplicity(a[1..], x);
      if a[0] == x {
        assert x !in a[1..] by {
          forall j | 0 <= j < |a[1..]| ensures a[1..][j] != x {
            assert a[1..][j] == a[j + 1];
          }
        }
      }
    }
  }

  /** A rearrangement of a duplicate-free sequence is duplicate-free. */
  lemma NoDupPermutation<T>(a: seq<T>, b: seq<T>)
    requires multiset(a) == multiset(b)
    requires NoDup(a)
    ensures NoDup(b)
  {
    forall i, j | 0 <= i < j < |b| ensures b[i] != b[j] {
      if b[i] == b[j] {
        var x := b[i];
        assert b == b[..j] + b[j..];
        assert x in b[..j] && x in b[j..];
        assert multiset(b)[x] == multiset(b[..j])[x] + multiset(b[j..])[x];
        NoDupMultiplicity(a, x);
        assert false;
      }
    }
  }

  /** Whatever holds each value at most as often as a duplicate-free
      sequence does is duplicate-free. */
  lemma NoDupSubMultiset<T>(a: seq<T>, b: seq<T>)
    requires multiset(b) <= multiset(a)
    requires NoDup(a)
    ensures NoDup(b)
  {
    forall i, j | 0 <= i < j < |b| ensures b[i] != b[j] {
      if b[i] == b[j] {
        var x := b[i];
        assert b == b[..j] + b[j..];
        assert x in b[..j] && x in b[j..];
        assert multiset(b)[x] == multiset(b[..j])[x] + multiset(b[j..])[x];
        NoDupMultiplicity(a, x);
        assert false;
      }
    }
  }

  /** A prefix of a duplicate-free sequence is duplicate-free. */
  lemma NoDupPrefix<T>(s: seq<T>, n: nat)
    requires NoDup(s) && n <= |s|
    ensures NoDup(s[..n])
  {
  }

  lemma {:induction false} SumOfAppend<T>(a: seq<T>, b: seq<T>, w: T -> int)
    ensures SumOf(a + b, w) == SumOf(a, w) + SumOf(b, w)
  {
    if a == [] {
      assert a + b == b;
    } else {
      assert (a + b)[1..] == a[1..] + b;
      SumOfAppend(a[1..], b, w);
    }
  }

  /** Rearranging a sequence keeps the sum of any weight over it. */
  lemma {:induction false} SumOfPermutation<T>(a: seq<T>, b: seq<T>, w: T -> int)
    requires multiset(a) == multiset(b)
    ensures SumOf(a, w) == SumOf(b, w)
    decreases |a|
  {
    if a != [] {
      assert a == [a[0]] + a[1..];
      assert a[0] in multiset(b);
      var i :| 0 <= i < |b| && b[i] == a[0];
      var rest := b[..i] + b[i + 1..];
      assert b == b[..i] + [b[i]] + b[i + 1..];
      assert multiset(b) == multiset(b[..i]) + multiset{b[i]} + multiset(b[i + 1..]);
      assert multiset(rest) == multiset(b[..i]) + multiset(b[i + 1..]);
      assert multiset(a) == multiset{a[0]} + multiset(a[1..]);
      calc {
        multiset(a[1..]);
        multiset(a) - multiset{a[0]};
        multiset(b) - multiset{b[i]};
        multiset(rest);
      }
      SumOfPermutation(a[1..], rest, w);
      SumOfAppend(b[..i], b[i + 1..], w);
      SumOfAppend(b[..i] + [b[i]], b[i + 1..], w);
      SumOfAppend(b[..i], [b[i]], w);
    }
  }
}
