/**
 Counting and grouping over sequences: the `COUNT(*) ... GROUP BY` and
 `stats[k] = (stats[k] || 0) + 1` idioms of the analytics code, stated once.
 */
module Tally {

  /** Number of occurrences of `x` in `xs`. */
  function Count<T(==)>(xs: seq<T>, x: T): (n: nat)
    ensures n > 0 <==> x in xs
    ensures n <= |xs|
  {
    if xs == [] then 0 else (if xs[0] == x then 1 else 0) + Count(xs[1..], x)
  }

  lemma {:induction false} CountAppend<T>(a: seq<T>, b: seq<T>, x: T)
    ensures Count(a + b, x) == Count(a, x) + Count(b, x)
  {
    if a == [] {
      assert a + b == b;
    } else {
      assert (a + b)[1..] == a[1..] + b;
      CountAppend(a[1..], b, x);
    }
  }

  /** No value occurs twice. */
  predicate NoDup<T(==)>(xs: seq<T>) {
    forall i, j :: 0 <= i < j < |xs| ==> xs[i] != xs[j]
  }

  lemma {:induction false} CountInNoDup<T>(xs: seq<T>, x: T)
    requires NoDup(xs) && x in xs
    ensures Count(xs, x) == 1
  {
    if xs[0] != x {
      CountInNoDup(xs[1..], x);
    } else {
      assert x !in xs[1..] by {
        forall j | 0 <= j < |xs[1..]| ensures xs[1..][j] != x {
          assert xs[1..][j] == xs[j + 1];
        }
      }
    }
  }

  /** The distinct values of `xs`, in order of first appearance. */
  function Distinct<T(==,!new)>(xs: seq<T>): (r: seq<T>)
    ensures NoDup(r)
    ensures forall x :: x in r <==> x in xs
    ensures |r| <= |xs|
  {
    if xs == [] then []
    else
      var init := Distinct(xs[..|xs| - 1]);
      var last := xs[|xs| - 1];
      assert xs == xs[..|xs| - 1] + [last];
      if last in init then init else init + [last]
  }

  /** A value together with how often it occurs: one row of a GROUP BY. */
  datatype Row<K> = Row(key: K, count: nat)

  /** One row per listed key, carrying that key's count in `xs`. */
  function Tabulate<K(==)>(keys: seq<K>, xs: seq<K>): (rows: seq<Row<K>>)
    ensures |rows| == |keys|
    ensures forall i :: 0 <= i < |keys| ==> rows[i] == Row(keys[i], Count(xs, keys[i]))
  {
    if keys == [] then [] else [Row(keys[0], Count(xs, keys[0]))] + Tabulate(keys[1..], xs)
  }

  /** The keys of a list of rows, in row order. */
  function Keys<K>(rows: seq<Row<K>>): (ks: seq<K>)
    ensures |ks| == |rows|
    ensures forall i :: 0 <= i < |rows| ==> ks[i] == rows[i].key
  {
    Map(rows, (r: Row<K>) => r.key)
  }

  /** Sum of a weight over a sequence. */
  function SumOf<T>(s: seq<T>, w: T -> int): int {
    if s == [] then 0 else w(s[0]) + SumOf(s[1..], w)
  }

  function RowCount<K>(r: Row<K>): int {
    r.count
  }

  /** Sum of the counts of a list of rows. */
  function RowTotal<K>(rows: seq<Row<K>>): int {
    SumOf(rows, RowCount)
  }

  lemma {:induction false} TabulateTotalCons<K>(keys: seq<K>, x: K, xs: seq<K>)
    ensures RowTotal(Tabulate(keys, [x] + xs)) == RowTotal(Tabulate(keys, xs)) + Count(keys, x)
  {
    if keys != [] {
      TabulateTotalCons(keys[1..], x, xs);
      assert ([x] + xs)[1..] == xs;
    }
  }

  /** Counting every element under a duplicate-free list of keys that covers
      them all accounts for each element exactly once. */
  lemma {:induction false} TabulateTotal<K>(keys: seq<K>, xs: seq<K>)
    requires NoDup(keys)
    requires forall x :: x in xs ==> x in keys
    ensures RowTotal(Tabulate(keys, xs)) == |xs|
  {
    if xs == [] {
      TabulateTotalEmpty(keys);
    } else {
      assert xs == [xs[0]] + xs[1..];
      TabulateTotalCons(keys, xs[0], xs[1..]);
      CountInNoDup(keys, xs[0]);
      TabulateTotal(keys, xs[1..]);
    }
  }

  lemma {:induction false} TabulateTotalEmpty<K>(keys: seq<K>)
    ensures RowTotal(Tabulate(keys, [])) == 0
  {
    if keys != [] {
      TabulateTotalEmpty(keys[1..]);
    }
  }

  /** Rows built from a duplicate-free key list are themselves duplicate-free
      and have positive counts when every key occurs. */
  lemma TabulateNoDup<K>(keys: seq<K>, xs: seq<K>)
    requires NoDup(keys)
    ensures NoDup(Tabulate(keys, xs))
  {
  }

  /** Elements satisfying `p`, in their original order. */
  function Filter<T(==,!new)>(s: seq<T>, p: T -> bool): (r: seq<T>)
    ensures |r| <= |s|
    ensures forall x :: x in r <==> x in s && p(x)
  {
    if s == [] then []
    else
      var rest := Filter(s[1..], p);
      assert forall x :: x in s <==> x == s[0] || x in s[1..];
      if p(s[0]) then [s[0]] + rest else rest
  }

  /** `a` is `b` with some elements dropped and the rest kept in order. */
  predicate IsSubsequence<T(==)>(a: seq<T>, b: seq<T>)
    decreases |b|
  {
    if a == [] then true
    else if b == [] then false
    else if a[0] == b[0] then IsSubsequence(a[1..], b[1..])
    else IsSubsequence(a, b[1..])
  }

  lemma {:induction false} FilterIsSubsequence<T(!new)>(s: seq<T>, p: T -> bool)
    ensures IsSubsequence(Filter(s, p), s)
  {
    if s != [] {
      FilterIsSubsequence(s[1..], p);
      if p(s[0]) {
        assert Filter(s, p) == [s[0]] + Filter(s[1..], p);
      } else {
        SubsequenceSkip(Filter(s, p), s);
      }
    }
  }

  lemma {:induction false} SubsequenceSkip<T>(a: seq<T>, b: seq<T>)
    requires b != [] && IsSubsequence(a, b[1..])
    ensures IsSubsequence(a, b)
    decreases |b|, 1
  {
    if a != [] && a[0] == b[0] {
      SubsequenceDropHead(a, b[1..]);
    }
  }

  lemma {:induction false} SubsequenceDropHead<T>(a: seq<T>, c: seq<T>)
    requires a != [] && IsSubsequence(a, c)
    ensures IsSubsequence(a[1..], c)
    decreases |c|, 2
  {
    if a[0] == c[0] {
      SubsequenceSkip(a[1..], c);
    } else {
      SubsequenceDropHead(a, c[1..]);
      SubsequenceSkip(a[1..], c);
    }
  }

  /** Filtering by a predicate every element meets keeps everything. */
  lemma {:induction false} FilterAll<T(!new)>(s: seq<T>, p: T -> bool)
    requires forall i :: 0 <= i < |s| ==> p(s[i])
    ensures Filter(s, p) == s
  {
    if s != [] {
      FilterAll(s[1..], p);
    }
  }

  /** How many elements satisfy `p`. */
  function CountWhere<T(==,!new)>(s: seq<T>, p: T -> bool): (n: nat)
    ensures n == |Filter(s, p)|
  {
    if s == [] then 0 else (if p(s[0]) then 1 else 0) + CountWhere(s[1..], p)
  }

  /** Elements satisfying `p` and those satisfying its negation `q` make up
      the whole. */
  lemma {:induction false} CountWhereSplit<T(!new)>(s: seq<T>, p: T -> bool, q: T -> bool)
    requires forall x :: q(x) == !p(x)
    ensures CountWhere(s, p) + CountWhere(s, q) == |s|
  {
    if s != [] {
      CountWhereSplit(s[1..], p, q);
    }
  }

  /** SQL `LIMIT n`: a negative limit means no limit. */
  function Limit<T>(s: seq<T>, limit: int): (r: seq<T>)
    ensures limit < 0 ==> r == s
    ensures 0 <= limit ==> |r| == if limit < |s| then limit else |s|
    ensures r <= s
  {
    if limit < 0 || limit >= |s| then s else s[..limit]
  }

  /** How many leading rows `OFFSET offset` skips: a negative offset counts
      as zero. */
  function Skip(offset: int): nat {
    if offset < 0 then 0 else offset
  }

  /** How many of `n` rows `LIMIT limit OFFSET offset` keeps: what is left
      after the skipped rows, cut to `limit` unless that is negative. */
  function PageLength(n: nat, limit: int, offset: int): nat {
    var left := if Skip(offset) >= n then 0 else n - Skip(offset);
    if limit < 0 || limit >= left then left else limit
  }

  /** SQL `LIMIT limit OFFSET offset`. */
  function Page<T>(s: seq<T>, limit: int, offset: int): (r: seq<T>)
    ensures |r| == PageLength(|s|, limit, offset)
    ensures forall i :: 0 <= i < |r| ==> Skip(offset) + i < |s| && r[i] == s[Skip(offset) + i]
    ensures offset <= 0 ==> r == Limit(s, limit)
    ensures forall x :: x in r ==> x in s
  {
    if Skip(offset) >= |s| then [] else Limit(s[Skip(offset)..], limit)
  }

  /** A page holds no element more often than the whole does. */
  lemma PageSubMultiset<T>(s: seq<T>, limit: int, offset: int)
    ensures multiset(Page(s, limit, offset)) <= multiset(s)
  {
    var r := Page(s, limit, offset);
    var k := Skip(offset);
    if k < |s| {
      assert r == s[k..k + |r|];
      assert s == s[..k] + s[k..k + |r|] + s[k + |r|..];
    }
  }

  /** The image of every element under `f`, in order: a column projection. */
  function Map<A, B>(s: seq<A>, f: A -> B): (r: seq<B>)
    ensures |r| == |s|
    ensures forall i :: 0 <= i < |s| ==> r[i] == f(s[i])
  {
    seq(|s|, i requires 0 <= i < |s| => f(s[i]))
  }

  /** Projecting a column does not depend on the order of the rows beyond
      their multiset: equal multisets of rows give equal multisets of
      values. */
  lemma {:induction false} MapPermutation<A, B>(a: seq<A>, b: seq<A>, f: A -> B)
    requires multiset(a) == multiset(b)
    ensures multiset(Map(a, f)) == multiset(Map(b, f))
  {
    if a != [] {
      var x := a[0];
      assert x in multiset(b);
      var k :| 0 <= k < |b| && b[k] == x;
      var rest := b[..k] + b[k + 1..];
      RemoveAt(b, k);
      assert a == [x] + a[1..];
      MultisetCancel(multiset(a[1..]), multiset(rest), x);
      MapPermutation(a[1..], rest, f);
      assert Map(a, f) == [f(x)] + Map(a[1..], f);
      RemoveAt(Map(b, f), k);
      MapRemoveAt(b, k, f);
    }
  }

  lemma MapRemoveAt<A, B>(s: seq<A>, k: nat, f: A -> B)
    requires k < |s|
    ensures Map(s[..k] + s[k + 1..], f) == Map(s, f)[..k] + Map(s, f)[k + 1..]
  {
    var l, r := Map(s[..k] + s[k + 1..], f), Map(s, f)[..k] + Map(s, f)[k + 1..];
    assert |l| == |r|;
    forall i | 0 <= i < |l| ensures l[i] == r[i] {
      if i < k {
        assert l[i] == f(s[i]) == r[i];
      } else {
        assert l[i] == f(s[i + 1]) == r[i];
      }
    }
  }

  /** Taking the element at `k` out of a sequence takes it out of its
      multiset. */
  lemma RemoveAt<T>(s: seq<T>, k: nat)
    requires k < |s|
    ensures multiset(s) == multiset(s[..k] + s[k + 1..]) + multiset{s[k]}
  {
    assert s == s[..k] + [s[k]] + s[k + 1..];
  }

  lemma MultisetCancel<T>(m: multiset<T>, n: multiset<T>, x: T)
    requires m + multiset{x} == n + multiset{x}
    ensures m == n
  {
    assert forall y :: m[y] == (m + multiset{x})[y] - multiset{x}[y];
  }

  /** Projecting a column commutes with `LIMIT ... OFFSET ...`. */
  lemma PageMap<A, B>(s: seq<A>, f: A -> B, limit: int, offset: int)
    ensures Map(Page(s, limit, offset), f) == Page(Map(s, f), limit, offset)
  {
  }

  /** A relation holds between every element and every later one. */
  predicate Pairwise<T>(s: seq<T>, rel: (T, T) -> bool) {
    forall i, j :: 0 <= i < j < |s| ==> rel(s[i], s[j])
  }

  /** Dropping elements keeps a pairwise relation. */
  lemma {:induction false} FilterPairwise<T(!new)>(s: seq<T>, p: T -> bool, rel: (T, T) -> bool)
    requires Pairwise(s, rel)
    ensures Pairwise(Filter(s, p), rel)
  {
    if s != [] {
      FilterPairwise(s[1..], p, rel);
      var rest := Filter(s[1..], p);
      if p(s[0]) {
        var r := [s[0]] + rest;
        forall i, j | 0 <= i < j < |r| ensures rel(r[i], r[j]) {
          if i == 0 {
            assert r[j] in rest;
            var k :| 0 <= k < |s[1..]| && s[1..][k] == r[j];
            assert s[k + 1] == r[j];
          } else {
            assert r[i] == rest[i - 1] && r[j] == rest[j - 1];
          }
        }
      }
    }
  }

  /** `stats[k] = (stats[k] || 0) + 1` on a real map. */
  function Tick<K>(m: map<K, nat>, k: K): map<K, nat> {
    m[k := (if k in m then m[k] else 0) + 1]
  }

  /** The `stats[k] = (stats[k] || 0) + 1` fold over `xs`, with a real map:
      every value that occurs is a key, mapped to how often it occurs. */
  function Histogram<K(==,!new)>(xs: seq<K>): (m: map<K, nat>)
    ensures forall k :: k in m <==> k in xs
    ensures forall k :: k in m ==> m[k] == Count(xs, k)
  {
    if xs == [] then map[]
    else
      var init, x := xs[..|xs| - 1], xs[|xs| - 1];
      var m := Histogram(init);
      assert xs == init + [x];
      forall k ensures Count(xs, k) == Count(init, k) + (if k == x then 1 else 0) {
        CountAppend(init, [x], k);
      }
      Tick(m, x)
  }

  /** One more value bumps its own count and no other. */
  lemma HistogramSnoc<K(!new)>(xs: seq<K>, x: K)
    ensures Histogram(xs + [x]) == Tick(Histogram(xs), x)
  {
    assert (xs + [x])[..|xs|] == xs;
  }

  /** The histogram of one more element of a sequence. */
  lemma HistogramPrefixStep<K(!new)>(xs: seq<K>, i: nat)
    requires i < |xs|
    ensures Histogram(xs[..i + 1]) == Tick(Histogram(xs[..i]), xs[i])
  {
    assert xs[..i + 1] == xs[..i] + [xs[i]];
    HistogramSnoc(xs[..i], xs[i]);
  }

  /** The sum of the values of a finite map. */
  ghost function SumValues<K>(m: map<K, nat>): nat
    decreases |m.Keys|
  {
    if m.Keys == {} then 0
    else
      var k :| k in m.Keys;
      assert (m - {k}).Keys < m.Keys;
      m[k] + SumValues(m - {k})
  }

  /** Any key can be taken out first. */
  lemma {:induction false} SumValuesRemove<K>(m: map<K, nat>, k: K)
    requires k in m
    ensures SumValues(m) == m[k] + SumValues(m - {k})
    decreases |m.Keys|
  {
    var j :| j in m.Keys && SumValues(m) == m[j] + SumValues(m - {j});
    if j != k {
      assert (m - {j}).Keys < m.Keys && (m - {k}).Keys < m.Keys;
      SumValuesRemove(m - {j}, k);
      SumValuesRemove(m - {k}, j);
      assert m - {j} - {k} == m - {k} - {j};
    }
  }

  /** One tick adds one to the total. */
  lemma TickSum<K>(m: map<K, nat>, x: K)
    ensures SumValues(Tick(m, x)) == SumValues(m) + 1
  {
    var m' := Tick(m, x);
    SumValuesRemove(m', x);
    if x in m {
      SumValuesRemove(m, x);
      assert m' - {x} == m - {x};
    } else {
      assert m' - {x} == m;
    }
  }

  /** The counts of a histogram add up to the number of values counted. */
  lemma {:induction false} HistogramSum<K(!new)>(xs: seq<K>)
    ensures SumValues(Histogram(xs)) == |xs|
  {
    if xs != [] {
      var init, x := xs[..|xs| - 1], xs[|xs| - 1];
      HistogramSum(init);
      assert init + [x] == xs;
      HistogramSnoc(init, x);
      TickSum(Histogram(init), x);
    }
  }
}
