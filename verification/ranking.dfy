/** Ranking a counted table: `sorted(items, key=count, reverse=True)` (a
    stable sort), the prefix slice `[:k]` with Python's rules for negative
    `k`, and `Counter.most_common(n)`. */
module Ranking {
  import opened Counter

  /** Counts never increase from left to right. */
  predicate NonIncreasing<K>(s: seq<(K, nat)>)
  {
    forall p, q | 0 <= p < q < |s| :: s[p].1 >= s[q].1
  }

  /** The entries of `s` whose count is `c`, in their order in `s`. */
  function WithCount<K>(s: seq<(K, nat)>, c: nat): seq<(K, nat)>
  {
    if s == [] then [] else (if s[0].1 == c then [s[0]] else []) + WithCount(s[1..], c)
  }

  /** Places `e` in front of the first entry whose count is not larger than
      its own, so `e` precedes the entries of equal count that follow it. */
  function InsertDesc<K>(e: (K, nat), s: seq<(K, nat)>): (r: seq<(K, nat)>)
    ensures |r| == |s| + 1
    ensures multiset(r) == multiset(s) + multiset{e}
  {
    if s == [] || s[0].1 <= e.1 then
      [e] + s
    else
      assert s == [s[0]] + s[1..];
      [s[0]] + InsertDesc(e, s[1..])
  }

  lemma {:induction false} InsertDescOrdered<K>(e: (K, nat), s: seq<(K, nat)>)
    requires NonIncreasing(s)
    ensures NonIncreasing(InsertDesc(e, s))
    decreases |s|
  {
    if s != [] && s[0].1 > e.1 {
      var rest := InsertDesc(e, s[1..]);
      InsertDescOrdered(e, s[1..]);
      InsertDescHead(e, s[1..]);
      assert rest[0].1 <= s[0].1;
      assert InsertDesc(e, s) == [s[0]] + rest;
    }
  }

  /** The inserted entry or the first old entry comes first. */
  lemma InsertDescHead<K>(e: (K, nat), s: seq<(K, nat)>)
    ensures InsertDesc(e, s)[0] == e || (|s| > 0 && InsertDesc(e, s)[0] == s[0])
  {
  }

  lemma {:induction false} InsertDescStable<K>(e: (K, nat), s: seq<(K, nat)>, c: nat)
    ensures WithCount(InsertDesc(e, s), c) == (if e.1 == c then [e] else []) + WithCount(s, c)
    decreases |s|
  {
    var r := InsertDesc(e, s);
    if s == [] || s[0].1 <= e.1 {
      assert r == [e] + s;
      WithCountCons(e, s, c);
    } else {
      var rest := InsertDesc(e, s[1..]);
      assert r == [s[0]] + rest;
      WithCountCons(s[0], rest, c);
      assert s == [s[0]] + s[1..];
      WithCountCons(s[0], s[1..], c);
      InsertDescStable(e, s[1..], c);
    }
  }

  lemma WithCountCons<K>(x: (K, nat), s: seq<(K, nat)>, c: nat)
    ensures WithCount([x] + s, c) == (if x.1 == c then [x] else []) + WithCount(s, c)
  {
    assert ([x] + s)[1..] == s;
  }

  /** `sorted(s, key=lambda x: x[1], reverse=True)`. */
  function SortByCountDesc<K>(s: seq<(K, nat)>): (r: seq<(K, nat)>)
    ensures |r| == |s| && multiset(r) == multiset(s)
  {
    if s == [] then []
    else
      assert s == [s[0]] + s[1..];
      InsertDesc(s[0], SortByCountDesc(s[1..]))
  }

  /** The sort orders by count, largest first. */
  lemma {:induction false} SortByCountDescOrdered<K>(s: seq<(K, nat)>)
    ensures NonIncreasing(SortByCountDesc(s))
    decreases |s|
  {
    if s != [] {
      SortByCountDescOrdered(s[1..]);
      InsertDescOrdered(s[0], SortByCountDesc(s[1..]));
    }
  }

  /** The sort is stable: the entries of any one count keep their relative order. */
  lemma {:induction false} SortByCountDescStable<K>(s: seq<(K, nat)>, c: nat)
    ensures WithCount(SortByCountDesc(s), c) == WithCount(s, c)
    decreases |s|
  {
    if s != [] {
      SortByCountDescStable(s[1..], c);
      InsertDescStable(s[0], SortByCountDesc(s[1..]), c);
    }
  }

  /** The stop index Python uses for `s[:k]` on a sequence of length `n`. */
  function SliceStop(n: nat, k: int): (stop: nat)
    ensures stop <= n
  {
    if k >= 0 then (if k < n then k else n)
    else (if n + k > 0 then n + k else 0)
  }

  /** `s[:k]`: a prefix of `s`, holding the first `k` elements (all of
      them when `k` exceeds the length) for `k >= 0`, and dropping the last
      `-k` elements (all of them when `-k` exceeds the length) for `k < 0`. */
  function SlicePrefix<T>(s: seq<T>, k: int): (r: seq<T>)
    ensures |r| <= |s| && r == s[..|r|]
    ensures k >= 0 ==> |r| == if k < |s| then k else |s|
    ensures k < 0 ==> |s| - |r| == if -k < |s| then -k else |s|
  {
    s[..SliceStop(|s|, k)]
  }

  /** `Counter(xs).most_common(n)`: the `n` largest counts, equal counts in
      first-encountered order; nothing when `n <= 0`. */
  function MostCommon<K(==)>(xs: seq<K>, n: int): (r: seq<(K, nat)>)
    ensures n <= 0 ==> r == []
    ensures |r| <= |Tally(xs)|
    ensures forall p | 0 <= p < |r| :: r[p] in Tally(xs)
  {
    var ranked := SortByCountDesc(Tally(xs));
    var r := ranked[..if n <= 0 then 0 else if n < |ranked| then n else |ranked|];
    assert forall p | 0 <= p < |r| :: r[p] in multiset(ranked);
    r
  }

  lemma {:induction false} WithCountPrefix<K>(s: seq<(K, nat)>, m: nat, c: nat)
    requires m <= |s|
    ensures WithCount(s[..m], c) <= WithCount(s, c)
    decreases m
  {
    if m > 0 {
      assert s[..m][1..] == s[1..][..m - 1];
      WithCountPrefix(s[1..], m - 1, c);
    }
  }

  /** The entries a prefix of the ranking drops count no more than any it keeps. */
  lemma DroppedRankNoHigher<K>(s: seq<(K, nat)>, m: nat)
    requires m <= |s|
    ensures var r := SortByCountDesc(s)[..m];
      forall e | e in multiset(s) - multiset(r) :: forall p | 0 <= p < |r| :: e.1 <= r[p].1
  {
    var sorted := SortByCountDesc(s);
    var r := sorted[..m];
    SortByCountDescOrdered(s);
    SplitMultiset(sorted, m);
    forall e | e in multiset(s) - multiset(r)
      ensures forall p | 0 <= p < |r| :: e.1 <= r[p].1
    {
      assert e in multiset(sorted[m..]);
      LaterNoHigher(sorted, m, e);
    }
  }

  lemma SplitMultiset<T>(s: seq<T>, m: nat)
    requires m <= |s|
    ensures multiset(s) == multiset(s[..m]) + multiset(s[m..])
  {
    assert s == s[..m] + s[m..];
  }

  /** In a ranking, an entry past position `m` counts no more than any before it. */
  lemma LaterNoHigher<K>(sorted: seq<(K, nat)>, m: nat, e: (K, nat))
    requires NonIncreasing(sorted) && m <= |sorted| && e in sorted[m..]
    ensures forall p | 0 <= p < m :: e.1 <= sorted[p].1
  {
    var q :| 0 <= q < |sorted[m..]| && sorted[m..][q] == e;
    assert sorted[m + q] == e;
  }

  /** What a caller of "sort by count, keep the first `m`" is promised: the
      kept entries come from the table, are ordered by count, every dropped
      entry counts no more than any kept one, and among entries of equal
      count the kept ones are the earliest in the table, in table order. */
  lemma RankedPrefix<K>(s: seq<(K, nat)>, m: nat)
    requires m <= |s|
    ensures var r := SortByCountDesc(s)[..m];
      && |r| == m
      && NonIncreasing(r)
      && multiset(r) <= multiset(s)
      && (forall p | 0 <= p < |r| :: r[p] in s)
      && (forall e | e in multiset(s) - multiset(r) :: forall p | 0 <= p < |r| :: e.1 <= r[p].1)
      && (forall c: nat :: WithCount(r, c) <= WithCount(s, c))
  {
    var sorted := SortByCountDesc(s);
    SortByCountDescOrdered(s);
    PrefixFromTable(s, m);
    DroppedRankNoHigher(s, m);
    forall c: nat ensures WithCount(sorted[..m], c) <= WithCount(s, c) {
      WithCountPrefix(sorted, m, c);
      SortByCountDescStable(s, c);
    }
  }

  /** `most_common(n)`: at most `n` entries and none for `n <= 0`, each an
      element of `xs` with its number of occurrences, ordered by count, no
      omitted element more frequent than a returned one, and equal counts in
      first-encountered order. */
  lemma MostCommonRanked<K>(xs: seq<K>, n: int)
    ensures var r := MostCommon(xs, n);
      && |r| == (if n <= 0 then 0 else if n < |Tally(xs)| then n else |Tally(xs)|)
      && NonIncreasing(r)
      && (forall p | 0 <= p < |r| :: r[p].0 in xs && r[p].1 == Count(xs, r[p].0) >= 1)
      && (forall e | e in multiset(Tally(xs)) - multiset(r) :: forall p | 0 <= p < |r| :: e.1 <= r[p].1)
      && (forall c: nat :: WithCount(r, c) <= WithCount(Tally(xs), c))
      && Distinct(KeysOf(r))
  {
    var t := Tally(xs);
    var m := if n <= 0 then 0 else if n < |t| then n else |t|;
    var r := SortByCountDesc(t)[..m];
    assert MostCommon(xs, n) == r;
    RankedPrefix(t, m);
    PrefixKeysDistinct(t, m);
    forall p | 0 <= p < |r| ensures r[p].0 in xs && r[p].1 == Count(xs, r[p].0) >= 1 {
      TallyEntry(xs, r[p]);
    }
  }

  /** A ranking prefix of a table with distinct keys has distinct keys, so
      turning it back into a dictionary loses no entry. */
  lemma PrefixKeysDistinct<K>(s: seq<(K, nat)>, m: nat)
    requires m <= |s| && Distinct(KeysOf(s))
    ensures Distinct(KeysOf(SortByCountDesc(s)[..m]))
  {
    var r := SortByCountDesc(s)[..m];
    PrefixFromTable(s, m);
    DistinctEntries(s);
    SubOfDistinct(r, s);
    KeysOfSubDistinct(r, s);
  }

  /** Distinct entries drawn from a table with distinct keys have distinct keys. */
  lemma KeysOfSubDistinct<K>(r: seq<(K, nat)>, s: seq<(K, nat)>)
    requires Distinct(r) && Distinct(KeysOf(s))
    requires forall p | 0 <= p < |r| :: r[p] in s
    ensures Distinct(KeysOf(r))
  {
    forall p, q | 0 <= p < q < |r| ensures KeysOf(r)[p] != KeysOf(r)[q] {
      var i :| 0 <= i < |s| && s[i] == r[p];
      var j :| 0 <= j < |s| && s[j] == r[q];
      assert KeysOf(s)[i] == r[p].0 && KeysOf(s)[j] == r[q].0;
      assert i != j;
    }
  }

  /** Entries of a table with distinct keys are distinct. */
  lemma DistinctEntries<K>(s: seq<(K, nat)>)
    requires Distinct(KeysOf(s))
    ensures Distinct(s)
  {
    forall p, q | 0 <= p < q < |s| ensures s[p] != s[q] {
      assert KeysOf(s)[p] == s[p].0 && KeysOf(s)[q] == s[q].0;
    }
  }

  /** Whatever a repetition-free sequence contains, it contains once, so a
      sub-multiset of it has no repetition either. */
  lemma SubOfDistinct<T>(r: seq<T>, s: seq<T>)
    requires Distinct(s) && multiset(r) <= multiset(s)
    ensures Distinct(r)
  {
    forall p, q | 0 <= p < q < |r| ensures r[p] != r[q] {
      RepeatedTwice(r, p, q);
      DistinctOnce(s, r[p]);
    }
  }

  /** An element at two positions occurs at least twice. */
  lemma RepeatedTwice<T>(s: seq<T>, p: nat, q: nat)
    requires p < q < |s|
    ensures s[p] == s[q] ==> multiset(s)[s[p]] >= 2
  {
    SplitMultiset(s, q);
    assert s[p] in s[..q];
    assert s[q] in s[q..];
  }

  /** In a sequence without repetitions every element occurs at most once. */
  lemma {:induction false} DistinctOnce<T>(s: seq<T>, x: T)
    requires Distinct(s)
    ensures multiset(s)[x] <= 1
    decreases |s|
  {
    if s != [] {
      DistinctOnce(s[1..], x);
      assert s == [s[0]] + s[1..];
      assert s[0] == x ==> x !in s[1..];
    }
  }

  lemma PrefixFromTable<K>(s: seq<(K, nat)>, m: nat)
    requires m <= |s|
    ensures var r := SortByCountDesc(s)[..m];
      && multiset(r) <= multiset(s)
      && (forall p | 0 <= p < |r| :: r[p] in s)
  {
    var sorted := SortByCountDesc(s);
    var r := sorted[..m];
    SplitMultiset(sorted, m);
    forall p | 0 <= p < |r| ensures r[p] in s {
      assert r[p] in multiset(sorted);
    }
  }
}
