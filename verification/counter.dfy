/** Counting semantics shared by the insights code: a `collections.Counter`
    (or a `defaultdict(int)` bumped once per element) seen as an ordered
    table of (element, count) pairs whose keys appear in first-occurrence
    order, as Python dictionaries keep insertion order. */
module Counter {

  /** Number of occurrences of `k` in `xs`. */
  function Count<K(==)>(xs: seq<K>, k: K): (n: nat)
    ensures n <= |xs|
  {
    if xs == [] then 0
    else Count(xs[..|xs| - 1], k) + (if xs[|xs| - 1] == k then 1 else 0)
  }

  lemma {:induction false} CountAppend<K>(a: seq<K>, b: seq<K>, k: K)
    ensures Count(a + b, k) == Count(a, k) + Count(b, k)
    decreases |b|
  {
    if b == [] {
      assert a + b == a;
    } else {
      assert (a + b)[..|a + b| - 1] == a + b[..|b| - 1];
      CountAppend(a, b[..|b| - 1], k);
    }
  }

  /** An element occurs at least once exactly when it is a member. */
  lemma {:induction false} CountPositive<K>(xs: seq<K>, k: K)
    ensures Count(xs, k) > 0 <==> k in xs
    decreases |xs|
  {
    if xs != [] {
      var init := xs[..|xs| - 1];
      assert xs == init + [xs[|xs| - 1]];
      CountPositive(init, k);
    }
  }

  predicate Distinct<K(==)>(xs: seq<K>)
  {
    forall p, q | 0 <= p < q < |xs| :: xs[p] != xs[q]
  }

  /** In a sequence without repetitions every member occurs exactly once. */
  lemma {:induction false} DistinctCountOne<K>(ks: seq<K>, k: K)
    requires Distinct(ks) && k in ks
    ensures Count(ks, k) == 1
    decreases |ks|
  {
    var init := ks[..|ks| - 1];
    assert ks == init + [ks[|ks| - 1]];
    if ks[|ks| - 1] == k {
      assert k !in init;
      CountPositive(init, k);
    } else {
      DistinctCountOne(init, k);
    }
  }

  /** The distinct elements of `xs`, in the order of their first occurrence. */
  function Dedup<K(==)>(xs: seq<K>): (d: seq<K>)
    ensures Distinct(d)
    ensures forall k | k in d :: k in xs
    ensures forall k | k in xs :: k in d
  {
    if xs == [] then []
    else
      var d := Dedup(xs[..|xs| - 1]);
      var last := xs[|xs| - 1];
      assert xs == xs[..|xs| - 1] + [last];
      if last in d then d else d + [last]
  }

  /** The first index at which `k` occurs in `xs`. */
  function FirstIndex<K(==)>(xs: seq<K>, k: K): (i: nat)
    requires k in xs
    ensures i < |xs| && xs[i] == k
    ensures forall p | 0 <= p < i :: xs[p] != k
  {
    if xs[0] == k then 0 else 1 + FirstIndex(xs[1..], k)
  }

  /** Keys of `Dedup(xs)` appear in the order of their first occurrence in `xs`. */
  lemma {:induction false} DedupFirstOccurrenceOrder<K>(xs: seq<K>, p: nat, q: nat)
    requires p < q < |Dedup(xs)|
    ensures FirstIndex(xs, Dedup(xs)[p]) < FirstIndex(xs, Dedup(xs)[q])
    decreases |xs|
  {
    var init := xs[..|xs| - 1];
    var last := xs[|xs| - 1];
    var d := Dedup(init);
    assert xs == init + [last];
    var a, b := Dedup(xs)[p], Dedup(xs)[q];
    FirstIndexPrefix(init, last, a);
    if q < |d| {
      DedupFirstOccurrenceOrder(init, p, q);
      FirstIndexPrefix(init, last, b);
    } else {
      // `b` is the newly appended last element, absent from `init`
      assert b == last && b !in init;
      assert FirstIndex(xs, b) == |init| by {
        forall r | 0 <= r < |init| ensures xs[r] != b { assert xs[r] == init[r]; }
      }
    }
  }

  lemma FirstIndexPrefix<K>(init: seq<K>, last: K, k: K)
    requires k in init
    ensures FirstIndex(init + [last], k) == FirstIndex(init, k)
  {
    var xs := init + [last];
    var i := FirstIndex(init, k);
    assert xs[i] == k;
    forall r | 0 <= r < i ensures xs[r] != k { assert xs[r] == init[r]; }
  }

  /** The keys of a table of (key, count) entries. */
  function KeysOf<K>(table: seq<(K, nat)>): seq<K>
  {
    seq(|table|, p requires 0 <= p < |table| => table[p].0)
  }

  /** `collections.Counter(xs)` with its insertion order: one entry per
      distinct element of `xs`, in first-occurrence order. */
  function Tally<K(==)>(xs: seq<K>): (t: seq<(K, nat)>)
    ensures KeysOf(t) == Dedup(xs)
    ensures Distinct(KeysOf(t))
    ensures forall p | 0 <= p < |t| :: t[p].0 in xs && t[p].1 == Count(xs, t[p].0) >= 1
    ensures forall x | x in xs :: x in KeysOf(t)
  {
    var d := Dedup(xs);
    var t := seq(|d|, p requires 0 <= p < |d| => (d[p], Count(xs, d[p])));
    forall p | 0 <= p < |t| ensures t[p].1 >= 1 { CountPositive(xs, d[p]); }
    assert KeysOf(t) == d;
    t
  }

  /** Any entry of a Counter pairs a member with its number of occurrences. */
  lemma TallyEntry<K>(xs: seq<K>, e: (K, nat))
    requires e in Tally(xs)
    ensures e.0 in xs && e.1 == Count(xs, e.0) >= 1
  {
    var t := Tally(xs);
    var q :| 0 <= q < |t| && t[q] == e;
  }

  /** Sum of the counts of a table. */
  function SumCounts<K>(table: seq<(K, nat)>): nat
  {
    if table == [] then 0 else SumCounts(table[..|table| - 1]) + table[|table| - 1].1
  }

  lemma {:induction false} SumCountsUpdate<K>(table: seq<(K, nat)>, p: nat, e: (K, nat))
    requires p < |table|
    ensures SumCounts(table[p := e]) + table[p].1 == SumCounts(table) + e.1
    decreases |table|
  {
    var n := |table|;
    var u := table[p := e];
    if p < n - 1 {
      assert u[..n - 1] == table[..n - 1][p := e];
      SumCountsUpdate(table[..n - 1], p, e);
    } else {
      assert u[..n - 1] == table[..n - 1];
    }
  }

  /** Counting every element of `xs` against a repetition-free list of keys
      covering them accounts for each element exactly once. */
  lemma {:induction false} SumOfCounts<K>(ks: seq<K>, xs: seq<K>)
    requires Distinct(ks)
    requires forall x | x in xs :: x in ks
    ensures SumCounts(seq(|ks|, p requires 0 <= p < |ks| => (ks[p], Count(xs, ks[p])))) == |xs|
    decreases |xs|
  {
    var table := seq(|ks|, p requires 0 <= p < |ks| => (ks[p], Count(xs, ks[p])));
    if xs == [] {
      ZeroCountsSum(table);
    } else {
      var init := xs[..|xs| - 1];
      var x := xs[|xs| - 1];
      assert xs == init + [x];
      var prev := seq(|ks|, p requires 0 <= p < |ks| => (ks[p], Count(init, ks[p])));
      forall y | y in init ensures y in ks { assert y in xs; }
      SumOfCounts(ks, init);
      assert x in ks by { assert x in xs; }
      var i :| 0 <= i < |ks| && ks[i] == x;
      forall p | 0 <= p < |ks| ensures table[p] == prev[i := (x, prev[i].1 + 1)][p] {
        assert Count(xs, ks[p]) == Count(init, ks[p]) + (if ks[p] == x then 1 else 0);
      }
      assert table == prev[i := (x, prev[i].1 + 1)];
      SumCountsUpdate(prev, i, (x, prev[i].1 + 1));
    }
  }

  lemma {:induction false} ZeroCountsSum<K>(table: seq<(K, nat)>)
    requires forall p | 0 <= p < |table| :: table[p].1 == 0
    ensures SumCounts(table) == 0
    decreases |table|
  {
    if table != [] {
      ZeroCountsSum(table[..|table| - 1]);
    }
  }

  /** The counts of a Counter add up to the number of elements counted. */
  lemma TallySum<K>(xs: seq<K>)
    ensures SumCounts(Tally(xs)) == |xs|
  {
    var d := Dedup(xs);
    assert Tally(xs) == seq(|d|, p requires 0 <= p < |d| => (d[p], Count(xs, d[p])));
    SumOfCounts(d, xs);
  }
}
