/** `FAQInsights.top_faqs`: greedy near-duplicate clustering of the logged
    questions, ranked by cluster size.

    The sentence embeddings and `util.cos_sim` are a foreign model; they
    appear here as `cosSim(i, j)`, the score of question `i` against
    question `j`, and two questions are near-duplicates when that score is
    at least the threshold. */
module FaqInsights {
  import opened Counter
  import opened Ranking

  /** `similarity_threshold` default. */
  const DefaultThreshold: real := 0.85

  /** `top_k` default of `top_faqs`. */
  const DefaultTopK: int := 5

  /** `sim(i, j)`: question `j` is a near-duplicate of question `i`. */
  type Similarity = (nat, nat) -> bool

  /** The pairs whose score reaches `threshold`. */
  function AtThreshold(cosSim: (nat, nat) -> real, threshold: real): Similarity
  {
    (i: nat, j: nat) => cosSim(i, j) >= threshold
  }

  // ---------------------------------------------------------------------
  // The greedy clustering, stated declaratively.
  // ---------------------------------------------------------------------

  /** Index `i` opens a cluster of its own: no earlier representative
      absorbed it. */
  predicate IsRepresentative(sim: Similarity, i: nat)
    decreases i
  {
    forall r: nat | r < i :: !(IsRepresentative(sim, r) && sim(r, i))
  }

  /** Searches the representatives `r`, `r + 1`, ... below `j` for the first
      one similar to `j`. */
  function OwnerFrom(sim: Similarity, j: nat, r: nat): (o: nat)
    requires r <= j
    ensures r <= o <= j
    ensures o < j ==> IsRepresentative(sim, o) && sim(o, j)
    ensures forall r': nat | r <= r' < o :: !(IsRepresentative(sim, r') && sim(r', j))
    decreases j - r
  {
    if r == j then j
    else if IsRepresentative(sim, r) && sim(r, j) then r
    else OwnerFrom(sim, j, r + 1)
  }

  /** The representative whose cluster counts index `j`: the first earlier
      representative similar to `j`, or `j` itself when there is none. Each
      index is compared only with earlier representatives, never with
      itself, and once absorbed it is never reassigned. */
  function Owner(sim: Similarity, j: nat): (o: nat)
    ensures o <= j
    ensures IsRepresentative(sim, o)
    ensures o < j ==> sim(o, j)
    ensures o == j <==> IsRepresentative(sim, j)
  {
    OwnerFrom(sim, j, 0)
  }

  /** No representative before the owner of `j` is similar to `j`: `j` went
      to the first cluster that could take it. */
  lemma OwnerIsFirst(sim: Similarity, j: nat, r: nat)
    requires r < Owner(sim, j)
    ensures !(IsRepresentative(sim, r) && sim(r, j))
  {
  }

  /** For every question, the text of the representative that counts it. */
  function Assigned(questions: seq<string>, sim: Similarity): seq<string>
  {
    seq(|questions|, k requires 0 <= k < |questions| => questions[Owner(sim, k)])
  }

  /** The `clusters` dictionary once every question has been visited: a
      counter over the representatives' texts, so representatives with the
      same text share one entry. */
  function ClusterTable(questions: seq<string>, sim: Similarity): seq<(string, nat)>
  {
    Tally(Assigned(questions, sim))
  }

  /** What `top_faqs(top_k)` returns. */
  function TopFaqsSpec(questions: seq<string>, sim: Similarity, topK: int): seq<(string, nat)>
  {
    if |questions| == 0 then []
    else SlicePrefix(SortByCountDesc(ClusterTable(questions, sim)), topK)
  }

  // ---------------------------------------------------------------------
  // The loop of `top_faqs`.
  // ---------------------------------------------------------------------

  /** How many indices below `n` are in `visited` and carry the text `t` in `xs`. */
  function CountIn(xs: seq<string>, visited: set<nat>, t: string, n: nat): nat
    requires n <= |xs|
  {
    if n == 0 then 0
    else CountIn(xs, visited, t, n - 1) + (if n - 1 in visited && xs[n - 1] == t then 1 else 0)
  }

  lemma {:induction false} CountInFrame(xs: seq<string>, v: set<nat>, w: set<nat>, t: string, n: nat)
    requires n <= |xs|
    requires forall k: nat | k < n :: k in v <==> k in w
    ensures CountIn(xs, v, t, n) == CountIn(xs, w, t, n)
    decreases n
  {
    if n > 0 {
      CountInFrame(xs, v, w, t, n - 1);
    }
  }

  lemma {:induction false} CountInNone(xs: seq<string>, t: string, n: nat)
    requires n <= |xs|
    ensures CountIn(xs, {}, t, n) == 0
    decreases n
  {
    if n > 0 {
      CountInNone(xs, t, n - 1);
    }
  }

  /** Visiting one more index adds one to exactly the counter of its text. */
  lemma {:induction false} CountInInsert(xs: seq<string>, visited: set<nat>, j: nat, t: string, n: nat)
    requires j < n <= |xs| && j !in visited
    ensures CountIn(xs, visited + {j}, t, n) == CountIn(xs, visited, t, n) + (if xs[j] == t then 1 else 0)
    decreases n
  {
    if n - 1 == j {
      CountInFrame(xs, visited + {j}, visited, t, n - 1);
    } else {
      CountInInsert(xs, visited, j, t, n - 1);
    }
  }

  lemma {:induction false} CountInAll(xs: seq<string>, visited: set<nat>, t: string, n: nat)
    requires n <= |xs|
    requires forall k: nat | k < n :: k in visited
    ensures CountIn(xs, visited, t, n) == Count(xs[..n], t)
    decreases n
  {
    if n > 0 {
      assert xs[..n][..n - 1] == xs[..n - 1];
      CountInAll(xs, visited, t, n - 1);
    }
  }

  /** A `defaultdict(int)` lookup. */
  function Get(counts: map<string, nat>, t: string): nat
  {
    if t in counts then counts[t] else 0
  }

  /** The indices `visited` holds while `top_faqs` compares representative
      `i` with later index `j`: all indices owned by earlier representatives,
      and the indices below `j` that `i` owns. Between representatives,
      `Marked(sim, n, i, i)` holds exactly the indices owned before `i`. */
  ghost function Marked(sim: Similarity, n: nat, i: nat, j: nat): set<nat>
  {
    set k: nat | k < n && (Owner(sim, k) < i || (k < j && Owner(sim, k) == i))
  }

  /** `visited` only grows while the loops advance, whether `j` moves on or
      the next representative starts, and in the end holds every index. */
  lemma VisitedGrows(sim: Similarity, n: nat, i: nat, j: nat, i': nat, j': nat)
    requires i < i' || (i == i' && j <= j')
    ensures Marked(sim, n, i, j) <= Marked(sim, n, i', j')
    ensures forall k: nat | k < n :: k in Marked(sim, n, n, n)
  {
  }

  lemma MarkedSkip(sim: Similarity, n: nat, i: nat)
    requires Owner(sim, i) < i
    ensures Marked(sim, n, i, i) == Marked(sim, n, i + 1, i + 1)
  {
    // an absorbed index owns nothing, since every owner is a representative
    assert !IsRepresentative(sim, i);
  }

  lemma MarkedOpen(sim: Similarity, n: nat, i: nat)
    requires i < n && Owner(sim, i) == i
    ensures Marked(sim, n, i, i) + {i} == Marked(sim, n, i, i + 1)
  {
  }

  /** Comparing representative `i` with a later unvisited `j` marks `j`
      exactly when the two are similar, and `j` then belongs to `i`. */
  lemma MarkedCompare(sim: Similarity, n: nat, i: nat, j: nat)
    requires i < j < n && IsRepresentative(sim, i)
    ensures j !in Marked(sim, n, i, j) && sim(i, j) ==>
      Owner(sim, j) == i && Marked(sim, n, i, j) + {j} == Marked(sim, n, i, j + 1)
    ensures !(j !in Marked(sim, n, i, j) && sim(i, j)) ==>
      Marked(sim, n, i, j) == Marked(sim, n, i, j + 1)
  {
    if i < Owner(sim, j) {
      OwnerIsFirst(sim, j, i);
    }
  }

  lemma MarkedDone(sim: Similarity, n: nat, i: nat)
    ensures Marked(sim, n, i, n) == Marked(sim, n, i + 1, i + 1)
  {
  }

  lemma {:induction false} DedupSnoc<K>(xs: seq<K>, x: K)
    ensures Dedup(xs + [x]) == if x in Dedup(xs) then Dedup(xs) else Dedup(xs) + [x]
  {
    assert (xs + [x])[..|xs|] == xs;
  }

  /** The keys of `clusters` grow exactly when a representative with a new
      text is visited: an absorbed index repeats the text of an earlier one. */
  lemma KeysStep(questions: seq<string>, sim: Similarity, i: nat)
    requires i < |questions|
    ensures var a := Assigned(questions, sim);
      Dedup(a[..i + 1]) ==
        if !IsRepresentative(sim, i) || questions[i] in Dedup(a[..i]) then Dedup(a[..i])
        else Dedup(a[..i]) + [questions[i]]
  {
    var a := Assigned(questions, sim);
    assert a[..i + 1] == a[..i] + [a[i]];
    DedupSnoc(a[..i], a[i]);
    var o := Owner(sim, i);
    if o < i {
      assert Owner(sim, o) == o;
      assert a[..i][o] == a[i];
    }
  }

  /** `clusters[q] += 1` together with `visited.add(j)` keeps every counter
      equal to the number of visited indices carrying its text. */
  lemma BumpStep(a: seq<string>, visited: set<nat>, counts: map<string, nat>, j: nat, q: string)
    requires j < |a| && j !in visited && a[j] == q
    requires forall t :: Get(counts, t) == CountIn(a, visited, t, |a|)
    ensures forall t :: Get(counts[q := Get(counts, q) + 1], t) == CountIn(a, visited + {j}, t, |a|)
  {
    forall t ensures Get(counts[q := Get(counts, q) + 1], t) == CountIn(a, visited + {j}, t, |a|) {
      CountInInsert(a, visited, j, t, |a|);
    }
  }

  /** Once every index is visited, `clusters.items()` is the counter of the
      representatives' texts. */
  lemma ItemsAreTally(a: seq<string>, visited: set<nat>, keys: seq<string>, counts: map<string, nat>)
    requires forall k: nat | k < |a| :: k in visited
    requires keys == Dedup(a[..|a|])
    requires forall t :: t in counts <==> t in keys
    requires forall t :: Get(counts, t) == CountIn(a, visited, t, |a|)
    ensures seq(|keys|, p requires 0 <= p < |keys| => (keys[p], counts[keys[p]])) == Tally(a)
  {
    var n := |a|;
    assert a[..n] == a;
    var items := seq(|keys|, p requires 0 <= p < |keys| => (keys[p], counts[keys[p]]));
    var tally := Tally(a);
    assert |tally| == |KeysOf(tally)|;
    forall p | 0 <= p < |items| ensures items[p] == tally[p] {
      assert KeysOf(tally)[p] == tally[p].0;
      CountInAll(a, visited, keys[p], n);
    }
  }

  /** The inner loop of `top_faqs` for representative `i`: every later index
      not yet visited whose score against `i` reaches the threshold is marked
      visited and adds one to the counter of `i`'s text. */
  method AbsorbNearDuplicates(questions: seq<string>, cosSim: (nat, nat) -> real, threshold: real,
                              i: nat, visited: set<nat>, counts: map<string, nat>)
    returns (visited': set<nat>, counts': map<string, nat>)
    requires i < |questions| && Owner(AtThreshold(cosSim, threshold), i) == i
    requires visited == Marked(AtThreshold(cosSim, threshold), |questions|, i, i + 1)
    requires questions[i] in counts
    requires forall t :: Get(counts, t) == CountIn(Assigned(questions, AtThreshold(cosSim, threshold)), visited, t, |questions|)
    ensures visited' == Marked(AtThreshold(cosSim, threshold), |questions|, i + 1, i + 1)
    ensures counts'.Keys == counts.Keys
    ensures forall t :: Get(counts', t) == CountIn(Assigned(questions, AtThreshold(cosSim, threshold)), visited', t, |questions|)
  {
    ghost var sim := AtThreshold(cosSim, threshold);
    ghost var a := Assigned(questions, sim);
    var n := |questions|;
    var q := questions[i];
    visited', counts' := visited, counts;
    var j := i + 1;
    while j < n
      invariant i < j <= n
      invariant visited' == Marked(sim, n, i, j)
      invariant counts'.Keys == counts.Keys
      invariant forall t :: Get(counts', t) == CountIn(a, visited', t, n)
    {
      MarkedCompare(sim, n, i, j);
      if j !in visited' {
        var score := cosSim(i, j);
        if score >= threshold {
          // `j` joins the cluster of `i`
          assert sim(i, j);
          BumpStep(a, visited', counts', j, q);
          counts' := counts'[q := Get(counts', q) + 1];
          visited' := visited' + {j};
        } else {
          assert !sim(i, j);
        }
      }
      j := j + 1;
    }
    MarkedDone(sim, n, i);
  }

  /** `FAQInsights(questions, threshold).top_faqs(topK)`, with the cosine
      scores of the questions' embeddings given as `cosSim`. The dictionary
      `clusters` is kept as its keys in insertion order and their counts. */
  method TopFaqs(questions: seq<string>, cosSim: (nat, nat) -> real, threshold: real, topK: int)
    returns (faqs: seq<(string, nat)>)
    ensures faqs == TopFaqsSpec(questions, AtThreshold(cosSim, threshold), topK)
  {
    if |questions| == 0 {
      return [];
    }
    ghost var sim := AtThreshold(cosSim, threshold);
    ghost var a := Assigned(questions, sim);
    var n := |questions|;
    var visited: set<nat> := {};
    var keys: seq<string> := [];
    var counts: map<string, nat> := map[];
    forall t ensures CountIn(a, visited, t, n) == 0 {
      CountInNone(a, t, n);
    }
    assert a[..0] == [];
    var i := 0;
    while i < n
      invariant 0 <= i <= n
      invariant visited == Marked(sim, n, i, i)
      invariant keys == Dedup(a[..i])
      invariant forall t :: t in counts <==> t in keys
      invariant forall t :: Get(counts, t) == CountIn(a, visited, t, n)
    {
      KeysStep(questions, sim, i);
      if i !in visited {
        // `i` opens a new cluster
        assert Owner(sim, i) == i && IsRepresentative(sim, i);
        var q := questions[i];
        if q !in counts {
          keys := keys + [q];
        }
        BumpStep(a, visited, counts, i, q);
        counts := counts[q := Get(counts, q) + 1];
        MarkedOpen(sim, n, i);
        visited := visited + {i};
        visited, counts := AbsorbNearDuplicates(questions, cosSim, threshold, i, visited, counts);
      } else {
        // `i` was absorbed earlier, by a representative with the same text
        assert Owner(sim, i) < i && !IsRepresentative(sim, i);
        MarkedSkip(sim, n, i);
      }
      assert keys == Dedup(a[..i + 1]);
      i := i + 1;
    }
    var items := seq(|keys|, p requires 0 <= p < |keys| => (keys[p], counts[keys[p]]));
    ItemsAreTally(a, visited, keys, counts);
    faqs := SlicePrefix(SortByCountDesc(items), topK);
  }

  // ---------------------------------------------------------------------
  // Properties of the clustering.
  // ---------------------------------------------------------------------

  /** No questions, no clusters. */
  lemma EmptyQuestions(sim: Similarity, topK: int)
    ensures TopFaqsSpec([], sim, topK) == []
  {
  }

  /** The keys of the cluster table are exactly the texts of the
      representatives, each once, and the first question's text comes first. */
  lemma {:induction false} ClusterKeysAreRepresentatives(questions: seq<string>, sim: Similarity)
    ensures var t := ClusterTable(questions, sim);
      && Distinct(KeysOf(t))
      && (forall p | 0 <= p < |t| :: exists r: nat | r < |questions| ::
            IsRepresentative(sim, r) && questions[r] == t[p].0)
      && (forall r: nat | r < |questions| && IsRepresentative(sim, r) :: questions[r] in KeysOf(t))
      && (|questions| > 0 ==> |t| > 0 && t[0].0 == questions[0])
  {
    var a := Assigned(questions, sim);
    var t := ClusterTable(questions, sim);
    forall p | 0 <= p < |t|
      ensures exists r: nat | r < |questions| :: IsRepresentative(sim, r) && questions[r] == t[p].0
    {
      var k :| 0 <= k < |a| && a[k] == t[p].0;
      var r := Owner(sim, k);
      assert IsRepresentative(sim, r) && questions[r] == t[p].0;
    }
    forall r: nat | r < |questions| && IsRepresentative(sim, r)
      ensures questions[r] in KeysOf(t)
    {
      assert a[r] == questions[r];
    }
    if |questions| > 0 {
      assert a[0] == questions[0];
      DedupStartsWithFirst(a);
      assert KeysOf(t)[0] == t[0].0;
    }
  }

  lemma {:induction false} DedupStartsWithFirst<K>(xs: seq<K>)
    requires |xs| > 0
    ensures |Dedup(xs)| > 0 && Dedup(xs)[0] == xs[0]
    decreases |xs|
  {
    var init := xs[..|xs| - 1];
    if |init| > 0 {
      DedupStartsWithFirst(init);
      assert init[0] == xs[0];
    }
  }

  /** Each question adds one to exactly one cluster: every count is at least
      one, each count is the number of questions whose representative has
      that text, and the counts sum to the number of questions. */
  lemma ClusterCounts(questions: seq<string>, sim: Similarity)
    ensures var t := ClusterTable(questions, sim);
      && (forall p | 0 <= p < |t| :: t[p].1 >= 1 && t[p].1 == Count(Assigned(questions, sim), t[p].0))
      && SumCounts(t) == |questions|
  {
    TallySum(Assigned(questions, sim));
  }

  lemma {:induction false} DedupOfDistinct<K>(xs: seq<K>)
    requires Distinct(xs)
    ensures Dedup(xs) == xs
    decreases |xs|
  {
    if xs != [] {
      var init := xs[..|xs| - 1];
      DedupOfDistinct(init);
      assert xs[|xs| - 1] !in init;
      assert init + [xs[|xs| - 1]] == xs;
    }
  }

  /** When no pair `i < j` of the list is similar and the texts are
      distinct, every question is its own cluster of size one, in question
      order. */
  lemma AllDissimilarSingletons(questions: seq<string>, sim: Similarity)
    requires forall i: nat, j: nat | i < j < |questions| :: !sim(i, j)
    requires Distinct(questions)
    ensures ClusterTable(questions, sim) == seq(|questions|, k requires 0 <= k < |questions| => (questions[k], 1))
  {
    var a := Assigned(questions, sim);
    forall k | 0 <= k < |questions| ensures a[k] == questions[k] {
      assert IsRepresentative(sim, k);
    }
    assert a == questions;
    DedupOfDistinct(questions);
    var t := ClusterTable(questions, sim);
    forall k | 0 <= k < |questions| ensures t[k] == (questions[k], 1) {
      assert KeysOf(t)[k] == t[k].0;
      DistinctCountOne(questions, questions[k]);
    }
  }

  lemma {:induction false} ConstantSeq<K>(xs: seq<K>, x: K)
    requires |xs| > 0
    requires forall k | 0 <= k < |xs| :: xs[k] == x
    ensures Dedup(xs) == [x] && Count(xs, x) == |xs|
    decreases |xs|
  {
    if |xs| > 1 {
      ConstantSeq(xs[..|xs| - 1], x);
    }
  }

  /** When every pair `i < j` of the list is similar, the first question
      absorbs all others. */
  lemma AllSimilarOneCluster(questions: seq<string>, sim: Similarity)
    requires forall i: nat, j: nat | i < j < |questions| :: sim(i, j)
    requires |questions| > 0
    ensures ClusterTable(questions, sim) == [(questions[0], |questions|)]
  {
    var a := Assigned(questions, sim);
    assert IsRepresentative(sim, 0);
    forall k | 0 <= k < |questions| ensures a[k] == questions[0] {
      assert Owner(sim, k) == 0;
    }
    ConstantSeq(a, questions[0]);
    var t := ClusterTable(questions, sim);
    assert KeysOf(t) == [questions[0]];
    assert t[0].0 == KeysOf(t)[0];
  }

  /** When every question has the same text there is one cluster, counting
      all of them, whatever the scores: the counter is keyed by text, so
      every representative bumps the same entry. With a positive `top_k`
      that cluster is the whole result. */
  lemma AllIdenticalOneCluster(questions: seq<string>, sim: Similarity, topK: int)
    requires |questions| > 0
    requires forall k | 0 <= k < |questions| :: questions[k] == questions[0]
    ensures ClusterTable(questions, sim) == [(questions[0], |questions|)]
    ensures topK > 0 ==> TopFaqsSpec(questions, sim, topK) == [(questions[0], |questions|)]
  {
    var a := Assigned(questions, sim);
    forall k | 0 <= k < |questions| ensures a[k] == questions[0] {
      assert Owner(sim, k) <= k;
    }
    ConstantSeq(a, questions[0]);
    var t := ClusterTable(questions, sim);
    assert KeysOf(t) == [questions[0]];
    assert t[0].0 == KeysOf(t)[0];
    assert SortByCountDesc(t) == t;
  }

  /** The result of `top_faqs`: as many entries as `[:top_k]` keeps of the
      cluster table (at most `top_k` for a non-negative `top_k`), taken from it, ordered by count, no dropped
      cluster larger than a kept one, and clusters of equal size in the order
      their keys were first inserted. */
  lemma TopFaqsRanked(questions: seq<string>, sim: Similarity, topK: int)
    ensures var r := TopFaqsSpec(questions, sim, topK);
      var t := ClusterTable(questions, sim);
      && |r| == SliceStop(|t|, topK)
      && (topK >= 0 ==> |r| <= topK)
      && |r| <= |t|
      && NonIncreasing(r)
      && (forall p | 0 <= p < |r| :: r[p] in t)
      && (forall e | e in multiset(t) - multiset(r) :: forall p | 0 <= p < |r| :: e.1 <= r[p].1)
      && (forall c: nat :: WithCount(r, c) <= WithCount(t, c))
      && Distinct(KeysOf(r))
  {
    var t := ClusterTable(questions, sim);
    if |questions| == 0 {
      assert t == [];
    } else {
      var m := SliceStop(|t|, topK);
      assert TopFaqsSpec(questions, sim, topK) == SortByCountDesc(t)[..m];
      RankedPrefix(t, m);
      PrefixKeysDistinct(t, m);
    }
  }

  /** `FAQInsights(questions).top_faqs()`: the defaults 0.85 and 5, so at
      most five clusters come back. */
  method TopFaqsWithDefaults(questions: seq<string>, cosSim: (nat, nat) -> real)
    returns (faqs: seq<(string, nat)>)
    ensures faqs == TopFaqsSpec(questions, AtThreshold(cosSim, DefaultThreshold), DefaultTopK)
    ensures |faqs| <= 5
  {
    faqs := TopFaqs(questions, cosSim, DefaultThreshold, DefaultTopK);
    TopFaqsRanked(questions, AtThreshold(cosSim, DefaultThreshold), DefaultTopK);
  }
}
