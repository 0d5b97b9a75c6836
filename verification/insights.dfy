/** `PolicyInsights`: corpus statistics over the loaded documents and the
    most frequent long words over the chunks. */
module PolicyInsights {
  import opened Documents
  import opened Text
  import opened Counter
  import opened Ranking

  /** The dictionary `document_stats` returns. */
  datatype DocumentStats = DocumentStats(numDocuments: nat, numChunks: nat, totalWords: nat)

  /** `sum(len(d.page_content.split()) for d in documents)`: no documents
      count nothing, and no document has more words than the total. */
  function TotalWords(documents: seq<Document>): (n: nat)
    ensures documents == [] ==> n == 0
    ensures forall k | 0 <= k < |documents| :: |Split(documents[k].pageContent)| <= n
  {
    if documents == [] then 0
    else
      var init := documents[..|documents| - 1];
      assert forall k | 0 <= k < |init| :: init[k] == documents[k];
      TotalWords(init) + |Split(documents[|documents| - 1].pageContent)|
  }

  /** `PolicyInsights(documents, chunks).document_stats()`. */
  function DocumentStatsOf(documents: seq<Document>, chunks: seq<Document>): (stats: DocumentStats)
    ensures stats.numDocuments == |documents| && stats.numChunks == |chunks|
    ensures stats.totalWords == TotalWords(documents)
  {
    DocumentStats(|documents|, |chunks|, TotalWords(documents))
  }

  /** The word starts of all documents, counted without splitting. */
  function TotalWordStarts(documents: seq<Document>): nat
  {
    if documents == [] then 0
    else WordStarts(documents[0].pageContent, true) + TotalWordStarts(documents[1..])
  }

  lemma {:induction false} TotalWordsAppend(a: seq<Document>, b: seq<Document>)
    ensures TotalWords(a + b) == TotalWords(a) + TotalWords(b)
    decreases |b|
  {
    if b == [] {
      assert a + b == a;
    } else {
      assert (a + b)[..|a + b| - 1] == a + b[..|b| - 1];
      TotalWordsAppend(a, b[..|b| - 1]);
    }
  }

  /** `total_words` is the number of places in the documents where a word
      begins: every whitespace-separated token is counted once. */
  lemma {:induction false} TotalWordsCountsWordStarts(documents: seq<Document>, chunks: seq<Document>)
    ensures DocumentStatsOf(documents, chunks).totalWords == TotalWordStarts(documents)
    decreases |documents|
  {
    if documents != [] {
      var rest := documents[1..];
      TotalWordsCountsWordStarts(rest, chunks);
      assert documents == [documents[0]] + rest;
      TotalWordsAppend([documents[0]], rest);
      assert [documents[0]][..0] == [];
      SplitCountsWordStarts(documents[0].pageContent);
    }
  }

  /** `top_k` default of `frequent_terms`. */
  const DefaultTopTerms: int := 10

  /** A lower-cased token `frequent_terms` keeps: letters only, longer than four. */
  predicate Qualifies(w: string)
  {
    IsAlpha(w) && |w| > 4
  }

  /** The qualifying tokens, in order: no more than there are tokens, and
      each one a token that qualifies. */
  function KeepQualifying(tokens: seq<string>): (kept: seq<string>)
    ensures |kept| <= |tokens|
    ensures forall w | w in kept :: w in tokens && Qualifies(w)
  {
    if tokens == [] then []
    else
      var init := tokens[..|tokens| - 1];
      var last := tokens[|tokens| - 1];
      assert forall i | 0 <= i < |init| :: init[i] == tokens[i];
      KeepQualifying(init) + (if Qualifies(last) then [last] else [])
  }

  /** The `words` list `frequent_terms` builds: the qualifying tokens of
      every lower-cased chunk, chunk by chunk. Every word in it qualifies. */
  function ChunkTerms(chunks: seq<Document>): (words: seq<string>)
    ensures forall w | w in words :: Qualifies(w)
  {
    if chunks == [] then []
    else ChunkTerms(chunks[..|chunks| - 1]) + KeepQualifying(Split(Lower(chunks[|chunks| - 1].pageContent)))
  }

  /** `PolicyInsights(documents, chunks).frequent_terms(topK)`. */
  method FrequentTerms(chunks: seq<Document>, topK: int) returns (terms: seq<(string, nat)>)
    ensures terms == MostCommon(ChunkTerms(chunks), topK)
  {
    var words: seq<string> := [];
    var c := 0;
    while c < |chunks|
      invariant 0 <= c <= |chunks|
      invariant words == ChunkTerms(chunks[..c])
    {
      var tokens := Split(Lower(chunks[c].pageContent));
      ghost var done := words;
      var k := 0;
      assert KeepQualifying(tokens[..0]) == [] by { assert tokens[..0] == []; }
      while k < |tokens|
        invariant 0 <= k <= |tokens|
        invariant words == done + KeepQualifying(tokens[..k])
      {
        var w := tokens[k];
        KeepQualifyingStep(done, tokens, k, words);
        if IsAlpha(w) && |w| > 4 {
          words := words + [w];
        }
        k := k + 1;
      }
      assert tokens[..k] == tokens;
      ChunkTermsStep(chunks, c);
      c := c + 1;
    }
    assert chunks[..c] == chunks;
    terms := MostCommon(words, topK);
  }

  /** One step of the inner loop: appending the token when it qualifies
      extends the kept tokens by one more token. */
  lemma KeepQualifyingStep(done: seq<string>, tokens: seq<string>, k: nat, words: seq<string>)
    requires k < |tokens| && words == done + KeepQualifying(tokens[..k])
    ensures (if Qualifies(tokens[k]) then words + [tokens[k]] else words)
         == done + KeepQualifying(tokens[..k + 1])
  {
    assert tokens[..k + 1][..k] == tokens[..k];
  }

  lemma ChunkTermsStep(chunks: seq<Document>, c: nat)
    requires c < |chunks|
    ensures ChunkTerms(chunks[..c + 1])
         == ChunkTerms(chunks[..c]) + KeepQualifying(Split(Lower(chunks[c].pageContent)))
  {
    assert chunks[..c + 1][..c] == chunks[..c];
  }

  /** Every collected word is a token of some lower-cased chunk, is made of
      lower-case letters only and is longer than four characters. */
  lemma {:induction false} ChunkTermsQualify(chunks: seq<Document>)
    ensures forall w | w in ChunkTerms(chunks) ::
      && Qualifies(w)
      && (forall ch | ch in w :: IsAsciiLower(ch))
      && (exists k | 0 <= k < |chunks| :: w in Split(Lower(chunks[k].pageContent)))
    decreases |chunks|
  {
    if chunks != [] {
      var init := chunks[..|chunks| - 1];
      var last := chunks[|chunks| - 1].pageContent;
      ChunkTermsQualify(init);
      forall w | w in ChunkTerms(chunks)
        ensures && Qualifies(w)
                && (forall ch | ch in w :: IsAsciiLower(ch))
                && (exists k | 0 <= k < |chunks| :: w in Split(Lower(chunks[k].pageContent)))
      {
        if w in ChunkTerms(init) {
          var k :| 0 <= k < |init| && w in Split(Lower(init[k].pageContent));
          assert chunks[k] == init[k];
        } else {
          LowerHasNoUpper(last);
          SplitTokenChars(Lower(last));
          assert w in Split(Lower(chunks[|chunks| - 1].pageContent));
        }
      }
    }
  }

  /** How often `w` occurs among the tokens of all lower-cased chunks. */
  function TokenOccurrences(chunks: seq<Document>, w: string): nat
  {
    if chunks == [] then 0
    else TokenOccurrences(chunks[..|chunks| - 1], w) + Count(Split(Lower(chunks[|chunks| - 1].pageContent)), w)
  }

  /** Filtering keeps every occurrence of a qualifying token and none of
      any other. */
  lemma {:induction false} CountKeepQualifying(tokens: seq<string>, w: string)
    ensures Count(KeepQualifying(tokens), w) == if Qualifies(w) then Count(tokens, w) else 0
    decreases |tokens|
  {
    if tokens != [] {
      var init := tokens[..|tokens| - 1];
      var last := tokens[|tokens| - 1];
      CountKeepQualifying(init, w);
      CountAppend(KeepQualifying(init), if Qualifies(last) then [last] else [], w);
      assert [last][..0] == [];
    }
  }

  /** A qualifying word occurs in `words` exactly as often as it occurs among
      the tokens of the lower-cased chunks; any other word never does. */
  lemma {:induction false} ChunkTermsCount(chunks: seq<Document>, w: string)
    ensures Count(ChunkTerms(chunks), w) == if Qualifies(w) then TokenOccurrences(chunks, w) else 0
    decreases |chunks|
  {
    if chunks != [] {
      var init := chunks[..|chunks| - 1];
      var tokens := Split(Lower(chunks[|chunks| - 1].pageContent));
      ChunkTermsCount(init, w);
      CountAppend(ChunkTerms(init), KeepQualifying(tokens), w);
      CountKeepQualifying(tokens, w);
    }
  }

  /** Every qualifying token of every lower-cased chunk is collected. */
  lemma QualifyingTokenCollected(chunks: seq<Document>, k: nat, w: string)
    requires k < |chunks| && Qualifies(w) && w in Split(Lower(chunks[k].pageContent))
    ensures w in ChunkTerms(chunks)
  {
    CountPositive(Split(Lower(chunks[k].pageContent)), w);
    TokenOccurrencesAtLeast(chunks, k, w);
    ChunkTermsCount(chunks, w);
    CountPositive(ChunkTerms(chunks), w);
  }

  /** The occurrences across all chunks include those in any one chunk. */
  lemma {:induction false} TokenOccurrencesAtLeast(chunks: seq<Document>, k: nat, w: string)
    requires k < |chunks|
    ensures TokenOccurrences(chunks, w) >= Count(Split(Lower(chunks[k].pageContent)), w)
    decreases |chunks|
  {
    if k < |chunks| - 1 {
      var init := chunks[..|chunks| - 1];
      assert init[k] == chunks[k];
      TokenOccurrencesAtLeast(init, k, w);
    }
  }

  /** The result of `frequent_terms`: `top_k` entries, or every distinct word
      when there are fewer, and none for a non-positive `top_k`; each a
      qualifying lower-case word paired with its number of occurrences among
      the tokens of the lower-cased chunks, ordered by count, no omitted
      word more frequent than a returned one, and words of equal count in the
      order they were first encountered. */
  lemma FrequentTermsRanked(chunks: seq<Document>, topK: int)
    ensures var words := ChunkTerms(chunks);
      var r := MostCommon(words, topK);
      && |r| == (if topK <= 0 then 0 else if topK < |Tally(words)| then topK else |Tally(words)|)
      && |r| <= (if topK <= 0 then 0 else topK)
      && NonIncreasing(r)
      && (forall p | 0 <= p < |r| ::
            && Qualifies(r[p].0)
            && (forall ch | ch in r[p].0 :: IsAsciiLower(ch))
            && r[p].1 == Count(words, r[p].0) == TokenOccurrences(chunks, r[p].0)
            && r[p].1 >= 1)
      && (forall e | e in multiset(Tally(words)) - multiset(r) :: forall p | 0 <= p < |r| :: e.1 <= r[p].1)
      && (forall c: nat :: WithCount(r, c) <= WithCount(Tally(words), c))
      && Distinct(KeysOf(r))
  {
    var words := ChunkTerms(chunks);
    var r := MostCommon(words, topK);
    MostCommonRanked(words, topK);
    forall p | 0 <= p < |r|
      ensures r[p].0 in words
    {
      CountPositive(words, r[p].0);
    }
    CollectedAll(chunks, r);
  }

  lemma CollectedAll(chunks: seq<Document>, r: seq<(string, nat)>)
    requires forall p | 0 <= p < |r| :: r[p].0 in ChunkTerms(chunks)
    ensures forall p | 0 <= p < |r| ::
      && Qualifies(r[p].0)
      && (forall ch | ch in r[p].0 :: IsAsciiLower(ch))
      && Count(ChunkTerms(chunks), r[p].0) == TokenOccurrences(chunks, r[p].0)
  {
    forall p | 0 <= p < |r|
      ensures Qualifies(r[p].0) && (forall ch | ch in r[p].0 :: IsAsciiLower(ch))
      ensures Count(ChunkTerms(chunks), r[p].0) == TokenOccurrences(chunks, r[p].0)
    {
      CollectedWord(chunks, r[p].0);
    }
  }

  /** A collected word is lower-case and qualifies, and it is collected as
      often as it occurs among the tokens. */
  lemma CollectedWord(chunks: seq<Document>, w: string)
    requires w in ChunkTerms(chunks)
    ensures Qualifies(w) && (forall ch | ch in w :: IsAsciiLower(ch))
    ensures Count(ChunkTerms(chunks), w) == TokenOccurrences(chunks, w)
  {
    ChunkTermsQualify(chunks);
    ChunkTermsCount(chunks, w);
  }

  /** When no token of any lower-cased chunk qualifies (in particular when
      there are no chunks), there are no terms. */
  lemma NoTermsNoResult(chunks: seq<Document>, topK: int)
    requires forall k, w | 0 <= k < |chunks| && w in Split(Lower(chunks[k].pageContent)) :: !Qualifies(w)
    ensures MostCommon(ChunkTerms(chunks), topK) == []
  {
    forall k | 0 <= k < |chunks|
      ensures KeepQualifying(Split(Lower(chunks[k].pageContent))) == []
    {
      NothingToKeep(Split(Lower(chunks[k].pageContent)));
    }
    NoQualifyingTokens(chunks);
  }

  lemma {:induction false} NothingToKeep(tokens: seq<string>)
    requires forall w | w in tokens :: !Qualifies(w)
    ensures KeepQualifying(tokens) == []
    decreases |tokens|
  {
    if tokens != [] {
      var init := tokens[..|tokens| - 1];
      assert forall i | 0 <= i < |init| :: init[i] == tokens[i];
      assert tokens[|tokens| - 1] in tokens;
      NothingToKeep(init);
    }
  }

  lemma {:induction false} NoQualifyingTokens(chunks: seq<Document>)
    requires forall k | 0 <= k < |chunks| :: KeepQualifying(Split(Lower(chunks[k].pageContent))) == []
    ensures ChunkTerms(chunks) == []
    decreases |chunks|
  {
    if chunks != [] {
      NoQualifyingTokens(chunks[..|chunks| - 1]);
    }
  }

  /** `PolicyInsights(documents, chunks).frequent_terms()`: the default of
      ten terms, so at most ten come back. */
  method FrequentTermsWithDefaults(chunks: seq<Document>) returns (terms: seq<(string, nat)>)
    ensures terms == MostCommon(ChunkTerms(chunks), DefaultTopTerms)
    ensures |terms| <= 10
  {
    terms := FrequentTerms(chunks, DefaultTopTerms);
    MostCommonRanked(ChunkTerms(chunks), DefaultTopTerms);
  }
}
