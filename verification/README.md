# HR policy assistant — verified model of its insights and answer chain

This project models the three parts of the HR policy assistant that hold
logic of their own. Everything around them is glue to outside libraries.

- **FAQ clustering** (`FAQInsights.top_faqs`). The logged questions are
  walked in order. Each question not yet visited opens a cluster, keyed by
  its text. It absorbs every later unvisited question whose similarity
  score reaches the threshold (0.85 by default). The clusters are then
  sorted by size, largest first, and the first `top_k` (5 by default) are
  returned.
  - `faq_insights.dfy` keeps the source's loops over a `visited` set and a
    counter dictionary as an imperative `method`.
  - That method is proved equal to a declarative description of the greedy
    clustering. An index belongs to the first earlier *representative*
    similar to it, or opens its own cluster.
- **Policy insights** (`PolicyInsights`), in `insights.dfy`.
  - `document_stats` counts documents, chunks and whitespace-separated
    words. It is a function.
  - `frequent_terms` lower-cases and splits every chunk and keeps the
    tokens made only of letters that are longer than four characters. It
    returns the `top_k` (10 by default) most common, as
    `Counter.most_common` does. It is a method with the source's nested
    loops.
- **Answer chain** (`HRPolicyRAG`), in `rag_chain.dfy`. The chain:
  - retrieves `TOP_K` = 4 passages;
  - joins them with a blank line;
  - places context and question in the fixed prompt template;
  - returns `{question, answer, sources}`.

  The vector store and the chat model are abstract functions.

Shared semantics live in their own modules:
- `counter.dfy` holds `collections.Counter` and `defaultdict(int)`. A
  counter is a table of (key, count) entries in first-insertion order,
  because Python dictionaries keep insertion order.
- `ranking.dfy` holds the stable `sorted(..., reverse=True)`, the slice
  `[:k]` including negative `k`, and `most_common`.
- `text.dfy` holds `str.split()`, `str.lower()`, `str.isalpha()` and
  `sep.join`.
- `documents.dfy` holds the passage record.
- `config.dfy` holds `TOP_K`.

## Model

| member | source | states |
|---|---|---|
| FaqInsights.TopFaqs | chatbot/chatbot/faq_insights.py:13-39 | The loops over `visited` and `clusters`, then sorting and cutting, return exactly the ranked prefix of the cluster table of the greedy clustering at the given threshold. |
| FaqInsights.AbsorbNearDuplicates | chatbot/chatbot/faq_insights.py:28-35 | For a representative `i`, visiting every later index marks exactly the indices `i` owns. Each one adds one to the counter of `i`'s text, so every counter stays equal to the number of visited indices carrying its text. No key is added. |
| FaqInsights.Owner | chatbot/chatbot/faq_insights.py:21-35 | The cluster that counts index `j` is a representative at or before `j` and similar to `j` when earlier. It is `j` itself exactly when `j` is a representative. |
| FaqInsights.OwnerIsFirst | chatbot/chatbot/faq_insights.py:28-30 | No representative before the owner of `j` is similar to `j`. `j` is taken by the first cluster that can take it and is never reassigned. |
| FaqInsights.MarkedCompare | chatbot/chatbot/faq_insights.py:28-35 | Comparing representative `i` with a later unvisited `j` marks `j` exactly when they are similar, and `j` then belongs to `i`. A visited `j` is skipped. |
| FaqInsights.VisitedGrows | chatbot/chatbot/faq_insights.py:18-35 | `visited` only grows as `j` advances and as the next representative starts. After the loop it holds every index. |
| FaqInsights.KeysStep | chatbot/chatbot/faq_insights.py:21-26 | The counter dictionary gains a key only when a representative with a new text is visited. Absorbed indices repeat an existing key. |
| FaqInsights.BumpStep | chatbot/chatbot/faq_insights.py:25-26 | Bumping a counter and marking the index visited keeps every counter equal to the number of visited indices with its text. |
| FaqInsights.EmptyQuestions | chatbot/chatbot/faq_insights.py:14-15 | No questions give an empty result. |
| FaqInsights.ClusterKeysAreRepresentatives | chatbot/chatbot/faq_insights.py:21-26 | The keys are distinct. Every key is the text of a representative, and every representative's text is a key. The first question's text is the first key. |
| FaqInsights.ClusterCounts | chatbot/chatbot/faq_insights.py:21-35 | Every count is at least one and equals the number of questions whose representative has that text. The counts sum to the number of questions. |
| FaqInsights.AllDissimilarSingletons | chatbot/chatbot/faq_insights.py:28-35 | With no similar pair `i < j` in the list (the only pairs the loop compares) and distinct texts, every question is its own cluster of size one, in question order. |
| FaqInsights.TopFaqsWithDefaults | chatbot/chatbot/faq_insights.py:8-13 | Without arguments the threshold is 0.85 and `top_k` is 5, so at most five clusters come back. |
| FaqInsights.AllIdenticalOneCluster | chatbot/chatbot/faq_insights.py:21-35 | When all questions are the same text, the cluster table is that text with the number of questions, whatever the similarity. A positive `top_k` returns that one entry. |
| FaqInsights.AllSimilarOneCluster | chatbot/chatbot/faq_insights.py:28-35 | With every pair `i < j` in the list similar, the only cluster is the first question's text, counting all questions. |
| FaqInsights.TopFaqsRanked | chatbot/chatbot/faq_insights.py:37-39 | The result has exactly as many entries as `[:top_k]` keeps of the cluster table, so at most `top_k` for a non-negative `top_k`. Its entries come from the cluster table, ordered by count. No dropped cluster is larger than a kept one. Clusters of equal size keep their insertion order. Keys are distinct. |
| Ranking.SortByCountDesc | chatbot/chatbot/faq_insights.py:38 | The sorted table is a permutation of the input table. |
| Ranking.SortByCountDescOrdered | chatbot/chatbot/faq_insights.py:38 | The sorted table is ordered by count, largest first. |
| Ranking.SortByCountDescStable | chatbot/chatbot/faq_insights.py:38 | The sort is stable: entries of each count keep their relative order. |
| Ranking.SlicePrefix | chatbot/chatbot/faq_insights.py:38 | `s[:k]` is a prefix of `s`. For `k >= 0` it holds the first `k` elements, or all of them. For negative `k` it drops the last `-k` elements, or all of them. |
| Ranking.RankedPrefix | chatbot/chatbot/faq_insights.py:37-39 | A prefix of the ranking has the requested length and is ordered. It is a sub-multiset of the table. Its dropped entries count no more than its kept ones. Among equal counts it keeps the earliest entries in table order. |
| Ranking.PrefixKeysDistinct | chatbot/chatbot/faq_insights.py:37-39 | A ranking prefix of a table with distinct keys has distinct keys, so `dict(...)` keeps every entry. |
| Ranking.MostCommon | chatbot/insights.py:25 | `most_common(n)` is empty for `n <= 0`. It has no more entries than the counter, and each one is an entry of the counter. |
| Ranking.MostCommonRanked | chatbot/insights.py:25 | `most_common(n)` has `min(max(n, 0), distinct)` entries. Each is an element with its number of occurrences, at least one. Entries are ordered by count. No omitted element is more frequent than a returned one. Ties come in first-encountered order, and keys are distinct. |
| Counter.Tally | chatbot/insights.py:25 | A `Counter` holds one entry per distinct element, in first-occurrence order, paired with that element's number of occurrences. |
| Counter.DedupFirstOccurrenceOrder | chatbot/insights.py:25 | The keys of a counter appear in the order of their first occurrence. |
| Counter.TallySum | chatbot/insights.py:25 | The counts of a counter add up to the number of elements counted. |
| Text.IsSpace | chatbot/insights.py:16 | A definition, with no contract. It gives the whitespace set `str.split()` with no argument splits on: tab through carriage return, the separators U+001C to U+001F, space, U+0085, no-break space and the Unicode space separators. |
| Text.Split | chatbot/insights.py:16 | `split()` yields non-empty tokens. |
| Text.SplitTokenChars | chatbot/insights.py:16 | The tokens of `split()` contain no whitespace and only characters of the text. |
| Text.SplitLayout | chatbot/insights.py:22 | `split()` returns the maximal runs of non-whitespace characters in text order. Each token sits verbatim in the text at its start position, is non-empty and holds no whitespace. It begins the text or follows whitespace, and it ends the text or is followed by whitespace. Each token starts after the previous one ends, with a gap between them. Every non-whitespace character lies inside some token. |
| Text.SplitCountsWordStarts | chatbot/insights.py:16 | The number of tokens of `split()` is the number of positions where a word begins. |
| Text.Lower | chatbot/insights.py:22 | `lower()` keeps the length. Each upper-case letter becomes its lower-case form (code point plus 32, so `A` becomes `a`), and every other character is unchanged. No upper-case letter is left, and letters stay letters. |
| Text.LowerHasNoUpper | chatbot/insights.py:22 | A lower-cased text has no upper-case letter, and lower-casing is idempotent. |
| Text.IsAlpha | chatbot/insights.py:23 | A definition, with no contract. `w.isalpha()` holds when `w` is non-empty and every character is a letter. Only ASCII letters are covered; see Left out. |
| Text.IsAlphaLower | chatbot/insights.py:22-23 | A word passes `isalpha()` exactly when its lower-cased form is non-empty and all lower-case letters, so testing before or after `lower()` agrees. |
| Text.Join | chatbot/rag_chain.py:24 | Joining no parts gives the empty text. Otherwise the join is as long as the parts together plus one separator per gap. |
| Text.JoinLayout | chatbot/rag_chain.py:24 | Each part sits at its offset, exactly one separator lies between neighbours, and the join ends with the last part. |
| PolicyInsights.TotalWords | chatbot/insights.py:16 | No documents hold no words, and no document has more words than the total. |
| PolicyInsights.DocumentStatsOf | chatbot/insights.py:12-17 | `num_documents` and `num_chunks` are the list lengths, and `total_words` is the sum of the documents' token counts. |
| PolicyInsights.TotalWordsCountsWordStarts | chatbot/insights.py:16 | `total_words` equals the number of word starts across all documents, counted without splitting. |
| PolicyInsights.TotalWordsAppend | chatbot/insights.py:16 | The word total of two document lists is the sum of their totals. |
| PolicyInsights.FrequentTerms | chatbot/insights.py:19-25 | The nested loops over chunks and tokens build exactly the qualifying lower-cased tokens, chunk by chunk. The result is their `most_common(top_k)`. |
| PolicyInsights.ChunkTermsQualify | chatbot/insights.py:20-24 | Every collected word is a token of some lower-cased chunk. It is made of lower-case letters only and is longer than four characters. |
| PolicyInsights.Qualifies | chatbot/insights.py:23 | A definition, with no contract. It is the filter `w.isalpha() and len(w) > 4` applied to each lower-cased token. |
| PolicyInsights.KeepQualifying | chatbot/insights.py:23-24 | No more tokens are kept than there are, and each kept token is one of the tokens and qualifies. |
| PolicyInsights.ChunkTerms | chatbot/insights.py:20-24 | Every word collected from the chunks qualifies. |
| PolicyInsights.CountKeepQualifying | chatbot/insights.py:23-24 | The filter keeps every occurrence of a qualifying token and no occurrence of any other token. |
| PolicyInsights.ChunkTermsCount | chatbot/insights.py:20-24 | A qualifying word is collected exactly as often as it occurs among the tokens of the lower-cased chunks. Any other word is never collected. |
| PolicyInsights.QualifyingTokenCollected | chatbot/insights.py:20-24 | Every qualifying token of every lower-cased chunk is collected. |
| PolicyInsights.FrequentTermsRanked | chatbot/insights.py:19-25 | Exactly `top_k` entries, or every distinct word when there are fewer, and none for `top_k <= 0`. Each is a qualifying lower-case word with its number of occurrences among the tokens of the lower-cased chunks, at least one. Entries are ordered by count. No omitted word is more frequent than a returned one. Ties come in first-encountered order, and keys are distinct. |
| PolicyInsights.FrequentTermsWithDefaults | chatbot/insights.py:19-25 | Without an argument `top_k` is 10, so at most ten terms come back. |
| PolicyInsights.NoTermsNoResult | chatbot/insights.py:20-25 | When no token of any lower-cased chunk is alphabetic and longer than four characters, the result is empty. This includes having no chunks. |
| RagChain.NewHRPolicyRAG | chatbot/rag_chain.py:16-21 | The retriever fetches `TOP_K` = 4 passages from the store, and the chain uses the given chat model. |
| RagChain.BuildContext | chatbot/rag_chain.py:23-24 | No passages give the empty context, and one passage gives exactly its text. Otherwise the context is as long as the passages together plus two characters per gap. |
| RagChain.PassageInContext | chatbot/rag_chain.py:23-24 | Each passage sits verbatim in the context at its offset. |
| RagChain.BuildContextLayout | chatbot/rag_chain.py:24 | The passages appear in retrieval order with exactly one blank line between neighbours and nothing before the first or after the last. The length is the passages' lengths plus two per gap. |
| RagChain.Prompt | chatbot/rag_chain.py:31-41 | The context sits right after the fixed head of the template, and the question right after the text that follows the context. |
| RagChain.PromptLayout | chatbot/rag_chain.py:31-41 | The prompt holds, verbatim and in this order without overlap: the greeting rule, the instruction to answer from the context only, the fallback sentence, then the context, then the question. |
| RagChain.HeadLayout | chatbot/rag_chain.py:31-34 | The head of the template holds the greeting, the instruction and the fallback sentence at their offsets. |
| RagChain.Answer | chatbot/rag_chain.py:26-49 | The result echoes the question. Its sources are the retrieved passages. Its answer is the model's reply to the prompt built from them. |
| RagChain.AnswerFromSources | chatbot/rag_chain.py:16-49 | For a chain built over a store, the sources are what the store returns when asked for 4 passages, in the store's order. The answer is the model's reply unaltered. |
| RagChain.PromptCarriesSources | chatbot/rag_chain.py:27-41 | The prompt sent to the model holds every source passage verbatim at its place in the context, and the question after it. |
| RagChain.InsideContext | chatbot/rag_chain.py:29-41 | Whatever occurs in the context occurs in the prompt, shifted by the length of the fixed head. |

## Left out

- The sentence-transformer embeddings and `util.cos_sim` are a foreign model over floating point. `TopFaqs` takes the scores as a function `cosSim(i, j)` into `real` and compares them with the threshold as the source does.
- The FAISS store's search, persistence and rebuilding are abstract. `similaritySearch` is a function, so nothing is proved about which passages it returns.
- The chat model (`get_llm` and its local-service and in-process backends) is an abstract function from prompt to reply. No backend selection, health check or failure is modelled.
- Loading, chunking, evaluation metrics, question history, the chat UI and the settings other than `TOP_K` are not part of this model.
- Text.Lower and Text.IsAlpha cover ASCII letters only. Python's `str.lower` and `str.isalpha` also act on non-ASCII letters. Text.Split uses Python's full whitespace set.
- FaqInsights.TopFaqs returns the `(text, count)` pairs in order. The source builds a dictionary from them, and `PrefixKeysDistinct` shows that this loses no entry.
- PolicyInsights.FrequentTerms returns the `(word, count)` pairs in order. The source builds a dictionary from them, and `MostCommonRanked` shows that the keys are distinct, so this loses no entry.
- FaqInsights.AllDissimilarSingletons also requires distinct texts. The counter is keyed by text, so two dissimilar questions with the same text share one counter.
- RagChain.Answer returns the model's reply as produced, without trimming it. The result has no field naming the backend used, and an empty question is accepted like any other.
- The reply for an empty corpus depends on the chat model. The model shows only that the prompt then carries an empty context and the fallback instruction.
