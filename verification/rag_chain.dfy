/** `HRPolicyRAG`: retrieve the passages closest to a question, join them
    into a context, wrap context and question in the fixed prompt, and hand
    the prompt to the chat model. The vector store and the chat model are
    abstract functions. */
module RagChain {
  import opened Text
  import opened Documents
  import opened Config

  /** The part of a FAISS store the chain uses: `similarity_search(query, k)`,
      the at most `k` passages closest to `query`, closest first. */
  datatype VectorStore = VectorStore(similaritySearch: (string, nat) -> seq<Document>)

  /** `vectorstore.as_retriever(search_kwargs={"k": k})`. */
  datatype Retriever = Retriever(store: VectorStore, k: nat)

  /** `retriever.invoke(query)`. */
  function Retrieve(retriever: Retriever, query: string): seq<Document>
  {
    retriever.store.similaritySearch(query, retriever.k)
  }

  /** The reply object of a chat model; only its text is read. */
  datatype AIMessage = AIMessage(content: string)

  /** A chat model: `llm.invoke(prompt)`. */
  datatype ChatModel = ChatModel(invoke: string -> AIMessage)

  datatype HRPolicyRAG = HRPolicyRAG(retriever: Retriever, llm: ChatModel)

  /** `HRPolicyRAG(vectorstore)`: the retriever asks the store for `TOP_K`
      passages; `llm` stands for the model `get_llm()` selects. */
  function NewHRPolicyRAG(vectorstore: VectorStore, llm: ChatModel): (rag: HRPolicyRAG)
    ensures rag.retriever.k == TopK == 4
    ensures forall q :: Retrieve(rag.retriever, q) == vectorstore.similaritySearch(q, 4)
    ensures rag.llm == llm
  {
    HRPolicyRAG(Retriever(vectorstore, TopK), llm)
  }

  /** The separator between passages of the context. */
  const Separator: string := "\n\n"

  /** `_build_context(docs)`: no passages give an empty context, one passage
      gives exactly its text, and otherwise the context is as long as the
      passages together plus one two-character separator per gap. */
  function BuildContext(docs: seq<Document>): (ctx: string)
    ensures |docs| == 0 ==> ctx == ""
    ensures |docs| == 1 ==> ctx == docs[0].pageContent
    ensures |docs| > 0 ==> |ctx| == TotalLength(Contents(docs)) + 2 * (|docs| - 1)
  {
    Join(Separator, Contents(docs))
  }

  /** Where the `k`-th passage starts in the context. */
  function ContextOffset(docs: seq<Document>, k: nat): nat
    requires k <= |docs|
  {
    PartOffset(Separator, Contents(docs), k)
  }

  /** The context is the passages, in retrieval order, with exactly one
      separator between neighbours and nothing before the first or after the
      last; its length is the passages' lengths plus two per gap. */
  lemma BuildContextLayout(docs: seq<Document>)
    requires |docs| > 0
    ensures var ctx := BuildContext(docs);
      && |ctx| == TotalLength(Contents(docs)) + 2 * (|docs| - 1)
      && ContextOffset(docs, 0) == 0
      && (forall k | 0 <= k < |docs| :: Occurs(ctx, docs[k].pageContent, ContextOffset(docs, k)))
      && (forall k | 0 <= k < |docs| - 1 ::
            && Occurs(ctx, Separator, ContextOffset(docs, k) + |docs[k].pageContent|)
            && ContextOffset(docs, k + 1) == ContextOffset(docs, k) + |docs[k].pageContent| + 2)
      && |ctx| == ContextOffset(docs, |docs| - 1) + |docs[|docs| - 1].pageContent|
  {
    var parts := Contents(docs);
    assert parts[..0] == [];
    forall k | 0 <= k < |docs|
      ensures Occurs(BuildContext(docs), docs[k].pageContent, ContextOffset(docs, k))
    {
      JoinLayout(Separator, parts, k);
    }
    forall k | 0 <= k < |docs| - 1
      ensures Occurs(BuildContext(docs), Separator, ContextOffset(docs, k) + |docs[k].pageContent|)
      ensures ContextOffset(docs, k + 1) == ContextOffset(docs, k) + |docs[k].pageContent| + 2
    {
      JoinLayout(Separator, parts, k);
      assert parts[k] == docs[k].pageContent;
      assert |Separator| == 2;
    }
    JoinLayout(Separator, parts, |docs| - 1);
  }

  /** The fixed texts of the prompt. */
  const Greeting: string :=
    "Hello! How can I help you today? You can ask me questions about Acme's leave policies and employee benfits programs."
  const StrictInstruction: string := "Answer the question strictly using the context below."
  const FallbackAnswer: string := "Sorry, I don't have an answer to this as it is not specified in the policy"

  /** The line break and indentation that open each line of the template. */
  const NewLine: string := "\n        "

  const GreetingLead: string :=
    NewLine + "You are an HR policy assistant. If someone says \"Hello/hi\", you respond just with \""
  const InstructionLead: string := "\"" + NewLine
  const FallbackLead: string := NewLine + "If the answer is not present, say \""
  const ContextLead: string := "\"." + "\n" + NewLine + "Context:" + NewLine

  /** Everything before the context. */
  const PromptHead: string :=
    GreetingLead + Greeting + InstructionLead + StrictInstruction + FallbackLead + FallbackAnswer + ContextLead
  /** Between the context and the question. */
  const PromptMid: string := "\n" + NewLine + "Question:" + NewLine
  /** After the question. */
  const PromptTail: string := NewLine

  /** Where the fixed texts and the context start in the prompt. */
  const GreetingAt: nat := |GreetingLead|
  const InstructionAt: nat := GreetingAt + |Greeting| + |InstructionLead|
  const FallbackAt: nat := InstructionAt + |StrictInstruction| + |FallbackLead|
  const ContextAt: nat := |PromptHead|

  /** The f-string of `answer`: the context sits right after the fixed head
      and the question right after the text that follows the context. */
  function Prompt(context: string, question: string): (p: string)
    ensures Occurs(p, context, ContextAt)
    ensures Occurs(p, question, QuestionAt(context))
  {
    FilledTemplate(PromptHead, context, PromptMid, question, PromptTail);
    PromptHead + context + PromptMid + question + PromptTail
  }

  /** Where the question starts in the prompt. */
  function QuestionAt(context: string): nat
  {
    ContextAt + |context| + |PromptMid|
  }

  /** The prompt carries the greeting rule, the instruction to answer from
      the context only and the fallback sentence, in that order, then the
      context, then the question, each verbatim and none overlapping. */
  lemma PromptLayout(context: string, question: string)
    ensures var p := Prompt(context, question);
      && Occurs(p, Greeting, GreetingAt)
      && Occurs(p, StrictInstruction, InstructionAt)
      && Occurs(p, FallbackAnswer, FallbackAt)
      && Occurs(p, context, ContextAt)
      && Occurs(p, question, QuestionAt(context))
      && GreetingAt + |Greeting| < InstructionAt
      && InstructionAt + |StrictInstruction| < FallbackAt
      && FallbackAt + |FallbackAnswer| < ContextAt
      && ContextAt + |context| < QuestionAt(context)
      && |p| == QuestionAt(context) + |question| + |PromptTail|
  {
    HeadLayout();
    FilledTemplate(PromptHead, context, PromptMid, question, PromptTail);
  }

  /** A template `head + slot1 + mid + slot2 + tail` keeps what its head
      holds, and each slot sits right after the text before it. */
  lemma FilledTemplate(head: string, slot1: string, mid: string, slot2: string, tail: string)
    ensures var p := head + slot1 + mid + slot2 + tail;
      && Occurs(p, slot1, |head|)
      && Occurs(p, slot2, |head| + |slot1| + |mid|)
      && (forall sub, at | Occurs(head, sub, at) :: Occurs(p, sub, at))
  {
    var p := head + slot1 + mid + slot2 + tail;
    assert p == head + (slot1 + mid + slot2 + tail);
    assert p[|head|..|head| + |slot1|] == slot1;
    assert p[|head| + |slot1| + |mid|..|head| + |slot1| + |mid| + |slot2|] == slot2;
    forall sub, at | Occurs(head, sub, at) ensures Occurs(p, sub, at) {
      assert p[..|head|] == head;
      OccursWithin(p, head, 0, sub, at);
    }
  }

  /** The three fixed sentences in the head of the prompt. */
  lemma HeadLayout()
    ensures Occurs(PromptHead, Greeting, GreetingAt)
    ensures Occurs(PromptHead, StrictInstruction, InstructionAt)
    ensures Occurs(PromptHead, FallbackAnswer, FallbackAt)
  {
    var a := GreetingLead;
    FilledTemplate(a, Greeting, InstructionLead, StrictInstruction, FallbackLead);
    var b := a + Greeting + InstructionLead + StrictInstruction + FallbackLead;
    FilledTemplate(b, FallbackAnswer, ContextLead, "", "");
    assert b + FallbackAnswer + ContextLead + "" + "" == PromptHead;
  }

  /** The record `answer` returns. */
  datatype RagResult = RagResult(question: string, answer: string, sources: seq<Document>)

  /** The prompt `answer` sends for `question`. */
  function AnswerPrompt(rag: HRPolicyRAG, question: string): string
  {
    Prompt(BuildContext(Retrieve(rag.retriever, question)), question)
  }

  /** `rag.answer(question)`. */
  function Answer(rag: HRPolicyRAG, question: string): (result: RagResult)
    ensures result.question == question
    ensures result.sources == Retrieve(rag.retriever, question)
    ensures result.answer == rag.llm.invoke(AnswerPrompt(rag, question)).content
  {
    var docs := Retrieve(rag.retriever, question);
    var context := BuildContext(docs);
    var answer := rag.llm.invoke(Prompt(context, question)).content;
    RagResult(question, answer, docs)
  }

  /** For a chain built over `vectorstore`: the result echoes the question,
      its sources are the `TOP_K` passages the store returns for it, in the
      store's order, and the answer is the model's reply to the prompt built
      from exactly those sources, unaltered. */
  lemma AnswerFromSources(vectorstore: VectorStore, llm: ChatModel, question: string)
    ensures var r := Answer(NewHRPolicyRAG(vectorstore, llm), question);
      && r.question == question
      && r.sources == vectorstore.similaritySearch(question, TopK)
      && r.answer == llm.invoke(Prompt(BuildContext(r.sources), question)).content
  {
  }

  /** The prompt built from retrieved passages holds every passage verbatim
      at its place in the context, and the question after the context. */
  lemma PromptCarriesSources(docs: seq<Document>, question: string)
    ensures var prompt := Prompt(BuildContext(docs), question);
      && (forall k | 0 <= k < |docs| ::
            Occurs(prompt, docs[k].pageContent, ContextAt + ContextOffset(docs, k)))
      && Occurs(prompt, question, QuestionAt(BuildContext(docs)))
  {
    forall k | 0 <= k < |docs|
      ensures Occurs(Prompt(BuildContext(docs), question), docs[k].pageContent, ContextAt + ContextOffset(docs, k))
    {
      PassageInContext(docs, k);
      InsideContext(BuildContext(docs), question, docs[k].pageContent, ContextOffset(docs, k));
    }
  }

  /** Passage `k` sits verbatim in the context at its offset. */
  lemma PassageInContext(docs: seq<Document>, k: nat)
    requires k < |docs|
    ensures Occurs(BuildContext(docs), docs[k].pageContent, ContextOffset(docs, k))
  {
    JoinPartAt(Separator, Contents(docs), k);
    assert Contents(docs)[k] == docs[k].pageContent;
  }

  /** What occurs in the context occurs in the prompt, shifted by the
      length of the fixed head. */
  lemma InsideContext(context: string, question: string, sub: string, off: nat)
    requires Occurs(context, sub, off)
    ensures Occurs(Prompt(context, question), sub, ContextAt + off)
  {
    OccursWithin(Prompt(context, question), context, ContextAt, sub, off);
  }
}
