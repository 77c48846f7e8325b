/**
 The command-line script rag.py: at start-up it reads the `.txt` files of the
 documents directory into the two parallel lists (there are no manual texts
 here), and `ask` sends the retrieved context and the question to the chat
 model inside a fixed prompt template. The interactive loop, the embedding
 model and the vector index are not modelled.
 */
module RagScript {
  import opened Text
  import opened Chunking
  import opened Retrieval

  /** The chat model the prompt is sent to. */
  const ChatModel: string := "llama3"

  /** The template text before the context. */
  const Preamble: string :=
    "\nYou are a helpful assistant.\nUse ONLY the context below to answer the question.\n\nContext:\n"

  /** The template text between the context and the question. */
  const QuestionLabel: string := "\n\nQuestion:\n"

  /** The template text after the question. */
  const AnswerLabel: string := "\n\nAnswer:\n"

  /** The prompt of rag.py:64-75. */
  function Prompt(context: string, question: string): string {
    Preamble + context + QuestionLabel + question + AnswerLabel
  }

  /** The prompt holds the context right after "Context:\n", the question right after
      "Question:\n", and ends with "Answer:\n". */
  lemma PromptLayout(context: string, question: string)
    ensures var p, c, q := Prompt(context, question), |Preamble|, |Preamble| + |context| + |QuestionLabel|;
      && |p| == q + |question| + |AnswerLabel|
      && EndsWith(p[..c], "Context:\n") && p[c..c + |context|] == context
      && EndsWith(p[..q], "Question:\n") && p[q..q + |question|] == question
      && EndsWith(p, "Answer:\n")
  {
    var p, c, q := Prompt(context, question), |Preamble|, |Preamble| + |context| + |QuestionLabel|;
    assert p[..c] == Preamble;
    assert p[..q] == Preamble + context + QuestionLabel;
    assert p[q..q + |question|] == question;
    assert p[|p| - 8..] == "Answer:\n";
  }

  /** The prompt loses nothing: for label-free contexts, equal prompts have equal contexts
      and equal questions. */
  lemma PromptInjective(c1: string, q1: string, c2: string, q2: string)
    requires LabelFree(c1) && LabelFree(c2) && Prompt(c1, q1) == Prompt(c2, q2)
    ensures c1 == c2 && q1 == q2
  {
    var p1, p2 := Prompt(c1, q1), Prompt(c2, q2);
    assert p1[|Preamble|..|p1| - |AnswerLabel|] == c1 + QuestionLabel + q1;
    assert p2[|Preamble|..|p2| - |AnswerLabel|] == c2 + QuestionLabel + q2;
    LabelledUnique(c1, q1, c2, q2, QuestionLabel);
  }

  /** Without label freedom the template is ambiguous: a context that itself holds
      "\n\nQuestion:\n" gives the same prompt as a shorter context with a longer question. */
  lemma PromptAmbiguous()
    ensures Prompt("x\n\nQuestion:\ny", "z") == Prompt("x", "y\n\nQuestion:\nz")
    ensures !LabelFree("x\n\nQuestion:\ny")
  {
    var c := "x\n\nQuestion:\ny";
    assert c[1] == '\n' && c[2] == '\n' && c[3] == 'Q';
  }

  /** The top-level indexing loop of rag.py:23-35: the `.txt` files of the listing, in listing
      order, split into paragraphs, each chunk recorded with its file name. */
  method IndexDocuments(docs: seq<Document>) returns (allChunks: seq<string>, metadata: seq<Meta>)
    ensures |allChunks| == |metadata| && Zip(allChunks, metadata) == FileEntries(docs)
  {
    allChunks, metadata := [], [];
    for i := 0 to |docs|
      invariant |allChunks| == |metadata|
      invariant Zip(allChunks, metadata) == FileEntries(docs[..i])
    {
      var d := docs[i];
      ghost var chunks0, metas0 := allChunks, metadata;
      if IsTxt(d.name) {
        allChunks, metadata := AppendParagraphs(allChunks, metadata, d.contents, d.name);
      }
      FileStep(docs, i, chunks0, metas0, allChunks, metadata);
    }
    assert docs[..|docs|] == docs;
  }

  /** `ask(question)` once the search has returned the positions `hits`: the prompt built from
      the retrieved passages and the question, sent to the chat model. */
  method Ask(allChunks: seq<string>, metadata: seq<Meta>, question: string, hits: seq<int>) returns (reply: Reply)
    requires InRange(hits, |allChunks|) && InRange(hits, |metadata|)
    ensures reply == ChatRequest(ChatModel, Prompt(Join(Retrieved(allChunks, metadata, hits), Sep), question))
  {
    var context := RetrieveContext(allChunks, metadata, hits);
    reply := ChatRequest(ChatModel, Prompt(context, question));
  }

  /** Each chunk the script indexes is non-empty and stripped, its source is the name of a
      listed `.txt` file, and the chunk is one of that file's paragraphs. */
  lemma ScriptIndexFacts(docs: seq<Document>, allChunks: seq<string>, metadata: seq<Meta>)
    requires |allChunks| == |metadata| && Zip(allChunks, metadata) == FileEntries(docs)
    ensures forall k :: 0 <= k < |allChunks| ==>
      && Clean(allChunks[k])
      && IsTxt(metadata[k].source)
      && exists d :: d in docs && d.name == metadata[k].source && allChunks[k] in Paragraphs(d.contents)
  {
    var es := FileEntries(docs);
    assert IndexEntries(docs, []) == es;
    IndexEntriesClean(docs, []);
    FileEntriesOrigin(docs);
    forall k | 0 <= k < |allChunks|
      ensures Clean(allChunks[k]) && IsTxt(metadata[k].source)
      ensures exists d :: d in docs && d.name == metadata[k].source && allChunks[k] in Paragraphs(d.contents)
    {
      assert es[k] == Entry(allChunks[k], metadata[k].source);
      assert es[k] in es;
    }
  }

  /** The prompt `ask` sends determines the context it retrieved and the question it was
      asked, as long as no file name contains a blank line. */
  lemma AskPromptInjective(docs: seq<Document>, chunks: seq<string>, metas: seq<Meta>,
                           hits1: seq<int>, q1: string, hits2: seq<int>, q2: string)
    requires |chunks| == |metas| && Zip(chunks, metas) == FileEntries(docs)
    requires forall d :: d in docs ==> !Contains(d.name, Sep)
    requires InRange(hits1, |chunks|) && InRange(hits2, |chunks|)
    requires Prompt(Join(Retrieved(chunks, metas, hits1), Sep), q1) == Prompt(Join(Retrieved(chunks, metas, hits2), Sep), q2)
    ensures Join(Retrieved(chunks, metas, hits1), Sep) == Join(Retrieved(chunks, metas, hits2), Sep) && q1 == q2
  {
    assert IndexEntries(docs, []) == FileEntries(docs);
    StoredListsClean(docs, [], chunks, metas);
    ContextLabelFree(chunks, metas, hits1);
    ContextLabelFree(chunks, metas, hits2);
    PromptInjective(Join(Retrieved(chunks, metas, hits1), Sep), q1, Join(Retrieved(chunks, metas, hits2), Sep), q2);
  }
}
