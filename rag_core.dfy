/**
 The indexing service of rag_core.py. Its module-level state (`index`,
 `all_chunks`, `metadata`, `manual_texts`) becomes the fields of class `Rag`;
 `build_index`, `add_manual_text`, `get_manual_text_count` and `ask` become
 its members. The documents directory is passed in as its listing, a sequence
 of (file name, contents) pairs in the order the listing gives them; the
 embedding model and the vector index are not modelled, only whether an index
 exists.
 */
module RagCore {
  import opened Text
  import opened Chunking
  import opened Retrieval

  /** The answer `ask` gives when there is no index. */
  const NoDocuments: string := "No documents available."

  /** The chat model the question is sent to. */
  const ChatModel: string := "phi3"

  /** The text between the context and the question in the message sent to the chat model. */
  const QuestionLabel: string := "\n\nQuestion: "

  /** The message sent to the chat model: the context, then the question. */
  function Message(context: string, question: string): string {
    context + QuestionLabel + question
  }

  class Rag {
    /** `manual_texts`: the texts added by hand, in the order they were added. */
    var manualTexts: seq<string>
    /** `all_chunks` */
    var allChunks: seq<string>
    /** `metadata`, parallel to `all_chunks` */
    var metadata: seq<Meta>
    /** `index is not None` */
    var indexed: bool
    /** The directory listing the lists were last built from. */
    ghost var listing: seq<Document>

    /** The two lists run in parallel and hold exactly what the last listing and the manual
        texts contribute; an index exists exactly when they are not empty. */
    ghost predicate Valid()
      reads this
    {
      && |allChunks| == |metadata|
      && Zip(allChunks, metadata) == IndexEntries(listing, manualTexts)
      && indexed == (allChunks != [])
    }

    /** The module's state when it is first imported. */
    constructor ()
      ensures Valid() && listing == []
      ensures manualTexts == [] && allChunks == [] && metadata == [] && !indexed
    {
      manualTexts := [];
      allChunks := [];
      metadata := [];
      indexed := false;
      listing := [];
    }

    /** `get_manual_text_count()` */
    function ManualTextCount(): nat
      reads this
    {
      |manualTexts|
    }

    /** `build_index()`: both lists are rebuilt from scratch, first from the `.txt` files of
        the listing, then from the manual texts; the index exists exactly when some chunk
        survived. Nothing the lists held before is kept. */
    method BuildIndex(docs: seq<Document>)
      modifies this
      ensures Valid() && listing == docs
      ensures manualTexts == old(manualTexts)
      ensures |allChunks| == |metadata| && Zip(allChunks, metadata) == IndexEntries(docs, manualTexts)
      ensures indexed <==> allChunks != []
    {
      allChunks := [];
      metadata := [];

      for i := 0 to |docs|
        invariant manualTexts == old(manualTexts)
        invariant |allChunks| == |metadata|
        invariant Zip(allChunks, metadata) == FileEntries(docs[..i])
      {
        var d := docs[i];
        ghost var chunks0, metas0 := allChunks, metadata;
        if IsTxt(d.name) {
          allChunks, metadata := AppendParagraphs(allChunks, metadata, d.contents, d.name);
        }
        FileStep(docs, i, chunks0, metas0, allChunks, metadata);
      }
      assert docs[..|docs|] == docs;

      for i := 0 to |manualTexts|
        invariant manualTexts == old(manualTexts)
        invariant |allChunks| == |metadata|
        invariant Zip(allChunks, metadata) == FileEntries(docs) + ManualEntries(manualTexts[..i])
      {
        var text := manualTexts[i];
        ghost var chunks0, metas0 := allChunks, metadata;
        allChunks, metadata := AppendParagraphs(allChunks, metadata, text, ManualSource(i));
        ManualStep(FileEntries(docs), manualTexts, i, chunks0, metas0, allChunks, metadata);
      }
      assert manualTexts[..|manualTexts|] == manualTexts;

      listing := docs;
      if allChunks == [] {
        indexed := false;
        return;
      }
      indexed := true;
    }

    /** `add_manual_text(text)`: the text is appended last, the earlier ones are kept, the
        count goes up by exactly one, and the index is rebuilt. When the listing has not
        changed since the last build, the rebuilt lists are the old ones followed by the
        chunks of the new text. */
    method AddManualText(text: string, docs: seq<Document>)
      modifies this
      ensures manualTexts == old(manualTexts) + [text]
      ensures ManualTextCount() == old(ManualTextCount()) + 1
      ensures Valid() && listing == docs
      ensures |allChunks| == |metadata| && Zip(allChunks, metadata) == IndexEntries(docs, manualTexts)
      ensures old(Valid()) && docs == old(listing) ==>
        Zip(allChunks, metadata) == old(Zip(allChunks, metadata)) + Tagged(Paragraphs(text), ManualSource(old(|manualTexts|)))
    {
      manualTexts := manualTexts + [text];
      BuildIndex(docs);
      ManualEntriesAppend(old(manualTexts), text);
    }

    /** `ask(question)` once the search has returned the positions `hits`: with no index the
        fixed answer; otherwise the message made of the retrieved passages and the question,
        sent to the chat model. */
    method Ask(question: string, hits: seq<int>) returns (reply: Reply)
      requires Valid()
      requires indexed ==> InRange(hits, |allChunks|)
      ensures !indexed ==> reply == Answer(NoDocuments)
      ensures indexed ==> reply == ChatRequest(ChatModel, Message(Join(Retrieved(allChunks, metadata, hits), Sep), question))
    {
      if !indexed {
        return Answer(NoDocuments);
      }
      var context := RetrieveContext(allChunks, metadata, hits);
      reply := ChatRequest(ChatModel, Message(context, question));
    }
  }

  /** When at least one position was retrieved and no file name contains a blank line, the
      context `ask` sends splits on blank lines back into exactly the passages it was made
      of, one per retrieved position, in retrieval order. */
  lemma AskContextSplits(docs: seq<Document>, texts: seq<string>, chunks: seq<string>, metas: seq<Meta>, hits: seq<int>)
    requires |chunks| == |metas| && Zip(chunks, metas) == IndexEntries(docs, texts)
    requires forall d :: d in docs ==> !Contains(d.name, Sep)
    requires hits != [] && InRange(hits, |chunks|)
    ensures Split(Join(Retrieved(chunks, metas, hits), Sep), Sep) == Retrieved(chunks, metas, hits)
  {
    StoredListsClean(docs, texts, chunks, metas);
    ContextSplitsIntoPassages(chunks, metas, hits);
  }

  /** The message loses nothing: for label-free contexts, equal messages have equal contexts
      and equal questions. */
  lemma MessageInjective(c1: string, q1: string, c2: string, q2: string)
    requires LabelFree(c1) && LabelFree(c2) && Message(c1, q1) == Message(c2, q2)
    ensures c1 == c2 && q1 == q2
  {
    LabelledUnique(c1, q1, c2, q2, QuestionLabel);
  }

  /** The message `ask` sends determines the context it retrieved and the question it was
      asked, as long as no file name contains a blank line. */
  lemma AskMessageInjective(docs: seq<Document>, texts: seq<string>, chunks: seq<string>, metas: seq<Meta>,
                            hits1: seq<int>, q1: string, hits2: seq<int>, q2: string)
    requires |chunks| == |metas| && Zip(chunks, metas) == IndexEntries(docs, texts)
    requires forall d :: d in docs ==> !Contains(d.name, Sep)
    requires InRange(hits1, |chunks|) && InRange(hits2, |chunks|)
    requires Message(Join(Retrieved(chunks, metas, hits1), Sep), q1) == Message(Join(Retrieved(chunks, metas, hits2), Sep), q2)
    ensures Join(Retrieved(chunks, metas, hits1), Sep) == Join(Retrieved(chunks, metas, hits2), Sep) && q1 == q2
  {
    StoredListsClean(docs, texts, chunks, metas);
    ContextLabelFree(chunks, metas, hits1);
    ContextLabelFree(chunks, metas, hits2);
    MessageInjective(Join(Retrieved(chunks, metas, hits1), Sep), q1, Join(Retrieved(chunks, metas, hits2), Sep), q2);
  }
}
