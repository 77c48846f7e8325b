# Mini-RAG indexer and context assembler, modelled in Dafny

Mini-RAG is a small retrieval-augmented question answerer. It reads `.txt`
documents, cuts them into paragraph chunks, embeds the chunks into a flat
vector index, and answers a question by retrieving the nearest chunks and
sending them, with the question, to a local chat model. The embedding model,
the vector index and the chat client are external libraries. The logic the
repository owns is the **chunker** with its parallel source table
(`all_chunks` / `metadata`), the **manual-text store**, the **empty-index
guard** and the **context and prompt assembly**. This project models exactly
that logic, for both the web back end `rag_core.py` and the script `rag.py`.

Files and modules:

- `text.dfy`, module `Text`: the Python string operations the chunker relies
  on, with their Python 3 meaning. These are `str.isspace`, `strip()`,
  `find`, `split(sep)`, `sep.join(...)`, `endswith`, and the decimal
  rendering of an `int` in an f-string. Lemmas cover them: split and join
  round trips, what `strip` removes, and decimal parsing.
- `chunking.dfy`, module `Chunking`: what the indexer stores, written as
  specification functions of the directory listing and the manual texts.
  `Paragraphs`, `FileEntries`, `ManualEntries` and `IndexEntries` are these
  functions. `AppendParagraphs` is the inner loop shared by both files: split
  on `"\n\n"`, strip, keep the non-empty pieces. The module also holds the
  lemmas for the properties the indexer promises.
- `retrieval.dfy`, module `Retrieval`: the context loop shared by both `ask`
  functions. Each hit becomes `"[Source: " + src + "]\n" + chunk`, and the
  passages are joined with `"\n\n"`. The module also proves that, for at
  least one hit over clean chunks whose sources contain no `"\n\n"`, the
  context splits back into its passages.
- `rag_core.dfy`, module `RagCore`: class `Rag` holds the module-level state
  of `rag_core.py` (`manual_texts`, `all_chunks`, `metadata`, and whether
  `index` is set). Its methods are `build_index`, `add_manual_text` and `ask`.
  `get_manual_text_count` is the function `Rag.ManualTextCount`, which
  `AddManualText`'s contract uses to state that the count rises by one.
- `rag_script.dfy`, module `RagScript`: the top-level indexing loop of
  `rag.py`, its `ask`, and its prompt template.

External pieces become inputs:

- The documents directory is a `seq<Document>` of (name, contents) pairs, in
  the order the listing gives them. `contents` is what `f.read()` returns.
- The nearest-neighbour search is a `seq<int>` of positions. A precondition
  requires each to be an index Python accepts on the lists (`-n <= idx < n`).
  A negative position counts from the end, as in Python, so the `-1` FAISS
  pads its result with when `k` exceeds the number of chunks reads the last
  chunk, exactly as `all_chunks[-1]` does.
- The chat model's reply is opaque. `ask` is modelled up to the request it
  sends, `ChatRequest(model, content)`, or the fixed answer
  `"No documents available."`.

`Rag.Valid()` is the class invariant. The two lists are parallel. Read
position by position (`Zip`), they equal `IndexEntries(listing,
manualTexts)`, where `listing` is a ghost field holding the directory
snapshot of the last build. An index exists exactly when the lists are
non-empty. `BuildIndex` ensures its result without mentioning the old lists.
The lists are therefore rebuilt from scratch, never accumulated, and
rebuilding from the same inputs gives the same lists.

## Model

| member | source | states |
|---|---|---|
| `Text.StripStartSpec` | rag_core.py:35 | the left half of `strip()` removes only whitespace, leaves a suffix of the input, and what remains does not start with whitespace |
| `Text.StripEndSpec` | rag_core.py:35 | the right half of `strip()` removes only whitespace, leaves a prefix of the input, and what remains does not end with whitespace |
| `Text.StripTrimmed` | rag_core.py:35 | a stripped chunk neither starts nor ends with whitespace |
| `Text.StripEmptyIffBlank` | rag_core.py:35-36 | `chunk.strip()` is empty exactly when the piece is whitespace only, which is when `if chunk:` drops it |
| `Text.StripIdempotent` | rag_core.py:35 | stripping a stripped chunk changes nothing, so every stored chunk equals its own strip |
| `Text.StripKeepsOut` | rag_core.py:32-35 | stripping a piece cannot create an occurrence of a separator it did not contain |
| `Text.FindFrom` | rag_core.py:32 | the search `split` uses returns the first position at or after the start where the separator occurs, or reports that there is none |
| `Text.Split` | rag_core.py:32 | `text.split("\n\n")` always yields at least one piece |
| `Text.SplitJoin` | rag_core.py:32 | joining the pieces of `text.split(sep)` with `sep` gives back `text`, so splitting loses nothing |
| `Text.SplitPiecesFree` | rag_core.py:32 | no piece of `text.split(sep)` contains `sep` |
| `Text.JoinSplit` | rag_core.py:79 | splitting a `"\n\n"`-join of a non-empty list of passages that contain no `"\n\n"` and do not end in a newline gives back exactly those passages |
| `Text.JoinBlank` | rag_core.py:32 | a `"\n\n"`-join is whitespace only exactly when every joined piece is |
| `Text.NatToString` | rag_core.py:47 | the rendering of `i` in `f"manual_input_{i}"` is a non-empty string of decimal digits with no leading zero |
| `Text.ParseNatToString` | rag_core.py:47 | the decimal rendering of `i` reads back as `i` |
| `Text.NatToStringInjective` | rag_core.py:47 | different positions render as different digit strings |
| `Chunking.AppendParagraphs` | rag_core.py:32-38 | the inner loop appends the paragraphs of a text to `all_chunks`, in paragraph order, and one `{"source": src}` record per paragraph to `metadata`, in lockstep |
| `Chunking.FileEntriesSnoc` | rag_core.py:27-38 | one more listed file adds its tagged paragraphs after everything before it, and only if its name ends in `.txt` |
| `Chunking.FileStep` | rag_core.py:27-38 | one pass of the file loop keeps the two lists parallel and equal to the entries of the files seen so far |
| `Chunking.ManualStep` | rag_core.py:41-47 | one pass of the manual loop keeps the two lists parallel and equal to the file entries followed by the entries of the manual texts seen so far |
| `Chunking.CleanedClean` | rag_core.py:34-37 | pieces free of `"\n\n"` become chunks that are non-empty, stripped and free of `"\n\n"` |
| `Chunking.ParagraphsClean` | rag_core.py:32-37 | every chunk a text contributes is non-empty, equal to its own strip, and free of `"\n\n"` |
| `Chunking.CleanedEmptyIff` | rag_core.py:34-36 | no piece survives exactly when every piece is whitespace only |
| `Chunking.ParagraphsEmptyIffBlank` | rag_core.py:32-36 | a text contributes no chunk exactly when it is whitespace only |
| `Chunking.ParagraphsOfJoin` | rag_core.py:32-37 | chunking inverts joining: any list of clean paragraphs, the empty one included, joined with `"\n\n"` chunks back into the same paragraphs, in the same order |
| `Chunking.CleanedOfClean` | rag_core.py:34-37 | cleaning leaves a list of already clean chunks unchanged |
| `Chunking.FileEntriesConcat` | rag_core.py:27-38 | the entries for a listing are the entries of its parts, concatenated: listing order is kept |
| `Chunking.FileEntriesOrigin` | rag_core.py:27-38 | every file entry carries the name of a listed `.txt` file and is a paragraph of that file |
| `Chunking.ManualEntriesAppend` | rag_core.py:41-47 | adding a manual text leaves the earlier manual entries as they are and appends its paragraphs last, tagged `manual_input_<n>` |
| `Chunking.ManualEntriesOrigin` | rag_core.py:41-47 | every manual entry carries `manual_input_<i>` for some text `i` and is a paragraph of that text |
| `Chunking.ManualSourceNotTxt` | rag_core.py:28 | a manual source never ends in `.txt`, so it cannot be mistaken for a file source |
| `Chunking.ManualSourceInjective` | rag_core.py:47 | different manual texts get different sources |
| `Chunking.IndexEntriesClean` | rag_core.py:34-46 | every stored chunk is non-empty, stripped and free of `"\n\n"` |
| `Chunking.FileEntriesTxt` | rag_core.py:28 | every file entry's source ends in `.txt` |
| `Chunking.ManualEntriesNotTxt` | rag_core.py:41-47 | no manual entry's source ends in `.txt` |
| `Chunking.IndexEntriesLayout` | rag_core.py:26-47 | all file chunks come first and all manual chunks after them; exactly the entries before the cut have a `.txt` source |
| `Chunking.FileEntriesEmptyIff` | rag_core.py:27-38 | the listing contributes nothing exactly when every listed `.txt` file is whitespace only |
| `Chunking.ManualEntriesEmptyIff` | rag_core.py:41-47 | the manual texts contribute nothing exactly when each of them is whitespace only |
| `Chunking.IndexEntriesEmptyIff` | rag_core.py:49-51 | nothing is stored, so no index is built, exactly when every `.txt` file and every manual text is whitespace only |
| `Retrieval.RetrieveContext` | rag_core.py:73-79 | the context is the `"\n\n"`-join, in retrieval order, of `"[Source: " + metadata[idx].source + "]\n" + all_chunks[idx]` for each hit, with Python's indexing: a negative hit such as FAISS's `-1` padding reads from the end |
| `Retrieval.PassageSeparable` | rag_core.py:77 | a passage built from a clean chunk and a source free of `"\n\n"` contains no `"\n\n"` and does not end in a newline |
| `Retrieval.ContextSplitsIntoPassages` | rag_core.py:73-79 | for at least one hit over clean chunks whose sources contain no `"\n\n"`, splitting the context on `"\n\n"` gives back exactly the retrieved passages |
| `Retrieval.JoinLabelFree` | rag_core.py:79 | a `"\n\n"`-join of passages that start with `[`, contain no `"\n\n"` and do not end in a newline has no blank line followed by `Q` and does not end in a newline; a join of at least one passage starts with `[` |
| `Retrieval.ContextLabelFree` | rag_core.py:73-79 | the context built from clean chunks and sources free of `"\n\n"` is label free in that sense |
| `Retrieval.LabelledUnique` | rag_core.py:83 | a label-free context, then a label starting `"\n\nQ"`, then a question: the text determines both the context and the question |
| `RagCore.Rag.ManualTextCount` | rag_core.py:91-92 | the number of manual texts; `AddManualText` states that it rises by exactly one |
| `RagCore.Rag.constructor` | rag_core.py:12-17 | at import there are no manual texts, no chunks, no metadata and no index, and the invariant holds |
| `RagCore.Rag.BuildIndex` | rag_core.py:20-51 | the lists are reset and rebuilt as the `.txt` files' chunks followed by the manual texts' chunks, in lockstep with their sources; manual texts are untouched; an index exists exactly when some chunk survived |
| `RagCore.Rag.AddManualText` | rag_core.py:60-62 | the text is appended last, the earlier texts are kept, `get_manual_text_count()` goes up by exactly one, and the index is rebuilt; with an unchanged listing, the new lists are the old ones followed by the new text's chunks |
| `RagCore.Rag.Ask` | rag_core.py:65-83 | with no index the answer is exactly `"No documents available."`; otherwise `phi3` is sent `context + "\n\nQuestion: " + question`, where the context is built from the hits (a `-1` hit reads the last chunk) |
| `Chunking.ManualSourceNoSep` | rag_core.py:47 | a manual source contains no `"\n\n"` |
| `Chunking.StoredListsClean` | rag_core.py:34-47 | lists built by the indexer hold clean chunks, and their sources are free of `"\n\n"` when no file name contains it |
| `RagCore.AskContextSplits` | rag_core.py:73-79 | for at least one hit, when no file name contains `"\n\n"`, the context `ask` builds from the stored lists splits on `"\n\n"` back into exactly its passages |
| `RagCore.MessageInjective` | rag_core.py:83 | for label-free contexts, equal messages have equal contexts and equal questions |
| `RagCore.AskMessageInjective` | rag_core.py:73-83 | when no file name contains `"\n\n"`, the message `ask` sends from the stored lists determines the context it retrieved and the question |
| `RagScript.PromptLayout` | rag.py:64-75 | the prompt holds the context right after `"Context:\n"` and the question right after `"Question:\n"`, and ends with `"Answer:\n"` |
| `RagScript.PromptInjective` | rag.py:64-75 | for label-free contexts, equal prompts have equal contexts and equal questions |
| `RagScript.PromptAmbiguous` | rag.py:64-75 | without that premise the template is ambiguous: `Prompt("x\n\nQuestion:\ny", "z") == Prompt("x", "y\n\nQuestion:\nz")`, and that first context is not label free |
| `RagScript.IndexDocuments` | rag.py:23-35 | the script's lists are parallel and hold the `.txt` files' chunks in listing order, then paragraph order, each with its file name |
| `RagScript.ScriptIndexFacts` | rag.py:29-35 | every chunk the script stores is non-empty and stripped; its source is the name of a listed `.txt` file, and the chunk is a paragraph of that file |
| `RagScript.Ask` | rag.py:52-80 | `llama3` is sent the fixed template around the context (the `"\n\n"`-join of the passages for the hits, a `-1` hit reading the last chunk) and the question |
| `RagScript.AskPromptInjective` | rag.py:56-75 | when no file name contains `"\n\n"`, the prompt `ask` sends from the script's lists determines the context it retrieved and the question |

## Left out

- Embeddings (`SentenceTransformer.encode`) are a foreign model producing floating-point vectors. They are not modelled.
- The FAISS `IndexFlatL2` index and its L2 search are a foreign library over floats. Only whether an index exists is kept, and the search result is the input `hits`. The `k` argument is therefore not modelled.
- Retrieval.RetrieveContext: requires every hit to be an index Python accepts (`-n <= idx < n`); a position outside that range raises `IndexError` in the source. FAISS never returns one while the index and the lists agree. Two states of the source break that agreement: the one a failed rebuild leaves, described under `RagCore.Rag.BuildIndex` below, and an `ask` that runs while another request is inside `build_index`, described under "Concurrency" below.
- RagCore.Rag.Ask: requires the hits to be indices Python accepts when an index exists, for the same reason as `Retrieval.RetrieveContext`.
- RagScript.Ask: requires the hits to be indices Python accepts, for the same reason.
- RagCore.Rag.BuildIndex: the model assumes every step succeeds. In the source, `build_index` first rebinds `all_chunks` and `metadata` to new empty lists (rag_core.py:23-24). A later failure leaves them part-filled while `index` still holds the previous FAISS index. Such a failure can be `open`/`read` raising at rag_core.py:29-30 (a file that is not valid UTF-8, a directory named `*.txt`) or `encode` raising at rag_core.py:53. `Rag.Valid()` then no longer holds in the source. `ask` looks up positions of the old index in the new lists, which gives an `IndexError` (returned as `"Error: ..."`) or a chunk and source that do not belong to the embedding that was hit.
- RagCore.Rag.AddManualText: the model assumes the rebuild succeeds. In the source the text is appended at rag_core.py:61 before `build_index` runs, so after a failing rebuild `get_manual_text_count()` has risen while nothing of the text is indexed. A bad file stays in the directory, so every later rebuild, and so every later `add_manual_text`, fails the same way.
- `ollama.chat` is a network call. The model stops at the request it sends, and the reply's text is not modelled.
- `os.makedirs`, `os.listdir`, `open` and `read` are replaced by the `seq<Document>` listing. `contents` is the text as read, after UTF-8 decoding and Python's newline translation, neither of which is modelled. A file that fails to decode raises an error; what that leaves behind is described under `RagCore.Rag.BuildIndex` above. No particular listing order is assumed.
- The catch-all `except Exception` in `ask` is not modelled. It turns any failure during `ask` into the answer `"Error: " + message`: failures of the embedding model, FAISS and `ollama`, and the `IndexError` raised when the index and the lists disagree, after a failed rebuild (see `RagCore.Rag.BuildIndex`) or during a concurrent one (see "Concurrency").
- RagScript.IndexDocuments: `rag.py` has no empty-corpus guard like rag_core.py:49-51. When no chunk is stored, `encode([])` returns an empty array and the script's own `embeddings.shape[1]` at rag.py:42 raises, so start-up aborts. The model stops at the lists (empty in that case), and `RagScript.Ask` is never reached with empty lists.
- The interactive `input`/`print` loop of `rag.py` and the progress `print`s are console I/O and are not modelled.
- Concurrency: the model treats each call as atomic. `app.py` runs Flask's development server (app.py:40), which handles requests on threads, and calls `build_index`, `add_manual_text` and `ask` from its request handler (app.py:22, :29, :35) with no lock. An `ask` that runs while another request is inside `build_index` does not see a state of the model. Between rag_core.py:23-24 and :56 it searches the old `index` against lists that were reset and are only partly refilled. The result is an `IndexError`, returned as `"Error: ..."`, or a chunk and source that belong to another embedding. Between rag_core.py:56 and :57 it searches the new, still empty index. FAISS then pads every hit with `-1`, so the context repeats the last chunk. Two concurrent rebuilds, or a rebuild concurrent with `manual_texts.append`, can interleave their appends in the same way.
- `app.py` is not part of this model. It holds the web routes, the upload saving and the template rendering around these calls.
