/**
 What the indexer puts into its two parallel lists, `all_chunks` and
 `metadata`, stated as functions of the directory listing and of the manual
 texts (rag_core.py, build_index; rag.py, the top-level loop), together with
 the inner loop both files share: split a text on blank lines, strip each
 piece and keep the non-empty ones.
 */
module Chunking {
  import opened Text

  /** One file of the documents directory: its name as listed and what reading it returns. */
  datatype Document = Document(name: string, contents: string)

  /** One record of `metadata`, the dictionary `{"source": ...}`. */
  datatype Meta = Meta(source: string)

  /** One position of the two parallel lists: a chunk and the source recorded beside it. */
  datatype Entry = Entry(chunk: string, source: string)

  /** Only files whose name ends in `.txt` are read. */
  predicate IsTxt(name: string) {
    EndsWith(name, ".txt")
  }

  /** What a stored chunk looks like: non-empty, equal to its own strip, and free of blank-line separators. */
  predicate Clean(c: string) {
    c != [] && Strip(c) == c && !Contains(c, Sep)
  }

  /** The pieces, stripped, with the empty ones dropped, in their order. */
  function Cleaned(pieces: seq<string>): seq<string>
    decreases |pieces|
  {
    if pieces == [] then []
    else
      var chunk := Strip(pieces[|pieces| - 1]);
      Cleaned(pieces[..|pieces| - 1]) + (if chunk != "" then [chunk] else [])
  }

  /** The chunks one text contributes: `text.split("\n\n")`, stripped, empty ones dropped. */
  function Paragraphs(text: string): seq<string> {
    Cleaned(Split(text, Sep))
  }

  /** Each paragraph paired with the one source they all come from. */
  function Tagged(paras: seq<string>, source: string): seq<Entry> {
    seq(|paras|, i requires 0 <= i < |paras| => Entry(paras[i], source))
  }

  /** The two parallel lists read position by position. */
  function Zip(chunks: seq<string>, metas: seq<Meta>): seq<Entry>
    requires |chunks| == |metas|
  {
    seq(|chunks|, i requires 0 <= i < |chunks| => Entry(chunks[i], metas[i].source))
  }

  /** The entries contributed by the directory listing: the `.txt` files in listing order,
      each tagged with its file name. */
  function FileEntries(docs: seq<Document>): seq<Entry>
    decreases |docs|
  {
    if docs == [] then []
    else
      var d := docs[|docs| - 1];
      FileEntries(docs[..|docs| - 1]) + (if IsTxt(d.name) then Tagged(Paragraphs(d.contents), d.name) else [])
  }

  /** The source recorded for the `i`-th manual text, `f"manual_input_{i}"`. */
  function ManualSource(i: nat): string {
    "manual_input_" + NatToString(i)
  }

  /** The entries contributed by the manual texts, in insertion order. */
  function ManualEntries(texts: seq<string>): seq<Entry>
    decreases |texts|
  {
    if texts == [] then []
    else
      var n := |texts| - 1;
      ManualEntries(texts[..n]) + Tagged(Paragraphs(texts[n]), ManualSource(n))
  }

  /** Everything `build_index` stores: file chunks first, then manual chunks. */
  function IndexEntries(docs: seq<Document>, texts: seq<string>): seq<Entry> {
    FileEntries(docs) + ManualEntries(texts)
  }

  /** `n` copies of the metadata record `{"source": source}`. */
  function Labels(n: nat, source: string): seq<Meta> {
    seq(n, _ => Meta(source))
  }

  lemma LabelsSnoc(n: nat, source: string)
    ensures Labels(n + 1, source) == Labels(n, source) + [Meta(source)]
  {
  }

  /** Extending the two lists by some chunks and as many records of one source
      extends their entries by those chunks tagged with that source. */
  lemma ZipConcat(chunks: seq<string>, metas: seq<Meta>, paras: seq<string>, source: string)
    requires |chunks| == |metas|
    ensures Zip(chunks + paras, metas + Labels(|paras|, source)) == Zip(chunks, metas) + Tagged(paras, source)
  {
  }

  /** One more piece: it is kept, stripped, when its strip is not empty. */
  lemma CleanedStep(pieces: seq<string>, j: nat)
    requires j < |pieces|
    ensures Cleaned(pieces[..j + 1]) ==
      Cleaned(pieces[..j]) + (if Strip(pieces[j]) != "" then [Strip(pieces[j])] else [])
  {
    assert pieces[..j + 1][..j] == pieces[..j];
  }

  /** The inner loop of both indexers (rag_core.py:32-38 and 42-47, rag.py:29-35):
      append to the two lists, in lockstep, the paragraphs of `text`, each with the
      record of `source`. */
  method AppendParagraphs(chunks: seq<string>, metas: seq<Meta>, text: string, source: string)
    returns (chunks': seq<string>, metas': seq<Meta>)
    ensures chunks' == chunks + Paragraphs(text)
    ensures metas' == metas + Labels(|Paragraphs(text)|, source)
  {
    var pieces := Split(text, Sep);
    chunks', metas' := chunks, metas;
    for j := 0 to |pieces|
      invariant chunks' == chunks + Cleaned(pieces[..j])
      invariant metas' == metas + Labels(|Cleaned(pieces[..j])|, source)
    {
      CleanedStep(pieces, j);
      var chunk := Strip(pieces[j]);
      if chunk != "" {
        LabelsSnoc(|Cleaned(pieces[..j])|, source);
        chunks' := chunks' + [chunk];
        metas' := metas' + [Meta(source)];
      }
    }
    assert pieces[..|pieces|] == pieces;
  }

  /** One turn of a file loop (rag_core.py:27-38, rag.py:23-35) extends the lists by the entries of one more file. */
  lemma FileStep(docs: seq<Document>, i: nat, chunks0: seq<string>, metas0: seq<Meta>, chunks1: seq<string>, metas1: seq<Meta>)
    requires i < |docs|
    requires |chunks0| == |metas0| && Zip(chunks0, metas0) == FileEntries(docs[..i])
    requires var d := docs[i];
      if IsTxt(d.name)
      then chunks1 == chunks0 + Paragraphs(d.contents) && metas1 == metas0 + Labels(|Paragraphs(d.contents)|, d.name)
      else chunks1 == chunks0 && metas1 == metas0
    ensures |chunks1| == |metas1| && Zip(chunks1, metas1) == FileEntries(docs[..i + 1])
  {
    var d := docs[i];
    if IsTxt(d.name) {
      ZipConcat(chunks0, metas0, Paragraphs(d.contents), d.name);
    }
    FileEntriesSnoc(docs[..i], d);
    assert docs[..i + 1] == docs[..i] + [d];
  }

  /** One turn of the manual-text loop (rag_core.py:41-47) extends the lists by the entries of one more text. */
  lemma ManualStep(files: seq<Entry>, texts: seq<string>, i: nat, chunks0: seq<string>, metas0: seq<Meta>, chunks1: seq<string>, metas1: seq<Meta>)
    requires i < |texts|
    requires |chunks0| == |metas0| && Zip(chunks0, metas0) == files + ManualEntries(texts[..i])
    requires chunks1 == chunks0 + Paragraphs(texts[i])
    requires metas1 == metas0 + Labels(|Paragraphs(texts[i])|, ManualSource(i))
    ensures |chunks1| == |metas1| && Zip(chunks1, metas1) == files + ManualEntries(texts[..i + 1])
  {
    ZipConcat(chunks0, metas0, Paragraphs(texts[i]), ManualSource(i));
    ManualEntriesAppend(texts[..i], texts[i]);
    assert texts[..i + 1] == texts[..i] + [texts[i]];
  }

  /** Pieces free of separators clean up into clean chunks. */
  lemma {:induction false} CleanedClean(pieces: seq<string>)
    requires forall p :: p in pieces ==> !Contains(p, Sep)
    ensures forall c :: c in Cleaned(pieces) ==> Clean(c)
    decreases |pieces|
  {
    if pieces != [] {
      var p := pieces[|pieces| - 1];
      assert p in pieces;
      assert forall q :: q in pieces[..|pieces| - 1] ==> q in pieces;
      CleanedClean(pieces[..|pieces| - 1]);
      StripIdempotent(p);
      StripKeepsOut(p, Sep);
    }
  }

  /** Every chunk a text contributes is non-empty, stripped and free of blank-line separators. */
  lemma ParagraphsClean(text: string)
    ensures forall c :: c in Paragraphs(text) ==> Clean(c)
  {
    SplitPiecesFree(text, Sep);
    CleanedClean(Split(text, Sep));
  }

  /** Nothing survives cleaning exactly when every piece is blank. */
  lemma {:induction false} CleanedEmptyIff(pieces: seq<string>)
    ensures Cleaned(pieces) == [] <==> forall p :: p in pieces ==> Blank(p)
    decreases |pieces|
  {
    if pieces != [] {
      var init, p := pieces[..|pieces| - 1], pieces[|pieces| - 1];
      CleanedEmptyIff(init);
      StripEmptyIffBlank(p);
      assert forall q :: q in pieces <==> q in init || q == p;
    }
  }

  /** A text contributes no chunk exactly when it is whitespace only. */
  lemma ParagraphsEmptyIffBlank(text: string)
    ensures Paragraphs(text) == [] <==> Blank(text)
  {
    var pieces := Split(text, Sep);
    CleanedEmptyIff(pieces);
    SplitJoin(text, Sep);
    JoinBlank(pieces);
  }

  /** Chunking undoes joining: clean paragraphs joined with blank lines chunk back into the same paragraphs. */
  lemma ParagraphsOfJoin(paras: seq<string>)
    requires forall c :: c in paras ==> Clean(c)
    ensures Paragraphs(Join(paras, Sep)) == paras
  {
    if paras == [] {
      ParagraphsEmptyIffBlank("");
    } else {
      forall c | c in paras ensures Separable(c) {
        StripTrimmed(c);
      }
      JoinSplit(paras);
      assert forall i :: 0 <= i < |paras| ==> paras[i] in paras;
      CleanedOfClean(paras);
    }
  }

  /** Cleaning leaves a list of non-empty, already stripped chunks as it is. */
  lemma {:induction false} CleanedOfClean(paras: seq<string>)
    requires forall i :: 0 <= i < |paras| ==> paras[i] != [] && Strip(paras[i]) == paras[i]
    ensures Cleaned(paras) == paras
    decreases |paras|
  {
    if paras != [] {
      var n := |paras| - 1;
      CleanedOfClean(paras[..n]);
      CleanedStep(paras, n);
      assert paras[..n + 1] == paras;
    }
  }

  lemma TaggedMembers(paras: seq<string>, source: string)
    ensures forall e :: e in Tagged(paras, source) ==> e.source == source && e.chunk in paras
  {
  }

  /** One more file in the listing adds its entries, if it is a `.txt` file, after the others. */
  lemma FileEntriesSnoc(docs: seq<Document>, d: Document)
    ensures FileEntries(docs + [d]) ==
      FileEntries(docs) + (if IsTxt(d.name) then Tagged(Paragraphs(d.contents), d.name) else [])
  {
    assert (docs + [d])[..|docs|] == docs;
  }

  /** The listing's entries for a concatenated listing are the concatenation of the parts'
      entries: file order is kept. */
  lemma {:induction false} FileEntriesConcat(a: seq<Document>, b: seq<Document>)
    ensures FileEntries(a + b) == FileEntries(a) + FileEntries(b)
    decreases |b|
  {
    if b == [] {
      assert a + b == a;
    } else {
      var init, d := b[..|b| - 1], b[|b| - 1];
      var extra := if IsTxt(d.name) then Tagged(Paragraphs(d.contents), d.name) else [];
      assert b == init + [d];
      assert a + b == (a + init) + [d];
      calc {
        FileEntries(a + b);
        FileEntries((a + init) + [d]);
        { FileEntriesSnoc(a + init, d); }
        FileEntries(a + init) + extra;
        { FileEntriesConcat(a, init); }
        FileEntries(a) + FileEntries(init) + extra;
        { FileEntriesSnoc(init, d); }
        FileEntries(a) + FileEntries(b);
      }
    }
  }

  /** Every file entry comes from a listed `.txt` file and carries that file's name. */
  lemma {:induction false} FileEntriesOrigin(docs: seq<Document>)
    ensures forall e :: e in FileEntries(docs) ==>
      IsTxt(e.source) && exists d :: d in docs && d.name == e.source && e.chunk in Paragraphs(d.contents)
    decreases |docs|
  {
    if docs != [] {
      var init, d := docs[..|docs| - 1], docs[|docs| - 1];
      FileEntriesOrigin(init);
      TaggedMembers(Paragraphs(d.contents), d.name);
      assert d in docs;
      assert forall x :: x in init ==> x in docs;
    }
  }

  /** Adding a manual text appends its chunks after the earlier ones and changes nothing before them. */
  lemma ManualEntriesAppend(texts: seq<string>, t: string)
    ensures ManualEntries(texts + [t]) == ManualEntries(texts) + Tagged(Paragraphs(t), ManualSource(|texts|))
  {
    assert (texts + [t])[..|texts|] == texts;
  }

  /** Every manual entry comes from some manual text and carries that text's position. */
  lemma {:induction false} ManualEntriesOrigin(texts: seq<string>)
    ensures forall e :: e in ManualEntries(texts) ==>
      exists i :: 0 <= i < |texts| && e.source == ManualSource(i) && e.chunk in Paragraphs(texts[i])
    decreases |texts|
  {
    if texts != [] {
      var n := |texts| - 1;
      var init := texts[..n];
      ManualEntriesOrigin(init);
      TaggedMembers(Paragraphs(texts[n]), ManualSource(n));
      assert forall i :: 0 <= i < n ==> init[i] == texts[i];
    }
  }

  /** A manual source never looks like a `.txt` file name: it ends in a digit. */
  lemma ManualSourceNotTxt(i: nat)
    ensures !IsTxt(ManualSource(i))
  {
    var s := ManualSource(i);
    var digits := NatToString(i);
    assert s[|s| - 1] == digits[|digits| - 1];
    assert DigitValue(s[|s| - 1]) < 10;
  }

  /** Different manual texts get different sources. */
  lemma ManualSourceInjective(i: nat, j: nat)
    requires ManualSource(i) == ManualSource(j)
    ensures i == j
  {
    var prefix := "manual_input_";
    assert ManualSource(i)[|prefix|..] == NatToString(i);
    assert ManualSource(j)[|prefix|..] == NatToString(j);
    NatToStringInjective(i, j);
  }

  /** Every stored chunk is non-empty, stripped and free of blank-line separators. */
  lemma IndexEntriesClean(docs: seq<Document>, texts: seq<string>)
    ensures forall e :: e in IndexEntries(docs, texts) ==> Clean(e.chunk)
  {
    FileEntriesOrigin(docs);
    ManualEntriesOrigin(texts);
    forall e | e in IndexEntries(docs, texts) ensures Clean(e.chunk) {
      if e in FileEntries(docs) {
        var d :| d in docs && d.name == e.source && e.chunk in Paragraphs(d.contents);
        ParagraphsClean(d.contents);
      } else {
        var i :| 0 <= i < |texts| && e.source == ManualSource(i) && e.chunk in Paragraphs(texts[i]);
        ParagraphsClean(texts[i]);
      }
    }
  }

  /** Every file entry has a `.txt` source. */
  lemma FileEntriesTxt(docs: seq<Document>)
    ensures forall k :: 0 <= k < |FileEntries(docs)| ==> IsTxt(FileEntries(docs)[k].source)
  {
    var fs := FileEntries(docs);
    FileEntriesOrigin(docs);
    assert forall k :: 0 <= k < |fs| ==> fs[k] in fs;
  }

  /** No manual entry has a `.txt` source. */
  lemma ManualEntriesNotTxt(texts: seq<string>)
    ensures forall k :: 0 <= k < |ManualEntries(texts)| ==> !IsTxt(ManualEntries(texts)[k].source)
  {
    var ms := ManualEntries(texts);
    ManualEntriesOrigin(texts);
    forall k | 0 <= k < |ms| ensures !IsTxt(ms[k].source) {
      assert ms[k] in ms;
      var i :| 0 <= i < |texts| && ms[k].source == ManualSource(i) && ms[k].chunk in Paragraphs(texts[i]);
      ManualSourceNotTxt(i);
    }
  }

  /** All file chunks come first, all manual chunks after them, and the two kinds are told
      apart by their source: exactly the file entries have a `.txt` source. */
  lemma IndexEntriesLayout(docs: seq<Document>, texts: seq<string>)
    ensures var es, m := IndexEntries(docs, texts), |FileEntries(docs)|;
      && es[..m] == FileEntries(docs)
      && (forall k :: 0 <= k < m ==> IsTxt(es[k].source))
      && (forall k :: m <= k < |es| ==> !IsTxt(es[k].source))
  {
    var fs, ms := FileEntries(docs), ManualEntries(texts);
    var es := fs + ms;
    FileEntriesTxt(docs);
    ManualEntriesNotTxt(texts);
    assert forall k :: 0 <= k < |fs| ==> es[k] == fs[k];
    assert forall k :: |fs| <= k < |es| ==> es[k] == ms[k - |fs|];
    assert es[..|fs|] == fs;
  }

  /** Nothing is stored, so no index is built, exactly when every listed `.txt` file and
      every manual text is whitespace only. */
  lemma {:induction false} FileEntriesEmptyIff(docs: seq<Document>)
    ensures FileEntries(docs) == [] <==> forall d :: d in docs && IsTxt(d.name) ==> Blank(d.contents)
    decreases |docs|
  {
    if docs != [] {
      var init, d := docs[..|docs| - 1], docs[|docs| - 1];
      FileEntriesEmptyIff(init);
      ParagraphsEmptyIffBlank(d.contents);
      assert forall x :: x in docs <==> x in init || x == d;
    }
  }

  lemma {:induction false} ManualEntriesEmptyIff(texts: seq<string>)
    ensures ManualEntries(texts) == [] <==> forall t :: t in texts ==> Blank(t)
    decreases |texts|
  {
    if texts != [] {
      var n := |texts| - 1;
      ManualEntriesEmptyIff(texts[..n]);
      ParagraphsEmptyIffBlank(texts[n]);
      assert forall x :: x in texts <==> x in texts[..n] || x == texts[n];
    }
  }

  lemma IndexEntriesEmptyIff(docs: seq<Document>, texts: seq<string>)
    ensures IndexEntries(docs, texts) == [] <==>
      (forall d :: d in docs && IsTxt(d.name) ==> Blank(d.contents)) && (forall t :: t in texts ==> Blank(t))
  {
    FileEntriesEmptyIff(docs);
    ManualEntriesEmptyIff(texts);
  }

  /** A manual source contains no blank-line separator. */
  lemma ManualSourceNoSep(i: nat)
    ensures !Contains(ManualSource(i), Sep)
  {
    var s, digits := ManualSource(i), NatToString(i);
    forall k | 0 <= k < |s| ensures s[k] != '\n' {
      if k >= 13 {
        assert s[k] == digits[k - 13];
        assert DigitValue(s[k]) < 10;
      }
    }
    NoNewlineNoSep(s);
  }

  /** Lists built by the indexer hold clean chunks and, as long as no file name contains a
      blank-line separator, sources free of it. */
  lemma StoredListsClean(docs: seq<Document>, texts: seq<string>, chunks: seq<string>, metas: seq<Meta>)
    requires |chunks| == |metas| && Zip(chunks, metas) == IndexEntries(docs, texts)
    requires forall d :: d in docs ==> !Contains(d.name, Sep)
    ensures forall k :: 0 <= k < |chunks| ==> Clean(chunks[k]) && !Contains(metas[k].source, Sep)
  {
    var es := IndexEntries(docs, texts);
    IndexEntriesClean(docs, texts);
    FileEntriesOrigin(docs);
    ManualEntriesOrigin(texts);
    forall k | 0 <= k < |chunks| ensures Clean(chunks[k]) && !Contains(metas[k].source, Sep) {
      var e := es[k];
      assert e == Entry(chunks[k], metas[k].source);
      assert e in es;
      if e in FileEntries(docs) {
        var d :| d in docs && d.name == e.source && e.chunk in Paragraphs(d.contents);
      } else {
        assert e in ManualEntries(texts);
        var i :| 0 <= i < |texts| && e.source == ManualSource(i) && e.chunk in Paragraphs(texts[i]);
        ManualSourceNoSep(i);
      }
    }
  }
}
