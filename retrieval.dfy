/**
 Context assembly shared by both `ask` functions (rag_core.py:73-79,
 rag.py:56-62): each retrieved position becomes the passage
 `"[Source: " + source + "]\n" + chunk`, and the passages are joined with
 blank lines in retrieval order. The nearest-neighbour search that picks the
 positions is not modelled; its result is an input.
 */
module Retrieval {
  import opened Text
  import opened Chunking

  /** What an `ask` call ends in: a fixed answer, or the request it sends to the
      chat model (the model's reply is not modelled). */
  datatype Reply = Answer(text: string) | ChatRequest(model: string, content: string)

  /** Every retrieved position is an index Python accepts on a list of length `n`: a
      negative one counts from the end, so the `-1` the search pads its result with reads
      the last element of a non-empty list. */
  predicate InRange(hits: seq<int>, n: nat) {
    forall i :: 0 <= i < |hits| ==> -(n as int) <= hits[i] < n
  }

  /** `xs[i]` with Python's meaning for a negative `i`. */
  function At<T>(xs: seq<T>, i: int): T
    requires -|xs| <= i < |xs|
  {
    if i < 0 then xs[|xs| + i] else xs[i]
  }

  /** The label put in front of a retrieved chunk. */
  function Header(source: string): string {
    "[Source: " + source + "]\n"
  }

  /** The passages for the retrieved positions, in retrieval order. */
  function Retrieved(chunks: seq<string>, metas: seq<Meta>, hits: seq<int>): seq<string>
    requires InRange(hits, |chunks|) && InRange(hits, |metas|)
  {
    seq(|hits|, i requires 0 <= i < |hits| => Header(At(metas, hits[i]).source) + At(chunks, hits[i]))
  }

  /** The loop of `ask` that collects `retrieved_chunks`, and the join that makes the context. */
  method RetrieveContext(chunks: seq<string>, metas: seq<Meta>, hits: seq<int>) returns (context: string)
    requires InRange(hits, |chunks|) && InRange(hits, |metas|)
    ensures context == Join(Retrieved(chunks, metas, hits), Sep)
  {
    var retrieved: seq<string> := [];
    for i := 0 to |hits|
      invariant InRange(hits[..i], |chunks|) && InRange(hits[..i], |metas|)
      invariant retrieved == Retrieved(chunks, metas, hits[..i])
    {
      assert hits[..i + 1] == hits[..i] + [hits[i]];
      var idx := hits[i];
      var chunk := At(chunks, idx);
      var source := At(metas, idx).source;
      retrieved := retrieved + [Header(source) + chunk];
    }
    assert hits[..|hits|] == hits;
    context := Join(retrieved, Sep);
  }

  /** Two strings free of separators stay free of them when put together, unless a newline
      ending the first meets a newline starting the second. */
  lemma ConcatNoSep(a: string, b: string)
    requires !Contains(a, Sep) && !Contains(b, Sep)
    requires a == [] || b == [] || a[|a| - 1] != '\n' || b[0] != '\n'
    ensures !Contains(a + b, Sep)
  {
    var s := a + b;
    forall i: nat | i <= |s| ensures !ContainsAt(s, Sep, i) {
      SepAt(s, i);
      if i + 1 < |a| {
        SepAt(a, i);
        assert s[i] == a[i] && s[i + 1] == a[i + 1];
      } else if i >= |a| {
        SepAt(b, i - |a|);
        if i + 1 < |s| {
          assert s[i] == b[i - |a|] && s[i + 1] == b[i - |a| + 1];
        }
      } else if i + 1 < |s| {
        assert s[i] == a[|a| - 1] && s[i + 1] == b[0];
      }
    }
  }

  /** A passage for a clean chunk whose source has no blank-line separator can be
      joined with blank lines and split back out. */
  lemma PassageSeparable(source: string, chunk: string)
    requires Clean(chunk) && !Contains(source, Sep)
    ensures Separable(Header(source) + chunk)
  {
    var open, close := "[Source: ", "]\n";
    NoNewlineNoSep(open);
    SepAt(close, 0);
    SepAt(close, 1);
    assert !Contains(close, Sep);
    ConcatNoSep(open, source);
    ConcatNoSep(open + source, close);
    assert Header(source) == open + source + close;
    StripTrimmed(chunk);
    ConcatNoSep(Header(source), chunk);
    assert (Header(source) + chunk)[|Header(source) + chunk| - 1] == chunk[|chunk| - 1];
  }

  /** The context splits on blank lines back into exactly the retrieved passages, when
      at least one position was retrieved, the chunks are as the indexer stores them
      and the sources contain no blank-line separator. */
  lemma ContextSplitsIntoPassages(chunks: seq<string>, metas: seq<Meta>, hits: seq<int>)
    requires InRange(hits, |chunks|) && InRange(hits, |metas|)
    requires hits != []
    requires forall i :: 0 <= i < |hits| ==> Clean(At(chunks, hits[i])) && !Contains(At(metas, hits[i]).source, Sep)
    ensures Split(Join(Retrieved(chunks, metas, hits), Sep), Sep) == Retrieved(chunks, metas, hits)
  {
    var passages := Retrieved(chunks, metas, hits);
    forall p | p in passages ensures Separable(p) {
      var i :| 0 <= i < |hits| && passages[i] == p;
      PassageSeparable(At(metas, hits[i]).source, At(chunks, hits[i]));
    }
    JoinSplit(passages);
  }

  /** A context that cannot run into a label starting with a blank line and a `Q` placed
      after it: every blank line inside it is followed by some other character than `Q`,
      and it does not end in a newline. */
  predicate LabelFree(c: string) {
    && (forall i :: 0 <= i < |c| - 1 && c[i] == '\n' && c[i + 1] == '\n' ==> i + 2 < |c| && c[i + 2] != 'Q')
    && (c == [] || c[|c| - 1] != '\n')
  }

  /** A blank-line join of separable passages that each start with `[` is label free. */
  lemma {:induction false} JoinLabelFree(xs: seq<string>)
    requires forall k :: 0 <= k < |xs| ==> Separable(xs[k]) && xs[k] != [] && xs[k][0] == '['
    ensures LabelFree(Join(xs, Sep))
    ensures xs != [] ==> Join(xs, Sep) != [] && Join(xs, Sep)[0] == '['
    decreases |xs|
  {
    if |xs| == 1 {
      var x := xs[0];
      assert Separable(x);
      forall i | 0 <= i < |x| - 1 ensures !(x[i] == '\n' && x[i + 1] == '\n') {
        SepAt(x, i);
      }
    } else if |xs| > 1 {
      var x, rest := xs[0], xs[1..];
      var r := Join(rest, Sep);
      JoinLabelFree(rest);
      var s := x + Sep + r;
      assert Join(xs, Sep) == s;
      assert Separable(x);
      forall i | 0 <= i < |s| - 1
        ensures s[i] == '\n' && s[i + 1] == '\n' ==> i + 2 < |s| && s[i + 2] != 'Q'
      {
        if i + 1 < |x| {
          SepAt(x, i);
          assert s[i] == x[i] && s[i + 1] == x[i + 1];
        } else if i + 1 == |x| {
          assert s[i] == x[|x| - 1];
        } else if i == |x| {
          assert s[i + 2] == r[0];
        } else if i == |x| + 1 {
          assert s[i + 1] == r[0];
        } else {
          var j := i - |x| - 2;
          assert s[i] == r[j] && s[i + 1] == r[j + 1];
          if j + 2 < |r| {
            assert s[i + 2] == r[j + 2];
          }
        }
      }
      assert s[|s| - 1] == r[|r| - 1];
      assert s[0] == x[0];
    }
  }

  /** The context built from clean chunks and sources free of blank lines is label free. */
  lemma ContextLabelFree(chunks: seq<string>, metas: seq<Meta>, hits: seq<int>)
    requires InRange(hits, |chunks|) && InRange(hits, |metas|)
    requires forall i :: 0 <= i < |hits| ==> Clean(At(chunks, hits[i])) && !Contains(At(metas, hits[i]).source, Sep)
    ensures LabelFree(Join(Retrieved(chunks, metas, hits), Sep))
  {
    var passages := Retrieved(chunks, metas, hits);
    forall k | 0 <= k < |passages| ensures Separable(passages[k]) && passages[k] != [] && passages[k][0] == '[' {
      PassageSeparable(At(metas, hits[k]).source, At(chunks, hits[k]));
    }
    JoinLabelFree(passages);
  }

  /** A label-free context followed by a label that starts with a blank line and a `Q`, then
      by a question: the whole text determines both the context and the question. */
  lemma LabelledUnique(c1: string, q1: string, c2: string, q2: string, mark: string)
    requires LabelFree(c1) && LabelFree(c2)
    requires |mark| >= 3 && mark[0] == '\n' && mark[1] == '\n' && mark[2] == 'Q'
    requires c1 + mark + q1 == c2 + mark + q2
    ensures c1 == c2 && q1 == q2
  {
    var s := c1 + mark + q1;
    if |c1| < |c2| {
      ShorterContext(c1, q1, c2, q2, mark);
    } else if |c2| < |c1| {
      ShorterContext(c2, q2, c1, q1, mark);
    }
    assert c1 == s[..|c1|] == c2;
    assert q1 == s[|c1| + |mark|..] == q2;
  }

  /** The step of `LabelledUnique`: after the shorter context the label puts a blank line
      followed by `Q`, which the longer, label-free context cannot have at that place. */
  lemma ShorterContext(c1: string, q1: string, c2: string, q2: string, mark: string)
    requires LabelFree(c2) && |c1| < |c2|
    requires |mark| >= 3 && mark[0] == '\n' && mark[1] == '\n' && mark[2] == 'Q'
    ensures c1 + mark + q1 != c2 + mark + q2
  {
    var s1, s2, n := c1 + mark + q1, c2 + mark + q2, |c1|;
    assert s1[n] == '\n' && s1[n + 1] == '\n' && s1[n + 2] == 'Q';
    assert s2[n] == c2[n];
    if n + 1 < |c2| {
      assert s2[n + 1] == c2[n + 1];
      if n + 2 < |c2| {
        assert s2[n + 2] == c2[n + 2];
      }
    }
  }
}
