/** Paragraph chunking and top-k selection of agent/rag/retrieval.py.
    TF-IDF vectorisation and cosine similarity are oracles: `Retrieve` takes the
    similarity of every chunk and numpy's ascending argsort of them as inputs. */
module Retrieval {
  import opened Text

  /** `DocChunk`: a citable passage. `score` is 0.0 until retrieval sets it. */
  datatype DocChunk = DocChunk(id: string, source: string, content: string, score: real)

  // ---------------------------------------------------------------- paragraphs

  /** A paragraph break (`\n\n+`) can start at `i`. */
  predicate BreakAt(s: string, i: nat) {
    i + 1 < |s| && s[i] == '\n' && s[i + 1] == '\n'
  }

  /** The end of the run of newlines starting at `i`: the greedy `\n\n+` match. */
  function NewlineRunEnd(s: string, i: nat): (j: nat)
    requires i <= |s|
    ensures i <= j <= |s|
    ensures j == |s| || s[j] != '\n'
    decreases |s| - i
  {
    if i < |s| && s[i] == '\n' then NewlineRunEnd(s, i + 1) else i
  }

  /** `re.split` from position `i`, the current piece having started at `start`. */
  function SplitFrom(s: string, start: nat, i: nat): (pieces: seq<string>)
    requires start <= i <= |s|
    ensures |pieces| >= 1
    decreases |s| - i
  {
    if i == |s| then [s[start..]]
    else if BreakAt(s, i) then
      var j := NewlineRunEnd(s, i);
      [s[start..i]] + SplitFrom(s, j, j)
    else SplitFrom(s, start, i + 1)
  }

  /** `re.split(r'\n\n+', content)`. */
  function SplitParagraphs(content: string): seq<string> {
    SplitFrom(content, 0, 0)
  }

  /** Text without a blank line is a single paragraph. */
  lemma {:induction false} NoBreakOneParagraph(s: string, start: nat, i: nat)
    requires start <= i <= |s|
    requires forall k :: i <= k < |s| ==> !BreakAt(s, k)
    ensures SplitFrom(s, start, i) == [s[start..]]
    decreases |s| - i
  {
    if i < |s| {
      NoBreakOneParagraph(s, start, i + 1);
    }
  }

  /** The first blank line at or after `i` ends the current paragraph, and
      the next one starts after the whole run of newlines. */
  lemma {:induction false} SplitFromFirstBreak(s: string, start: nat, i: nat, b: nat)
    requires start <= i <= b && BreakAt(s, b)
    requires forall k :: i <= k < b ==> !BreakAt(s, k)
    ensures SplitFrom(s, start, i)
            == [s[start..b]] + SplitFrom(s, NewlineRunEnd(s, b), NewlineRunEnd(s, b))
    decreases b - i
  {
    if i < b {
      SplitFromFirstBreak(s, start, i + 1, b);
    }
  }

  /** No paragraph holds a blank line. */
  predicate NoBreak(p: string) {
    forall k :: 0 <= k < |p| ==> !BreakAt(p, k)
  }

  /** A piece that ends before the next break holds none. */
  lemma SliceNoBreak(s: string, start: nat, e: nat)
    requires start <= e <= |s|
    requires forall k :: start <= k < e ==> !BreakAt(s, k)
    ensures NoBreak(s[start..e])
  {
    forall k | 0 <= k < e - start
      ensures !BreakAt(s[start..e], k)
    {
      assert !BreakAt(s, start + k);
    }
  }

  /** Every piece `SplitFrom` produces is free of blank lines. */
  lemma {:induction false} SplitFromNoBreak(s: string, start: nat, i: nat)
    requires start <= i <= |s|
    requires forall k :: start <= k < i ==> !BreakAt(s, k)
    ensures forall p :: 0 <= p < |SplitFrom(s, start, i)| ==> NoBreak(SplitFrom(s, start, i)[p])
    decreases |s| - i
  {
    if i == |s| {
      SliceNoBreak(s, start, |s|);
      assert s[start..|s|] == s[start..];
      assert SplitFrom(s, start, i) == [s[start..]];
    } else if BreakAt(s, i) {
      var j := NewlineRunEnd(s, i);
      SliceNoBreak(s, start, i);
      SplitFromNoBreak(s, j, j);
    } else {
      SplitFromNoBreak(s, start, i + 1);
    }
  }

  /** `re.split` leaves no blank line inside a paragraph, and a blank line
      anywhere gives at least two paragraphs. */
  lemma SplitParagraphsBreaks(content: string)
    ensures forall p :: 0 <= p < |SplitParagraphs(content)| ==> NoBreak(SplitParagraphs(content)[p])
    ensures (exists b :: 0 <= b < |content| && BreakAt(content, b)) ==> |SplitParagraphs(content)| >= 2
  {
    SplitFromNoBreak(content, 0, 0);
    if b :| 0 <= b < |content| && BreakAt(content, b) {
      var first := FirstBreak(content, 0, b);
      SplitFromFirstBreak(content, 0, 0, first);
    }
  }

  /** The first blank line at or after `i`, given that there is one at `b`. */
  lemma {:induction false} FirstBreak(s: string, i: nat, b: nat) returns (first: nat)
    requires i <= b && BreakAt(s, b)
    ensures i <= first <= b && BreakAt(s, first)
    ensures forall k :: i <= k < first ==> !BreakAt(s, k)
    decreases b - i
  {
    if BreakAt(s, i) {
      first := i;
    } else {
      first := FirstBreak(s, i + 1, b);
    }
  }

  /** Two paragraphs separated by three newlines. */
  lemma ParagraphSplitExample()
    ensures SplitParagraphs("a\n\n\nb") == ["a", "b"]
  {
    var s := "a\n\n\nb";
    assert BreakAt(s, 1);
    assert !BreakAt(s, 0);
    SplitFromFirstBreak(s, 0, 0, 1);
    assert NewlineRunEnd(s, 1) == 4;
    NoBreakOneParagraph(s, 4, 4);
    assert s[0..1] == "a" && s[4..] == "b";
  }

  // ---------------------------------------------------------------- chunk ids

  /** `source.replace('.md', '')`. */
  function BaseName(source: string): string {
    RemoveAll(source, ".md")
  }

  /** The base name of a file `b + ".md"` is `b`, when `b` does not itself
      hold ".md". */
  lemma BaseNameOfMarkdown(b: string)
    requires !Contains(b, ".md")
    ensures BaseName(b + ".md") == b
  {
    RemoveAllAppended(b, ".md");
  }

  /** The base name of the catalog file. */
  lemma BaseNameExample()
    ensures BaseName("catalog.md") == "catalog"
  {
    if Contains("catalog", ".md") {
      ContainsHead("catalog", ".md");
      assert false;
    }
    assert "catalog" + ".md" == "catalog.md";
    BaseNameOfMarkdown("catalog");
  }

  /** `f"{base_name}::chunk{n}"`. */
  function ChunkId(base: string, n: nat): string {
    base + "::chunk" + NatToString(n)
  }

  /** Every chunk id carries the "::" citation delimiter. */
  lemma ChunkIdCitable(base: string, n: nat)
    ensures Contains(ChunkId(base, n), "::")
  {
    assert "::" <= ChunkId(base, n)[|base|..];
    ContainsAt(ChunkId(base, n), "::", |base|);
  }

  /** Two ids of one source are equal only for equal numbers. */
  lemma ChunkIdInjective(base: string, a: nat, b: nat)
    requires ChunkId(base, a) == ChunkId(base, b)
    ensures a == b
  {
    var p := base + "::chunk";
    assert NatToString(a) == ChunkId(base, a)[|p|..];
    assert NatToString(b) == ChunkId(base, b)[|p|..];
    NatToStringInjective(a, b);
  }

  // ---------------------------------------------------------------- chunking

  /** One paragraph as `_split_into_chunks` treats it: stripped, and kept only
      when at least 20 characters remain. */
  function KeptText(paragraph: string): seq<string> {
    var p := Strip(paragraph);
    if |p| < 20 then [] else [p]
  }

  /** What `keep` makes of each paragraph, concatenated: a reference
      definition scanning from the front. */
  function KeptBy(keep: string -> seq<string>, paragraphs: seq<string>): seq<string> {
    if paragraphs == [] then [] else keep(paragraphs[0]) + KeptBy(keep, paragraphs[1..])
  }

  /** The paragraphs `_split_into_chunks` keeps, stripped, in order. */
  function KeptTexts(paragraphs: seq<string>): seq<string> {
    KeptBy(KeptText, paragraphs)
  }

  /** Keeping is done paragraph by paragraph, so it distributes over concatenation. */
  lemma {:induction false} KeptByAppend(keep: string -> seq<string>, a: seq<string>, b: seq<string>)
    ensures KeptBy(keep, a + b) == KeptBy(keep, a) + KeptBy(keep, b)
  {
    if a == [] {
      assert a + b == b;
    } else {
      assert (a + b)[0] == a[0];
      assert (a + b)[1..] == a[1..] + b;
      KeptByAppend(keep, a[1..], b);
    }
  }

  /** The front-scanning definition read from the back: what is made of the
      last paragraph comes last. */
  lemma KeptByLast(keep: string -> seq<string>, paragraphs: seq<string>)
    requires paragraphs != []
    ensures KeptBy(keep, paragraphs)
         == KeptBy(keep, paragraphs[..|paragraphs| - 1]) + keep(paragraphs[|paragraphs| - 1])
  {
    var last := paragraphs[|paragraphs| - 1];
    assert paragraphs == paragraphs[..|paragraphs| - 1] + [last];
    KeptByAppend(keep, paragraphs[..|paragraphs| - 1], [last]);
    assert [last][1..] == [];
  }

  /** The chunks `_split_into_chunks` makes of the paragraphs, as the loop builds them. */
  function KeptChunks(paragraphs: seq<string>, base: string, source: string): (chunks: seq<DocChunk>)
    ensures |chunks| <= |paragraphs|
    ensures forall k :: 0 <= k < |chunks| ==>
      chunks[k].id == ChunkId(base, k + 1) && chunks[k].source == source && chunks[k].score == 0.0
    ensures forall k :: 0 <= k < |chunks| ==> IsTrimmed(chunks[k].content) && |chunks[k].content| >= 20
  {
    if paragraphs == [] then []
    else
      var prev := KeptChunks(paragraphs[..|paragraphs| - 1], base, source);
      var p := Strip(paragraphs[|paragraphs| - 1]);
      if |p| < 20 then prev else prev + [DocChunk(ChunkId(base, |prev| + 1), source, p, 0.0)]
  }

  function Contents(chunks: seq<DocChunk>): (texts: seq<string>)
    ensures |texts| == |chunks| && forall k :: 0 <= k < |chunks| ==> texts[k] == chunks[k].content
  {
    if chunks == [] then [] else Contents(chunks[..|chunks| - 1]) + [chunks[|chunks| - 1].content]
  }

  lemma ContentsSnoc(chunks: seq<DocChunk>, c: DocChunk)
    ensures Contents(chunks + [c]) == Contents(chunks) + [c.content]
  {
    assert forall k :: 0 <= k < |chunks| ==> (chunks + [c])[k] == chunks[k];
  }

  /** The chunks hold exactly the kept paragraphs, stripped, in paragraph order:
      a paragraph under 20 characters is dropped without using up a number. */
  lemma {:induction false} KeptChunksContents(paragraphs: seq<string>, base: string, source: string)
    ensures Contents(KeptChunks(paragraphs, base, source)) == KeptTexts(paragraphs)
  {
    if paragraphs != [] {
      var init := paragraphs[..|paragraphs| - 1];
      var last := paragraphs[|paragraphs| - 1];
      KeptChunksContents(init, base, source);
      KeptByLast(KeptText, paragraphs);
      var prev := KeptChunks(init, base, source);
      var p := Strip(last);
      if |p| >= 20 {
        var c := DocChunk(ChunkId(base, |prev| + 1), source, p, 0.0);
        assert KeptChunks(paragraphs, base, source) == prev + [c];
        ContentsSnoc(prev, c);
      } else {
        assert KeptChunks(paragraphs, base, source) == prev;
      }
    }
  }

  /** Ids within one source are pairwise distinct. */
  lemma KeptChunkIdsUnique(paragraphs: seq<string>, base: string, source: string, i: nat, j: nat)
    requires i < j < |KeptChunks(paragraphs, base, source)|
    ensures KeptChunks(paragraphs, base, source)[i].id != KeptChunks(paragraphs, base, source)[j].id
  {
    if ChunkId(base, i + 1) == ChunkId(base, j + 1) {
      ChunkIdInjective(base, i + 1, j + 1);
    }
  }

  lemma KeptChunksStep(paragraphs: seq<string>, i: nat, base: string, source: string)
    requires i < |paragraphs|
    ensures KeptChunks(paragraphs[..i + 1], base, source)
         == var prev := KeptChunks(paragraphs[..i], base, source);
            var p := Strip(paragraphs[i]);
            if |p| < 20 then prev else prev + [DocChunk(ChunkId(base, |prev| + 1), source, p, 0.0)]
  {
    assert paragraphs[..i + 1][..i] == paragraphs[..i];
    assert paragraphs[..i + 1][i] == paragraphs[i];
  }

  /** The chunks of one document, as `_split_into_chunks` defines them. */
  function DocumentChunks(content: string, source: string): seq<DocChunk> {
    KeptChunks(SplitParagraphs(content), BaseName(source), source)
  }

  /** `RAGRetriever._split_into_chunks`: the paragraph loop with its counter. */
  method SplitIntoChunks(content: string, source: string) returns (chunks: seq<DocChunk>)
    ensures chunks == DocumentChunks(content, source)
  {
    var paragraphs := SplitParagraphs(content);
    chunks := [];
    var counter := 1;
    var base := RemoveAll(source, ".md");
    for i := 0 to |paragraphs|
      invariant chunks == KeptChunks(paragraphs[..i], base, source)
      invariant counter == |chunks| + 1
    {
      KeptChunksStep(paragraphs, i, base, source);
      var para := Strip(paragraphs[i]);
      if |para| < 20 {
        continue;
      }
      var chunkId := base + "::chunk" + NatToString(counter);
      chunks := chunks + [DocChunk(chunkId, source, para, 0.0)];
      counter := counter + 1;
    }
    assert paragraphs[..|paragraphs|] == paragraphs;
  }

  // ---------------------------------------------------------------- corpus

  /** The documents `_load_documents` looks for, in load order. */
  const MarkdownFiles: seq<string> := ["marketing_calendar.md", "kpi_definitions.md", "catalog.md", "product_policy.md"]

  /** The chunks of every listed file that exists, file after file. */
  function CorpusChunks(files: map<string, string>, names: seq<string>): seq<DocChunk> {
    if names == [] then []
    else
      var last := names[|names| - 1];
      CorpusChunks(files, names[..|names| - 1])
        + (if last in files then DocumentChunks(files[last], last) else [])
  }

  // ---------------------------------------------------------------- top-k

  function Min(a: nat, b: nat): nat {
    if a <= b then a else b
  }

  /** No index occurs twice. */
  predicate Distinct(s: seq<nat>) decreases |s| {
    s == [] || (s[0] !in s[1..] && Distinct(s[1..]))
  }

  /** Two positions of a distinct sequence hold different values. */
  lemma {:induction false} DistinctAt(s: seq<nat>, p: nat, q: nat)
    requires Distinct(s) && p < q < |s|
    ensures s[p] != s[q]
    decreases p
  {
    if p == 0 {
      assert s[q] == s[1..][q - 1];
    } else {
      DistinctAt(s[1..], p - 1, q - 1);
    }
  }

  /** `order` is what `np.argsort(scores)` may return: a permutation of the
      indices listing the scores in ascending order (tie order unspecified). */
  predicate AscendingArgsort(order: seq<nat>, scores: seq<real>) {
    && |order| == |scores|
    && (forall p :: 0 <= p < |order| ==> order[p] < |scores|)
    && Distinct(order)
    && (forall m :: 0 <= m < |scores| ==> m in order)
    && (forall p, q {:trigger scores[order[p]], scores[order[q]]} ::
          0 <= p < q < |order| ==> scores[order[p]] <= scores[order[q]])
  }

  function Reverse(s: seq<nat>): (r: seq<nat>)
    ensures |r| == |s| && forall i :: 0 <= i < |s| ==> r[i] == s[|s| - 1 - i]
  {
    if s == [] then [] else Reverse(s[1..]) + [s[0]]
  }

  /** `argsort(scores)[-k:][::-1]` for `k >= 1`: the last `min(k, n)` indices, best first. */
  function TopIndices(order: seq<nat>, k: nat): seq<nat> {
    Reverse(order[|order| - Min(k, |order|)..])
  }

  /** Position `i` of the selection is position `n - 1 - i` of the argsort. */
  lemma TopIndicesAt(order: seq<nat>, k: nat)
    ensures |TopIndices(order, k)| == Min(k, |order|)
    ensures forall i :: 0 <= i < |TopIndices(order, k)| ==>
      TopIndices(order, k)[i] == order[|order| - 1 - i]
  {
  }

  /** The selected indices are distinct and in non-increasing score order. */
  lemma TopIndicesSorted(order: seq<nat>, scores: seq<real>, k: nat)
    requires AscendingArgsort(order, scores)
    ensures forall i, j :: 0 <= i < j < |TopIndices(order, k)| ==>
      TopIndices(order, k)[i] != TopIndices(order, k)[j]
      && scores[TopIndices(order, k)[j]] <= scores[TopIndices(order, k)[i]]
  {
    var n := |order|;
    var top := TopIndices(order, k);
    TopIndicesAt(order, k);
    forall i, j | 0 <= i < j < |top|
      ensures top[i] != top[j] && scores[top[j]] <= scores[top[i]]
    {
      assert top[i] == order[n - 1 - i] && top[j] == order[n - 1 - j];
      DistinctAt(order, n - 1 - j, n - 1 - i);
    }
  }

  /** No unselected chunk scores higher than a selected one. */
  lemma TopIndicesBeatRest(order: seq<nat>, scores: seq<real>, k: nat)
    requires AscendingArgsort(order, scores)
    ensures forall i, m :: 0 <= i < |TopIndices(order, k)| && 0 <= m < |scores| && m !in TopIndices(order, k) ==>
      scores[m] <= scores[TopIndices(order, k)[i]]
  {
    var n := |order|;
    var lo := n - Min(k, n);
    var top := TopIndices(order, k);
    TopIndicesAt(order, k);
    forall i, m | 0 <= i < |top| && 0 <= m < n && m !in top
      ensures scores[m] <= scores[top[i]]
    {
      assert m in order;
      var p :| 0 <= p < n && order[p] == m;
      assert forall q :: lo <= q < n ==> top[n - 1 - q] == order[q];
      assert p < n - 1 - i;
    }
  }

  /** `min(k, n)` distinct chunk indices in non-increasing score order, none
      of them beaten by an unselected chunk. */
  lemma TopIndicesAreTop(order: seq<nat>, scores: seq<real>, k: nat)
    requires AscendingArgsort(order, scores) && k >= 1
    ensures |TopIndices(order, k)| == Min(k, |scores|)
    ensures forall i :: 0 <= i < |TopIndices(order, k)| ==> TopIndices(order, k)[i] < |scores|
    ensures forall i, j :: 0 <= i < j < |TopIndices(order, k)| ==>
      TopIndices(order, k)[i] != TopIndices(order, k)[j]
      && scores[TopIndices(order, k)[j]] <= scores[TopIndices(order, k)[i]]
    ensures forall i, m :: 0 <= i < |TopIndices(order, k)| && 0 <= m < |scores| && m !in TopIndices(order, k) ==>
      scores[m] <= scores[TopIndices(order, k)[i]]
  {
    TopIndicesAt(order, k);
    TopIndicesSorted(order, scores, k);
    TopIndicesBeatRest(order, scores, k);
  }

  // ---------------------------------------------------------------- retriever

  /** The loop of `retrieve`: a new `DocChunk` per selected index, carrying the
      chunk's id, source and content and the index's similarity. */
  method CopyWithScores(chunks: seq<DocChunk>, scores: seq<real>, indices: seq<nat>) returns (results: seq<DocChunk>)
    requires |scores| == |chunks|
    requires forall i :: 0 <= i < |indices| ==> indices[i] < |chunks|
    ensures |results| == |indices|
    ensures forall i :: 0 <= i < |indices| ==> results[i] == chunks[indices[i]].(score := scores[indices[i]])
  {
    results := [];
    for i := 0 to |indices|
      invariant |results| == i
      invariant forall j :: 0 <= j < i ==> results[j] == chunks[indices[j]].(score := scores[indices[j]])
    {
      var chunk := chunks[indices[i]];
      results := results + [DocChunk(chunk.id, chunk.source, chunk.content, scores[indices[i]])];
    }
  }

  /** `RAGRetriever`: the loaded corpus. `chunks` is extended while loading and
      only read afterwards. */
  class RagRetriever {
    var chunks: seq<DocChunk>

    /** `__init__` with `_load_documents`: `files` maps the file names that exist
        under the documents directory to their contents. */
    constructor (files: map<string, string>)
      ensures chunks == CorpusChunks(files, MarkdownFiles)
    {
      var loaded: seq<DocChunk> := [];
      for i := 0 to |MarkdownFiles|
        invariant loaded == CorpusChunks(files, MarkdownFiles[..i])
      {
        assert MarkdownFiles[..i + 1][..i] == MarkdownFiles[..i];
        var filename := MarkdownFiles[i];
        if filename !in files {
          continue;
        }
        var docChunks := SplitIntoChunks(files[filename], filename);
        loaded := loaded + docChunks;
      }
      assert MarkdownFiles[..|MarkdownFiles|] == MarkdownFiles;
      chunks := loaded;
    }

    /** `retrieve`: nothing for an empty corpus; otherwise fresh copies of the
        `min(k, n)` best-scoring chunks, best first, carrying their scores. */
    method Retrieve(scores: seq<real>, order: seq<nat>, k: nat) returns (results: seq<DocChunk>)
      requires |scores| == |chunks| && AscendingArgsort(order, scores) && k >= 1
      ensures |results| == |TopIndices(order, k)| == Min(k, |chunks|)
      ensures forall i :: 0 <= i < |results| ==>
        TopIndices(order, k)[i] < |chunks|
        && results[i] == chunks[TopIndices(order, k)[i]].(score := scores[TopIndices(order, k)[i]])
      ensures forall i, j :: 0 <= i < j < |results| ==>
        TopIndices(order, k)[i] != TopIndices(order, k)[j] && results[j].score <= results[i].score
      ensures forall i, m :: 0 <= i < |results| && 0 <= m < |chunks| && m !in TopIndices(order, k) ==>
        scores[m] <= results[i].score
    {
      if chunks == [] {
        return [];
      }
      var topK := TopIndices(order, k);
      TopIndicesAreTop(order, scores, k);
      results := CopyWithScores(chunks, scores, topK);
    }
  }
}
