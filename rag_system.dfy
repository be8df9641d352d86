/** `PolishRAGSystem`: a corpus of text chunks cut from the `.txt` files of a
    folder, a parallel list of per-chunk metadata, a flat L2 index over the
    chunks' embeddings, and an optional cross-encoder that reorders search
    results. The embedding model and the cross-encoder are given as functions. */
module RagDatabase {
  import opened Wrappers
  import opened PyText
  import opened Chunker
  import opened Ranking
  import opened FlatIndex

  /** A sentence-embedding model: every text maps to a vector of the model's dimension. */
  datatype EmbeddingModel = EmbeddingModel(dim: nat, encode: string -> Vector)

  type Embedder = m: EmbeddingModel | forall s :: |m.encode(s)| == m.dim
    witness EmbeddingModel(0, _ => [])

  /** A cross-encoder: scores how well a document answers a query. */
  datatype CrossEncoder = CrossEncoder(predict: (string, string) -> real)

  type Metadata = map<string, string>

  /** One entry of the data folder listing; `content` is `None` when reading the
      file fails. */
  datatype DirEntry = DirEntry(name: string, content: Option<string>)

  datatype DataFolder = DataFolder(path: string, entries: seq<DirEntry>)

  /** One search result; `metadata` is present only when it was asked for. */
  datatype SearchResult = SearchResult(text: string, similarityScore: real, metadata: Option<Metadata>)

  datatype RagError =
    | IndexNotBuilt      // `search` before any index exists (an `AttributeError`)
    | ChunkMissing       // an index id with no chunk behind it (an `IndexError`)
    | RerankerNotLoaded  // `rerank` before `load_reranker` (a `ValueError`)

  const FilenameKey: string := "filename"

  /** The entries the constructor reads: names ending in `.txt`, in listing order. */
  function TextFiles(entries: seq<DirEntry>): (r: seq<DirEntry>)
    ensures forall i :: 0 <= i < |r| ==> EndsWith(r[i].name, ".txt") && r[i] in entries
    ensures forall e :: e in entries && EndsWith(e.name, ".txt") ==> e in r
  {
    if entries == [] then []
    else
      var rest := TextFiles(entries[1..]);
      if EndsWith(entries[0].name, ".txt") then [entries[0]] + rest else rest
  }

  /** The filter keeps listing order: the text files of two listings in a row are
      those of the first, then those of the second. */
  lemma {:induction false} TextFilesConcat(first: seq<DirEntry>, second: seq<DirEntry>)
    ensures TextFiles(first + second) == TextFiles(first) + TextFiles(second)
  {
    if first != [] {
      assert (first + second)[1..] == first[1..] + second;
      TextFilesConcat(first[1..], second);
    } else {
      assert first + second == second;
    }
  }

  /** The chunks of one file; an unreadable file contributes none. */
  function FileChunks(e: DirEntry, size: int, overlap: int): seq<string>
  {
    if e.content.None? then [] else SplitTextSpec(e.content.value, size, overlap)
  }

  function FileMetadata(path: string, e: DirEntry): Metadata
  {
    map[FilenameKey := Basename(PathJoin(path, e.name))]
  }

  /** Every chunk of every file, file after file. */
  function CorpusDocuments(files: seq<DirEntry>, size: int, overlap: int): seq<string>
  {
    if files == [] then []
    else CorpusDocuments(files[..|files| - 1], size, overlap) + FileChunks(files[|files| - 1], size, overlap)
  }

  /** One metadata entry per chunk: the name of the file the chunk came from. */
  function CorpusMetadata(path: string, files: seq<DirEntry>, size: int, overlap: int): seq<Metadata>
  {
    if files == [] then []
    else
      var last := files[|files| - 1];
      CorpusMetadata(path, files[..|files| - 1], size, overlap)
        + seq(|FileChunks(last, size, overlap)|, _ => FileMetadata(path, last))
  }

  /** Corpus entry `i` is chunk `c` of file `f`: it sits after the chunks of the
      files before `f`, and its text is that chunk. */
  ghost predicate ChunkOrigin(files: seq<DirEntry>, size: int, overlap: int, i: int, f: int, c: int)
  {
    0 <= f < |files| && files[f].content.Some? && 0 <= c < |FileChunks(files[f], size, overlap)|
    && i == |CorpusDocuments(files[..f], size, overlap)| + c
    && i < |CorpusDocuments(files, size, overlap)|
    && CorpusDocuments(files, size, overlap)[i] == FileChunks(files[f], size, overlap)[c]
  }

  /** Metadata entry `i` names file `f`. */
  ghost predicate NamesFile(path: string, files: seq<DirEntry>, size: int, overlap: int, i: int, f: int)
  {
    0 <= f < |files| && 0 <= i < |CorpusMetadata(path, files, size, overlap)|
    && CorpusMetadata(path, files, size, overlap)[i] == FileMetadata(path, files[f])
  }

  /** Corpus entry `i` is chunk `c` of file `f`, and its metadata names file `f`. */
  ghost predicate Origin(path: string, files: seq<DirEntry>, size: int, overlap: int, i: int, f: int, c: int)
  {
    ChunkOrigin(files, size, overlap, i, f, c) && NamesFile(path, files, size, overlap, i, f)
  }

  /** Entry `i` of the corpus of `files`, read off the corpus of all but the last file. */
  lemma DocumentsSnocAt(files: seq<DirEntry>, size: int, overlap: int, i: int)
    requires files != []
    ensures var n := |files| - 1; var nf := |CorpusDocuments(files[..n], size, overlap)|;
      |CorpusDocuments(files, size, overlap)| == nf + |FileChunks(files[n], size, overlap)|
      && (0 <= i < nf ==> CorpusDocuments(files, size, overlap)[i] == CorpusDocuments(files[..n], size, overlap)[i])
      && (nf <= i < |CorpusDocuments(files, size, overlap)| ==>
            CorpusDocuments(files, size, overlap)[i] == FileChunks(files[n], size, overlap)[i - nf])
  {
  }

  /** Metadata entry `i` of the corpus of `files`, read off the corpus of all but the last file. */
  lemma MetadataSnocAt(path: string, files: seq<DirEntry>, size: int, overlap: int, i: int)
    requires files != []
    ensures var n := |files| - 1; var nf := |CorpusMetadata(path, files[..n], size, overlap)|;
      |CorpusMetadata(path, files, size, overlap)| == nf + |FileChunks(files[n], size, overlap)|
      && (0 <= i < nf ==> CorpusMetadata(path, files, size, overlap)[i] == CorpusMetadata(path, files[..n], size, overlap)[i])
      && (nf <= i < |CorpusMetadata(path, files, size, overlap)| ==>
            CorpusMetadata(path, files, size, overlap)[i] == FileMetadata(path, files[n]))
  {
  }

  /** Corpus entry `i` is some chunk of some file. */
  ghost predicate HasOrigin(path: string, files: seq<DirEntry>, size: int, overlap: int, i: int)
  {
    exists f, c :: Origin(path, files, size, overlap, i, f, c)
  }

  /** A witness of `HasOrigin`. */
  lemma PickOrigin(path: string, files: seq<DirEntry>, size: int, overlap: int, i: int) returns (f: int, c: int)
    requires HasOrigin(path, files, size, overlap, i)
    ensures Origin(path, files, size, overlap, i, f, c)
  {
    f, c :| Origin(path, files, size, overlap, i, f, c);
  }

  /** Only a readable file yields chunks. */
  lemma ChunksOfReadable(e: DirEntry, size: int, overlap: int)
    requires FileChunks(e, size, overlap) != []
    ensures e.content.Some?
  {
  }

  /** A chunk of a file before the last keeps its place when the last file is added. */
  lemma ChunkOriginInFront(files: seq<DirEntry>, size: int, overlap: int, i: int, f: int, c: int)
    requires files != []
    requires ChunkOrigin(files[..|files| - 1], size, overlap, i, f, c)
    ensures ChunkOrigin(files, size, overlap, i, f, c)
  {
    var front := files[..|files| - 1];
    assert files[f] == front[f];
    assert files[..f] == front[..f];
    DocumentsSnocAt(files, size, overlap, i);
  }

  /** So does the metadata entry naming it. */
  lemma NamesFileInFront(path: string, files: seq<DirEntry>, size: int, overlap: int, i: int, f: int)
    requires files != []
    requires NamesFile(path, files[..|files| - 1], size, overlap, i, f)
    ensures NamesFile(path, files, size, overlap, i, f)
  {
    assert files[f] == files[..|files| - 1][f];
    MetadataSnocAt(path, files, size, overlap, i);
  }

  /** The entries after the other files' chunks are the chunks of the last file. */
  lemma ChunkOriginInLast(files: seq<DirEntry>, size: int, overlap: int, i: int)
    requires files != []
    requires |CorpusDocuments(files[..|files| - 1], size, overlap)| <= i < |CorpusDocuments(files, size, overlap)|
    ensures ChunkOrigin(files, size, overlap, i, |files| - 1, i - |CorpusDocuments(files[..|files| - 1], size, overlap)|)
  {
    DocumentsSnocAt(files, size, overlap, i);
    ChunksOfReadable(files[|files| - 1], size, overlap);
  }

  /** Their metadata entries name the last file. */
  lemma NamesFileInLast(path: string, files: seq<DirEntry>, size: int, overlap: int, i: int)
    requires files != []
    requires |CorpusMetadata(path, files[..|files| - 1], size, overlap)| <= i < |CorpusMetadata(path, files, size, overlap)|
    ensures NamesFile(path, files, size, overlap, i, |files| - 1)
  {
    MetadataSnocAt(path, files, size, overlap, i);
  }

  /** Every corpus entry comes from a definite chunk of a definite file, and its
      metadata names that file. */
  lemma {:induction false} CorpusProvenance(path: string, files: seq<DirEntry>, size: int, overlap: int)
    ensures |CorpusMetadata(path, files, size, overlap)| == |CorpusDocuments(files, size, overlap)|
    ensures forall i :: 0 <= i < |CorpusDocuments(files, size, overlap)| ==>
      HasOrigin(path, files, size, overlap, i)
  {
    if files != [] {
      var n := |files| - 1;
      var front := files[..n];
      CorpusProvenance(path, front, size, overlap);
      DocumentsSnocAt(files, size, overlap, 0);
      MetadataSnocAt(path, files, size, overlap, 0);
      var nf := |CorpusDocuments(front, size, overlap)|;
      forall i | 0 <= i < |CorpusDocuments(files, size, overlap)|
        ensures HasOrigin(path, files, size, overlap, i)
      {
        if i < nf {
          var f, c := PickOrigin(path, front, size, overlap, i);
          ChunkOriginInFront(files, size, overlap, i, f, c);
          NamesFileInFront(path, files, size, overlap, i, f);
          assert Origin(path, files, size, overlap, i, f, c);
        } else {
          ChunkOriginInLast(files, size, overlap, i);
          NamesFileInLast(path, files, size, overlap, i);
          assert Origin(path, files, size, overlap, i, n, i - nf);
        }
      }
    }
  }

  /** `md` names a readable entry of `files`. */
  ghost predicate NamesReadableFile(path: string, files: seq<DirEntry>, md: Metadata)
  {
    exists e :: e in files && e.content.Some? && md == map[FilenameKey := Basename(PathJoin(path, e.name))]
  }

  /** Chunk texts and metadata stay aligned, and every metadata entry names the
      file (a readable `.txt` entry) its chunk was cut from: entry `i` is chunk
      `c` of file `f`, placed after the chunks of the files before `f`. */
  lemma {:induction false} CorpusAligned(path: string, files: seq<DirEntry>, size: int, overlap: int)
    ensures |CorpusMetadata(path, files, size, overlap)| == |CorpusDocuments(files, size, overlap)|
    ensures forall i :: 0 <= i < |CorpusMetadata(path, files, size, overlap)| ==>
      NamesReadableFile(path, files, CorpusMetadata(path, files, size, overlap)[i])
    ensures forall i :: 0 <= i < |CorpusDocuments(files, size, overlap)| ==>
      HasOrigin(path, files, size, overlap, i)
  {
    CorpusProvenance(path, files, size, overlap);
    forall i | 0 <= i < |CorpusMetadata(path, files, size, overlap)|
      ensures NamesReadableFile(path, files, CorpusMetadata(path, files, size, overlap)[i])
    {
      assert HasOrigin(path, files, size, overlap, i);
      var f, c :| Origin(path, files, size, overlap, i, f, c);
      assert files[f] in files;
    }
  }

  /** No chunk of the corpus is empty, and the corpus is empty exactly when no
      file yields a word: every file is unreadable or whitespace only. */
  lemma {:induction false} CorpusChunks(files: seq<DirEntry>, size: int, overlap: int)
    ensures forall i :: 0 <= i < |CorpusDocuments(files, size, overlap)| ==> CorpusDocuments(files, size, overlap)[i] != ""
    ensures CorpusDocuments(files, size, overlap) == [] <==>
      forall e :: e in files && e.content.Some? ==> Split(e.content.value) == []
  {
    if files != [] {
      var front, last := files[..|files| - 1], files[|files| - 1];
      CorpusChunks(front, size, overlap);
      if last.content.Some? {
        SplitTextEmpty(last.content.value, size, overlap);
        SplitEmptyIffBlank(last.content.value);
      }
      assert forall e :: e in files <==> e in front || e == last;
    }
  }

  /** The embeddings of a batch of texts, one per text. */
  function EncodeAll(model: Embedder, docs: seq<string>): (vs: seq<Vector>)
    ensures |vs| == |docs|
    ensures forall i :: 0 <= i < |vs| ==> |vs[i]| == model.dim
  {
    seq(|docs|, i requires 0 <= i < |docs| => model.encode(docs[i]))
  }

  /** `similarity_score = 1 - d`: the score search reports for an L2 distance. */
  function LegacySimilarity(distance: real): (score: real)
    ensures score + distance == 1.0
    ensures 0.0 <= distance ==> score <= 1.0
  {
    1.0 - distance
  }

  /** The result record for one index hit. */
  function ToResult(h: Hit, docs: seq<string>, metas: seq<Metadata>, includeMetadata: bool): (r: SearchResult)
    requires |docs| == |metas| && ValidIndex(h.id, |docs|)
    ensures r.text in docs
    ensures r.metadata.Some? <==> includeMetadata
    ensures r.metadata.Some? ==> r.metadata.value in metas
  {
    var i := NormIndex(h.id, |docs|);
    SearchResult(docs[i], LegacySimilarity(h.distance), if includeMetadata then Some(metas[i]) else None)
  }

  /** The hits mapped to result records, failing on the first id that is not a
      valid list index. */
  function ResultsFor(hits: seq<Hit>, docs: seq<string>, metas: seq<Metadata>, includeMetadata: bool)
    : (r: Result<seq<SearchResult>, RagError>)
    requires |docs| == |metas|
    ensures r.Ok? ==> |r.value| == |hits|
    ensures r.Err? ==> r.error == ChunkMissing
  {
    if forall j :: 0 <= j < |hits| ==> ValidIndex(hits[j].id, |docs|) then
      Ok(seq(|hits|, j requires 0 <= j < |hits| => ToResult(hits[j], docs, metas, includeMetadata)))
    else
      Err(ChunkMissing)
  }

  /** Search keeps one result per hit, in the index's order: the chunk at the
      hit's id, the score `1 - d`, and metadata exactly when asked for. It fails
      only when an id has no chunk behind it. */
  lemma SearchMapsHits(hits: seq<Hit>, docs: seq<string>, metas: seq<Metadata>, includeMetadata: bool)
    requires |docs| == |metas|
    ensures var r := ResultsFor(hits, docs, metas, includeMetadata);
      (r.Ok? <==> forall j :: 0 <= j < |hits| ==> ValidIndex(hits[j].id, |docs|))
      && (r.Ok? ==>
            |r.value| == |hits|
            && (forall j :: 0 <= j < |hits| ==>
                  r.value[j].text == docs[NormIndex(hits[j].id, |docs|)]
                  && r.value[j].similarityScore == 1.0 - hits[j].distance
                  && (r.value[j].metadata.Some? <==> includeMetadata)
                  && (includeMetadata ==> r.value[j].metadata.value == metas[NormIndex(hits[j].id, |docs|)])))
  {
  }

  /** Every metadata entry carries a file name. */
  predicate NamedMetadata(metas: seq<Metadata>)
  {
    forall i :: 0 <= i < |metas| ==> FilenameKey in metas[i]
  }

  /** The cross-encoder's score of every result against the query. */
  function RerankScores(ce: CrossEncoder, query: string, results: seq<SearchResult>): (s: seq<real>)
    ensures |s| == |results|
  {
    seq(|results|, i requires 0 <= i < |results| => ce.predict(query, results[i].text))
  }

  function Negated(xs: seq<real>): seq<real>
  {
    seq(|xs|, i requires 0 <= i < |xs| => -xs[i])
  }

  /** The input positions rerank keeps, best first: a stable sort by descending
      score (a stable ascending sort on the negated score) cut by `[:top_k]`. */
  function RerankOrder(scores: seq<real>, topK: int): (order: seq<nat>)
    ensures |order| == ClampIndex(topK, |scores|)
    ensures forall j :: 0 <= j < |order| ==> order[j] < |scores|
  {
    RankTagged(Negated(scores));
    var kept := SliceTo(Rank(Tag(Negated(scores))), topK);
    seq(|kept|, j requires 0 <= j < |kept| => kept[j].pos)
  }

  function Reranked(results: seq<SearchResult>, scores: seq<real>, topK: int): (kept: seq<SearchResult>)
    requires |scores| == |results|
    ensures |kept| == ClampIndex(topK, |results|)
    ensures forall j :: 0 <= j < |kept| ==> kept[j] in results
  {
    var order := RerankOrder(scores, topK);
    seq(|order|, j requires 0 <= j < |order| => results[order[j]])
  }

  /** What `rerank` returns or raises, given the loaded cross-encoder. */
  function RerankSpec(reranker: Option<CrossEncoder>, query: string, results: seq<SearchResult>, topK: int)
    : (r: Result<seq<SearchResult>, RagError>)
    ensures r.Err? <==> reranker.None?
    ensures r.Err? ==> r.error == RerankerNotLoaded
    ensures r.Ok? ==> |r.value| == ClampIndex(topK, |results|)
  {
    if reranker.None? then Err(RerankerNotLoaded)
    else Ok(Reranked(results, RerankScores(reranker.value, query, results), topK))
  }

  /** Rerank keeps `min(top_k, n)` distinct input positions (for `top_k >= 0`),
      by non-increasing score with equal scores in input order, and drops no
      position that scores higher than one it keeps, nor an equal-scoring one
      that comes earlier. */
  lemma RerankOrderIsTopK(scores: seq<real>, topK: int)
    ensures var order := RerankOrder(scores, topK);
      (0 <= topK ==> |order| == if topK < |scores| then topK else |scores|)
      && (forall i, j :: 0 <= i < j < |order| ==> order[i] != order[j])
      && (forall i, j :: 0 <= i < j < |order| ==>
            scores[order[i]] > scores[order[j]]
            || (scores[order[i]] == scores[order[j]] && order[i] < order[j]))
      && (forall p, j :: 0 <= p < |scores| && 0 <= j < |order|
            && (scores[p] > scores[order[j]] || (scores[p] == scores[order[j]] && p < order[j]))
            ==> p in order)
  {
    var keys := Negated(scores);
    var r := Rank(Tag(keys));
    RankTagged(keys);
    var order := RerankOrder(scores, topK);
    assert forall j :: 0 <= j < |order| ==> order[j] == r[j].pos;
    forall p, j | 0 <= p < |scores| && 0 <= j < |order|
      && (scores[p] > scores[order[j]] || (scores[p] == scores[order[j]] && p < order[j]))
      ensures p in order
    {
      assert Keyed(keys[p], p) in r;
      var m :| 0 <= m < |r| && r[m] == Keyed(keys[p], p);
      if m >= |order| {
        assert false;
      }
      assert order[m] == p;
    }
  }

  /** Rerank raises exactly when no cross-encoder is loaded; otherwise every
      result it returns is an input result, taken from distinct positions. */
  lemma RerankSelects(reranker: Option<CrossEncoder>, query: string, results: seq<SearchResult>, topK: int)
    ensures RerankSpec(reranker, query, results, topK).Err? <==> reranker.None?
    ensures reranker.Some? ==>
      var out := RerankSpec(reranker, query, results, topK).value;
      var order := RerankOrder(RerankScores(reranker.value, query, results), topK);
      |out| == |order|
      && (forall i, j :: 0 <= i < j < |order| ==> order[i] != order[j])
      && (forall j :: 0 <= j < |out| ==> out[j] == results[order[j]])
  {
    if reranker.Some? {
      RerankOrderIsTopK(RerankScores(reranker.value, query, results), topK);
    }
  }

  class PolishRagSystem {
    const model: Embedder
    const chunkMaxSize: int
    const chunkOverlap: int
    var documents: seq<string>
    var metadata: seq<Metadata>
    var dimension: Option<nat>
    var index: FlatL2Index?
    var reranker: Option<CrossEncoder>

    /** Chunks and metadata are parallel lists, every metadata entry names a
        file, the dimension once known is the model's, and an index exists only
        once the dimension is known, with that dimension. */
    ghost predicate Valid()
      reads this, index
    {
      |documents| == |metadata|
      && NamedMetadata(metadata)
      && (dimension.Some? ==> dimension.value == model.dim)
      && (index != null ==> dimension.Some? && index.dim == model.dim && index.Valid())
    }

    /** Builds the corpus from the `.txt` files of the folder (if one is given)
        and indexes all of its chunks at once. */
    constructor (model: Embedder, dataFolder: Option<DataFolder>, chunkMaxSize: int, chunkOverlap: int)
      ensures Valid()
      ensures this.model == model && this.chunkMaxSize == chunkMaxSize && this.chunkOverlap == chunkOverlap
      ensures reranker.None?
      ensures dataFolder.None? ==> documents == [] && metadata == [] && dimension.None? && index == null
      ensures dataFolder.Some? ==>
        var files := TextFiles(dataFolder.value.entries);
        documents == CorpusDocuments(files, chunkMaxSize, chunkOverlap)
        && metadata == CorpusMetadata(dataFolder.value.path, files, chunkMaxSize, chunkOverlap)
        && dimension == Some(model.dim)
        && index != null && fresh(index)
        && index.vectors == EncodeAll(model, documents)
    {
      this.model := model;
      this.chunkMaxSize := chunkMaxSize;
      this.chunkOverlap := chunkOverlap;
      index := null;
      documents := [];
      metadata := [];
      dimension := None;
      reranker := None;
      new;
      if dataFolder.Some? {
        var path := dataFolder.value.path;
        var files := TextFiles(dataFolder.value.entries);
        LoadFiles(path, files);
        CorpusAligned(path, files, chunkMaxSize, chunkOverlap);
        AddDocuments(documents, Some(metadata));
      }
    }

    /** The file loop of the constructor: reads the `.txt` files one after the
        other, appending their chunks and metadata. */
    method LoadFiles(path: string, files: seq<DirEntry>)
      requires documents == [] && metadata == []
      modifies this
      ensures documents == CorpusDocuments(files, chunkMaxSize, chunkOverlap)
      ensures metadata == CorpusMetadata(path, files, chunkMaxSize, chunkOverlap)
      ensures NamedMetadata(metadata)
      ensures index == old(index) && dimension == old(dimension) && reranker == old(reranker)
    {
      for f := 0 to |files|
        invariant documents == CorpusDocuments(files[..f], chunkMaxSize, chunkOverlap)
        invariant metadata == CorpusMetadata(path, files[..f], chunkMaxSize, chunkOverlap)
        invariant NamedMetadata(metadata)
        invariant index == old(index) && dimension == old(dimension) && reranker == old(reranker)
      {
        assert files[..f + 1][..f] == files[..f];
        AppendFile(path, files[f]);
      }
      assert files[..|files|] == files;
    }

    /** Reads one file of the folder: an unreadable file is skipped, otherwise
        each of its chunks is appended together with its file's metadata. */
    method AppendFile(path: string, file: DirEntry)
      requires NamedMetadata(metadata)
      modifies this
      ensures documents == old(documents) + FileChunks(file, chunkMaxSize, chunkOverlap)
      ensures metadata == old(metadata) + seq(|FileChunks(file, chunkMaxSize, chunkOverlap)|, _ => FileMetadata(path, file))
      ensures NamedMetadata(metadata)
      ensures index == old(index) && dimension == old(dimension) && reranker == old(reranker)
    {
      if file.content.None? {
        return;
      }
      var chunks := SplitText(file.content.value, chunkMaxSize, chunkOverlap);
      AppendChunks(chunks, map[FilenameKey := Basename(PathJoin(path, file.name))]);
    }

    /** Appends each chunk of one file together with that file's metadata entry. */
    method AppendChunks(chunks: seq<string>, entry: Metadata)
      modifies this
      ensures documents == old(documents) + chunks
      ensures metadata == old(metadata) + seq(|chunks|, _ => entry)
      ensures index == old(index) && dimension == old(dimension) && reranker == old(reranker)
    {
      for c := 0 to |chunks|
        invariant documents == old(documents) + chunks[..c]
        invariant metadata == old(metadata) + seq(c, _ => entry)
        invariant index == old(index) && dimension == old(dimension) && reranker == old(reranker)
      {
        assert chunks[..c + 1] == chunks[..c] + [chunks[c]];
        documents := documents + [chunks[c]];
        metadata := metadata + [entry];
      }
      assert chunks[..|chunks|] == chunks;
    }

    /** Embeds a batch and appends it to the index, fixing the dimension and
        creating the index on first use. The chunk and metadata lists are left
        as they are. */
    method AddDocuments(docs: seq<string>, metadataList: Option<seq<Metadata>>)
      requires Valid()
      modifies this, index
      ensures Valid()
      ensures documents == old(documents) && metadata == old(metadata) && reranker == old(reranker)
      ensures dimension == Some(model.dim)
      ensures old(index) != null ==> index == old(index)
      ensures old(index) == null ==> index != null && fresh(index)
      ensures index != null
      ensures index.vectors == (if old(index) == null then [] else old(index.vectors)) + EncodeAll(model, docs)
    {
      var metas := if metadataList.None? then seq(|docs|, _ => map[]) else metadataList.value;
      var embeddings := EncodeAll(model, docs);
      if dimension.None? {
        dimension := Some(model.dim);
      }
      if index == null {
        index := new FlatL2Index(dimension.value);
      }
      index.Add(embeddings);
    }

    /** What `search` returns or raises for the current state. */
    function SearchSpec(query: string, topK: int, includeMetadata: bool): (r: Result<seq<SearchResult>, RagError>)
      reads this, index
      requires Valid() && 0 < topK
      ensures index == null ==> r == Err(IndexNotBuilt)
      ensures r.Ok? ==> index != null && |r.value| == topK
    {
      if index == null then Err(IndexNotBuilt)
      else ResultsFor(Nearest(index.vectors, model.encode(query), topK), documents, metadata, includeMetadata)
    }

    /** Embeds the query, asks the index for `top_k` hits and maps them to result records. */
    method Search(query: string, topK: int, includeMetadata: bool) returns (r: Result<seq<SearchResult>, RagError>)
      requires Valid() && 0 < topK
      ensures r == SearchSpec(query, topK, includeMetadata)
    {
      if index == null {
        return Err(IndexNotBuilt);
      }
      var docs, metas := documents, metadata;
      var queryEmbedding := model.encode(query);
      var hits := index.Search(queryEmbedding, topK);
      var results: seq<SearchResult> := [];
      for j := 0 to |hits|
        invariant |results| == j
        invariant forall m :: 0 <= m < j ==> ValidIndex(hits[m].id, |documents|)
        invariant forall m :: 0 <= m < j ==> results[m] == ToResult(hits[m], documents, metadata, includeMetadata)
      {
        var h := hits[j];
        if !ValidIndex(h.id, |documents|) {
          return Err(ChunkMissing);
        }
        var i := NormIndex(h.id, |documents|);
        var result := SearchResult(documents[i], LegacySimilarity(h.distance),
          if includeMetadata then Some(metadata[i]) else None);
        results := results + [result];
      }
      assert results == seq(|hits|, j requires 0 <= j < |hits| => ToResult(hits[j], docs, metas, includeMetadata));
      r := Ok(results);
    }

    /** Over an index that holds exactly the chunks' embeddings (as after
        construction), search succeeds exactly when there is a chunk, returns
        `top_k` results with non-increasing scores over the first `n`, carries
        metadata exactly when asked for, and fills the places beyond `n` with
        the last chunk at the padding distance. */
    lemma SearchRanked(query: string, topK: int, includeMetadata: bool)
      requires Valid() && 0 < topK
      requires index != null && index.vectors == EncodeAll(model, documents)
      ensures var r := SearchSpec(query, topK, includeMetadata);
        (r.Ok? <==> documents != [])
        && (r.Ok? ==>
              |r.value| == topK
              && (forall i, j :: 0 <= i < j < topK && j < |documents| ==>
                    r.value[i].similarityScore >= r.value[j].similarityScore)
              && (forall j :: 0 <= j < topK ==> (r.value[j].metadata.Some? <==> includeMetadata))
              && (forall j :: |documents| <= j < topK ==>
                    r.value[j].text == documents[|documents| - 1]
                    && r.value[j].similarityScore == 1.0 - MaxDistance))
    {
      var q := model.encode(query);
      var hits := Nearest(index.vectors, q, topK);
      NearestOrdered(index.vectors, q, topK);
      SearchMapsHits(hits, documents, metadata, includeMetadata);
      if documents == [] {
        assert !ValidIndex(hits[0].id, |documents|);
      }
    }

    /** `load_reranker`: installs the cross-encoder and returns the system itself. */
    method LoadReranker(ce: CrossEncoder) returns (self: PolishRagSystem)
      modifies this
      ensures reranker == Some(ce) && self == this
      ensures documents == old(documents) && metadata == old(metadata)
      ensures dimension == old(dimension) && index == old(index)
      ensures Valid() == old(Valid())
    {
      reranker := Some(ce);
      self := this;
    }

    /** Scores every result against the query, sorts them in place by
        descending score (stably) and keeps the first `top_k`. */
    method Rerank(query: string, results: seq<SearchResult>, topK: int) returns (r: Result<seq<SearchResult>, RagError>)
      ensures r == RerankSpec(reranker, query, results, topK)
    {
      if reranker.None? {
        return Err(RerankerNotLoaded);
      }
      var scores := RerankScores(reranker.value, query, results);
      var n := |results|;
      var scored := new Keyed[n];
      for i := 0 to n
        invariant forall m :: 0 <= m < i ==> scored[m] == Keyed(-scores[m], m)
      {
        scored[i] := Keyed(-scores[i], i);
      }
      assert scored[..] == Tag(Negated(scores));
      SortInPlace(scored);
      var kept := SliceTo(scored[..], topK);
      var order := seq(|kept|, j requires 0 <= j < |kept| => kept[j].pos);
      assert order == RerankOrder(scores, topK);
      r := Ok(seq(|order|, j requires 0 <= j < |order| => results[order[j]]));
    }
  }
}
