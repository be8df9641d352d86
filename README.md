# Art Chat retrieval core, modelled in Dafny

This project models the retrieval and prompt-building core of Art Chat, a Polish
voice assistant for an art exhibition. The model covers these parts:

- **`PolishRAGSystem`** (`rag/database.py`). It builds a corpus by reading the
  `.txt` files of a folder. Each file is cut into overlapping chunks of
  whitespace-separated words (`split_text`). Alongside the chunks it keeps a
  parallel list of `{"filename": ...}` metadata. The chunks' embeddings go into
  a FAISS `IndexFlatL2`, an exact brute-force L2 index. A search maps the
  index's hits to result records with `similarity_score = 1 - d`. An optional
  cross-encoder reranks results with a stable sort by descending score, cut to
  `top_k`.
- **`PolishArtExpertRAG`** (`chat/polish_art_expert.py`). It numbers the search
  results into fragments labelled with their source file, joins them, and cuts
  the context to a budget of whitespace tokens. It then sends a system prompt,
  the earlier conversation and the question with its context to a
  chat-completion service. If the service fails, it answers with an apology.
- **The voice front end's decision logic** (`Artistic_chatbot.py`). This is
  made of three pieces:
  - deciding whether an utterance is a question trigger, a greeting or
    nothing;
  - discarding captured questions that are only a trigger word;
  - naming the JSON log file.

The modules follow the program's structure:

| module | file | models |
|---|---|---|
| `Wrappers` | wrappers.dfy | `Option` (Python's `None`) and `Result` (raised exceptions) |
| `PyText` | pytext.dfy | the Python built-ins the code relies on: `str.split()`, `" ".join`, `strip`, `in` on strings, slices with negative indices, `xs[i]`, `str(n)`, `endswith`, `os.path.join` / `basename` |
| `Chunker` | chunker.dfy | `split_text`: a `for` loop proved equal to a fold of its loop body, plus its guarantees |
| `Ranking` | ranking.dfy | stable sorting by a real key, both as a specification function and as an in-place array insertion sort proved to match it |
| `FlatIndex` | flat_index.dfy | `IndexFlatL2` as a class: `add` appends vectors, and `search` sorts all distances and keeps `k`, padding with missing entries |
| `RagDatabase` | rag_system.dfy | the `PolishRAGSystem` class: its constructor, `add_documents`, `search`, `load_reranker` and `rerank` |
| `ArtExpert` | art_expert.dfy | the `PolishArtExpertRAG` class: `_prepare_context` and `get_response` |
| `Chatbot` | chatbot.dfy | trigger classification, the trigger-only filter and the log file name |

The sentence-embedding model, the cross-encoder and the chat-completion service
are values of function type. The model takes them as given: it works out
nothing about what they compute beyond the embedding dimension. The data folder
is a given listing of `(name, content)` entries, where `content` is `None` for
a file that could not be read.

Two behaviours of the code are easy to misread, and the model keeps both:

- **`add_documents` does not append to the chunk and metadata lists.** The
  constructor appends each chunk and its metadata itself
  (rag/database.py:45-47), then indexes the whole list in one call (line 49).
  Index ids match list positions after construction
  (`PolishRagSystem.constructor` ensures that the index holds exactly the
  embeddings of `documents`). Any later call to `add_documents` grows only the
  index.
- **A chunk closes only when the next word would exceed the size.** So
  `split_text("a b c d e", 8, 1)` returns `["a b c d", "d e"]`
  (`Chunker.FiveWords`).

## Model

| member | source | states |
|---|---|---|
| `PyText.Split` | rag/database.py:57 | `str.split()` yields only non-empty, whitespace-free words |
| `PyText.SplitEmptyIffBlank` | rag/database.py:57 | `text.split()` is empty exactly when the text is empty or all whitespace |
| `PyText.SplitJoin` | chat/polish_art_expert.py:51-52 | splitting words re-joined by single spaces gives the same words back |
| `PyText.Join` | rag/database.py:64 | `sep.join(parts)` starts with the first part |
| `PyText.StripIsSubstring` | Artistic_chatbot.py:278 | the stripped text occurs inside the original text |
| `PyText.Strip` | Artistic_chatbot.py:278 | `strip()` returns a slice of the text such that everything before and after it is whitespace, and the slice neither starts nor ends with whitespace: exactly the leading and trailing whitespace is removed |
| `PyText.ClampIndex` | rag/database.py:67 | a slice bound is normalised the Python way: a bound in `0..n` is kept, a negative one counts from the end, one past the end becomes `n`, and one below `-n` becomes `0` |
| `PyText.NatToString` | chat/polish_art_expert.py:43 | `str(i)` is a non-empty run of digits with no leading zero |
| `PyText.ParseNatToString` | chat/polish_art_expert.py:43 | `int(str(n)) == n` |
| `PyText.NormIndex` | rag/database.py:106 | the position `xs[i]` reads is `i` for non-negative `i` and `n + i` for negative `i` |
| `PyText.PathJoin` | rag/database.py:32 | `os.path.join(a, b)` ends with `b`, and starts with `a` unless `b` is absolute |
| `PyText.Basename` | rag/database.py:47 | `os.path.basename(p)` is the final component of `p`: a tail containing no `/`, which is all of `p` or follows a `/` |
| `PyText.BasenameOfJoin` | rag/database.py:32-47 | the basename of a file name joined onto a folder is that file name |
| `Chunker.SplitText` | rag/database.py:51-74 | the loop returns exactly the chunks the word-by-word packing specification gives |
| `Chunker.OverlapRule` | rag/database.py:66-68 | the seed is the last `k` words when the chunk has more than `k > 0` words; it is the whole chunk when `k == 0` (Python's `[-0:]`) or when the chunk has at most `k` words |
| `Chunker.Overlap` | rag/database.py:67 | for a non-negative overlap the seed has `overlap` words when the chunk is longer, and is the whole chunk otherwise (including overlap 0) |
| `Chunker.OverlapIsSuffix` | rag/database.py:67 | the seed is always a tail of the closed chunk |
| `Chunker.ChunksNonEmpty` | rag/database.py:61-73 | no chunk is empty, and there are no chunks exactly when there are no words |
| `Chunker.ChunksComplete` | rag/database.py:61-73 | the first chunk followed by every later chunk minus its seed is exactly the input word list |
| `Chunker.ChunkSeed` | rag/database.py:63-70 | every chunk after a close starts with the seed rule's tail of the previous chunk, followed by more words |
| `Chunker.ChunkClosedOnOverflow` | rag/database.py:62-71 | the word after the seed would have pushed the previous chunk past the size, and it is kept |
| `Chunker.ChunkSizeBound` | rag/database.py:62-71 | the first chunk fits the size unless it is one word; a later chunk fits unless it is its seed plus one word |
| `Chunker.SplitTextEmpty` | rag/database.py:57-74 | `split_text` returns `[]` exactly for empty or whitespace-only text, and never returns `""` |
| `Chunker.SplitTextComplete` | rag/database.py:57-74 | re-splitting the returned strings gives the chunk word lists, which re-assemble to `text.split()` |
| `Chunker.FiveWords` | rag/database.py:61-73 | `"a b c d e"` with size 8 and overlap 1 gives `["a b c d", "d e"]` |
| `Chunker.NoOverlapRepeatsChunk` | rag/database.py:67-68 | with overlap 0 the second chunk repeats all of the first: `"a b c"`, size 4, gives `["a b", "a b c"]` |
| `Ranking.RankSortedPerm` | rag/database.py:133 | the stable-sort specification sorts and only reorders |
| `Ranking.SortedUnique` | rag/database.py:133 | there is only one sorted arrangement of a multiset of (key, position) entries |
| `Ranking.SortInPlace` | rag/database.py:133 | the in-place sort leaves the array in the specification's stable order |
| `Ranking.RankTagged` | rag/database.py:133 | a stable sort lists every position once, by non-decreasing key, with equal keys in input order |
| `FlatIndex.SquaredL2` | rag/database.py:92 | squared L2 distances are never negative |
| `FlatIndex.SquaredL2Self` | rag/database.py:92 | a vector is at distance 0 from itself |
| `FlatIndex.NearestIsExact` | rag/database.py:102 | exact search returns `k` hits. The first `min(k, n)` are distinct stored vectors with their true distances, nearest first. No unreturned vector is nearer than a returned one. The rest are `(MaxDistance, -1)` padding |
| `FlatIndex.FlatL2Index.constructor` | rag/database.py:92 | a new index has the given dimension and no vectors |
| `FlatIndex.FlatL2Index.Add` | rag/database.py:94 | `add` appends the batch after the stored vectors |
| `FlatIndex.FlatL2Index.Search` | rag/database.py:102 | `search` returns exactly the exact-search hits |
| `RagDatabase.TextFiles` | rag/database.py:31-35 | exactly the listing entries whose names end in `.txt` are read: every one it keeps is such an entry, and every such entry is kept |
| `RagDatabase.TextFilesConcat` | rag/database.py:31-35 | the filter keeps listing order: filtering two listings in a row gives the first's `.txt` files, then the second's |
| `RagDatabase.CorpusAligned` | rag/database.py:36-47 | chunks and metadata have equal length. Every metadata entry is `{"filename": basename}` of a readable `.txt` entry. Entry `i` is chunk `c` of file `f`, placed right after the chunks of the files before `f`, and its metadata names file `f` |
| `RagDatabase.CorpusProvenance` | rag/database.py:36-47 | every corpus entry is a definite chunk of a definite readable file, at the position after the earlier files' chunks, with metadata naming that file |
| `RagDatabase.CorpusChunks` | rag/database.py:36-47 | no chunk is empty, and the corpus is empty exactly when every file is unreadable or whitespace only |
| `RagDatabase.EncodeAll` | rag/database.py:82 | a batch yields one embedding per text, each of the model's dimension |
| `RagDatabase.LegacySimilarity` | rag/database.py:107 | the reported score and the distance add up to 1, so a non-negative distance scores at most 1 |
| `RagDatabase.ToResult` | rag/database.py:104-111 | a result's text is a stored chunk, and it carries stored metadata exactly when metadata was asked for |
| `RagDatabase.ResultsFor` | rag/database.py:104-111 | one result per hit on success; the only failure is a missing chunk |
| `RagDatabase.SearchMapsHits` | rag/database.py:103-112 | one result per hit, in index order: the text at the hit's id, score `1 - d`, and metadata exactly when asked for. It fails exactly when an id is not a valid list index |
| `RagDatabase.RerankScores` | rag/database.py:129-130 | one cross-encoder score per result |
| `RagDatabase.RerankOrder` | rag/database.py:132-134 | the kept positions number `top_k` clamped the Python way, and each is an input position |
| `RagDatabase.RerankOrderIsTopK` | rag/database.py:132-134 | rerank keeps `min(top_k, n)` distinct positions, by non-increasing score, with ties in input order. No higher-scoring position is dropped, and no equal-scoring earlier one |
| `RagDatabase.Reranked` | rag/database.py:133-134 | the reranked list has `top_k` entries clamped the Python way, each an input result |
| `RagDatabase.RerankSpec` | rag/database.py:126-134 | rerank fails exactly when no cross-encoder is loaded, with `ValueError`; otherwise it returns the clamped `top_k` results |
| `RagDatabase.RerankSelects` | rag/database.py:126-134 | rerank raises exactly when no cross-encoder is loaded; otherwise it returns input results from distinct positions |
| `RagDatabase.PolishRagSystem.constructor` | rag/database.py:8-49 | without a folder, everything is empty. With a folder: the chunks and metadata of its readable `.txt` files in listing order, the dimension is fixed, and a fresh index holds exactly the chunks' embeddings |
| `RagDatabase.PolishRagSystem.LoadFiles` | rag/database.py:36-47 | after the file loop, the chunk and metadata lists are exactly the corpus of the `.txt` files in listing order, and every metadata entry names a file |
| `RagDatabase.PolishRagSystem.AppendFile` | rag/database.py:36-47 | an unreadable file adds nothing; otherwise its chunks and one metadata entry per chunk are appended |
| `RagDatabase.PolishRagSystem.AppendChunks` | rag/database.py:45-47 | each chunk is appended with its file's metadata, in lockstep |
| `RagDatabase.PolishRagSystem.AddDocuments` | rag/database.py:76-94 | fixes the dimension only when unset and creates the index only when absent. The index grows by exactly the batch's embeddings. Chunks and metadata are untouched |
| `RagDatabase.PolishRagSystem.Search` | rag/database.py:96-112 | returns exactly the search specification: an error without an index, otherwise the hits mapped to results |
| `RagDatabase.PolishRagSystem.SearchSpec` | rag/database.py:96-112 | search fails with `AttributeError` when no index exists, and a successful search returns `top_k` results |
| `RagDatabase.PolishRagSystem.SearchRanked` | rag/database.py:101-112 | over an aligned index, search succeeds exactly when there is a chunk and returns `top_k` results. Scores are non-increasing over the first `n`. Metadata is present exactly when asked for. Places beyond `n` hold the last chunk, because `documents[-1]` reads it |
| `RagDatabase.PolishRagSystem.LoadReranker` | rag/database.py:114-119 | installs the cross-encoder, returns the system itself, changes nothing else, and keeps the class invariant |
| `RagDatabase.PolishRagSystem.Rerank` | rag/database.py:121-134 | returns exactly the rerank specification: `ValueError` without a cross-encoder, otherwise the stable descending sort cut to `top_k` |
| `ArtExpert.Fragments` | chat/polish_art_expert.py:40-47 | one fragment per result |
| `ArtExpert.SourceName` | chat/polish_art_expert.py:41 | a result is labelled with its metadata's file name when it has one, and with the `Brak źródła` default when it has no metadata or no `filename` key |
| `ArtExpert.Fragment` | chat/polish_art_expert.py:42-45 | a fragment starts with `Fragment ` and ends with the chunk text and a line break |
| `ArtExpert.FragmentNumberDetermined` | chat/polish_art_expert.py:42-45 | a fragment's number can be read back from its text |
| `ArtExpert.FragmentsDistinct` | chat/polish_art_expert.py:40-47 | the fragments of one context are pairwise different |
| `ArtExpert.TruncateKeepsPrefix` | chat/polish_art_expert.py:51-52 | truncation keeps exactly the first `token_limit` tokens. A context within budget is returned unchanged; a longer one has exactly `token_limit` tokens and is those tokens joined by single spaces |
| `ArtExpert.Truncate` | chat/polish_art_expert.py:51-52 | a context within budget is returned unchanged, and the truncated context splits into exactly the first `token_limit` tokens, and a longer context becomes those tokens joined by single spaces |
| `ArtExpert.ChatMessagesLayout` | chat/polish_art_expert.py:64-75 | the system prompt comes first, then the history in order (none for `None` or `[]`), then one user message with the question and `KONTEKST` |
| `ArtExpert.ChatMessages` | chat/polish_art_expert.py:64-75 | the request holds the history plus two messages: the system prompt first and a user message last |
| `ArtExpert.ReplyText` | chat/polish_art_expert.py:85-87 | an answer is returned as it is; a failure becomes the apology prefix followed by the error text |
| `ArtExpert.SourcesAreFileNames` | chat/polish_art_expert.py:41 | for a consistent `PolishRagSystem`, results searched with metadata always carry a file name, so the `Brak źródła` fallback never shows |
| `ArtExpert.PolishArtExpertRag.constructor` | chat/polish_art_expert.py:5-31 | stores the system, model and context length, and installs the default prompt |
| `ArtExpert.PolishArtExpertRag.PrepareContext` | chat/polish_art_expert.py:33-54 | always searches for 3 results with metadata, ignoring `num_results`, and returns the truncated joined fragments and the fragments. Search errors propagate |
| `ArtExpert.PolishArtExpertRag.NumberFragments` | chat/polish_art_expert.py:38-47 | the loop collects exactly one numbered, source-labelled fragment per result, in result order, into both lists |
| `ArtExpert.PolishArtExpertRag.GetResponse` | chat/polish_art_expert.py:56-88 | sends the prepared message list. It returns the answer, or `Przepraszamy, wystąpił błąd: ` followed by the error, with the fragments in both cases |
| `Chatbot.Lower` | Artistic_chatbot.py:200 | lower-casing keeps the length |
| `Chatbot.LowerChar` | Artistic_chatbot.py:200 | ASCII capitals are lowered by 32 code points, and every other ASCII character is kept |
| `Chatbot.QuestionPhraseSubsumed` | Artistic_chatbot.py:201 | any text containing `mam pytanie` contains `pytanie` |
| `Chatbot.Classify` | Artistic_chatbot.py:200-206 | question exactly when the lower case contains `pytanie`; greeting exactly when it contains `witaj` or `cześć` and not `pytanie`. The original text is always returned |
| `Chatbot.QuestionBeforeGreeting` | Artistic_chatbot.py:201-204 | a question trigger wins over a greeting in the same utterance |
| `Chatbot.AcceptQuestion` | Artistic_chatbot.py:272-281 | an accepted question is passed on unchanged |
| `Chatbot.AcceptQuestionExactly` | Artistic_chatbot.py:272-281 | a question is discarded exactly when it is missing, empty or a bare trigger word. Anything longer than `mam pytanie` once stripped passes |
| `Chatbot.TriggerOnlyIsTrigger` | Artistic_chatbot.py:278 | every text discarded as a bare trigger word would have been classified as a trigger |
| `Chatbot.Pad` | Artistic_chatbot.py:240 | zero-padded fields have exactly their width, all digits |
| `Chatbot.PadParse` | Artistic_chatbot.py:240 | a padded field reads back as its number |
| `Chatbot.Stamp` | Artistic_chatbot.py:240 | the `%Y%m%d_%H%M%S` stamp has 15 characters, all digits except `_` at position 8 |
| `Chatbot.LogFileName` | Artistic_chatbot.py:241 | the name has 25 characters, starts with `chat_` and ends with `.json` |
| `Chatbot.LogFilePath` | Artistic_chatbot.py:242 | the path ends with the file name |
| `Chatbot.LogFileNameLayout` | Artistic_chatbot.py:240-241 | the name is `chat_`, date, `_`, time, `.json`, with each field at a fixed position |
| `Chatbot.LogFileNameRoundTrip` | Artistic_chatbot.py:240-241 | the name has 25 characters, and the time reads back from it |
| `Chatbot.LogFileNamesDistinct` | Artistic_chatbot.py:240-241 | different times give different file names |
| `Chatbot.LogFileInDir` | Artistic_chatbot.py:242 | the log file sits directly inside the log directory under its own name |

## Left out

- Directory listing and file reading (rag/database.py:31-42) are a given list of entries in listing order. A read failure is `content = None`, and its printed message is dropped.
- Model loading by name (`SentenceTransformer`, `CrossEncoder`, `OpenAI(api_key=...)`) is replaced by given function values. The constructors therefore take models, not model names.
- The CUDA branch of `add_documents` (rag/database.py:87-90) is dead code, because the device is fixed to `"cpu"`.
- Floating point is out of scope. Distances and scores are `real`, so float32 rounding, infinities and NaN are not modelled. The padding distance is the largest float32 value.
- FlatIndex.FlatL2Index.Search: ties between equal distances are ordered by id, whereas FAISS does not document an order for exact ties.
- FlatIndex.FlatL2Index.Search: requires `k > 0`, because FAISS refuses `k <= 0` with an error that is not modelled.
- RagDatabase.PolishRagSystem.Search: requires `0 < top_k` for the same reason, and so does `RagDatabase.PolishRagSystem.SearchSpec`; a call with `top_k <= 0`, which raises in FAISS (rag/database.py:102), is not modelled.
- RagDatabase.PolishRagSystem.AddDocuments: an empty batch is accepted. When no dimension is known yet the model takes it from the encoder, and when the index exists the model adds nothing to it. The library's empty result array may have no second axis, so the source may raise at either step instead: at `embeddings.shape[1]` (rag/database.py:84) or inside the index's `add` (line 94). The unused default `metadata_list` is computed and ignored, as in the source.
- RagDatabase.PolishRagSystem.constructor: a data folder that yields no chunk passes an empty batch to `add_documents` (rag/database.py:49), so the source constructor may fail at line 84, whereas the model's constructor promises an empty, fresh index.
- The `print` calls in `_prepare_context`, `get_response` and the constructor are not modelled.
- `response.choices[0].message.content` being `None` is not modelled. An answered completion carries a string.
- ArtExpert.PolishArtExpertRag.GetResponse: history entries are `(role, content)` messages rather than arbitrary dictionaries.
- Chatbot.LowerChar: covers ASCII, Latin-1 and Latin Extended-A, which include all Polish letters. U+0130 and characters outside these blocks keep their case, whereas Python lowers them.
- Chatbot.ValidDateTime: years below 1000 are excluded, because `%Y` padding below 1000 depends on the platform.
- Recognition failures in `listen_for_trigger` (the `(None, None)` returns, Artistic_chatbot.py:207-212) are I/O and are not modelled. `Classify` starts from recognised text.
- ArtExpert.PolishArtExpertRag: the retrieval system is modelled as a `RagDatabase.PolishRagSystem`, the class its constructor is written against. The application itself passes `RAG.quickstart(txt_dir)` from the `RETRIEVAL_POLISH` module (Artistic_chatbot.py:167, 177-178). That module is not part of this model, and its search results need not carry a `filename`, so `SourcesAreFileNames` says nothing about it.
- Python's default arguments are explicit parameters in the model: `data_folder=None`, `chunk_max_size=5000` and `chunk_overlap=200` of the `PolishRAGSystem` constructor, `top_k=5` and `include_metadata=True` of `search`, `top_k=3` of `rerank`, `model="gpt-4o-mini"` and `max_context_length=40000` of the `PolishArtExpertRAG` constructor, `num_results=3` and `token_limit=10000` of `_prepare_context`, `temperature=0.7` of `get_response`, and `log_dir="logs"` of `save_log_entry_to_file`. A call that relies on a default is modelled by passing that value, so no behaviour is lost.
- Speech recognition, text-to-speech, audio playback, the main loop, sleeps, random prompt choice and `choose_system_prompt` (Artistic_chatbot.py:1-190, 214-230, 253-271, 282-315) are I/O and orchestration. They are left out.
- The directory creation and JSON writing in `save_log_entry_to_file` are left out. Only the file name and path are modelled.
- processing/better_pdf_to_txt.py is not part of this model: it is a PDF-to-text script with no logic of its own.
