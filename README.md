# Podcast RAG: retrieval core in Dafny

This project models the retrieval core of a podcast search application and proves properties of that model. The application transcribes uploaded episodes, cuts each transcript into overlapping time windows ("chunks"), and indexes the chunks twice: in a vector store and in a lexical BM25 index. It answers a query by fusing the two rankings with reciprocal rank fusion (RRF) and re-joining the fused order with the vector store's hits. It then formats the hits as prompt context, or as a fallback summary when no language model is available.

Modules, one file each:

- `prelude.dfy` (`Prelude`): an option type, and sequence helpers (distinctness, first and last index, `s[:n]`, a pigeonhole lemma).
- `strings.dfy` (`Strings`): Python's `str.isspace`, `str.strip`, `sep.join`, single-character `str.split` and `str(n)` for `n >= 0`, with their round trips.
- `utils.dfy` (`Utils`): the `mmss` time-code renderer.
- `chunking.dfy` (`Chunking`): `chunk_by_time`, as a flattening loop and a sliding-window loop (imperative methods) proved against a specification function `Chunked`.
- `sorting.dfy` (`Sorting`): Python's stable `sorted(..., reverse=True)` by score, as an insertion sort.
- `search.dfy` (`Search`):
  - Python dicts with insertion order;
  - the rank dictionaries of the vector and the BM25 results;
  - `reciprocal_rank_fusion` as the source's nested loop, proved against a specification function (`Fuse`);
  - `hybrid_rank`.
- `corpus.dfy` (`Corpus`): the chunk id scheme `"{episode_id}:{i}"` and the loop that builds the parallel corpus id and text lists during ingestion.
- `retrieval.dfy` (`Retrieval`): the re-join of the fused ranking with the vector store's ids, documents and metadata, which yields the hits.
- `generate.dfy` (`Generate`): `format_context` and the no-model fallback summary of `generate_answer`, as loops proved against specification functions.

Modelling choices:

- **Time and scores.** Timestamps and scores are exact reals.
- **Python dicts.** A dict is a key sequence (insertion order) plus a map. Writing a new key appends it; writing an existing key keeps its place.
- **BM25 ranks.** `np.argsort(-scores)` is an input sequence `order`. `IsArgsortDesc` states what any argsort result satisfies, so the tie order stays unspecified, as with numpy's default sort.
- **BM25 scoring and `:.1f`.** BM25 scoring itself is not modelled. Float rendering with `:.1f` is a function parameter `fmt`.
- **Window edges.** A window is visited at every cursor below the last word's end, and one whose stripped text is empty yields no chunk. Four words spanning 9 s, with a 5 s window and a 1 s overlap, therefore give three chunks, not two: the cursor at 8 s is still below 9 s (`Chunking.ThreeWindows`). A chunk's text is the space-joined words of its window, stripped of surrounding whitespace.

## Model

| member | source | states |
|---|---|---|
| Utils.Pad2 | rag_pipeline/utils.py:7 | `f"{n:02d}"` is all digits, reads back as `n`, is at least two characters, exactly two when `n < 100`, and has no leading zero when longer |
| Utils.MinutesSeconds | rag_pipeline/utils.py:4-6 | seconds field below 60; minutes*60 + seconds is the floor of `max(0, x)`; negative input gives (0, 0) |
| Utils.Mmss | rag_pipeline/utils.py:3-7 | `MM:SS` with a colon third from the end, both fields digits, seconds below 60, fields reading back to the floor of `max(0, x)`; five characters exactly below 6000 s, and no leading zero when longer; `"00:00"` for negative input |
| Strings.StripSlice | rag_pipeline/chunking.py:51 | `strip()` yields a slice of its input lying between an all-whitespace prefix and an all-whitespace suffix |
| Strings.StripEnds | rag_pipeline/chunking.py:51 | a non-empty stripped text neither starts nor ends with whitespace |
| Strings.StripBlank | rag_pipeline/chunking.py:51-52 | stripping yields the empty text exactly when the input is all whitespace |
| Strings.BlankJoin | rag_pipeline/chunking.py:51 | joined with a space, the text is all whitespace exactly when every part is |
| Strings.SplitJoin | rag_pipeline/generate.py:22 | splitting a newline-joined text on newlines gives back the parts when no part holds a newline |
| Strings.JoinSplit | rag_pipeline/generate.py:22 | joining the pieces of a split on the same separator gives back the text |
| Strings.ParseNatToString | app.py:70 | the decimal rendering of `i` reads back as `i` |
| Strings.NatToStringInjective | app.py:70 | different chunk positions render differently |
| Chunking.SegmentWords | rag_pipeline/chunking.py:13-35 | a segment contributes no word exactly when its shape is unrecognised (otherwise its word list, or itself as one word) |
| Chunking.FlattenSegments | rag_pipeline/chunking.py:11-35 | the segment loop yields `Flatten(segments)` |
| Chunking.FlattenConcat | rag_pipeline/chunking.py:13-35 | flattening distributes over concatenation of segment lists |
| Chunking.FlattenEmpty | rag_pipeline/chunking.py:37-38 | there are no words exactly when no segment is recognised |
| Chunking.WindowWordsMembers | rag_pipeline/chunking.py:47-50 | a word is in a window's list exactly when it is a word and `start < cur_end and end > cur_start` |
| Chunking.WindowTextEmpty | rag_pipeline/chunking.py:51-52 | a window's stripped text is empty exactly when every word overlapping the window is all whitespace |
| Chunking.Cursors | rag_pipeline/chunking.py:43-58 | the loop's cursors start at `tmin`, grow by `window - overlap`, stay below `tmax`, and the next would reach `tmax` |
| Chunking.SlideCursors | rag_pipeline/chunking.py:45-58 | the loop's output is what the body appends at each cursor, in cursor order |
| Chunking.EmittedMembers | rag_pipeline/chunking.py:45-58 | a chunk is emitted exactly when the body yields it at one of the cursors |
| Chunking.WindowStep | rag_pipeline/chunking.py:46-57 | one round of the loop body yields the window's chunk at the cursor (`WindowChunk`: the stripped text of the overlapping words, its bounds clamped to `[tmin, tmax]`, nothing when that text is empty) |
| Chunking.SlideWindow | rag_pipeline/chunking.py:43-58 | the `while` loop, from `cur_start = tmin`, yields the specified sliding-window output |
| Chunking.ChunkByTime | rag_pipeline/chunking.py:3-60 | `chunk_by_time` equals `Chunked`: `[]` without words, `NoProgress` exactly where the source loops forever, else the sliding-window chunks |
| Chunking.Chunked | rag_pipeline/chunking.py:3-60 | the specification of `chunk_by_time`: it always finishes when the overlap is below the window, and it makes no progress only on a non-empty transcript with `window <= overlap` |
| Chunking.ChunkedEmpty | rag_pipeline/chunking.py:37-38 | with no recognised segment the result is `[]` |
| Chunking.ChunksWellFormed | rag_pipeline/chunking.py:45-58 | every chunk starts in `[tmin, tmax)` (first word's start, last word's end) and ends at `min(start + window, tmax)`, after its start; its text is its window's stripped text, non-empty with no whitespace at either end; its window holds a word with non-blank text |
| Chunking.ChunksIncreasing | rag_pipeline/chunking.py:45-58 | chunk starts strictly increase along the output |
| Chunking.WordCovered | rag_pipeline/chunking.py:45-58 | with `0 <= overlap < window`, every non-blank word of positive duration starting in `[tmin, tmax)` overlaps the window of some chunk |
| Chunking.LoopCursors | rag_pipeline/chunking.py:43-58 | with a positive step, the cursors the loop visits are its cursor after 0, 1, 2, ... rounds of `cur_start = cur_end - overlap`, up to the first round that reaches `tmax` |
| Chunking.CursorAfterLinear | rag_pipeline/chunking.py:58 | after `n` rounds the cursor is `tmin + n * (window - overlap)` |
| Chunking.EqualOverlapNeverEnds | rag_pipeline/chunking.py:45-58 | with `window == overlap`, the loop's own update leaves the cursor at `tmin` after any number of rounds, so `cur_start < tmax` never fails |
| Chunking.SlidersAdmitNoProgress | app.py:24-25 | the sliders allow window 20 s with overlap 20 s, and chunking a one-word transcript then makes no progress |
| Chunking.GuardedSettingsFinish | app.py:24-25 | with the slider ranges and the overlap below the window, chunking always finishes and every chunk is well formed |
| Chunking.ThreeWindows | rag_pipeline/chunking.py:40-58 | words 0-1, 1-2, 2-3 and 8-9 s with window 5 and overlap 1 give exactly the chunks "the cat sat" [0, 5], "down" [4, 9] and "down" [8, 9] |
| Sorting.SortDescPerm | rag_pipeline/search.py:10 | the sort returns the same items, and the same ids, counted with multiplicity |
| Sorting.SortDescSorted | rag_pipeline/search.py:10 | the output is in non-increasing score order |
| Sorting.SortDescStable | rag_pipeline/search.py:10 | items of equal score keep their input order |
| Search.PutFacts | rag_pipeline/search.py:9 | `d[x] = v` keeps the dict well formed, sets the one value, keeps a present key's place and appends a new key |
| Search.DictFromKeys | rag_pipeline/search.py:14 | a dict comprehension has exactly the comprehension's keys |
| Search.DictFromValue | rag_pipeline/search.py:14 | a key's value is the one paired with its last occurrence |
| Search.DictFromOrder | rag_pipeline/search.py:14 | with distinct keys, the dict's key order is the comprehension's order |
| Search.VectorRanksPositions | rag_pipeline/search.py:13-14 | for distinct vector ids, the rank dict has those keys in order and ranks them 1, 2, ... by position |
| Search.Bm25Rank | rag_pipeline/search.py:19 | corpus id `i` gets rank 1 + the position of `i` in the argsort order |
| Search.Bm25RanksKeys | rag_pipeline/search.py:19 | for distinct corpus ids, the BM25 rank dict has exactly the corpus ids, in corpus order |
| Search.Bm25RanksInRange | rag_pipeline/search.py:16-19 | every BM25 rank is between 1 and the corpus size |
| Search.Bm25RanksOnto | rag_pipeline/search.py:16-19 | the document at argsort position `j` gets rank `j + 1`, so every rank is used |
| Search.Bm25RanksInjective | rag_pipeline/search.py:16-19 | different corpus ids get different ranks (so the ranks are a permutation of 1..n) |
| Search.Bm25RanksFollowScores | rag_pipeline/search.py:16-19 | a strictly higher BM25 score gives a strictly smaller rank |
| Search.AddRanksKeys | rag_pipeline/search.py:8-9 | the inner loop adds the ranked ids not yet fused, at the end, in ranking order |
| Search.AddRanksGet | rag_pipeline/search.py:8-9 | the inner loop adds `1/(k + rank)` to each ranked id's score and leaves other scores alone |
| Search.FuseDictKeys | rag_pipeline/search.py:6-9 | the fused dict's key order is the order of first appearance across the rankings |
| Search.FuseDictScore | rag_pipeline/search.py:6-9 | each fused score is the sum over rankings of `1/(k + rank)` where the id is ranked |
| Search.FusedKeysMembers | rag_pipeline/search.py:6-9 | the fused keys have no repeats and are exactly the ids ranked by some list |
| Search.ItemsPairs | rag_pipeline/search.py:10 | `fused.items()` lists the keys in order, each with its value |
| Search.AddRanksInto | rag_pipeline/search.py:8-9 | the inner `for doc_id, rank in ranks.items()` loop yields the specified accumulation |
| Search.ReciprocalRankFusion | rag_pipeline/search.py:5-10 | the nested loop followed by the sort yields `Fuse(lists, k)` |
| Search.Fuse | rag_pipeline/search.py:5-10 | the specification of `reciprocal_rank_fusion`: the fused dict's items stably sorted by descending score, one item per fused key |
| Search.FuseScores | rag_pipeline/search.py:5-10 | each output pair carries its id's RRF score |
| Search.FuseIdsPerm | rag_pipeline/search.py:5-10 | the output ids are a permutation of the fused keys |
| Search.FuseIds | rag_pipeline/search.py:5-10 | the output ids have no repeats and are exactly the ids ranked by some list |
| Search.FuseSorted | rag_pipeline/search.py:10 | the output is in non-increasing score order |
| Search.FuseTies | rag_pipeline/search.py:10 | ids with equal scores come out in order of first appearance across the rankings |
| Search.FuseAllTied | rag_pipeline/search.py:10 | when all scores tie, the output order is the first-appearance order |
| Search.TopScore | rag_pipeline/search.py:9 | an id ranked first everywhere scores `n / (k + 1)` |
| Search.ScoreDominated | rag_pipeline/search.py:9 | an id contributing less in every ranking scores strictly less |
| Search.TopRankedFirst | rag_pipeline/search.py:5-10 | an id ranked first in every ranking scores strictly highest and comes out first |
| Search.FusePair | rag_pipeline/search.py:21 | fusing two rankings: keys are the first list's then the second's new ones; the score is the sum of both contributions |
| Search.HybridRank | rag_pipeline/search.py:12-22 | the specification of `hybrid_rank`: the first `top_k` ids of the fusion of the vector ranks and the BM25 ranks with `k = 60`; at most `top_k` ids, each from one of the two rankings |
| Search.HybridKeys | rag_pipeline/search.py:13-21 | for distinct lists, the fused key order is the vector ids, then the corpus ids not among them, in corpus order |
| Search.HybridMembers | rag_pipeline/search.py:12-22 | the fused ids have no repeats and are exactly the union of vector and corpus ids |
| Search.HybridRankResult | rag_pipeline/search.py:12-22 | `hybrid_rank` returns `min(top_k, #union)` distinct ids, a prefix of the fused order, each from one of the two lists |
| Search.HybridTopFirst | rag_pipeline/search.py:12-22 | when the top vector hit is also the top BM25 hit, it comes first |
| Search.MirroredTie | rag_pipeline/search.py:5-10 | fusing the vector rankings [x, y] and [y, x] gives [x, y]: the tie keeps the first ranking's order |
| Search.MirroredFusion | rag_pipeline/search.py:5-10 | for any two mirrored two-id rankings, both ids score 1/61 + 1/62 and the output is [x, y] |
| Corpus.DocId | rag_pipeline/index.py:30 | `f"{episode_id}:{i}"`: the episode id, a colon, then digits that read back as `i`, with no leading zero when there are two or more |
| Corpus.DocIdInjective | rag_pipeline/index.py:30 | `f"{ep_id}:{i}"` identifies the episode and the position, even when the episode id holds colons |
| Corpus.BuildCorpus | app.py:69-72 | the ingestion loop yields `CorpusIds(episodes)` and `CorpusTexts(episodes)` |
| Corpus.CorpusConcat | app.py:49-72 | within one ingestion run, splitting the uploaded file list in two gives the first part's ids, texts and chunk count followed by the second part's |
| Corpus.CorpusLengths | app.py:69-72 | ids and texts stay in lockstep, one entry per chunk |
| Corpus.CorpusBlock | app.py:69-72 | each episode occupies one contiguous block holding exactly the ids and the documents the vector index stores for it (rag_pipeline/index.py:30-31) |
| Corpus.CorpusEntry | app.py:70-72 | the entry at offset (chunks before episode `e`) + `i` pairs id `"{ep_id}:{i}"` with chunk `i`'s text |
| Corpus.CorpusIdsDistinct | app.py:53-72 | with distinct episode ids, no corpus id repeats |
| Corpus.CorpusIdsRepeat | app.py:53-72 | two episodes with the same id and some chunks give repeated corpus ids |
| Retrieval.PositionMapFacts | app.py:106 | `id_to_idx` holds exactly the vector ids, each mapped to its last position |
| Retrieval.KeepInFacts | app.py:107 | the kept ids are the ranked ids found among the vector ids, without repeats when the ranking has none |
| Retrieval.RejoinOrderIds | app.py:106-107 | `order` lists positions within the vector lists, and the ids there are the kept ranked ids, in ranked order |
| Retrieval.RejoinOrderEmpty | app.py:107-108 | `order` is empty exactly when no ranked id is among the vector ids |
| Retrieval.RejoinOrderDistinct | app.py:106-107 | distinct ranked ids give distinct positions |
| Retrieval.Retrieve | app.py:102-113 | the hits of a query: re-ordered by the fused ranking when a BM25 model, stored corpus ids and vector results all exist and some fused id is among the vector results, else the vector results as they are; never empty unless the vector results are, and every hit id is a vector result id |
| Retrieval.RetrieveFallback | app.py:102-113 | when there is no BM25 model, no stored corpus ids, an empty corpus or no vector results, the hits are the vector results in store order, one per id |
| Retrieval.RetrieveUnmatched | app.py:108-113 | when no fused id is among the vector results, the hits are the vector results unchanged |
| Retrieval.RetrieveAligned | app.py:109-113 | each hit takes id, document and metadata from one position of the vector lists; no position is used twice; there are never more hits than vector results |
| Retrieval.RetrieveIds | app.py:105-113 | after re-ordering, the hit ids are the fused ids that the vector store returned, in fused order; BM25-only ids are dropped |
| Generate.ContextLine | rag_pipeline/generate.py:18-21 | a context line is, field by field: `[`, the episode id, a space, the rendered start, `-`, the rendered end, `] `, the document; its length is the sum of those parts |
| Generate.ContextLineDefaults | rag_pipeline/generate.py:18-20 | each missing key takes its own default whatever the others hold: the line opens with `[episode ` without an episode id, and the start or end field is `fmt(0.0)` without a start or end |
| Generate.FormatContext | rag_pipeline/generate.py:15-22 | the loop builds one line per hit; the result joins the first ten with newlines |
| Generate.ContextLinesBack | rag_pipeline/generate.py:15-22 | with at least one hit and single-line hit texts, the context reads back as exactly `min(#hits, 10)` lines, one per hit, in order |
| Generate.Bullet | rag_pipeline/generate.py:58-60 | a bullet is, field by field: `- `, the episode id, ` @ `, the rendered start, `s: `, the first 200 characters of the document, `...`; its length is the sum of those parts |
| Generate.BulletDefaults | rag_pipeline/generate.py:58-59 | without an episode id the bullet opens with `- episode @`; without a start its start field is `fmt(0.0)`, whatever the other keys hold |
| Generate.FallbackSummary | rag_pipeline/generate.py:56-63 | the loop over the first five hits yields the specified summary |
| Generate.SummaryEmpty | rag_pipeline/generate.py:61-62 | the "couldn't find" answer is given exactly when there are no hits |
| Generate.SummaryLines | rag_pipeline/generate.py:57-63 | with single-line hit texts, the summary reads back as the preamble line and then `min(#hits, 5)` bullets, one per hit, in order |

## Left out

- Transcription, diarization, embedding, persistence and the vector store's nearest-neighbour search are external libraries and are not modelled. Chunks, episode ids and the vector store's result lists are inputs.
- BM25 scoring and query tokenisation are library code. The model's input is the argsort order of the scores.
- The language-model branches of `generate_answer` (network clients, environment lookups) and the prompt template are left out.
- The Streamlit user interface, file writes, timing and session-state bookkeeping are left out. Only the two chunking sliders' ranges appear, in the finding below.
- Each ingestion run rebuilds the corpus lists from empty and replaces the stored BM25 model and corpus ids (app.py:45-46, 80-82), while the vector store keeps every run's chunks. The model covers one run's corpus. Vector hits from earlier runs still enter the fusion through their vector ranks, but they get no BM25 rank.
- `hash_file` and `ensure_dir` do file I/O and are left out. An episode id is an input string.
- Floating point: times and scores are exact reals. Float rounding can create or break score ties that the model does not have.
- `:.1f` float formatting is an uninterpreted parameter `fmt`.
- `IsSpace` covers Python's whitespace for the characters listed. Other Unicode categories and encodings are not modelled.
- Chunk metadata beyond episode id, start and end (file name, diarization flag) is not read by the modelled code and is left out.
- Python duck typing in `chunk_by_time` is modelled by a `Segment` datatype with an `Unrecognised` case. A dict segment missing `text`, `start` or `end` raises `KeyError` in the source and is not modelled.
- Search.ReciprocalRankFusion: `k` is a natural number. A negative `k` that makes `k + rank` zero would raise in the source and is not modelled.
- Search.HybridRankResult: `top_k` is a natural number; negative slice bounds are not modelled.
- Chunking.ChunksWellFormed: stated for a positive window only. With a non-positive window a chunk may end before it starts.
- Chunking.WordCovered: stated for `0 <= overlap < window` and for words of positive duration starting before the last word's end.
- Corpus.CorpusIdsDistinct: needs distinct episode ids. `Corpus.CorpusIdsRepeat` shows what happens otherwise.
- Generate.ContextLinesBack: the read-back needs at least one hit, because an empty context splits into one empty line, and it needs hit texts without newlines.
- Generate.SummaryLines: the read-back holds only when no hit's text contains a newline.
- Retrieval.Retrieve: the vector store's documents and metadata lists must be at least as long as its ids. When a BM25 model is stored, the argsort order must cover every corpus position. Otherwise the source raises `IndexError`.

## Findings

| source | as written | input that shows it | evidently intended | confidence | as-written member | corrected member |
|---|---|---|---|---|---|---|
| app.py:24-25 | The window slider starts at 20 s and the overlap slider reaches 20 s, so window == overlap can be chosen. `chunk_by_time` then never advances its cursor (rag_pipeline/chunking.py:58) and loops forever. | window 20, overlap 20, one segment from 0 s to 1 s | the overlap kept below the window, so that every choice finishes | not executed; medium | Chunking.SlidersAdmitNoProgress | Chunking.GuardedSettingsFinish |
