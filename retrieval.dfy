/**
 * Answering a query. The vector store returns its nearest chunks as three
 * aligned lists: ids, documents and metadata. When a lexical (BM25) index
 * has been built, those lists are re-ordered by the hybrid ranking. Only
 * fused ids that the vector store returned are kept, and each surviving
 * entry is turned into one hit.
 */
module Retrieval {
  import opened Prelude
  import opened Search

  /** A hit's metadata as stored by the vector index; a key the record lacks is `None`. */
  datatype Meta = Meta(episodeId: Option<string>, start: Option<real>, end: Option<real>)

  /** `{"id": ..., "document": ..., "metadata": ...}`. */
  datatype Hit = Hit(id: string, document: string, metadata: Meta)

  /** `range(n)`. */
  function Indices(n: nat): (r: seq<nat>)
    ensures |r| == n && forall i | 0 <= i < n :: r[i] == i
  {
    seq(n, i requires 0 <= i < n => i as nat)
  }

  /** `{id_: i for i, id_ in enumerate(ids)}`. */
  function PositionMap(ids: seq<string>): Dict<nat> {
    DictFrom(ids, Indices(|ids|))
  }

  /** The position map holds exactly the ids, each mapped to its last position. */
  lemma PositionMapFacts(ids: seq<string>)
    ensures PositionMap(ids).Valid()
    ensures forall x :: x in PositionMap(ids).values <==> x in ids
    ensures forall x | x in PositionMap(ids).values :: PositionMap(ids).values[x] == LastIndexOf(ids, x)
  {
    DictFromValid(ids, Indices(|ids|));
    DictFromKeys(ids, Indices(|ids|));
    forall x | x in PositionMap(ids).values
      ensures PositionMap(ids).values[x] == LastIndexOf(ids, x)
    {
      var i := LastIndexOf(ids, x);
      DictFromValue(ids, Indices(|ids|), i);
    }
  }

  /** `[r for r in ranked if r in ids]`. */
  function KeepIn(ranked: seq<string>, ids: seq<string>): seq<string> {
    if ranked == [] then []
    else (if ranked[0] in ids then [ranked[0]] else []) + KeepIn(ranked[1..], ids)
  }

  /** The kept ids are the ranked ids that are among `ids`, in ranked order. */
  lemma {:induction false} KeepInFacts(ranked: seq<string>, ids: seq<string>)
    ensures forall x :: x in KeepIn(ranked, ids) <==> x in ranked && x in ids
    ensures Distinct(ranked) ==> Distinct(KeepIn(ranked, ids))
    ensures |KeepIn(ranked, ids)| <= |ranked|
  {
    if ranked != [] {
      var r := ranked[1..];
      KeepInFacts(r, ids);
      assert ranked == [ranked[0]] + r;
      if Distinct(ranked) {
        assert Distinct(r) by {
          forall i, j | 0 <= i < j < |r| ensures r[i] != r[j] {
            assert r[i] == ranked[i + 1] && r[j] == ranked[j + 1];
          }
        }
        assert ranked[0] !in r;
        DistinctConcat(if ranked[0] in ids then [ranked[0]] else [], KeepIn(r, ids));
      }
    }
  }

  /** `[idx[r] for r in ranked if r in idx]`. */
  function RejoinOrder(ranked: seq<string>, idx: Dict<nat>): seq<nat> {
    if ranked == [] then []
    else (if ranked[0] in idx.values then [idx.values[ranked[0]]] else []) + RejoinOrder(ranked[1..], idx)
  }

  /**
   * Looking the ranked ids up in the position map of `ids` gives positions
   * within `ids`, and the entries of `ids` at those positions are the kept
   * ranked ids, in ranked order.
   */
  lemma {:induction false} RejoinOrderIds(ranked: seq<string>, ids: seq<string>)
    ensures |RejoinOrder(ranked, PositionMap(ids))| == |KeepIn(ranked, ids)|
    ensures forall j | 0 <= j < |RejoinOrder(ranked, PositionMap(ids))| ::
      RejoinOrder(ranked, PositionMap(ids))[j] < |ids| &&
      ids[RejoinOrder(ranked, PositionMap(ids))[j]] == KeepIn(ranked, ids)[j]
  {
    PositionMapFacts(ids);
    if ranked != [] {
      RejoinOrderIds(ranked[1..], ids);
      var idx := PositionMap(ids);
      var head := if ranked[0] in idx.values then [idx.values[ranked[0]]] else [];
      var keep := if ranked[0] in ids then [ranked[0]] else [];
      var o, k := RejoinOrder(ranked[1..], idx), KeepIn(ranked[1..], ids);
      assert RejoinOrder(ranked, idx) == head + o;
      assert KeepIn(ranked, ids) == keep + k;
      assert |head| == |keep|;
      forall j | 0 <= j < |head + o|
        ensures (head + o)[j] < |ids| && ids[(head + o)[j]] == (keep + k)[j]
      {
        if j >= |head| {
          assert (head + o)[j] == o[j - |head|] && (keep + k)[j] == k[j - |keep|];
        }
      }
    }
  }

  /** The order is empty exactly when no ranked id is among `ids`. */
  lemma {:induction false} RejoinOrderEmpty(ranked: seq<string>, ids: seq<string>)
    ensures RejoinOrder(ranked, PositionMap(ids)) == [] <==> forall r | r in ranked :: r !in ids
  {
    RejoinOrderIds(ranked, ids);
    KeepInFacts(ranked, ids);
    if KeepIn(ranked, ids) != [] {
      assert KeepIn(ranked, ids)[0] in KeepIn(ranked, ids);
    }
  }

  /** Distinct ranked ids give distinct positions. */
  lemma RejoinOrderDistinct(ranked: seq<string>, ids: seq<string>)
    requires Distinct(ranked)
    ensures Distinct(RejoinOrder(ranked, PositionMap(ids)))
  {
    RejoinOrderIds(ranked, ids);
    KeepInFacts(ranked, ids);
    var o, k := RejoinOrder(ranked, PositionMap(ids)), KeepIn(ranked, ids);
    forall a, b | 0 <= a < b < |o| ensures o[a] != o[b] {
      assert ids[o[a]] == k[a] && ids[o[b]] == k[b];
    }
  }

  /** `[s[i] for i in order]`. */
  function Pick<T>(s: seq<T>, order: seq<nat>): (r: seq<T>)
    requires forall j | 0 <= j < |order| :: order[j] < |s|
    ensures |r| == |order|
  {
    seq(|order|, j requires 0 <= j < |order| => s[order[j]])
  }

  /** `[{"id": ids[i], "document": docs[i], "metadata": metas[i]} for i in range(len(ids))]`. */
  function MakeHits(ids: seq<string>, docs: seq<string>, metas: seq<Meta>): (hits: seq<Hit>)
    requires |ids| <= |docs| && |ids| <= |metas|
    ensures |hits| == |ids|
  {
    seq(|ids|, i requires 0 <= i < |ids| => Hit(ids[i], docs[i], metas[i]))
  }

  /** Every corpus position has a lexical rank: the argsort order covers the corpus. */
  predicate Covered(bm25Order: Option<seq<nat>>, corpusIds: Option<seq<string>>) {
    bm25Order.Some? && corpusIds.Some? ==> forall i | 0 <= i < |corpusIds.value| :: i in bm25Order.value
  }

  /** `bm25 and corpus_ids and ids`: a lexical index exists, the corpus is non-empty, and the vector store found something. */
  predicate Reorders(bm25Order: Option<seq<nat>>, corpusIds: Option<seq<string>>, ids: seq<string>) {
    bm25Order.Some? && corpusIds.Some? && corpusIds.value != [] && ids != []
  }

  /** The fused ranking `hybrid_rank` returns for the query. */
  function Ranked(ids: seq<string>, bm25Order: Option<seq<nat>>, corpusIds: Option<seq<string>>, topK: nat): seq<string>
    requires Covered(bm25Order, corpusIds) && Reorders(bm25Order, corpusIds, ids)
  {
    HybridRank(ids, corpusIds.value, bm25Order.value, topK)
  }

  /** `order`: the positions in `ids` of the fused ids the vector store returned. */
  function HitOrder(ids: seq<string>, bm25Order: Option<seq<nat>>, corpusIds: Option<seq<string>>, topK: nat): seq<nat>
    requires Covered(bm25Order, corpusIds) && Reorders(bm25Order, corpusIds, ids)
  {
    RejoinOrder(Ranked(ids, bm25Order, corpusIds, topK), PositionMap(ids))
  }

  /**
   * The hits of a query. `bm25Order` is `None` when no lexical index has
   * been built, and otherwise the argsort of the lexical scores for this
   * query; `corpusIds` is `None` when no corpus ids are stored.
   */
  function Retrieve(ids: seq<string>, docs: seq<string>, metas: seq<Meta>,
                    bm25Order: Option<seq<nat>>, corpusIds: Option<seq<string>>, topK: nat): (hits: seq<Hit>)
    requires |ids| <= |docs| && |ids| <= |metas|
    requires Covered(bm25Order, corpusIds)
    ensures hits == [] <==> ids == []
    ensures forall p | 0 <= p < |hits| :: hits[p].id in ids
  {
    if Reorders(bm25Order, corpusIds, ids) && HitOrder(ids, bm25Order, corpusIds, topK) != [] then
      var order := HitOrder(ids, bm25Order, corpusIds, topK);
      RejoinOrderIds(Ranked(ids, bm25Order, corpusIds, topK), ids);
      var hits := MakeHits(Pick(ids, order), Pick(docs, order), Pick(metas, order));
      assert forall p | 0 <= p < |hits| :: hits[p].id == ids[order[p]];
      hits
    else
      MakeHits(ids, docs, metas)
  }

  /** The positions in the vector store's lists that the hits come from, in hit order. */
  function HitPositions(ids: seq<string>, bm25Order: Option<seq<nat>>, corpusIds: Option<seq<string>>, topK: nat): seq<nat>
    requires Covered(bm25Order, corpusIds)
  {
    if Reorders(bm25Order, corpusIds, ids) && HitOrder(ids, bm25Order, corpusIds, topK) != [] then
      HitOrder(ids, bm25Order, corpusIds, topK)
    else Indices(|ids|)
  }

  /** Without a lexical index, a stored corpus or any vector result, the hits are the vector results in store order. */
  lemma RetrieveFallback(ids: seq<string>, docs: seq<string>, metas: seq<Meta>,
                         bm25Order: Option<seq<nat>>, corpusIds: Option<seq<string>>, topK: nat)
    requires |ids| <= |docs| && |ids| <= |metas|
    requires Covered(bm25Order, corpusIds)
    requires bm25Order.None? || corpusIds.None? || corpusIds.value == [] || ids == []
    ensures |Retrieve(ids, docs, metas, bm25Order, corpusIds, topK)| == |ids|
    ensures forall i | 0 <= i < |ids| :: Retrieve(ids, docs, metas, bm25Order, corpusIds, topK)[i] == Hit(ids[i], docs[i], metas[i])
  {
  }

  /** When no fused id is among the vector results, the vector results are kept unchanged. */
  lemma RetrieveUnmatched(ids: seq<string>, docs: seq<string>, metas: seq<Meta>,
                          bm25Order: Option<seq<nat>>, corpusIds: Option<seq<string>>, topK: nat)
    requires |ids| <= |docs| && |ids| <= |metas|
    requires Covered(bm25Order, corpusIds) && Reorders(bm25Order, corpusIds, ids)
    requires forall r | r in Ranked(ids, bm25Order, corpusIds, topK) :: r !in ids
    ensures |Retrieve(ids, docs, metas, bm25Order, corpusIds, topK)| == |ids|
    ensures forall i | 0 <= i < |ids| :: Retrieve(ids, docs, metas, bm25Order, corpusIds, topK)[i] == Hit(ids[i], docs[i], metas[i])
  {
    RejoinOrderEmpty(Ranked(ids, bm25Order, corpusIds, topK), ids);
  }

  /**
   * Each hit pairs an id with the document and the metadata at the same
   * position of the vector store's lists. No position is used twice, so
   * there are never more hits than vector results.
   */
  lemma RetrieveAligned(ids: seq<string>, docs: seq<string>, metas: seq<Meta>,
                        bm25Order: Option<seq<nat>>, corpusIds: Option<seq<string>>, topK: nat)
    requires |ids| <= |docs| && |ids| <= |metas|
    requires Covered(bm25Order, corpusIds)
    ensures |Retrieve(ids, docs, metas, bm25Order, corpusIds, topK)| == |HitPositions(ids, bm25Order, corpusIds, topK)| <= |ids|
    ensures Distinct(HitPositions(ids, bm25Order, corpusIds, topK))
    ensures forall p | 0 <= p < |HitPositions(ids, bm25Order, corpusIds, topK)| ::
      var i := HitPositions(ids, bm25Order, corpusIds, topK)[p];
      i < |ids| && Retrieve(ids, docs, metas, bm25Order, corpusIds, topK)[p] == Hit(ids[i], docs[i], metas[i])
  {
    var pos := HitPositions(ids, bm25Order, corpusIds, topK);
    if Reorders(bm25Order, corpusIds, ids) {
      var ranked := Ranked(ids, bm25Order, corpusIds, topK);
      RejoinOrderIds(ranked, ids);
      HybridRankResult(ids, corpusIds.value, bm25Order.value, topK);
      RejoinOrderDistinct(ranked, ids);
    }
    DistinctBelow(pos, |ids|);
  }

  /**
   * After re-ordering, the hit ids are the fused ids that the vector store
   * returned, in fused order; lexical-only ids are dropped.
   */
  lemma RetrieveIds(ids: seq<string>, docs: seq<string>, metas: seq<Meta>,
                    bm25Order: Option<seq<nat>>, corpusIds: Option<seq<string>>, topK: nat)
    requires |ids| <= |docs| && |ids| <= |metas|
    requires Covered(bm25Order, corpusIds) && Reorders(bm25Order, corpusIds, ids)
    requires exists r | r in Ranked(ids, bm25Order, corpusIds, topK) :: r in ids
    ensures |Retrieve(ids, docs, metas, bm25Order, corpusIds, topK)| == |KeepIn(Ranked(ids, bm25Order, corpusIds, topK), ids)|
    ensures forall p | 0 <= p < |Retrieve(ids, docs, metas, bm25Order, corpusIds, topK)| ::
      Retrieve(ids, docs, metas, bm25Order, corpusIds, topK)[p].id == KeepIn(Ranked(ids, bm25Order, corpusIds, topK), ids)[p]
  {
    var ranked := Ranked(ids, bm25Order, corpusIds, topK);
    RejoinOrderEmpty(ranked, ids);
    RejoinOrderIds(ranked, ids);
  }
}
