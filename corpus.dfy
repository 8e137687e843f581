/**
 * Ingestion bookkeeping. Every chunk of every episode gets the id
 * `"{episode_id}:{i}"`, where `i` is the chunk's position in its episode.
 * The vector index stores its chunks under these ids. Ingestion also keeps
 * two parallel lists, the corpus ids and the corpus texts, to build the
 * lexical (BM25) index.
 */
module Corpus {
  import opened Prelude
  import opened Strings
  import opened Chunking

  /** An ingested episode: its id (file name and content hash) and the chunks of its transcript. */
  datatype Episode = Episode(id: string, chunks: seq<Chunk>)

  /**
   * `f"{episode_id}:{i}"`: the episode id, then a colon, then the digits of
   * `str(i)` (no leading zero), so the last colon splits an id into its two parts.
   */
  function DocId(episodeId: string, i: nat): (id: string)
    ensures |id| > |episodeId| + 1
    ensures id[..|episodeId|] == episodeId && id[|episodeId|] == ':'
    ensures IsDigits(id[|episodeId| + 1..]) && ParseNat(id[|episodeId| + 1..]) == i
    ensures |id| > |episodeId| + 2 ==> id[|episodeId| + 1] != '0'
  {
    var id := episodeId + ":" + NatToString(i);
    ParseNatToString(i);
    assert id[..|episodeId|] == episodeId && id[|episodeId| + 1..] == NatToString(i);
    assert id[|episodeId| + 1] == NatToString(i)[0];
    id
  }

  /** A rendered number holds no colon, so the last colon of an id separates its two parts. */
  lemma NoColon(n: nat)
    ensures ':' !in NatToString(n)
  {
    var s := NatToString(n);
    assert forall k | 0 <= k < |s| :: IsDigit(s[k]);
  }

  /** Ids of different chunks differ, even when an episode id itself holds colons. */
  lemma DocIdInjective(a: string, i: nat, b: string, j: nat)
    ensures DocId(a, i) == DocId(b, j) <==> a == b && i == j
  {
    if DocId(a, i) == DocId(b, j) {
      var s := DocId(a, i);
      NoColon(i);
      NoColon(j);
      assert s[|a|] == ':' && s[|b|] == ':';
      assert a == s[..|a|] == b;
      assert NatToString(i) == s[|a| + 1..] == NatToString(j);
      NatToStringInjective(i, j);
    }
  }

  /** The ids `add_chunks` gives an episode's chunks, in chunk order. */
  function IndexIds(ep: Episode): (r: seq<string>)
    ensures |r| == |ep.chunks|
  {
    seq(|ep.chunks|, i requires 0 <= i < |ep.chunks| => DocId(ep.id, i))
  }

  /** The documents `add_chunks` stores for an episode: the chunk texts, in chunk order. */
  function IndexTexts(ep: Episode): (r: seq<string>)
    ensures |r| == |ep.chunks|
  {
    seq(|ep.chunks|, i requires 0 <= i < |ep.chunks| => ep.chunks[i].text)
  }

  /** The corpus ids after ingesting `eps` in order: each episode's index ids, one block after another. */
  function CorpusIds(eps: seq<Episode>): seq<string> {
    if eps == [] then [] else CorpusIds(eps[..|eps| - 1]) + IndexIds(eps[|eps| - 1])
  }

  /** The corpus texts after ingesting `eps` in order. */
  function CorpusTexts(eps: seq<Episode>): seq<string> {
    if eps == [] then [] else CorpusTexts(eps[..|eps| - 1]) + IndexTexts(eps[|eps| - 1])
  }

  /** The number of chunks of `eps` altogether. */
  function ChunkCount(eps: seq<Episode>): nat {
    if eps == [] then 0 else ChunkCount(eps[..|eps| - 1]) + |eps[|eps| - 1].chunks|
  }

  /** The episode ids, in order. */
  function EpisodeIds(eps: seq<Episode>): (r: seq<string>)
    ensures |r| == |eps|
  {
    seq(|eps|, e requires 0 <= e < |eps| => eps[e].id)
  }

  /**
   * The ingestion loop: for each episode and each of its chunks, append
   * the chunk's id to the corpus ids and its text to the corpus texts.
   */
  method BuildCorpus(episodes: seq<Episode>) returns (corpusIds: seq<string>, corpusTexts: seq<string>)
    ensures corpusIds == CorpusIds(episodes)
    ensures corpusTexts == CorpusTexts(episodes)
  {
    corpusIds, corpusTexts := [], [];
    for e := 0 to |episodes|
      invariant corpusIds == CorpusIds(episodes[..e])
      invariant corpusTexts == CorpusTexts(episodes[..e])
    {
      var ep := episodes[e];
      for i := 0 to |ep.chunks|
        invariant corpusIds == CorpusIds(episodes[..e]) + IndexIds(ep)[..i]
        invariant corpusTexts == CorpusTexts(episodes[..e]) + IndexTexts(ep)[..i]
      {
        var docId := DocId(ep.id, i);
        corpusIds := corpusIds + [docId];
        corpusTexts := corpusTexts + [ep.chunks[i].text];
        assert IndexIds(ep)[..i + 1] == IndexIds(ep)[..i] + [docId];
        assert IndexTexts(ep)[..i + 1] == IndexTexts(ep)[..i] + [ep.chunks[i].text];
      }
      assert episodes[..e + 1][..e] == episodes[..e];
      assert IndexIds(ep)[..|ep.chunks|] == IndexIds(ep);
      assert IndexTexts(ep)[..|ep.chunks|] == IndexTexts(ep);
    }
    assert episodes[..|episodes|] == episodes;
  }

  /**
   * Within one ingestion run, the corpus lists of a file list split in two
   * are those of the first part followed by those of the second.
   */
  lemma CorpusConcat(a: seq<Episode>, b: seq<Episode>)
    ensures CorpusIds(a + b) == CorpusIds(a) + CorpusIds(b)
    ensures CorpusTexts(a + b) == CorpusTexts(a) + CorpusTexts(b)
    ensures ChunkCount(a + b) == ChunkCount(a) + ChunkCount(b)
  {
    IdsConcat(a, b);
    TextsConcat(a, b);
    CountConcat(a, b);
  }

  lemma {:induction false} IdsConcat(a: seq<Episode>, b: seq<Episode>)
    ensures CorpusIds(a + b) == CorpusIds(a) + CorpusIds(b)
    decreases |b|
  {
    if b == [] {
      assert a + b == a;
    } else {
      var c, b' := a + b, b[..|b| - 1];
      IdsConcat(a, b');
      assert c[..|c| - 1] == a + b';
      assert c[|c| - 1] == b[|b| - 1];
      var last := IndexIds(b[|b| - 1]);
      assert CorpusIds(c) == CorpusIds(a + b') + last;
      assert CorpusIds(b) == CorpusIds(b') + last;
    }
  }

  lemma {:induction false} TextsConcat(a: seq<Episode>, b: seq<Episode>)
    ensures CorpusTexts(a + b) == CorpusTexts(a) + CorpusTexts(b)
    decreases |b|
  {
    if b == [] {
      assert a + b == a;
    } else {
      var c, b' := a + b, b[..|b| - 1];
      TextsConcat(a, b');
      assert c[..|c| - 1] == a + b';
      assert c[|c| - 1] == b[|b| - 1];
      assert CorpusTexts(c) == CorpusTexts(a + b') + IndexTexts(b[|b| - 1]);
    }
  }

  lemma {:induction false} CountConcat(a: seq<Episode>, b: seq<Episode>)
    ensures ChunkCount(a + b) == ChunkCount(a) + ChunkCount(b)
    decreases |b|
  {
    if b == [] {
      assert a + b == a;
    } else {
      var c, b' := a + b, b[..|b| - 1];
      CountConcat(a, b');
      assert c[..|c| - 1] == a + b';
      assert c[|c| - 1] == b[|b| - 1];
    }
  }

  /** The two corpus lists stay in lockstep: one entry per chunk in each. */
  lemma {:induction false} CorpusLengths(eps: seq<Episode>)
    ensures |CorpusIds(eps)| == ChunkCount(eps)
    ensures |CorpusTexts(eps)| == ChunkCount(eps)
  {
    if eps != [] {
      CorpusLengths(eps[..|eps| - 1]);
    }
  }

  /**
   * Episode `e` occupies one contiguous block of both lists, starting after
   * the chunks of the episodes before it. The block holds exactly the ids
   * and the documents the vector index stores for that episode.
   */
  lemma CorpusBlock(eps: seq<Episode>, e: nat)
    requires e < |eps|
    ensures ChunkCount(eps[..e + 1]) == ChunkCount(eps[..e]) + |eps[e].chunks|
    ensures ChunkCount(eps[..e + 1]) <= |CorpusIds(eps)| == |CorpusTexts(eps)|
    ensures CorpusIds(eps)[ChunkCount(eps[..e])..ChunkCount(eps[..e + 1])] == IndexIds(eps[e])
    ensures CorpusTexts(eps)[ChunkCount(eps[..e])..ChunkCount(eps[..e + 1])] == IndexTexts(eps[e])
  {
    var pre, rest := eps[..e + 1], eps[e + 1..];
    assert eps == pre + rest;
    CorpusConcat(pre, rest);
    assert pre[..e] == eps[..e];
    CorpusLengths(eps[..e]);
    CorpusLengths(pre);
  }

  /** Entry `ChunkCount(eps[..e]) + i` of the lists pairs chunk `i` of episode `e` with its id. */
  lemma CorpusEntry(eps: seq<Episode>, e: nat, i: nat)
    requires e < |eps| && i < |eps[e].chunks|
    ensures ChunkCount(eps[..e]) + i < |CorpusIds(eps)| == |CorpusTexts(eps)|
    ensures CorpusIds(eps)[ChunkCount(eps[..e]) + i] == DocId(eps[e].id, i)
    ensures CorpusTexts(eps)[ChunkCount(eps[..e]) + i] == eps[e].chunks[i].text
  {
    CorpusBlock(eps, e);
    var lo, hi := ChunkCount(eps[..e]), ChunkCount(eps[..e + 1]);
    assert eps[..e + 1][..e] == eps[..e];
    assert CorpusIds(eps)[lo..hi][i] == IndexIds(eps[e])[i];
    assert CorpusTexts(eps)[lo..hi][i] == IndexTexts(eps[e])[i];
  }

  /** Every corpus id is the id of some chunk of some ingested episode. */
  lemma {:induction false} CorpusIdsOrigin(eps: seq<Episode>, x: string)
    requires x in CorpusIds(eps)
    ensures exists e, i | 0 <= e < |eps| && 0 <= i < |eps[e].chunks| :: x == DocId(eps[e].id, i)
  {
    var pre := eps[..|eps| - 1];
    if x in CorpusIds(pre) {
      CorpusIdsOrigin(pre, x);
      var e, i :| 0 <= e < |pre| && 0 <= i < |pre[e].chunks| && x == DocId(pre[e].id, i);
      assert pre[e] == eps[e];
    } else {
      var ids := IndexIds(eps[|eps| - 1]);
      var i :| 0 <= i < |ids| && ids[i] == x;
      assert x == DocId(eps[|eps| - 1].id, i);
    }
  }

  /** With distinct episode ids, no corpus id occurs twice. */
  lemma {:induction false} CorpusIdsDistinct(eps: seq<Episode>)
    requires Distinct(EpisodeIds(eps))
    ensures Distinct(CorpusIds(eps))
  {
    if eps != [] {
      var pre, last := eps[..|eps| - 1], eps[|eps| - 1];
      assert EpisodeIds(pre) == EpisodeIds(eps)[..|eps| - 1];
      DistinctPrefix(EpisodeIds(eps), |eps| - 1);
      CorpusIdsDistinct(pre);
      var ids := IndexIds(last);
      forall i, j | 0 <= i < j < |ids| ensures ids[i] != ids[j] {
        DocIdInjective(last.id, i, last.id, j);
      }
      forall x | x in CorpusIds(pre) ensures x !in ids {
        CorpusIdsOrigin(pre, x);
        var e, i :| 0 <= e < |pre| && 0 <= i < |pre[e].chunks| && x == DocId(pre[e].id, i);
        assert EpisodeIds(eps)[e] == pre[e].id && EpisodeIds(eps)[|eps| - 1] == last.id;
        if x in ids {
          var j :| 0 <= j < |ids| && ids[j] == x;
          DocIdInjective(pre[e].id, i, last.id, j);
          assert false;
        }
      }
      DistinctConcat(CorpusIds(pre), ids);
    }
  }

  /**
   * Conversely, two ingested episodes with the same id (the same file
   * uploaded twice) give repeated corpus ids once they have chunks.
   */
  lemma CorpusIdsRepeat(eps: seq<Episode>, a: nat, b: nat)
    requires a < b < |eps| && eps[a].id == eps[b].id
    requires |eps[a].chunks| > 0 && |eps[b].chunks| > 0
    ensures !Distinct(CorpusIds(eps))
  {
    CorpusEntry(eps, a, 0);
    CorpusEntry(eps, b, 0);
    CountGrows(eps, a, b);
    var pa, pb := ChunkCount(eps[..a]), ChunkCount(eps[..b]);
    assert CorpusIds(eps)[pa] == CorpusIds(eps)[pb];
  }

  /** The chunks of episode `a` come before the block of any later episode. */
  lemma CountGrows(eps: seq<Episode>, a: nat, b: nat)
    requires a < b <= |eps|
    ensures ChunkCount(eps[..a]) + |eps[a].chunks| <= ChunkCount(eps[..b])
  {
    assert eps[..b] == eps[..a + 1] + eps[a + 1..b];
    CountConcat(eps[..a + 1], eps[a + 1..b]);
    assert eps[..a + 1][..a] == eps[..a];
  }
}
