/**
 * Reciprocal-rank fusion and the hybrid ranking of the search step.
 *
 * Two rankings of document ids are turned into rank maps (1 is best), fused
 * by summing `1 / (k + rank)` per id into an insertion-ordered dict, sorted
 * by fused score with a stable descending sort, and cut to the first `top_k`
 * ids. Scores are exact rationals; the BM25 scores and their argsort come in
 * as inputs.
 */
module Search {
  import opened Prelude
  import opened Sorting

  /**
   * A Python dict with string keys: the keys in insertion order and the
   * value stored under each.
   */
  datatype Dict<V> = Dict(keys: seq<string>, values: map<string, V>) {
    /** Each key is listed once, and exactly the listed keys have values. */
    predicate Valid() {
      && Distinct(keys)
      && (forall x | x in values :: x in keys)
      && (forall x | x in keys :: x in values)
    }

    /** `d.get(x, default)`. */
    function Get(x: string, default: V): V {
      if x in values then values[x] else default
    }

    /** `d[x] = v`: a new key goes last, a present key keeps its place and takes the new value (`PutFacts`). */
    function Put(x: string, v: V): Dict<V> {
      if x in values then Dict(keys, values[x := v])
      else Dict(keys + [x], values[x := v])
    }
  }

  /** Storing keeps a dict well-formed, sets the one value, and adds the key last exactly when it is new. */
  lemma PutFacts<V>(d: Dict<V>, x: string, v: V)
    requires d.Valid()
    ensures d.Put(x, v).Valid()
    ensures d.Put(x, v).values == d.values[x := v]
    ensures x in d.keys ==> d.Put(x, v).keys == d.keys
    ensures x !in d.keys ==> d.Put(x, v).keys == d.keys + [x]
  {
  }

  function Empty<V>(): Dict<V> {
    Dict([], map[])
  }

  /** A rank: 1 is best. */
  type Rank = r: int | r >= 1 witness 1

  /** The comprehension `{ks[i]: vs[i] for i in range(len(ks))}`: entries stored in order, so a repeated key keeps its first place and its last value. */
  function DictFrom<V>(ks: seq<string>, vs: seq<V>): Dict<V>
    requires |ks| == |vs|
  {
    if ks == [] then Empty()
    else DictFrom(ks[..|ks| - 1], vs[..|vs| - 1]).Put(ks[|ks| - 1], vs[|vs| - 1])
  }

  /** The built dict is well-formed. */
  lemma {:induction false} DictFromValid<V>(ks: seq<string>, vs: seq<V>)
    requires |ks| == |vs|
    ensures DictFrom(ks, vs).Valid()
  {
    if ks != [] {
      var n := |ks| - 1;
      DictFromValid(ks[..n], vs[..n]);
      PutFacts(DictFrom(ks[..n], vs[..n]), ks[n], vs[n]);
    }
  }

  /** A key is in the built dict exactly when it is among `ks`. */
  lemma {:induction false} DictFromKeys<V>(ks: seq<string>, vs: seq<V>)
    requires |ks| == |vs|
    ensures forall x :: x in DictFrom(ks, vs).values <==> x in ks
  {
    if ks != [] {
      var n := |ks| - 1;
      DictFromKeys(ks[..n], vs[..n]);
      assert ks == ks[..n] + [ks[n]];
    }
  }

  /** A key holds the value paired with its last occurrence in `ks` (later writes win). */
  lemma {:induction false} DictFromValue<V>(ks: seq<string>, vs: seq<V>, i: nat)
    requires |ks| == |vs| && i < |ks| && ks[i] !in ks[i + 1..]
    ensures ks[i] in DictFrom(ks, vs).values && DictFrom(ks, vs).values[ks[i]] == vs[i]
  {
    var n := |ks| - 1;
    if i < n {
      var ks', vs' := ks[..n], vs[..n];
      assert ks[n] in ks[i + 1..];
      assert ks'[i + 1..] == ks[i + 1..n];
      DictFromValue(ks', vs', i);
      assert ks'[i] == ks[i];
    }
  }

  /** Without repeated keys, the dict's keys are `ks` in order. */
  lemma {:induction false} DictFromOrder<V>(ks: seq<string>, vs: seq<V>)
    requires |ks| == |vs| && Distinct(ks)
    ensures DictFrom(ks, vs).keys == ks
  {
    if ks != [] {
      var n := |ks| - 1;
      var ks', vs' := ks[..n], vs[..n];
      DistinctPrefix(ks, n);
      DictFromOrder(ks', vs');
      DictFromKeys(ks', vs');
      var d' := DictFrom(ks', vs');
      assert ks[n] !in ks';
      assert ks[n] !in d'.values;
      assert DictFrom(ks, vs) == d'.Put(ks[n], vs[n]);
      assert ks == ks' + [ks[n]];
    }
  }

  /** `1, 2, ..., n`. */
  function Positions(n: nat): (r: seq<Rank>)
    ensures |r| == n
    ensures forall i | 0 <= i < n :: r[i] == i + 1
  {
    if n == 0 then [] else Positions(n - 1) + [n]
  }

  /** `{doc_id: i+1 for i, doc_id in enumerate(ids)}`: the vector store's ranks. */
  function VectorRanks(ids: seq<string>): Dict<Rank> {
    DictFrom(ids, Positions(|ids|))
  }

  /** With no repeated id, the vector ranks list the ids in order and rank each at its 1-based position. */
  lemma VectorRanksPositions(ids: seq<string>)
    requires Distinct(ids)
    ensures VectorRanks(ids).Valid() && VectorRanks(ids).keys == ids
    ensures forall i | 0 <= i < |ids| :: VectorRanks(ids).values[ids[i]] == i + 1
  {
    DictFromValid(ids, Positions(|ids|));
    DictFromOrder(ids, Positions(|ids|));
    forall i | 0 <= i < |ids| ensures VectorRanks(ids).values[ids[i]] == i + 1 {
      DistinctNotLater(ids, i);
      DictFromValue(ids, Positions(|ids|), i);
    }
  }

  /**
   * `order` is a result of `np.argsort(-scores)`: a permutation of the
   * indices of `scores` listing them from the highest score to the lowest.
   * Which of two equal scores comes first is not fixed (argsort's default
   * sort is not stable), so any such order is allowed.
   */
  predicate IsArgsortDesc(order: seq<nat>, scores: seq<real>) {
    && |order| == |scores|
    && (forall j | 0 <= j < |order| :: order[j] < |scores|)
    && Distinct(order)
    && (forall i | 0 <= i < |scores| :: i in order)
    && (forall a, b | 0 <= a < b < |order| :: scores[order[a]] >= scores[order[b]])
  }

  /** `int(np.where(order == i)[0][0]) + 1` for each `i < n`. */
  function OrderRanks(order: seq<nat>, n: nat): (r: seq<Rank>)
    requires forall i | 0 <= i < n :: i in order
    ensures |r| == n
    ensures forall i | 0 <= i < n :: r[i] == IndexOf(order, i) + 1
  {
    if n == 0 then [] else OrderRanks(order, n - 1) + [IndexOf(order, n - 1) + 1]
  }

  /** `{corpus_ids[i]: position of i in order + 1 for i in range(len(corpus_ids))}`: the BM25 ranks. */
  function Bm25Ranks(corpusIds: seq<string>, order: seq<nat>): Dict<Rank>
    requires forall i | 0 <= i < |corpusIds| :: i in order
  {
    DictFrom(corpusIds, OrderRanks(order, |corpusIds|))
  }

  /** With distinct corpus ids, the id at corpus index `i` is ranked one plus the place of `i` in the argsort order. */
  lemma Bm25Rank(corpusIds: seq<string>, order: seq<nat>, i: nat)
    requires forall i | 0 <= i < |corpusIds| :: i in order
    requires Distinct(corpusIds) && i < |corpusIds|
    ensures corpusIds[i] in Bm25Ranks(corpusIds, order).values
    ensures Bm25Ranks(corpusIds, order).values[corpusIds[i]] == IndexOf(order, i) + 1
  {
    DistinctNotLater(corpusIds, i);
    DictFromValue(corpusIds, OrderRanks(order, |corpusIds|), i);
  }

  /** With distinct corpus ids, the BM25 rank dict lists the corpus ids in corpus order. */
  lemma Bm25RanksKeys(corpusIds: seq<string>, order: seq<nat>)
    requires forall i | 0 <= i < |corpusIds| :: i in order
    requires Distinct(corpusIds)
    ensures Bm25Ranks(corpusIds, order).Valid() && Bm25Ranks(corpusIds, order).keys == corpusIds
  {
    DictFromValid(corpusIds, OrderRanks(order, |corpusIds|));
    DictFromOrder(corpusIds, OrderRanks(order, |corpusIds|));
  }

  /**
   * With distinct corpus ids and one score per id, the BM25 ranks are a
   * permutation of `1..n`: every rank is in range (`Bm25RanksInRange`), the
   * id at the `j`-th place of the argsort order has rank `j + 1`
   * (`Bm25RanksOnto`), and no two ids share a rank (`Bm25RanksInjective`).
   */
  lemma Bm25RanksInRange(corpusIds: seq<string>, order: seq<nat>, scores: seq<real>)
    requires IsArgsortDesc(order, scores) && |corpusIds| == |scores|
    requires Distinct(corpusIds)
    ensures Bm25Ranks(corpusIds, order).Valid() && Bm25Ranks(corpusIds, order).keys == corpusIds
    ensures forall i | 0 <= i < |corpusIds| :: 1 <= Bm25Ranks(corpusIds, order).values[corpusIds[i]] <= |corpusIds|
  {
    Bm25RanksKeys(corpusIds, order);
    forall i | 0 <= i < |corpusIds| ensures 1 <= Bm25Ranks(corpusIds, order).values[corpusIds[i]] <= |corpusIds| {
      Bm25Rank(corpusIds, order, i);
    }
  }

  lemma Bm25RanksOnto(corpusIds: seq<string>, order: seq<nat>, scores: seq<real>)
    requires IsArgsortDesc(order, scores) && |corpusIds| == |scores|
    requires Distinct(corpusIds)
    ensures Bm25Ranks(corpusIds, order).Valid() && Bm25Ranks(corpusIds, order).keys == corpusIds
    ensures forall j | 0 <= j < |order| :: Bm25Ranks(corpusIds, order).values[corpusIds[order[j]]] == j + 1
  {
    Bm25RanksKeys(corpusIds, order);
    forall j | 0 <= j < |order| ensures Bm25Ranks(corpusIds, order).values[corpusIds[order[j]]] == j + 1 {
      Bm25Rank(corpusIds, order, order[j]);
      IndexOfDistinct(order, j);
    }
  }

  lemma Bm25RanksInjective(corpusIds: seq<string>, order: seq<nat>, scores: seq<real>)
    requires IsArgsortDesc(order, scores) && |corpusIds| == |scores|
    requires Distinct(corpusIds)
    ensures Bm25Ranks(corpusIds, order).Valid() && Bm25Ranks(corpusIds, order).keys == corpusIds
    ensures forall i, j | 0 <= i < j < |corpusIds| :: Bm25Ranks(corpusIds, order).values[corpusIds[i]] != Bm25Ranks(corpusIds, order).values[corpusIds[j]]
  {
    Bm25RanksKeys(corpusIds, order);
    forall i, j | 0 <= i < j < |corpusIds| ensures Bm25Ranks(corpusIds, order).values[corpusIds[i]] != Bm25Ranks(corpusIds, order).values[corpusIds[j]] {
      Bm25Rank(corpusIds, order, i);
      Bm25Rank(corpusIds, order, j);
      assert order[IndexOf(order, i)] == i && order[IndexOf(order, j)] == j;
    }
  }

  /** A strictly higher BM25 score earns a strictly better (smaller) rank. */
  lemma Bm25RanksFollowScores(corpusIds: seq<string>, order: seq<nat>, scores: seq<real>, i: nat, j: nat)
    requires IsArgsortDesc(order, scores) && |corpusIds| == |scores|
    requires Distinct(corpusIds)
    requires i < |corpusIds| && j < |corpusIds| && scores[i] > scores[j]
    ensures corpusIds[i] in Bm25Ranks(corpusIds, order).values && corpusIds[j] in Bm25Ranks(corpusIds, order).values
    ensures Bm25Ranks(corpusIds, order).values[corpusIds[i]] < Bm25Ranks(corpusIds, order).values[corpusIds[j]]
  {
    Bm25Rank(corpusIds, order, i);
    Bm25Rank(corpusIds, order, j);
  }

  // ---------------------------------------------------------------------
  // Reciprocal-rank fusion
  // ---------------------------------------------------------------------

  /** The rank maps are well-formed dicts. */
  predicate AllValid(lists: seq<Dict<Rank>>) {
    forall i | 0 <= i < |lists| :: lists[i].Valid()
  }

  /** What one rank map adds to the fused score of `x`: `1 / (k + rank)`, or nothing without an entry for `x`. */
  function Contribution(ranks: Dict<Rank>, k: nat, x: string): real {
    if x in ranks.values then 1.0 / ((k + ranks.values[x]) as real) else 0.0
  }

  /** The fused score of `x`: the sum of its contributions over all rank maps. */
  function Score(lists: seq<Dict<Rank>>, k: nat, x: string): real {
    if lists == [] then 0.0
    else Score(lists[..|lists| - 1], k, x) + Contribution(lists[|lists| - 1], k, x)
  }

  /** `keys` followed by the members of `more` it lacks, each at its first occurrence. */
  function AddKeys(keys: seq<string>, more: seq<string>): seq<string> {
    if more == [] then keys
    else
      var a := AddKeys(keys, more[..|more| - 1]);
      if more[|more| - 1] in a then a else a + [more[|more| - 1]]
  }

  /** The ids of all rank maps in order of first appearance: the key order of the fused dict. */
  function FusedKeys(lists: seq<Dict<Rank>>): seq<string> {
    if lists == [] then []
    else AddKeys(FusedKeys(lists[..|lists| - 1]), lists[|lists| - 1].keys)
  }

  /** The fused dict after the inner loop has handled the first `n` entries of `ranks`. */
  function AddRanks(fused: Dict<real>, ranks: Dict<Rank>, k: nat, n: nat): Dict<real>
    requires ranks.Valid() && n <= |ranks.keys|
  {
    if n == 0 then fused
    else
      var f := AddRanks(fused, ranks, k, n - 1);
      var x := ranks.keys[n - 1];
      f.Put(x, f.Get(x, 0.0) + 1.0 / ((k + ranks.values[x]) as real))
  }

  /** The fused dict after the outer loop has handled every rank map of `lists`. */
  function FuseDict(lists: seq<Dict<Rank>>, k: nat): Dict<real>
    requires AllValid(lists)
  {
    if lists == [] then Empty()
    else
      var last := lists[|lists| - 1];
      AddRanks(FuseDict(lists[..|lists| - 1], k), last, k, |last.keys|)
  }

  /** `d.items()` for a dict of scores, in key order. */
  function Items(keys: seq<string>, values: map<string, real>): seq<Scored>
    requires forall j | 0 <= j < |keys| :: keys[j] in values
  {
    if keys == [] then [] else [(keys[0], values[keys[0]])] + Items(keys[1..], values)
  }

  /** Sorting the items of a dict keeps one item per key. */
  lemma SortedItemsLength(keys: seq<string>, values: map<string, real>)
    requires forall j | 0 <= j < |keys| :: keys[j] in values
    ensures |SortDesc(Items(keys, values))| == |keys|
  {
    ItemsPairs(keys, values);
    SortDescPerm(Items(keys, values));
    assert |multiset(SortDesc(Items(keys, values)))| == |multiset(Items(keys, values))|;
  }

  /** `reciprocal_rank_fusion(lists, k)`: the fused dict's items, stably sorted by descending score. */
  function Fuse(lists: seq<Dict<Rank>>, k: nat): (fused: seq<Scored>)
    requires AllValid(lists)
    ensures |fused| == |FusedKeys(lists)|
  {
    var d := FuseDict(lists, k);
    FuseDictValid(lists, k);
    FuseDictKeys(lists, k);
    SortedItemsLength(d.keys, d.values);
    SortDesc(Items(d.keys, d.values))
  }

  lemma {:induction false} AddRanksValid(fused: Dict<real>, ranks: Dict<Rank>, k: nat, n: nat)
    requires ranks.Valid() && n <= |ranks.keys| && fused.Valid()
    ensures AddRanks(fused, ranks, k, n).Valid()
  {
    if n > 0 {
      AddRanksValid(fused, ranks, k, n - 1);
      var f := AddRanks(fused, ranks, k, n - 1);
      var x := ranks.keys[n - 1];
      PutFacts(f, x, f.Get(x, 0.0) + 1.0 / ((k + ranks.values[x]) as real));
    }
  }

  /** The fused dict is a well-formed dict. */
  lemma {:induction false} FuseDictValid(lists: seq<Dict<Rank>>, k: nat)
    requires AllValid(lists)
    ensures FuseDict(lists, k).Valid()
  {
    if lists != [] {
      var init := lists[..|lists| - 1];
      FuseDictValid(init, k);
      var last := lists[|lists| - 1];
      AddRanksValid(FuseDict(init, k), last, k, |last.keys|);
    }
  }

  /** An id is among the added keys exactly when it was among either list. */
  lemma {:induction false} AddKeysMembers(keys: seq<string>, more: seq<string>)
    ensures forall x :: x in AddKeys(keys, more) <==> x in keys || x in more
  {
    if more != [] {
      var n := |more| - 1;
      AddKeysMembers(keys, more[..n]);
      assert more == more[..n] + [more[n]];
    }
  }

  /** Adding keys never repeats one. */
  lemma {:induction false} AddKeysDistinct(keys: seq<string>, more: seq<string>)
    requires Distinct(keys)
    ensures Distinct(AddKeys(keys, more))
  {
    if more != [] {
      var n := |more| - 1;
      AddKeysDistinct(keys, more[..n]);
    }
  }

  /** The members of `more` that `keys` lacks, in the order of `more`. */
  function Absent(more: seq<string>, keys: seq<string>): seq<string> {
    if more == [] then []
    else
      var a := Absent(more[..|more| - 1], keys);
      if more[|more| - 1] in keys then a else a + [more[|more| - 1]]
  }

  lemma {:induction false} AbsentMembers(more: seq<string>, keys: seq<string>)
    ensures forall x :: x in Absent(more, keys) <==> x in more && x !in keys
  {
    if more != [] {
      var n := |more| - 1;
      AbsentMembers(more[..n], keys);
      assert more == more[..n] + [more[n]];
    }
  }

  /** Adding keys without repeats appends, in order, those not yet present. */
  lemma {:induction false} AddKeysAppend(keys: seq<string>, more: seq<string>)
    requires Distinct(more)
    ensures AddKeys(keys, more) == keys + Absent(more, keys)
  {
    if more != [] {
      var n := |more| - 1;
      DistinctPrefix(more, n);
      AddKeysAppend(keys, more[..n]);
      AbsentMembers(more[..n], keys);
      assert more[n] !in more[..n];
    }
  }

  /** The inner loop's keys are the earlier keys followed by the new ids, in entry order. */
  lemma {:induction false} AddRanksKeys(fused: Dict<real>, ranks: Dict<Rank>, k: nat, n: nat)
    requires ranks.Valid() && n <= |ranks.keys| && fused.Valid()
    ensures AddRanks(fused, ranks, k, n).keys == AddKeys(fused.keys, ranks.keys[..n])
  {
    if n > 0 {
      AddRanksKeys(fused, ranks, k, n - 1);
      AddRanksValid(fused, ranks, k, n - 1);
      assert ranks.keys[..n][..n - 1] == ranks.keys[..n - 1];
    }
  }

  /** After the inner loop's first `n` entries, an id's score has grown by its contribution exactly when it is among them. */
  lemma {:induction false} AddRanksGet(fused: Dict<real>, ranks: Dict<Rank>, k: nat, n: nat, x: string)
    requires ranks.Valid() && n <= |ranks.keys|
    ensures AddRanks(fused, ranks, k, n).Get(x, 0.0)
         == fused.Get(x, 0.0) + (if x in ranks.keys[..n] then Contribution(ranks, k, x) else 0.0)
  {
    if n > 0 {
      AddRanksGet(fused, ranks, k, n - 1, x);
      var y := ranks.keys[n - 1];
      assert ranks.keys[..n] == ranks.keys[..n - 1] + [y];
      DistinctPrefix(ranks.keys, n);
      assert y !in ranks.keys[..n - 1] by {
        assert ranks.keys[..n][n - 1] == y;
        assert ranks.keys[..n][..n - 1] == ranks.keys[..n - 1];
      }
    }
  }

  /** The fused dict lists every id in order of first appearance across the rank maps. */
  lemma {:induction false} FuseDictKeys(lists: seq<Dict<Rank>>, k: nat)
    requires AllValid(lists)
    ensures FuseDict(lists, k).keys == FusedKeys(lists)
  {
    if lists != [] {
      var init, last := lists[..|lists| - 1], lists[|lists| - 1];
      FuseDictKeys(init, k);
      FuseDictValid(init, k);
      AddRanksKeys(FuseDict(init, k), last, k, |last.keys|);
      assert last.keys[..|last.keys|] == last.keys;
    }
  }

  /** The fused dict holds, for every id, the reciprocal-rank sum over all rank maps; a missing id reads as 0. */
  lemma {:induction false} FuseDictScore(lists: seq<Dict<Rank>>, k: nat, x: string)
    requires AllValid(lists)
    ensures FuseDict(lists, k).Get(x, 0.0) == Score(lists, k, x)
  {
    if lists != [] {
      var init, last := lists[..|lists| - 1], lists[|lists| - 1];
      FuseDictScore(init, k, x);
      AddRanksGet(FuseDict(init, k), last, k, |last.keys|, x);
      assert last.keys[..|last.keys|] == last.keys;
    }
  }

  /** The fused keys are without repeats, and are exactly the ids some rank map ranks. */
  lemma {:induction false} FusedKeysMembers(lists: seq<Dict<Rank>>)
    requires AllValid(lists)
    ensures Distinct(FusedKeys(lists))
    ensures forall x :: x in FusedKeys(lists) <==> exists i | 0 <= i < |lists| :: x in lists[i].values
  {
    if lists != [] {
      var init, last := lists[..|lists| - 1], lists[|lists| - 1];
      FusedKeysMembers(init);
      AddKeysMembers(FusedKeys(init), last.keys);
      AddKeysDistinct(FusedKeys(init), last.keys);
      forall x ensures x in FusedKeys(lists) <==> exists i | 0 <= i < |lists| :: x in lists[i].values {
        if x in FusedKeys(lists) && x !in last.values {
          var i :| 0 <= i < |init| && x in init[i].values;
          assert lists[i] == init[i];
        }
        if exists i | 0 <= i < |lists| :: x in lists[i].values {
          var i :| 0 <= i < |lists| && x in lists[i].values;
          if i < |init| {
            assert init[i] == lists[i];
          }
        }
      }
    }
  }

  /** The ids of `keys` whose fused score is `v`, in the order of `keys`. */
  function TiedKeys(keys: seq<string>, lists: seq<Dict<Rank>>, k: nat, v: real): seq<string> {
    if keys == [] then []
    else (if Score(lists, k, keys[0]) == v then [keys[0]] else []) + TiedKeys(keys[1..], lists, k, v)
  }

  /** The items list the keys in order, each paired with its value. */
  lemma {:induction false} ItemsPairs(keys: seq<string>, values: map<string, real>)
    requires forall j | 0 <= j < |keys| :: keys[j] in values
    ensures Ids(Items(keys, values)) == keys
    ensures forall p | p in Items(keys, values) :: p.0 in values && p.1 == values[p.0]
  {
    if keys != [] {
      ItemsPairs(keys[1..], values);
    }
  }

  /** When each value is the key's fused score, the items of score `v` are the tied keys, in order. */
  lemma {:induction false} ItemsTies(keys: seq<string>, values: map<string, real>, lists: seq<Dict<Rank>>, k: nat, v: real)
    requires forall j | 0 <= j < |keys| :: keys[j] in values && values[keys[j]] == Score(lists, k, keys[j])
    ensures Ids(WithScore(Items(keys, values), v)) == TiedKeys(keys, lists, k, v)
  {
    if keys != [] {
      var head := [(keys[0], values[keys[0]])];
      var rest := Items(keys[1..], values);
      ItemsTies(keys[1..], values, lists, k, v);
      WithScoreConcat(head, rest, v);
      IdsConcat(WithScore(head, v), WithScore(rest, v));
    }
  }

  /** The ids of `Fuse(lists, k)`, read off as `hybrid_rank` does. */
  function FusedIds(lists: seq<Dict<Rank>>, k: nat): seq<string>
    requires AllValid(lists)
  {
    Ids(Fuse(lists, k))
  }

  /** Every fused item carries its id's reciprocal-rank sum. */
  lemma FuseScores(lists: seq<Dict<Rank>>, k: nat)
    requires AllValid(lists)
    ensures forall p | p in Fuse(lists, k) :: p.1 == Score(lists, k, p.0)
  {
    var d := FuseDict(lists, k);
    FuseDictValid(lists, k);
    ItemsPairs(d.keys, d.values);
    SortDescPerm(Items(d.keys, d.values));
    forall p | p in Fuse(lists, k) ensures p.1 == Score(lists, k, p.0) {
      assert p in multiset(Items(d.keys, d.values));
      FuseDictScore(lists, k, p.0);
    }
  }

  /** The fused ids are the fused dict's keys, reordered. */
  lemma FuseIdsPerm(lists: seq<Dict<Rank>>, k: nat)
    requires AllValid(lists)
    ensures multiset(FusedIds(lists, k)) == multiset(FusedKeys(lists))
  {
    var d := FuseDict(lists, k);
    FuseDictValid(lists, k);
    FuseDictKeys(lists, k);
    ItemsPairs(d.keys, d.values);
    SortDescPerm(Items(d.keys, d.values));
  }

  /** The fused ids are each id of the union of the rank maps, exactly once. */
  lemma FuseIds(lists: seq<Dict<Rank>>, k: nat)
    requires AllValid(lists)
    ensures Distinct(FusedIds(lists, k))
    ensures forall x :: x in FusedIds(lists, k) <==> exists i | 0 <= i < |lists| :: x in lists[i].values
  {
    FuseIdsPerm(lists, k);
    FusedKeysMembers(lists);
    var ids, keys := FusedIds(lists, k), FusedKeys(lists);
    DistinctPerm(keys, ids);
    forall x ensures x in ids <==> x in keys {
      assert x in ids <==> x in multiset(ids);
      assert x in keys <==> x in multiset(keys);
    }
  }

  /** The fused list is in non-increasing score order. */
  lemma FuseSorted(lists: seq<Dict<Rank>>, k: nat)
    requires AllValid(lists)
    ensures SortedDesc(Fuse(lists, k))
  {
    var d := FuseDict(lists, k);
    FuseDictValid(lists, k);
    SortDescSorted(Items(d.keys, d.values));
  }

  /**
   * Ties keep dict order: the ids of any one score come out in their order
   * of first appearance across the rank maps, as the stable sort leaves them.
   */
  lemma FuseTies(lists: seq<Dict<Rank>>, k: nat, v: real)
    requires AllValid(lists)
    ensures Ids(WithScore(Fuse(lists, k), v)) == TiedKeys(FusedKeys(lists), lists, k, v)
  {
    var d := FuseDict(lists, k);
    FuseDictValid(lists, k);
    FuseDictKeys(lists, k);
    SortDescStable(Items(d.keys, d.values), v);
    forall j | 0 <= j < |d.keys| ensures d.keys[j] in d.values && d.values[d.keys[j]] == Score(lists, k, d.keys[j]) {
      FuseDictScore(lists, k, d.keys[j]);
    }
    ItemsTies(d.keys, d.values, lists, k, v);
  }

  /** The inner loop of `reciprocal_rank_fusion`: `fused[doc_id] = fused.get(doc_id, 0) + 1.0 / (k + rank)` for every entry of `ranks`, in order. */
  method AddRanksInto(fused: Dict<real>, ranks: Dict<Rank>, k: nat) returns (acc: Dict<real>)
    requires ranks.Valid()
    ensures acc == AddRanks(fused, ranks, k, |ranks.keys|)
  {
    acc := fused;
    for j := 0 to |ranks.keys|
      invariant acc == AddRanks(fused, ranks, k, j)
    {
      var x := ranks.keys[j];
      acc := acc.Put(x, acc.Get(x, 0.0) + 1.0 / ((k + ranks.values[x]) as real));
    }
  }

  /**
   * `reciprocal_rank_fusion(lists, k)`: every rank map in turn is added
   * into the fused dict; then its items are sorted by score, highest first,
   * keeping the dict order among equal scores.
   */
  method ReciprocalRankFusion(lists: seq<Dict<Rank>>, k: nat) returns (fused: seq<Scored>)
    requires AllValid(lists)
    ensures fused == Fuse(lists, k)
  {
    var acc: Dict<real> := Empty();
    for i := 0 to |lists|
      invariant acc == FuseDict(lists[..i], k)
    {
      acc := AddRanksInto(acc, lists[i], k);
      assert lists[..i + 1][..i] == lists[..i];
    }
    assert lists[..|lists|] == lists;
    FuseDictValid(lists, k);
    fused := SortDesc(Items(acc.keys, acc.values));
  }

  // ---------------------------------------------------------------------
  // The best-ranked id comes first
  // ---------------------------------------------------------------------

  /** No two ids share a rank. */
  predicate Injective(d: Dict<Rank>) {
    forall a, b | a in d.values && b in d.values && a != b :: d.values[a] != d.values[b]
  }

  lemma OneOverLess(a: nat, b: nat)
    requires 0 < b < a
    ensures 0.0 < 1.0 / (a as real) < 1.0 / (b as real)
  {
    var x, y := 1.0 / (a as real), 1.0 / (b as real);
    assert x * (a as real) == 1.0;
    assert y * (b as real) == 1.0;
  }

  /** In a map without shared ranks, an id ranked 1 is worth `1 / (k + 1)` and any other id strictly less. */
  lemma TopContribution(ranks: Dict<Rank>, k: nat, x: string, y: string)
    requires Injective(ranks) && x in ranks.values && ranks.values[x] == 1 && y != x
    ensures Contribution(ranks, k, x) == 1.0 / ((k + 1) as real)
    ensures Contribution(ranks, k, y) < Contribution(ranks, k, x)
  {
    if y in ranks.values {
      OneOverLess(k + ranks.values[y], k + 1);
    } else {
      OneOverLess(k + 2, k + 1);
    }
  }

  /** An id ranked 1 in every map scores `n * (1 / (k + 1))`. */
  lemma {:induction false} TopScore(lists: seq<Dict<Rank>>, k: nat, x: string)
    requires forall i | 0 <= i < |lists| :: x in lists[i].values && lists[i].values[x] == 1
    ensures Score(lists, k, x) == (|lists| as real) * (1.0 / ((k + 1) as real))
  {
    if lists != [] {
      var n := |lists| - 1;
      TopScore(lists[..n], k, x);
      var c := 1.0 / ((k + 1) as real);
      assert Contribution(lists[n], k, x) == c;
      assert (n as real) * c + c == ((n + 1) as real) * c;
    }
  }

  /** An id worth strictly less than another in every map scores strictly less overall, given at least one map. */
  lemma {:induction false} ScoreDominated(lists: seq<Dict<Rank>>, k: nat, x: string, y: string)
    requires |lists| >= 1
    requires forall i | 0 <= i < |lists| :: Contribution(lists[i], k, y) < Contribution(lists[i], k, x)
    ensures Score(lists, k, y) < Score(lists, k, x)
  {
    var n := |lists| - 1;
    if n > 0 {
      ScoreDominated(lists[..n], k, x, y);
    } else {
      assert lists[..n] == [];
    }
    assert Contribution(lists[n], k, y) < Contribution(lists[n], k, x);
  }

  /**
   * An id ranked 1 in every one of at least one rank maps, none of which
   * gives a rank twice, has fused score `n * (1 / (k + 1))`, strictly above
   * every other id's, and so comes first.
   */
  lemma TopRankedFirst(lists: seq<Dict<Rank>>, k: nat, x: string)
    requires AllValid(lists) && |lists| >= 1
    requires forall i | 0 <= i < |lists| :: Injective(lists[i]) && x in lists[i].values && lists[i].values[x] == 1
    ensures Score(lists, k, x) == (|lists| as real) * (1.0 / ((k + 1) as real))
    ensures forall y | y != x :: Score(lists, k, y) < Score(lists, k, x)
    ensures Fuse(lists, k) != [] && Fuse(lists, k)[0] == (x, Score(lists, k, x))
  {
    TopScore(lists, k, x);
    forall y | y != x ensures Score(lists, k, y) < Score(lists, k, x) {
      forall i | 0 <= i < |lists| ensures Contribution(lists[i], k, y) < Contribution(lists[i], k, x) {
        TopContribution(lists[i], k, x, y);
      }
      ScoreDominated(lists, k, x, y);
    }
    var f := Fuse(lists, k);
    FuseIds(lists, k);
    FuseScores(lists, k);
    FuseSorted(lists, k);
    IdsIndex(f);
    assert x in lists[0].values;
    var j := IndexOf(Ids(f), x);
    assert f[j] in f;
    forall i | 0 <= i < |f| && f[i].0 != f[j].0 ensures f[i].1 < f[j].1 {
      assert f[i] in f;
    }
    StrictMaxFirst(f, j);
    assert f[0] in f;
  }

  // ---------------------------------------------------------------------
  // hybrid_rank
  // ---------------------------------------------------------------------

  /** The reciprocal-rank constant `hybrid_rank` uses (the default `k=60` of `reciprocal_rank_fusion`). */
  const RrfK: nat := 60

  /** The two rank maps `hybrid_rank` fuses: vector ranks first, then BM25 ranks. */
  function HybridLists(vectorIds: seq<string>, corpusIds: seq<string>, order: seq<nat>): seq<Dict<Rank>>
    requires forall i | 0 <= i < |corpusIds| :: i in order
  {
    [VectorRanks(vectorIds), Bm25Ranks(corpusIds, order)]
  }

  lemma HybridListsValid(vectorIds: seq<string>, corpusIds: seq<string>, order: seq<nat>)
    requires forall i | 0 <= i < |corpusIds| :: i in order
    ensures AllValid(HybridLists(vectorIds, corpusIds, order))
  {
    DictFromValid(vectorIds, Positions(|vectorIds|));
    DictFromValid(corpusIds, OrderRanks(order, |corpusIds|));
  }

  /** Fusing two maps: the keys of the first, then the new keys of the second; the score, the sum of both contributions. */
  lemma FusePair(a: Dict<Rank>, b: Dict<Rank>, k: nat, x: string)
    ensures FusedKeys([a, b]) == AddKeys(AddKeys([], a.keys), b.keys)
    ensures Score([a, b], k, x) == Contribution(a, k, x) + Contribution(b, k, x)
  {
    var lists := [a, b];
    assert lists[..1] == [a] && [a][..0] == [];
    assert FusedKeys([a]) == AddKeys(FusedKeys([]), a.keys);
    assert FusedKeys(lists) == AddKeys(FusedKeys([a]), b.keys);
    assert Score([a], k, x) == Score([], k, x) + Contribution(a, k, x);
    assert Score(lists, k, x) == Score([a], k, x) + Contribution(b, k, x);
  }

  /**
   * `hybrid_rank`: the first `top_k` ids of the fusion of the vector ranks
   * and the BM25 ranks, where `order` is the argsort of the BM25 scores.
   */
  function HybridRank(vectorIds: seq<string>, corpusIds: seq<string>, order: seq<nat>, topK: nat): (ranked: seq<string>)
    requires forall i | 0 <= i < |corpusIds| :: i in order
    ensures |ranked| <= topK
    ensures forall x | x in ranked :: x in vectorIds || x in corpusIds
  {
    HybridListsValid(vectorIds, corpusIds, order);
    HybridMembers(vectorIds, corpusIds, order);
    var fused := FusedIds(HybridLists(vectorIds, corpusIds, order), RrfK);
    var ranked := Take(fused, topK);
    forall x | x in ranked ensures x in vectorIds || x in corpusIds {
      assert x in fused && x in Elements(fused);
    }
    ranked
  }

  /** The ids `hybrid_rank` can return: those either ranking lists. */
  function Union(vectorIds: seq<string>, corpusIds: seq<string>): set<string> {
    Elements(vectorIds) + Elements(corpusIds)
  }

  /** The fused key order: the vector ids first (in their order of first appearance), then the corpus ids among them not yet seen. */
  lemma HybridKeys(vectorIds: seq<string>, corpusIds: seq<string>, order: seq<nat>)
    requires forall i | 0 <= i < |corpusIds| :: i in order
    requires Distinct(vectorIds) && Distinct(corpusIds)
    ensures FusedKeys(HybridLists(vectorIds, corpusIds, order)) == vectorIds + Absent(corpusIds, vectorIds)
  {
    var lists := HybridLists(vectorIds, corpusIds, order);
    VectorRanksPositions(vectorIds);
    Bm25RanksKeys(corpusIds, order);
    FusePair(lists[0], lists[1], RrfK, "");
    AddKeysAppend([], vectorIds);
    AbsentNone(vectorIds);
    assert [] + vectorIds == vectorIds;
    AddKeysAppend(vectorIds, corpusIds);
  }

  /** When `keys` holds every id of `more`, nothing is absent. */
  lemma {:induction false} AbsentCovered(more: seq<string>, keys: seq<string>)
    requires forall j | 0 <= j < |more| :: more[j] in keys
    ensures Absent(more, keys) == []
  {
    if more != [] {
      AbsentCovered(more[..|more| - 1], keys);
    }
  }

  /** With nothing to exclude, `Absent` keeps every id. */
  lemma {:induction false} AbsentNone(more: seq<string>)
    ensures Absent(more, []) == more
  {
    if more != [] {
      AbsentNone(more[..|more| - 1]);
    }
  }

  /** An id is fused exactly when one of the two lists holds it. */
  lemma HybridMembers(vectorIds: seq<string>, corpusIds: seq<string>, order: seq<nat>)
    requires forall i | 0 <= i < |corpusIds| :: i in order
    ensures AllValid(HybridLists(vectorIds, corpusIds, order))
    ensures Distinct(FusedIds(HybridLists(vectorIds, corpusIds, order), RrfK))
    ensures Elements(FusedIds(HybridLists(vectorIds, corpusIds, order), RrfK)) == Union(vectorIds, corpusIds)
    ensures |FusedIds(HybridLists(vectorIds, corpusIds, order), RrfK)| == |Union(vectorIds, corpusIds)|
  {
    var lists := HybridLists(vectorIds, corpusIds, order);
    HybridListsValid(vectorIds, corpusIds, order);
    var ids := FusedIds(lists, RrfK);
    FuseIds(lists, RrfK);
    DictFromKeys(vectorIds, Positions(|vectorIds|));
    DictFromKeys(corpusIds, OrderRanks(order, |corpusIds|));
    forall x ensures x in ids <==> x in vectorIds || x in corpusIds {
      if x in vectorIds {
        assert x in lists[0].values;
      }
      if x in corpusIds {
        assert x in lists[1].values;
      }
    }
    assert Elements(ids) == Union(vectorIds, corpusIds);
    DistinctCard(ids);
  }

  /**
   * `hybrid_rank` returns the first `min(top_k, |union of ids|)` fused ids:
   * no id twice, each from one of the two lists.
   */
  lemma HybridRankResult(vectorIds: seq<string>, corpusIds: seq<string>, order: seq<nat>, topK: nat)
    requires forall i | 0 <= i < |corpusIds| :: i in order
    ensures |HybridRank(vectorIds, corpusIds, order, topK)| == MinNat(topK, |Union(vectorIds, corpusIds)|)
    ensures AllValid(HybridLists(vectorIds, corpusIds, order))
    ensures HybridRank(vectorIds, corpusIds, order, topK) <= FusedIds(HybridLists(vectorIds, corpusIds, order), RrfK)
    ensures Distinct(HybridRank(vectorIds, corpusIds, order, topK))
    ensures forall x | x in HybridRank(vectorIds, corpusIds, order, topK) :: x in vectorIds || x in corpusIds
  {
    HybridListsValid(vectorIds, corpusIds, order);
    var ids := FusedIds(HybridLists(vectorIds, corpusIds, order), RrfK);
    HybridMembers(vectorIds, corpusIds, order);
    var r := HybridRank(vectorIds, corpusIds, order, topK);
    assert r == ids[..|r|];
    DistinctPrefix(ids, |r|);
    forall x | x in r ensures x in vectorIds || x in corpusIds {
      assert x in ids;
      assert x in Elements(ids);
    }
  }

  /** Without repeated ids, no two ids share a vector rank. */
  lemma VectorRanksInjective(ids: seq<string>)
    requires Distinct(ids)
    ensures VectorRanks(ids).Valid() && Injective(VectorRanks(ids))
  {
    var d := VectorRanks(ids);
    VectorRanksPositions(ids);
    forall a, b | a in d.values && b in d.values && a != b ensures d.values[a] != d.values[b] {
      var i, j := IndexOf(ids, a), IndexOf(ids, b);
      assert d.values[ids[i]] == i + 1 && d.values[ids[j]] == j + 1;
    }
  }

  /** Without repeated corpus ids, no two ids share a BM25 rank. */
  lemma Bm25RanksInjectiveMap(corpusIds: seq<string>, order: seq<nat>)
    requires forall i | 0 <= i < |corpusIds| :: i in order
    requires Distinct(corpusIds)
    ensures Bm25Ranks(corpusIds, order).Valid() && Injective(Bm25Ranks(corpusIds, order))
  {
    var d := Bm25Ranks(corpusIds, order);
    Bm25RanksKeys(corpusIds, order);
    forall a, b | a in d.values && b in d.values && a != b ensures d.values[a] != d.values[b] {
      var i, j := IndexOf(corpusIds, a), IndexOf(corpusIds, b);
      Bm25Rank(corpusIds, order, i);
      Bm25Rank(corpusIds, order, j);
      assert order[IndexOf(order, i)] == i && order[IndexOf(order, j)] == j;
    }
  }

  /** Of two well-formed maps without shared ranks, an id ranked 1 in both is fused first. */
  lemma TopOfPair(a: Dict<Rank>, b: Dict<Rank>, k: nat, x: string)
    requires a.Valid() && Injective(a) && x in a.values && a.values[x] == 1
    requires b.Valid() && Injective(b) && x in b.values && b.values[x] == 1
    ensures AllValid([a, b])
    ensures FusedIds([a, b], k) != [] && FusedIds([a, b], k)[0] == x
  {
    var lists := [a, b];
    forall i | 0 <= i < |lists| ensures Injective(lists[i]) && x in lists[i].values && lists[i].values[x] == 1 {
      if i == 0 {
        assert lists[i] == a;
      } else {
        assert lists[i] == b;
      }
    }
    TopRankedFirst(lists, k, x);
    var f := Fuse(lists, k);
    assert Ids(f)[0] == f[0].0;
  }

  /** The BM25 map ranks 1 the id at the front of the argsort order. */
  lemma Bm25RanksFirst(corpusIds: seq<string>, order: seq<nat>)
    requires forall i | 0 <= i < |corpusIds| :: i in order
    requires Distinct(order) && Distinct(corpusIds)
    requires order != [] && order[0] < |corpusIds|
    ensures corpusIds[order[0]] in Bm25Ranks(corpusIds, order).values
    ensures Bm25Ranks(corpusIds, order).values[corpusIds[order[0]]] == 1
  {
    Bm25Rank(corpusIds, order, order[0]);
    IndexOfDistinct(order, 0);
  }

  /**
   * An id first among the vector results and first in the BM25 argsort
   * order is returned first. Only the parts of `IsArgsortDesc` the proof
   * needs are required: `order` lists each corpus index, once.
   */
  lemma HybridTopFirst(vectorIds: seq<string>, corpusIds: seq<string>, order: seq<nat>, topK: nat)
    requires forall i | 0 <= i < |corpusIds| :: i in order
    requires Distinct(order) && Distinct(vectorIds) && Distinct(corpusIds)
    requires vectorIds != [] && order != [] && order[0] < |corpusIds| && corpusIds[order[0]] == vectorIds[0]
    requires topK >= 1
    ensures HybridRank(vectorIds, corpusIds, order, topK) != []
    ensures HybridRank(vectorIds, corpusIds, order, topK)[0] == vectorIds[0]
  {
    var a, b := VectorRanks(vectorIds), Bm25Ranks(corpusIds, order);
    VectorRanksInjective(vectorIds);
    VectorRanksPositions(vectorIds);
    Bm25RanksInjectiveMap(corpusIds, order);
    Bm25RanksFirst(corpusIds, order);
    TopOfPair(a, b, RrfK, vectorIds[0]);
    assert HybridLists(vectorIds, corpusIds, order) == [a, b];
  }

  /** When every key scores `v`, all of them are tied at `v`. */
  lemma {:induction false} TiedAll(keys: seq<string>, lists: seq<Dict<Rank>>, k: nat, v: real)
    requires forall j | 0 <= j < |keys| :: Score(lists, k, keys[j]) == v
    ensures TiedKeys(keys, lists, k, v) == keys
  {
    if keys != [] {
      TiedAll(keys[1..], lists, k, v);
    }
  }

  /** When every id scores the same, the fused order is the order of first appearance. */
  lemma FuseAllTied(lists: seq<Dict<Rank>>, k: nat, v: real)
    requires AllValid(lists)
    requires forall j | 0 <= j < |FusedKeys(lists)| :: Score(lists, k, FusedKeys(lists)[j]) == v
    ensures FusedIds(lists, k) == FusedKeys(lists)
  {
    var f := Fuse(lists, k);
    FuseScores(lists, k);
    FuseIdsPerm(lists, k);
    IdsIndex(f);
    forall i | 0 <= i < |f| ensures f[i].1 == v {
      assert f[i] in f;
      assert Ids(f)[i] in multiset(FusedKeys(lists));
    }
    WithScoreAll(f, v);
    FuseTies(lists, k, v);
    TiedAll(FusedKeys(lists), lists, k, v);
  }

  /** The vector ranks of two distinct ids: the first ranked 1, the second 2. */
  lemma VectorRanksOfTwo(x: string, y: string)
    requires x != y
    ensures VectorRanks([x, y]).Valid()
    ensures VectorRanks([x, y]).keys == [x, y]
    ensures VectorRanks([x, y]).values[x] == 1 && VectorRanks([x, y]).values[y] == 2
  {
    VectorRanksPositions([x, y]);
    assert [x, y][0] == x && [x, y][1] == y;
  }

  /**
   * The tie of two mirrored rankings (`x` above `y`, then `y` above `x`):
   * both ids score `1/61 + 1/62`, and `x` comes first because it was seen first.
   */
  lemma MirroredTie(x: string, y: string)
    requires x != y
    ensures AllValid([VectorRanks([x, y]), VectorRanks([y, x])])
    ensures FusedIds([VectorRanks([x, y]), VectorRanks([y, x])], RrfK) == [x, y]
  {
    VectorRanksOfTwo(x, y);
    VectorRanksOfTwo(y, x);
    MirroredFusion(VectorRanks([x, y]), VectorRanks([y, x]), x, y);
  }

  lemma MirroredFusion(a: Dict<Rank>, b: Dict<Rank>, x: string, y: string)
    requires x != y && a.Valid() && b.Valid()
    requires a.keys == [x, y] && a.values[x] == 1 && a.values[y] == 2
    requires b.keys == [y, x] && b.values[y] == 1 && b.values[x] == 2
    ensures AllValid([a, b])
    ensures Score([a, b], RrfK, x) == 1.0 / 61.0 + 1.0 / 62.0 == Score([a, b], RrfK, y)
    ensures FusedIds([a, b], RrfK) == [x, y]
  {
    var v := 1.0 / 61.0 + 1.0 / 62.0;
    FusePair(a, b, RrfK, x);
    FusePair(a, b, RrfK, y);
    MirroredKeys(x, y);
    var keys := FusedKeys([a, b]);
    assert keys == [x, y];
    forall j | 0 <= j < |keys| ensures Score([a, b], RrfK, keys[j]) == v {
      if j == 0 {
        assert keys[j] == x;
      } else {
        assert keys[j] == y;
      }
    }
    FuseAllTied([a, b], RrfK, v);
  }

  lemma MirroredKeys(x: string, y: string)
    requires x != y
    ensures AddKeys(AddKeys([], [x, y]), [y, x]) == [x, y]
  {
    AddKeysAppend([], [x, y]);
    AbsentNone([x, y]);
    assert [] + [x, y] == [x, y];
    AddKeysAppend([x, y], [y, x]);
    AbsentMembers([y, x], [x, y]);
    AbsentCovered([y, x], [x, y]);
    assert [x, y] + [] == [x, y];
  }
}
