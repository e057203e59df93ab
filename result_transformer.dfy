/**
 * Turning the vector store's raw, batch-nested parallel arrays into result
 * items (packages/server/src/services/chroma-result-transformer.service.ts).
 */
module ResultTransformer {
  import opened Types

  /**
   * The store's raw answer. Every array holds one inner array per query of a
   * batch. A top-level `None` stands for a missing or `null` array; an entry
   * `None` stands for a `null` entry.
   */
  datatype ChromaQueryResult = ChromaQueryResult(
    ids: seq<seq<string>>,
    documents: Option<seq<seq<Option<string>>>>,
    embeddings: Option<seq<seq<Option<seq<real>>>>>,
    metadatas: Option<seq<seq<Option<Metadata>>>>,
    distances: Option<seq<seq<real>>>)

  /** `arrays?.[0]`: the first batch, absent when the array is missing or has no batch. */
  function FirstBatch<T>(arrays: Option<seq<seq<T>>>): Option<seq<T>> {
    if arrays.Some? && |arrays.value| > 0 then Some(arrays.value[0]) else None
  }

  /** `batch?.[i]`: absent when the batch is missing or too short. */
  function At<T>(batch: Option<seq<T>>, i: nat): Option<T> {
    if batch.Some? && i < |batch.value| then Some(batch.value[i]) else None
  }

  /** `batch?.[i] ?? undefined` on a batch whose entries may be null. */
  function NullableAt<T>(batch: Option<seq<Option<T>>>, i: nat): Option<T> {
    match At(batch, i)
    case Some(entry) => entry
    case None => None
  }

  /** `ids[0] ?? []` */
  function FirstIds(raw: ChromaQueryResult): seq<string> {
    if |raw.ids| > 0 then raw.ids[0] else []
  }

  /** Whether rank mode is on: `returnRank` is truthy only when it is `true`. */
  predicate RankMode(returnRank: Option<bool>) {
    returnRank == Some(true)
  }

  /** The item built from source position i of the first batch. */
  function ItemAt(raw: ChromaQueryResult, i: nat, returnRank: Option<bool>): Item
    requires i < |FirstIds(raw)|
  {
    Item(
      FirstIds(raw)[i],
      NullableAt(FirstBatch(raw.documents), i),
      NullableAt(FirstBatch(raw.embeddings), i),
      NullableAt(FirstBatch(raw.metadatas), i),
      if RankMode(returnRank) then Some(i as real) else None,
      if RankMode(returnRank) then None else At(FirstBatch(raw.distances), i))
  }

  /** The items built from the first n source positions. */
  function TransformPrefix(raw: ChromaQueryResult, returnRank: Option<bool>, n: nat): seq<Item>
    requires n <= |FirstIds(raw)|
  {
    if n == 0 then []
    else
      TransformPrefix(raw, returnRank, n - 1)
      + (if FirstIds(raw)[n - 1] == "" then [] else [ItemAt(raw, n - 1, returnRank)])
  }

  /** What transforming a whole raw answer yields. */
  function Transform(raw: ChromaQueryResult, returnRank: Option<bool>): seq<Item> {
    TransformPrefix(raw, returnRank, |FirstIds(raw)|)
  }

  /** The source positions below n whose id is not empty, in order. */
  function KeptIndices(ids: seq<string>, n: nat): seq<nat>
    requires n <= |ids|
  {
    if n == 0 then []
    else KeptIndices(ids, n - 1) + (if ids[n - 1] == "" then [] else [n - 1])
  }

  /** The non-empty strings of s, in order. */
  function NonEmpty(s: seq<string>): seq<string> {
    if s == [] then []
    else (if s[0] == "" then [] else [s[0]]) + NonEmpty(s[1..])
  }

  method TransformQueryResults(raw: ChromaQueryResult, returnRank: Option<bool>) returns (results: seq<Item>)
    ensures results == Transform(raw, returnRank)
  {
    results := [];
    var ids := FirstIds(raw);
    var documents := FirstBatch(raw.documents);
    var embeddings := FirstBatch(raw.embeddings);
    var metadatas := FirstBatch(raw.metadatas);
    var distances := FirstBatch(raw.distances);
    for i := 0 to |ids|
      invariant results == TransformPrefix(raw, returnRank, i)
    {
      var id := ids[i];
      if id == "" {
        continue;
      }
      var metadata := NullableAt(metadatas, i);
      var item := Item(
        id,
        NullableAt(documents, i),
        NullableAt(embeddings, i),
        metadata,
        if RankMode(returnRank) then Some(i as real) else None,
        if RankMode(returnRank) then None else At(distances, i));
      results := results + [item];
    }
  }

  /** The kept positions are exactly the positions with a non-empty id, ascending. */
  lemma {:induction false} KeptIndicesExact(ids: seq<string>, n: nat)
    requires n <= |ids|
    ensures var kept := KeptIndices(ids, n);
      && (forall j :: 0 <= j < |kept| ==> kept[j] < n && ids[kept[j]] != "")
      && (forall j, l :: 0 <= j < l < |kept| ==> kept[j] < kept[l])
      && (forall i :: 0 <= i < n && ids[i] != "" ==> i in kept)
      && |kept| <= n
      && (forall j :: 0 <= j < |kept| ==> j <= kept[j])
  {
    KeptIndicesBounded(ids, n);
    KeptIndicesAscending(ids, n);
    KeptIndicesComplete(ids, n);
  }

  lemma {:induction false} KeptIndicesBounded(ids: seq<string>, n: nat)
    requires n <= |ids|
    ensures var kept := KeptIndices(ids, n);
      && |kept| <= n
      && (forall j :: 0 <= j < |kept| ==> j <= kept[j] < n && ids[kept[j]] != "")
  {
    if n > 0 {
      KeptIndicesBounded(ids, n - 1);
    }
  }

  lemma {:induction false} KeptIndicesAscending(ids: seq<string>, n: nat)
    requires n <= |ids|
    ensures var kept := KeptIndices(ids, n);
      forall j, l :: 0 <= j < l < |kept| ==> kept[j] < kept[l]
  {
    if n > 0 {
      KeptIndicesAscending(ids, n - 1);
      KeptIndicesBounded(ids, n - 1);
    }
  }

  lemma {:induction false} KeptIndicesComplete(ids: seq<string>, n: nat)
    requires n <= |ids|
    ensures forall i :: 0 <= i < n && ids[i] != "" ==> i in KeptIndices(ids, n)
  {
    if n > 0 {
      KeptIndicesComplete(ids, n - 1);
    }
  }

  /** Output item j is the item built from the j-th kept source position. */
  lemma {:induction false} TransformPrefixItems(raw: ChromaQueryResult, returnRank: Option<bool>, n: nat)
    requires n <= |FirstIds(raw)|
    ensures var out, kept := TransformPrefix(raw, returnRank, n), KeptIndices(FirstIds(raw), n);
      && |out| == |kept|
      && forall j :: 0 <= j < |out| ==> kept[j] < |FirstIds(raw)| && out[j] == ItemAt(raw, kept[j], returnRank)
  {
    if n > 0 {
      TransformPrefixItems(raw, returnRank, n - 1);
    }
  }

  lemma TransformItems(raw: ChromaQueryResult, returnRank: Option<bool>)
    ensures var out, kept := Transform(raw, returnRank), KeptIndices(FirstIds(raw), |FirstIds(raw)|);
      && |out| == |kept|
      && forall j :: 0 <= j < |out| ==> kept[j] < |FirstIds(raw)| && out[j] == ItemAt(raw, kept[j], returnRank)
  {
    TransformPrefixItems(raw, returnRank, |FirstIds(raw)|);
  }

  lemma {:induction false} NonEmptySnoc(s: seq<string>, x: string)
    ensures NonEmpty(s + [x]) == NonEmpty(s) + (if x == "" then [] else [x])
  {
    if s != [] {
      assert (s + [x])[1..] == s[1..] + [x];
      NonEmptySnoc(s[1..], x);
    } else {
      assert s + [x] == [x];
    }
  }

  lemma {:induction false} TransformPrefixIds(raw: ChromaQueryResult, returnRank: Option<bool>, n: nat)
    requires n <= |FirstIds(raw)|
    ensures Ids(TransformPrefix(raw, returnRank, n)) == NonEmpty(FirstIds(raw)[..n])
  {
    if n > 0 {
      var ids := FirstIds(raw);
      TransformPrefixIds(raw, returnRank, n - 1);
      assert ids[..n] == ids[..n - 1] + [ids[n - 1]];
      NonEmptySnoc(ids[..n - 1], ids[n - 1]);
      var prev := TransformPrefix(raw, returnRank, n - 1);
      if ids[n - 1] != "" {
        assert Ids(prev + [ItemAt(raw, n - 1, returnRank)]) == Ids(prev) + [ids[n - 1]];
      } else {
        assert prev + [] == prev;
      }
    }
  }

  /**
   * The output ids are exactly the non-empty ids of the first batch, in
   * order; so the output has one item per non-empty id.
   */
  lemma TransformIds(raw: ChromaQueryResult, returnRank: Option<bool>)
    ensures Ids(Transform(raw, returnRank)) == NonEmpty(FirstIds(raw))
    ensures |Transform(raw, returnRank)| == |NonEmpty(FirstIds(raw))|
  {
    TransformPrefixIds(raw, returnRank, |FirstIds(raw)|);
    assert FirstIds(raw)[..|FirstIds(raw)|] == FirstIds(raw);
  }

  /** Two raw answers with the same first batch give the same items: later batches are never read. */
  lemma TransformReadsFirstBatchOnly(raw1: ChromaQueryResult, raw2: ChromaQueryResult, returnRank: Option<bool>)
    requires FirstIds(raw1) == FirstIds(raw2)
    requires FirstBatch(raw1.documents) == FirstBatch(raw2.documents)
    requires FirstBatch(raw1.embeddings) == FirstBatch(raw2.embeddings)
    requires FirstBatch(raw1.metadatas) == FirstBatch(raw2.metadatas)
    requires FirstBatch(raw1.distances) == FirstBatch(raw2.distances)
    ensures Transform(raw1, returnRank) == Transform(raw2, returnRank)
  {
    TransformItems(raw1, returnRank);
    TransformItems(raw2, returnRank);
  }

  /** A nullable field read is absent exactly when the array is missing, too short, or holds null. */
  lemma NullableAtAbsent<T>(batch: Option<seq<Option<T>>>, i: nat)
    ensures NullableAt(batch, i).None? <==> batch.None? || i >= |batch.value| || batch.value[i].None?
    ensures NullableAt(batch, i).Some? ==> batch.value[i] == NullableAt(batch, i)
  {
  }

  /**
   * The fields of output item j come from the j-th kept source position i:
   * a missing array, a missing position or a null entry gives an absent field.
   * In rank mode the score is i itself (skipped positions count) and there is no
   * distance; otherwise there is no score and the distance is read at i.
   */
  lemma TransformFields(raw: ChromaQueryResult, returnRank: Option<bool>, j: nat)
    requires j < |Transform(raw, returnRank)|
    ensures var out, kept := Transform(raw, returnRank), KeptIndices(FirstIds(raw), |FirstIds(raw)|);
      j < |kept| && var i := kept[j];
      && j <= i < |FirstIds(raw)|
      && out[j].id == FirstIds(raw)[i] != ""
      && out[j].document == NullableAt(FirstBatch(raw.documents), i)
      && out[j].embedding == NullableAt(FirstBatch(raw.embeddings), i)
      && out[j].metadata == NullableAt(FirstBatch(raw.metadatas), i)
      && (RankMode(returnRank) ==> out[j].score == Some(i as real) && out[j].distance.None?)
      && (!RankMode(returnRank) ==> out[j].score.None? && out[j].distance == At(FirstBatch(raw.distances), i))
  {
    TransformItems(raw, returnRank);
    KeptIndicesExact(FirstIds(raw), |FirstIds(raw)|);
  }

  /** No ids (no batch at all, or an empty first batch) give no items. */
  lemma TransformEmpty(raw: ChromaQueryResult, returnRank: Option<bool>)
    requires raw.ids == [] || raw.ids[0] == []
    ensures Transform(raw, returnRank) == []
  {
  }

  /** In rank mode, with an empty id at position 1, the scores are 0 and 2. */
  lemma RankModeCountsSkippedPositions()
    ensures var raw := ChromaQueryResult([["doc1", "", "doc3"]], None, None, None, Some([[0.1, 0.2, 0.3]]));
      var out := Transform(raw, Some(true));
      Ids(out) == ["doc1", "doc3"] && out[0].score == Some(0.0) && out[1].score == Some(2.0)
      && out[0].distance.None? && out[1].distance.None?
  {
    var raw := ChromaQueryResult([["doc1", "", "doc3"]], None, None, None, Some([[0.1, 0.2, 0.3]]));
    assert FirstIds(raw) == ["doc1", "", "doc3"];
    assert TransformPrefix(raw, Some(true), 1) == [ItemAt(raw, 0, Some(true))];
    assert TransformPrefix(raw, Some(true), 2) == [ItemAt(raw, 0, Some(true))];
  }
}
