/**
 * Reciprocal Rank Fusion (packages/server/src/services/rrf-fusion.service.ts):
 * several ranked lists become one list without repeated ids. The item at
 * zero-based rank r of list q adds weight(q) / (k + r + 1) to its id's
 * sum; an id keeps the item data of its first occurrence; the output is
 * sorted by the sum, largest first, and its score is the negated sum.
 */
module RrfFusion {
  import opened Types
  import StableSort

  /** The fusion constant used when the clause gives none. */
  const DefaultK: int := 60

  /** What the score map holds for one id: the first item seen and its running sum. */
  datatype Ranked = Ranked(item: Item, rrfScore: real)

  /** The score map: its keys in insertion order, and what each key holds. */
  datatype ScoreTable = ScoreTable(order: seq<string>, entries: map<string, Ranked>)

  /** `weights.reduce((a, b) => a + b, 0)` */
  function Sum(ws: seq<real>): real {
    if ws == [] then 0.0 else ws[0] + Sum(ws[1..])
  }

  /** A copy of the clause's weights, or one weight 1 per list when it has none. */
  function GivenWeights(listCount: nat, config: RrfClause): seq<real> {
    if config.weights.Some? then config.weights.value else seq(listCount, _ => 1.0)
  }

  /** Whether the weights get divided by their sum. */
  predicate Normalizes(weights: seq<real>, config: RrfClause) {
    config.normalize == Some(true) && |weights| > 0
  }

  /**
   * What the fusion needs of its clause: a positive k when one is given (the
   * request schema demands it), and a non-zero weight sum when the weights
   * get normalized (the code divides by it unguarded).
   */
  predicate ValidConfig(listCount: nat, config: RrfClause) {
    && (config.k.Some? ==> config.k.value > 0)
    && (Normalizes(GivenWeights(listCount, config), config) ==> Sum(GivenWeights(listCount, config)) != 0.0)
  }

  /** `config.k ?? 60` */
  function EffectiveK(config: RrfClause): int {
    config.k.GetOr(DefaultK)
  }

  /** The weights after the optional normalization. */
  function EffectiveWeights(listCount: nat, config: RrfClause): (r: seq<real>)
    requires ValidConfig(listCount, config)
    ensures |r| == |GivenWeights(listCount, config)|
  {
    var ws := GivenWeights(listCount, config);
    if Normalizes(ws, config) then
      var sum := Sum(ws);
      seq(|ws|, j requires 0 <= j < |ws| => ws[j] / sum)
    else ws
  }

  /** `weights[queryIdx] ?? 1` */
  function Weight(weights: seq<real>, q: nat): real {
    if q < |weights| then weights[q] else 1.0
  }

  /** What the item at zero-based rank `rank` of a list with weight `weight` adds. */
  function Contribution(weight: real, k: int, rank: nat): real
    requires k > 0
  {
    weight / ((k + rank + 1) as real)
  }

  /** One step of the nested loops: add to the id's sum, or enter the id with this item. */
  function Visit(t: ScoreTable, item: Item, contribution: real): ScoreTable {
    if item.id in t.entries then
      ScoreTable(t.order, t.entries[item.id := Ranked(t.entries[item.id].item, t.entries[item.id].rrfScore + contribution)])
    else
      ScoreTable(t.order + [item.id], t.entries[item.id := Ranked(item, contribution)])
  }

  /** (q, r) names a point of the nested loops: before rank r of list q, or the end. */
  predicate InRange(lists: seq<seq<Item>>, q: nat, r: nat) {
    if q < |lists| then r <= |lists[q]| else q == |lists| && r == 0
  }

  /** The score map once every position before (q, r) has been visited. */
  function TableAt(lists: seq<seq<Item>>, weights: seq<real>, k: int, q: nat, r: nat): (t: ScoreTable)
    requires InRange(lists, q, r) && k > 0
    ensures forall id :: id in t.order <==> id in t.entries
    decreases q, r
  {
    if r > 0 then
      Visit(TableAt(lists, weights, k, q, r - 1), lists[q][r - 1], Contribution(Weight(weights, q), k, r - 1))
    else if q > 0 then
      TableAt(lists, weights, k, q - 1, |lists[q - 1]|)
    else
      ScoreTable([], map[])
  }

  /** The map's values in insertion order: `Array.from(scoreMap.values())`. */
  function Entries(t: ScoreTable): seq<Ranked>
    requires forall id :: id in t.order ==> id in t.entries
  {
    seq(|t.order|, j requires 0 <= j < |t.order| => t.entries[t.order[j]])
  }

  /** `(a, b) => b.rrfScore - a.rrfScore`, by its sign: larger sums go first. */
  function ByScoreDesc(a: Ranked, b: Ranked): int {
    if b.rrfScore > a.rrfScore then 1 else if b.rrfScore < a.rrfScore then -1 else 0
  }

  /** `{ ...item, score: -rrfScore }` */
  function Output(r: Ranked): Item {
    r.item.(score := Some(-r.rrfScore))
  }

  /** The score map after every list has been visited. */
  function FinalTable(lists: seq<seq<Item>>, config: RrfClause): ScoreTable
    requires ValidConfig(|lists|, config)
  {
    TableAt(lists, EffectiveWeights(|lists|, config), EffectiveK(config), |lists|, 0)
  }

  /** What fusing the lists yields. */
  function Fuse(lists: seq<seq<Item>>, config: RrfClause): seq<Item>
    requires ValidConfig(|lists|, config)
  {
    var sorted := StableSort.Sort(Entries(FinalTable(lists, config)), ByScoreDesc);
    seq(|sorted|, j requires 0 <= j < |sorted| => Output(sorted[j]))
  }

  method Process(lists: seq<seq<Item>>, config: RrfClause) returns (fused: seq<Item>)
    requires ValidConfig(|lists|, config)
    ensures fused == Fuse(lists, config)
  {
    var k := config.k.GetOr(DefaultK);
    var weights := if config.weights.Some? then config.weights.value else seq(|lists|, _ => 1.0);
    if config.normalize == Some(true) && |weights| > 0 {
      var sum := Sum(weights);
      weights := seq(|weights|, j requires 0 <= j < |weights| => weights[j] / sum);
    }
    assert weights == EffectiveWeights(|lists|, config) && k == EffectiveK(config);
    var order, entries := AccumulateScores(lists, weights, k);
    var values := seq(|order|, j requires 0 <= j < |order| => entries[order[j]]);
    assert values == Entries(FinalTable(lists, config));
    var sorted := StableSort.Sort(values, ByScoreDesc);
    fused := seq(|sorted|, j requires 0 <= j < |sorted| => Output(sorted[j]));
  }

  /** The nested loops filling the score map: its keys in insertion order, and its entries. */
  method AccumulateScores(lists: seq<seq<Item>>, weights: seq<real>, k: int) returns (order: seq<string>, entries: map<string, Ranked>)
    requires k > 0
    ensures ScoreTable(order, entries) == TableAt(lists, weights, k, |lists|, 0)
  {
    order, entries := [], map[];
    for q := 0 to |lists|
      invariant ScoreTable(order, entries) == TableAt(lists, weights, k, q, 0)
    {
      var results := lists[q];
      var weight := if q < |weights| then weights[q] else 1.0;
      for rank := 0 to |results|
        invariant ScoreTable(order, entries) == TableAt(lists, weights, k, q, rank)
      {
        var item := results[rank];
        var contribution := weight / ((k + rank + 1) as real);
        ghost var next := Visit(ScoreTable(order, entries), item, contribution);
        assert next == TableAt(lists, weights, k, q, rank + 1);
        if item.id in entries {
          var existing := entries[item.id];
          entries := entries[item.id := existing.(rrfScore := existing.rrfScore + contribution)];
        } else {
          order := order + [item.id];
          entries := entries[item.id := Ranked(item, contribution)];
        }
        assert ScoreTable(order, entries) == next;
      }
    }
  }

  // ---------------------------------------------------------------------
  // Reference definitions: positions, first occurrences, the score formula
  // ---------------------------------------------------------------------

  /** Position (q', r') is visited before (q, r). */
  predicate Before(q': nat, r': nat, q: nat, r: nat) {
    q' < q || (q' == q && r' < r)
  }

  /** Some position visited before (q, r) holds id. */
  ghost predicate SeenBefore(lists: seq<seq<Item>>, id: string, q: nat, r: nat) {
    exists q': nat, r': nat :: q' < |lists| && r' < |lists[q']| && Before(q', r', q, r) && lists[q'][r'].id == id
  }

  /** Some list holds id. */
  ghost predicate InSomeList(lists: seq<seq<Item>>, id: string) {
    exists q: nat, r: nat :: q < |lists| && r < |lists[q]| && lists[q][r].id == id
  }

  /** x sits at a position no earlier position shares its id with. */
  ghost predicate FirstSeen(lists: seq<seq<Item>>, x: Item) {
    exists q: nat, r: nat :: q < |lists| && r < |lists[q]| && lists[q][r] == x && !SeenBefore(lists, x.id, q, r)
  }

  /** The sum, over the positions before (q, r) that hold id, of weight / (k + rank + 1). */
  function ReciprocalRankSum(lists: seq<seq<Item>>, weights: seq<real>, k: int, id: string, q: nat, r: nat): real
    requires InRange(lists, q, r) && k > 0
    decreases q, r
  {
    if r > 0 then
      ReciprocalRankSum(lists, weights, k, id, q, r - 1)
      + (if lists[q][r - 1].id == id then Contribution(Weight(weights, q), k, r - 1) else 0.0)
    else if q > 0 then
      ReciprocalRankSum(lists, weights, k, id, q - 1, |lists[q - 1]|)
    else 0.0
  }

  /** The fused score the formula -sum(weight_q / (k + rank_q + 1)) gives id. */
  function RrfScore(lists: seq<seq<Item>>, config: RrfClause, id: string): real
    requires ValidConfig(|lists|, config)
  {
    -ReciprocalRankSum(lists, EffectiveWeights(|lists|, config), EffectiveK(config), id, |lists|, 0)
  }

  lemma SeenBeforeNext(lists: seq<seq<Item>>, id: string, q: nat, r: nat)
    requires q < |lists| && r < |lists[q]|
    ensures SeenBefore(lists, id, q, r + 1) <==> SeenBefore(lists, id, q, r) || lists[q][r].id == id
  {
    if SeenBefore(lists, id, q, r + 1) {
      var q': nat, r': nat :| q' < |lists| && r' < |lists[q']| && Before(q', r', q, r + 1) && lists[q'][r'].id == id;
      if !Before(q', r', q, r) {
        assert q' == q && r' == r;
      }
    }
    if lists[q][r].id == id {
      assert Before(q, r, q, r + 1);
    }
    if SeenBefore(lists, id, q, r) {
      var q': nat, r': nat :| q' < |lists| && r' < |lists[q']| && Before(q', r', q, r) && lists[q'][r'].id == id;
      assert Before(q', r', q, r + 1);
    }
  }

  lemma SeenBeforeNextList(lists: seq<seq<Item>>, id: string, q: nat)
    requires q < |lists|
    ensures SeenBefore(lists, id, q + 1, 0) <==> SeenBefore(lists, id, q, |lists[q]|)
  {
    if SeenBefore(lists, id, q + 1, 0) {
      var q': nat, r': nat :| q' < |lists| && r' < |lists[q']| && Before(q', r', q + 1, 0) && lists[q'][r'].id == id;
      assert Before(q', r', q, |lists[q]|);
    }
    if SeenBefore(lists, id, q, |lists[q]|) {
      var q': nat, r': nat :| q' < |lists| && r' < |lists[q']| && Before(q', r', q, |lists[q]|) && lists[q'][r'].id == id;
      assert Before(q', r', q + 1, 0);
    }
  }

  /** An id no visited position holds has a zero sum. */
  lemma {:induction false} UnseenSumIsZero(lists: seq<seq<Item>>, weights: seq<real>, k: int, id: string, q: nat, r: nat)
    requires InRange(lists, q, r) && k > 0
    requires !SeenBefore(lists, id, q, r)
    ensures ReciprocalRankSum(lists, weights, k, id, q, r) == 0.0
    decreases q, r
  {
    if r > 0 {
      SeenBeforeNext(lists, id, q, r - 1);
      UnseenSumIsZero(lists, weights, k, id, q, r - 1);
    } else if q > 0 {
      SeenBeforeNextList(lists, id, q - 1);
      UnseenSumIsZero(lists, weights, k, id, q - 1, |lists[q - 1]|);
    }
  }

  /**
   * The invariant of the nested loops at point (q, r): the map's keys,
   * without repeats, are the ids seen so far; each holds the item of its
   * first occurrence and the sum of its contributions so far. (The order of
   * the keys is OrderFirstSeen, proved separately.)
   */
  ghost predicate LoopInvariant(lists: seq<seq<Item>>, weights: seq<real>, k: int, q: nat, r: nat, t: ScoreTable)
    requires InRange(lists, q, r) && k > 0
  {
    && StableSort.NoRepeats(t.order)
    && (forall id :: id in t.order <==> id in t.entries)
    && (forall id :: id in t.entries <==> SeenBefore(lists, id, q, r))
    && (forall id :: id in t.entries ==> t.entries[id].item.id == id && FirstSeen(lists, t.entries[id].item))
    && (forall id :: id in t.entries ==> t.entries[id].rrfScore == ReciprocalRankSum(lists, weights, k, id, q, r))
  }

  /** Visiting position (q, r) keeps the invariant. */
  lemma VisitKeeps(lists: seq<seq<Item>>, weights: seq<real>, k: int, q: nat, r: nat, t: ScoreTable)
    requires q < |lists| && r < |lists[q]| && k > 0
    requires LoopInvariant(lists, weights, k, q, r, t)
    ensures LoopInvariant(lists, weights, k, q, r + 1, Visit(t, lists[q][r], Contribution(Weight(weights, q), k, r)))
  {
    VisitKeepsKeys(lists, weights, k, q, r, t);
    VisitKeepsItems(lists, weights, k, q, r, t);
    VisitKeepsSums(lists, weights, k, q, r, t);
  }

  lemma VisitKeepsKeys(lists: seq<seq<Item>>, weights: seq<real>, k: int, q: nat, r: nat, t: ScoreTable)
    requires q < |lists| && r < |lists[q]| && k > 0
    requires LoopInvariant(lists, weights, k, q, r, t)
    ensures var t' := Visit(t, lists[q][r], Contribution(Weight(weights, q), k, r));
      && StableSort.NoRepeats(t'.order)
      && (forall id :: id in t'.order <==> id in t'.entries)
      && (forall id :: id in t'.entries <==> SeenBefore(lists, id, q, r + 1))
  {
    var x := lists[q][r];
    var t' := Visit(t, x, Contribution(Weight(weights, q), k, r));
    forall id ensures SeenBefore(lists, id, q, r + 1) <==> SeenBefore(lists, id, q, r) || x.id == id {
      SeenBeforeNext(lists, id, q, r);
    }
    if x.id !in t.entries {
      assert t'.order == t.order + [x.id];
      forall i, j | 0 <= i < j < |t'.order| ensures t'.order[i] != t'.order[j] {
        if j == |t.order| {
          assert t'.order[i] == t.order[i];
        }
      }
    }
  }

  lemma VisitKeepsItems(lists: seq<seq<Item>>, weights: seq<real>, k: int, q: nat, r: nat, t: ScoreTable)
    requires q < |lists| && r < |lists[q]| && k > 0
    requires LoopInvariant(lists, weights, k, q, r, t)
    ensures var t' := Visit(t, lists[q][r], Contribution(Weight(weights, q), k, r));
      forall id :: id in t'.entries ==> t'.entries[id].item.id == id && FirstSeen(lists, t'.entries[id].item)
  {
    var x := lists[q][r];
    if x.id !in t.entries {
      assert FirstSeen(lists, x) by {
        assert lists[q][r] == x && !SeenBefore(lists, x.id, q, r);
      }
    }
  }

  lemma VisitKeepsSums(lists: seq<seq<Item>>, weights: seq<real>, k: int, q: nat, r: nat, t: ScoreTable)
    requires q < |lists| && r < |lists[q]| && k > 0
    requires LoopInvariant(lists, weights, k, q, r, t)
    ensures var t' := Visit(t, lists[q][r], Contribution(Weight(weights, q), k, r));
      forall id :: id in t'.entries ==> t'.entries[id].rrfScore == ReciprocalRankSum(lists, weights, k, id, q, r + 1)
  {
    var x := lists[q][r];
    if x.id !in t.entries {
      UnseenSumIsZero(lists, weights, k, x.id, q, r);
    }
  }

  /** Moving from the end of list q to the start of list q + 1 keeps the invariant. */
  lemma NextListKeeps(lists: seq<seq<Item>>, weights: seq<real>, k: int, q: nat, t: ScoreTable)
    requires q < |lists| && k > 0
    requires LoopInvariant(lists, weights, k, q, |lists[q]|, t)
    ensures LoopInvariant(lists, weights, k, q + 1, 0, t)
  {
    forall id ensures SeenBefore(lists, id, q + 1, 0) <==> SeenBefore(lists, id, q, |lists[q]|) {
      SeenBeforeNextList(lists, id, q);
    }
  }

  /** The score map at every point of the nested loops satisfies the invariant. */
  lemma {:induction false} TableAtFacts(lists: seq<seq<Item>>, weights: seq<real>, k: int, q: nat, r: nat)
    requires InRange(lists, q, r) && k > 0
    ensures LoopInvariant(lists, weights, k, q, r, TableAt(lists, weights, k, q, r))
    decreases q, r
  {
    if r > 0 {
      TableAtFacts(lists, weights, k, q, r - 1);
      VisitKeeps(lists, weights, k, q, r - 1, TableAt(lists, weights, k, q, r - 1));
    } else if q > 0 {
      TableAtFacts(lists, weights, k, q - 1, |lists[q - 1]|);
      NextListKeeps(lists, weights, k, q - 1, TableAt(lists, weights, k, q - 1, |lists[q - 1]|));
    }
  }

  /** Before (q, r), every position that holds y comes after some position that holds x. */
  ghost predicate SeenFirstBy(lists: seq<seq<Item>>, x: string, y: string, q: nat, r: nat) {
    forall q': nat, r': nat :: q' < |lists| && r' < |lists[q']| && Before(q', r', q, r) && lists[q'][r'].id == y
      ==> SeenBefore(lists, x, q', r')
  }

  /** The map's key order is the order in which the ids were first seen. */
  ghost predicate OrderFirstSeen(lists: seq<seq<Item>>, q: nat, r: nat, t: ScoreTable) {
    forall i, j :: 0 <= i < j < |t.order| ==> SeenFirstBy(lists, t.order[i], t.order[j], q, r)
  }

  /** Visiting position (q, r) keeps the key order first-seen. */
  lemma VisitKeepsOrder(lists: seq<seq<Item>>, weights: seq<real>, k: int, q: nat, r: nat, t: ScoreTable)
    requires q < |lists| && r < |lists[q]| && k > 0
    requires LoopInvariant(lists, weights, k, q, r, t) && OrderFirstSeen(lists, q, r, t)
    ensures OrderFirstSeen(lists, q, r + 1, Visit(t, lists[q][r], Contribution(Weight(weights, q), k, r)))
  {
    var t' := Visit(t, lists[q][r], Contribution(Weight(weights, q), k, r));
    forall i, j | 0 <= i < j < |t'.order| ensures SeenFirstBy(lists, t'.order[i], t'.order[j], q, r + 1) {
      VisitKeepsPair(lists, weights, k, q, r, t, i, j);
    }
  }

  lemma VisitKeepsPair(lists: seq<seq<Item>>, weights: seq<real>, k: int, q: nat, r: nat, t: ScoreTable, i: nat, j: nat)
    requires q < |lists| && r < |lists[q]| && k > 0
    requires LoopInvariant(lists, weights, k, q, r, t) && OrderFirstSeen(lists, q, r, t)
    requires i < j < |Visit(t, lists[q][r], Contribution(Weight(weights, q), k, r)).order|
    ensures var t' := Visit(t, lists[q][r], Contribution(Weight(weights, q), k, r));
      SeenFirstBy(lists, t'.order[i], t'.order[j], q, r + 1)
  {
    var t' := Visit(t, lists[q][r], Contribution(Weight(weights, q), k, r));
    var a, b := t'.order[i], t'.order[j];
    assert a == t.order[i] && a in t.entries;
    assert SeenBefore(lists, a, q, r);
    forall q': nat, r': nat | q' < |lists| && r' < |lists[q']| && Before(q', r', q, r + 1) && lists[q'][r'].id == b
      ensures SeenBefore(lists, a, q', r')
    {
      if j == |t.order| {
        assert b == lists[q][r].id && b !in t.entries;
        assert !SeenBefore(lists, b, q, r);
        assert q' == q && r' == r;
      } else if !(q' == q && r' == r) {
        assert b == t.order[j] && Before(q', r', q, r);
        assert SeenFirstBy(lists, t.order[i], t.order[j], q, r);
      }
    }
  }

  /** Moving on to the next list keeps the key order first-seen. */
  lemma NextListKeepsOrder(lists: seq<seq<Item>>, q: nat, t: ScoreTable)
    requires q < |lists|
    requires OrderFirstSeen(lists, q, |lists[q]|, t)
    ensures OrderFirstSeen(lists, q + 1, 0, t)
  {
    forall i, j | 0 <= i < j < |t.order| ensures SeenFirstBy(lists, t.order[i], t.order[j], q + 1, 0) {
      assert SeenFirstBy(lists, t.order[i], t.order[j], q, |lists[q]|);
      forall q': nat, r': nat | q' < |lists| && r' < |lists[q']| && Before(q', r', q + 1, 0) && lists[q'][r'].id == t.order[j]
        ensures SeenBefore(lists, t.order[i], q', r')
      {
        assert Before(q', r', q, |lists[q]|);
      }
    }
  }

  /** At every point of the nested loops the map's keys are in first-seen order. */
  lemma {:induction false} TableAtOrder(lists: seq<seq<Item>>, weights: seq<real>, k: int, q: nat, r: nat)
    requires InRange(lists, q, r) && k > 0
    ensures OrderFirstSeen(lists, q, r, TableAt(lists, weights, k, q, r))
    decreases q, r
  {
    if r > 0 {
      TableAtOrder(lists, weights, k, q, r - 1);
      TableAtFacts(lists, weights, k, q, r - 1);
      VisitKeepsOrder(lists, weights, k, q, r - 1, TableAt(lists, weights, k, q, r - 1));
    } else if q > 0 {
      TableAtOrder(lists, weights, k, q - 1, |lists[q - 1]|);
      NextListKeepsOrder(lists, q - 1, TableAt(lists, weights, k, q - 1, |lists[q - 1]|));
    }
  }

  /** The map's values have no repeats, and each is what the map holds for its own id. */
  lemma EntriesFacts(lists: seq<seq<Item>>, weights: seq<real>, k: int, q: nat, r: nat)
    requires InRange(lists, q, r) && k > 0
    ensures var t := TableAt(lists, weights, k, q, r);
      && StableSort.NoRepeats(Entries(t))
      && (forall e :: e in Entries(t) ==> e.item.id in t.entries && t.entries[e.item.id] == e)
      && (forall id :: id in t.entries ==> t.entries[id] in Entries(t))
  {
    TableAtFacts(lists, weights, k, q, r);
    var t := TableAt(lists, weights, k, q, r);
    var es := Entries(t);
    forall i, j | 0 <= i < j < |es| ensures es[i] != es[j] {
      assert es[i].item.id == t.order[i] && es[j].item.id == t.order[j];
    }
    forall e | e in es ensures e.item.id in t.entries && t.entries[e.item.id] == e {
      var i :| 0 <= i < |es| && es[i] == e;
      assert e == t.entries[t.order[i]];
    }
    forall id | id in t.entries ensures t.entries[id] in es {
      var i :| 0 <= i < |t.order| && t.order[i] == id;
      assert es[i] == t.entries[id];
    }
  }

  /** ByScoreDesc is a total preorder: it compares real sums. */
  lemma ByScoreDescTotal(u: seq<Ranked>)
    ensures StableSort.TotalPreorderOn(u, ByScoreDesc)
  {
    forall a, b | a in u && b in u ensures StableSort.AntisymmetricAt(ByScoreDesc, a, b) {
    }
    forall a, b, c | a in u && b in u && c in u ensures StableSort.TransitiveAt(ByScoreDesc, a, b, c) {
    }
  }

  /** The sorted map values Fuse outputs, and how they sit in the final map. */
  lemma SortedEntriesFacts(lists: seq<seq<Item>>, config: RrfClause)
    requires ValidConfig(|lists|, config)
    ensures var t := FinalTable(lists, config);
      var sorted := StableSort.Sort(Entries(t), ByScoreDesc);
      && StableSort.NoRepeats(sorted)
      && (forall e :: e in sorted <==> e.item.id in t.entries && t.entries[e.item.id] == e)
      && (forall id :: id in t.entries <==> InSomeList(lists, id))
      && (forall id :: id in t.entries ==> t.entries[id].item.id == id && FirstSeen(lists, t.entries[id].item))
      && (forall id :: id in t.entries ==> -t.entries[id].rrfScore == RrfScore(lists, config, id))
  {
    var weights, k := EffectiveWeights(|lists|, config), EffectiveK(config);
    var t := FinalTable(lists, config);
    var es := Entries(t);
    var sorted := StableSort.Sort(es, ByScoreDesc);
    TableAtFacts(lists, weights, k, |lists|, 0);
    EntriesFacts(lists, weights, k, |lists|, 0);
    StableSort.SortNoRepeats(es, ByScoreDesc);
    forall e ensures e in sorted <==> e.item.id in t.entries && t.entries[e.item.id] == e {
      StableSort.SortMember(es, ByScoreDesc, e);
    }
    forall id ensures SeenBefore(lists, id, |lists|, 0) <==> InSomeList(lists, id) {
      if InSomeList(lists, id) {
        var q: nat, r: nat :| q < |lists| && r < |lists[q]| && lists[q][r].id == id;
        assert Before(q, r, |lists|, 0);
      }
    }
  }

  /** The output holds each id of the input lists exactly once, and no other id. */
  lemma FuseIds(lists: seq<seq<Item>>, config: RrfClause)
    requires ValidConfig(|lists|, config)
    ensures StableSort.NoRepeats(Ids(Fuse(lists, config)))
    ensures forall id :: id in Ids(Fuse(lists, config)) <==> InSomeList(lists, id)
  {
    FuseIdsDistinct(lists, config);
    FuseIdsCover(lists, config);
  }

  /** No id is output twice. */
  lemma FuseIdsDistinct(lists: seq<seq<Item>>, config: RrfClause)
    requires ValidConfig(|lists|, config)
    ensures StableSort.NoRepeats(Ids(Fuse(lists, config)))
  {
    SortedEntriesFacts(lists, config);
    var t := FinalTable(lists, config);
    var sorted := StableSort.Sort(Entries(t), ByScoreDesc);
    var out := Fuse(lists, config);
    forall i, j | 0 <= i < j < |out| ensures out[i].id != out[j].id {
      assert sorted[i] in sorted && sorted[j] in sorted;
      assert out[i].id == sorted[i].item.id && out[j].id == sorted[j].item.id;
    }
  }

  /** The output ids are exactly the ids of the input lists. */
  lemma FuseIdsCover(lists: seq<seq<Item>>, config: RrfClause)
    requires ValidConfig(|lists|, config)
    ensures forall id :: id in Ids(Fuse(lists, config)) <==> InSomeList(lists, id)
  {
    forall id ensures id in Ids(Fuse(lists, config)) <==> InSomeList(lists, id) {
      FuseHasId(lists, config, id);
    }
  }

  /** One id is output exactly when it is in some input list. */
  lemma FuseHasId(lists: seq<seq<Item>>, config: RrfClause, id: string)
    requires ValidConfig(|lists|, config)
    ensures id in Ids(Fuse(lists, config)) <==> InSomeList(lists, id)
  {
    SortedEntriesFacts(lists, config);
    var t := FinalTable(lists, config);
    var sorted := StableSort.Sort(Entries(t), ByScoreDesc);
    var out := Fuse(lists, config);
    if id in Ids(out) {
      var j :| 0 <= j < |out| && Ids(out)[j] == id;
      assert sorted[j] in sorted;
    }
    if InSomeList(lists, id) {
      assert t.entries[id] in sorted;
      var j :| 0 <= j < |sorted| && sorted[j] == t.entries[id];
      assert Ids(out)[j] == id;
    }
  }

  /**
   * Output item j is the item at the first position holding its id, with
   * the score replaced by the negated sum of all that id's contributions.
   * Every other field (document, embedding, metadata, distance) is the
   * first occurrence's.
   */
  lemma FuseItem(lists: seq<seq<Item>>, config: RrfClause, j: nat)
    requires ValidConfig(|lists|, config)
    requires j < |Fuse(lists, config)|
    ensures var o := Fuse(lists, config)[j];
      exists q: nat, r: nat :: q < |lists| && r < |lists[q]| && lists[q][r].id == o.id
        && !SeenBefore(lists, o.id, q, r)
        && o == lists[q][r].(score := Some(RrfScore(lists, config, o.id)))
  {
    var t := FinalTable(lists, config);
    var sorted := StableSort.Sort(Entries(t), ByScoreDesc);
    var o := Fuse(lists, config)[j];
    var e := sorted[j];
    assert o == Output(e);
    assert e.item.id == o.id && FirstSeen(lists, e.item) && -e.rrfScore == RrfScore(lists, config, o.id) by {
      SortedEntriesFacts(lists, config);
      assert e in sorted;
    }
    var q: nat, r: nat :| q < |lists| && r < |lists[q]| && lists[q][r] == e.item && !SeenBefore(lists, o.id, q, r);
  }

  /** Every output item has a score, and scores never decrease along the output. */
  lemma FuseScoresNonDecreasing(lists: seq<seq<Item>>, config: RrfClause)
    requires ValidConfig(|lists|, config)
    ensures var out := Fuse(lists, config);
      && (forall j :: 0 <= j < |out| ==> out[j].score.Some?)
      && (forall i, j :: 0 <= i < j < |out| ==> out[i].score.value <= out[j].score.value)
  {
    var es := Entries(FinalTable(lists, config));
    ByScoreDescTotal(es);
    StableSort.SortSorted(es, ByScoreDesc);
    var sorted := StableSort.Sort(es, ByScoreDesc);
    var out := Fuse(lists, config);
    forall i, j | 0 <= i < j < |out| ensures out[i].score.value <= out[j].score.value {
      assert ByScoreDesc(sorted[i], sorted[j]) <= 0;
    }
  }

  /**
   * Entries with equal sums keep the score map's insertion order: the sort
   * is stable. FuseTiesInFirstSeenOrder restates this in terms of positions.
   */
  lemma FuseTiesKeepInsertionOrder(lists: seq<seq<Item>>, config: RrfClause, v: Ranked)
    requires ValidConfig(|lists|, config)
    requires v in Entries(FinalTable(lists, config))
    ensures var es := Entries(FinalTable(lists, config));
      StableSort.TieClass(StableSort.Sort(es, ByScoreDesc), v, ByScoreDesc) == StableSort.TieClass(es, v, ByScoreDesc)
  {
    var es := Entries(FinalTable(lists, config));
    ByScoreDescTotal(es);
    StableSort.SortStable(es, v, ByScoreDesc);
  }

  /**
   * Of two outputs with equal scores, the earlier one's id was seen first:
   * every position holding the later id comes after a position holding
   * the earlier one.
   */
  lemma FuseTiesInFirstSeenOrder(lists: seq<seq<Item>>, config: RrfClause, a: nat, b: nat)
    requires ValidConfig(|lists|, config)
    requires a < b < |Fuse(lists, config)|
    requires Fuse(lists, config)[a].score == Fuse(lists, config)[b].score
    ensures SeenFirstBy(lists, Fuse(lists, config)[a].id, Fuse(lists, config)[b].id, |lists|, 0)
  {
    var weights, k := EffectiveWeights(|lists|, config), EffectiveK(config);
    var t := FinalTable(lists, config);
    var es := Entries(t);
    var sorted := StableSort.Sort(es, ByScoreDesc);
    var out := Fuse(lists, config);
    var x, y := sorted[a], sorted[b];
    assert out[a] == Output(x) && out[b] == Output(y);
    assert x.rrfScore == y.rrfScore;
    assert StableSort.Precedes(sorted, x, y);
    StableSort.SortMember(es, ByScoreDesc, x);
    ByScoreDescTotal(es);
    StableSort.SortKeepsTiedPairs(es, ByScoreDesc, x, y);
    var i, j :| 0 <= i < j < |es| && es[i] == x && es[j] == y;
    TableAtFacts(lists, weights, k, |lists|, 0);
    TableAtOrder(lists, weights, k, |lists|, 0);
    assert x.item.id == t.order[i] && y.item.id == t.order[j];
  }

  lemma {:induction false} SumScaled(ws: seq<real>, sum: real)
    requires sum != 0.0
    ensures Sum(seq(|ws|, j requires 0 <= j < |ws| => ws[j] / sum)) == Sum(ws) / sum
  {
    if ws != [] {
      var scaled := seq(|ws|, j requires 0 <= j < |ws| => ws[j] / sum);
      var tail := ws[1..];
      assert scaled[1..] == seq(|tail|, j requires 0 <= j < |tail| => tail[j] / sum);
      SumScaled(tail, sum);
      assert Sum(scaled) == ws[0] / sum + Sum(tail) / sum;
      DivAdd(ws[0], Sum(tail), sum);
    }
  }

  lemma DivAdd(a: real, b: real, s: real)
    requires s != 0.0
    ensures a / s + b / s == (a + b) / s
  {
  }

  lemma {:induction false} SumOnes(n: nat)
    ensures Sum(seq(n, _ => 1.0)) == n as real
  {
    if n > 0 {
      assert seq(n, _ => 1.0)[1..] == seq(n - 1, _ => 1.0);
      SumOnes(n - 1);
    }
  }

  /** With normalize set and at least one weight, the weights used sum to 1. */
  lemma NormalizedWeightsSumToOne(listCount: nat, config: RrfClause)
    requires ValidConfig(listCount, config)
    requires config.normalize == Some(true) && |GivenWeights(listCount, config)| > 0
    ensures Sum(EffectiveWeights(listCount, config)) == 1.0
  {
    var ws := GivenWeights(listCount, config);
    SumScaled(ws, Sum(ws));
  }

  /**
   * The weight list q gets: the given weight, 1 past the end of the given
   * weights, 1 for every list when none are given; divided by the weight sum
   * when normalizing, which with no weights given makes each 1/listCount.
   */
  lemma ListWeight(listCount: nat, config: RrfClause, q: nat)
    requires ValidConfig(listCount, config)
    ensures var w, ws := Weight(EffectiveWeights(listCount, config), q), GivenWeights(listCount, config);
      && (q >= |ws| ==> w == 1.0)
      && (q < |ws| && config.normalize != Some(true) ==> w == ws[q])
      && (q < |ws| && config.normalize == Some(true) ==> w == ws[q] / Sum(ws))
      && (config.weights.None? && q < listCount && config.normalize != Some(true) ==> w == 1.0)
      && (config.weights.None? && q < listCount && config.normalize == Some(true) ==> w == 1.0 / (listCount as real))
  {
    if config.weights.None? {
      SumOnes(listCount);
    }
  }

  /** A lone item at rank 0 of a single list with weight 1 scores -1/(k + 1). */
  lemma FuseLoneItem(item: Item, config: RrfClause)
    requires ValidConfig(1, config) && EffectiveWeights(1, config) == [1.0]
    ensures Fuse([[item]], config) == [item.(score := Some(-(1.0 / ((EffectiveK(config) + 1) as real))))]
  {
    var k := EffectiveK(config);
    var t := FinalTable([[item]], config);
    assert t == TableAt([[item]], [1.0], k, 0, 1);
    assert Entries(t) == [Ranked(item, 1.0 / ((k + 1) as real))];
  }

  /** A lone item at rank 0 scores -1/61 with the default k. */
  lemma LoneItemScore()
    ensures var item := Item("doc1", None, None, None, None, None);
      Fuse([[item]], RrfClause([], None, None, None)) == [item.(score := Some(-1.0 / 61.0))]
  {
    var item := Item("doc1", None, None, None, None, None);
    var config := RrfClause([], None, None, None);
    assert EffectiveWeights(1, config) == [1.0];
    FuseLoneItem(item, config);
  }

  /** A lone item at rank 0 scores -1/11 with k = 10. */
  lemma LoneItemCustomK()
    ensures var item := Item("doc1", None, None, None, None, None);
      Fuse([[item]], RrfClause([], Some(10), None, None)) == [item.(score := Some(-1.0 / 11.0))]
  {
    var item := Item("doc1", None, None, None, None, None);
    var config := RrfClause([], Some(10), None, None);
    assert EffectiveWeights(1, config) == [1.0];
    FuseLoneItem(item, config);
  }

  /**
   * The same id at rank 0 of two lists scores -2/61, and keeps the first
   * occurrence's distance.
   */
  lemma RepeatedIdSumsAndKeepsFirst()
    ensures var first, second := Item("doc1", None, None, None, None, Some(0.1)), Item("doc1", None, None, None, None, Some(0.2));
      Fuse([[first], [second]], RrfClause([], None, None, None)) == [first.(score := Some(-2.0 / 61.0))]
  {
    var first, second := Item("doc1", None, None, None, None, Some(0.1)), Item("doc1", None, None, None, None, Some(0.2));
    var lists, config := [[first], [second]], RrfClause([], None, None, None);
    assert EffectiveWeights(2, config) == [1.0, 1.0];
    var t1 := TableAt(lists, [1.0, 1.0], 60, 0, 1);
    assert t1 == ScoreTable(["doc1"], map["doc1" := Ranked(first, 1.0 / 61.0)]);
    assert TableAt(lists, [1.0, 1.0], 60, 1, 0) == t1;
    var t2 := TableAt(lists, [1.0, 1.0], 60, 1, 1);
    assert t2 == ScoreTable(["doc1"], map["doc1" := Ranked(first, 2.0 / 61.0)]);
    assert FinalTable(lists, config) == t2;
    assert Entries(t2) == [Ranked(first, 2.0 / 61.0)];
  }

  /** Two one-item lists with equal weights w: the final map holds both ids with sum w/61, doc1 first. */
  lemma EqualWeightTable(a: Item, b: Item, w: real)
    requires a.id == "doc1" && b.id == "doc2"
    ensures Entries(TableAt([[a], [b]], [w, w], 60, 2, 0)) == [Ranked(a, w / 61.0), Ranked(b, w / 61.0)]
  {
    var lists := [[a], [b]];
    EqualWeightFirstList(a, b, w);
    var t1 := TableAt(lists, [w, w], 60, 1, 0);
    var t := TableAt(lists, [w, w], 60, 1, 1);
    assert t == Visit(t1, b, w / 61.0);
    assert "doc2" !in t1.entries;
    assert t.order == ["doc1", "doc2"];
    assert t.entries["doc1"] == Ranked(a, w / 61.0) && t.entries["doc2"] == Ranked(b, w / 61.0);
    assert TableAt(lists, [w, w], 60, 2, 0) == t;
  }

  /** After the first of two one-item lists, the map holds just its item, with w/61. */
  lemma EqualWeightFirstList(a: Item, b: Item, w: real)
    requires a.id == "doc1"
    ensures var t1 := TableAt([[a], [b]], [w, w], 60, 1, 0);
      t1.order == ["doc1"] && t1.entries["doc1"] == Ranked(a, w / 61.0)
  {
    assert TableAt([[a], [b]], [w, w], 60, 1, 0) == TableAt([[a], [b]], [w, w], 60, 0, 1);
  }

  /** Two entries with equal sums stay in map order. */
  lemma TieSort(x: Ranked, y: Ranked)
    requires x.rrfScore == y.rrfScore
    ensures StableSort.Sort([x, y], ByScoreDesc) == [x, y]
  {
    assert [x, y][1..] == [y];
    assert StableSort.Sort([y], ByScoreDesc) == [y];
  }

  /** A final map holding two entries with equal sums fuses into them in map order. */
  lemma FuseOfEntries(lists: seq<seq<Item>>, config: RrfClause, x: Ranked, y: Ranked)
    requires ValidConfig(|lists|, config)
    requires Entries(FinalTable(lists, config)) == [x, y] && x.rrfScore == y.rrfScore
    ensures Fuse(lists, config) == [Output(x), Output(y)]
  {
    TieSort(x, y);
    assert |Fuse(lists, config)| == 2;
  }

  /** Weights [2, 2] give -2/61 to a rank-0 item; equal scores keep first-seen order. */
  lemma WeightedScore()
    ensures var a, b := Item("doc1", None, None, None, None, None), Item("doc2", None, None, None, None, None);
      Fuse([[a], [b]], RrfClause([], Some(60), Some([2.0, 2.0]), Some(false)))
        == [a.(score := Some(-2.0 / 61.0)), b.(score := Some(-2.0 / 61.0))]
  {
    var a, b := Item("doc1", None, None, None, None, None), Item("doc2", None, None, None, None, None);
    var config := RrfClause([], Some(60), Some([2.0, 2.0]), Some(false));
    assert FinalTable([[a], [b]], config) == TableAt([[a], [b]], [2.0, 2.0], 60, 2, 0);
    EqualWeightTable(a, b, 2.0);
    FuseOfEntries([[a], [b]], config, Ranked(a, 2.0 / 61.0), Ranked(b, 2.0 / 61.0));
  }

  /** Normalized, weights [2, 2] become [0.5, 0.5] and a rank-0 item scores -0.5/61. */
  lemma NormalizedWeightsScore()
    ensures var a, b := Item("doc1", None, None, None, None, None), Item("doc2", None, None, None, None, None);
      Fuse([[a], [b]], RrfClause([], Some(60), Some([2.0, 2.0]), Some(true)))
        == [a.(score := Some(-0.5 / 61.0)), b.(score := Some(-0.5 / 61.0))]
  {
    var a, b := Item("doc1", None, None, None, None, None), Item("doc2", None, None, None, None, None);
    var config := RrfClause([], Some(60), Some([2.0, 2.0]), Some(true));
    HalvedWeights();
    assert FinalTable([[a], [b]], config) == TableAt([[a], [b]], [0.5, 0.5], 60, 2, 0);
    EqualWeightTable(a, b, 0.5);
    FuseOfEntries([[a], [b]], config, Ranked(a, 0.5 / 61.0), Ranked(b, 0.5 / 61.0));
  }

  /** Normalizing the weights [2, 2] gives [0.5, 0.5]. */
  lemma HalvedWeights()
    ensures var config := RrfClause([], Some(60), Some([2.0, 2.0]), Some(true));
      ValidConfig(2, config) && EffectiveWeights(2, config) == [0.5, 0.5]
  {
    assert Sum([2.0, 2.0][1..]) == 2.0;
    assert Sum([2.0, 2.0]) == 4.0;
  }
}
