/**
 * Grouping of search results and per-group top-k selection
 * (packages/server/src/services/group-by-aggregator.service.ts).
 *
 * Items are partitioned by the value of one key, or by the tuple of values of
 * several keys; groups appear in the order their first item appears. Within
 * a group the items are sorted, stably, on a list of sort keys, ascending
 * for `$min_k` and descending for `$max_k`, and the first k are kept.
 */
module GroupByAggregator {
  import opened Types
  import TextOrder
  import StableSort

  /** One key reference `{ field }`, or an array of them; a key is named by its field. */
  datatype KeysInput = One(field: string) | Many(fields: seq<string>)

  /** `{ $min_k: { keys, k } }` or `{ $max_k: { keys, k } }` */
  datatype Aggregate = MinK(keys: KeysInput, k: nat) | MaxK(keys: KeysInput, k: nat)

  datatype GroupByClause = GroupByClause(keys: KeysInput, aggregate: Aggregate)

  /**
   * What identifies a group: the raw value of the single key, or the tuple of
   * values of the keys (the code keys the map by this tuple's JSON text).
   */
  datatype GroupValue = Single(value: Value) | Composite(values: seq<Value>)

  /** One output group. */
  datatype Group = Group(groupKey: string, groupValue: GroupValue, items: seq<Item>)

  datatype Direction = Asc | Desc

  /** The key fields, as a list. */
  function NormalizeKeys(keys: KeysInput): seq<string> {
    match keys
    case One(field) => [field]
    case Many(fields) => fields
  }

  /** The value an item has for a key: a reserved field or a metadata entry. */
  function FieldValue(item: Item, field: string): Option<Value> {
    if field == "#score" then (if item.score.Some? then Some(Num(item.score.value)) else None)
    else if field == "#distance" then (if item.distance.Some? then Some(Num(item.distance.value)) else None)
    else if field == "#id" then Some(Str(item.id))
    else if item.metadata.Some? && field in item.metadata.value then Some(item.metadata.value[field])
    else None
  }

  // ---------------------------------------------------------------------
  // Group values
  // ---------------------------------------------------------------------

  /** The values of all the keys, or None when any of them is missing. */
  function ValuesOf(item: Item, keys: seq<string>): Option<seq<Value>> {
    if keys == [] then Some([])
    else
      match FieldValue(item, keys[0])
      case None => None
      case Some(v) =>
        match ValuesOf(item, keys[1..])
        case None => None
        case Some(vs) => Some([v] + vs)
  }

  /** The value of the group an item belongs to, or None when it belongs to none. */
  function GroupValueOf(item: Item, keys: seq<string>): Option<GroupValue> {
    if |keys| == 1 then
      match FieldValue(item, keys[0])
      case Some(v) => Some(Single(v))
      case None => None
    else
      match ValuesOf(item, keys)
      case Some(vs) => Some(Composite(vs))
      case None => None
  }

  /** The tuple is defined exactly when every key has a value, and then lists them in key order. */
  lemma {:induction false} ValuesOfMeaning(item: Item, keys: seq<string>)
    ensures ValuesOf(item, keys).Some? <==> forall i :: 0 <= i < |keys| ==> FieldValue(item, keys[i]).Some?
    ensures ValuesOf(item, keys).Some? ==>
      var vs := ValuesOf(item, keys).value;
      |vs| == |keys| && forall i :: 0 <= i < |keys| ==> FieldValue(item, keys[i]) == Some(vs[i])
  {
    if keys != [] {
      ValuesOfMeaning(item, keys[1..]);
      if FieldValue(item, keys[0]).Some? && !ValuesOf(item, keys[1..]).Some? {
        var i :| 0 <= i < |keys[1..]| && FieldValue(item, keys[1..][i]).None?;
        assert FieldValue(item, keys[i + 1]).None?;
      }
      if ValuesOf(item, keys).Some? {
        var vs := ValuesOf(item, keys).value;
        forall i | 0 <= i < |keys| ensures FieldValue(item, keys[i]) == Some(vs[i]) {
          if i > 0 {
            assert keys[i] == keys[1..][i - 1];
          }
        }
      }
    }
  }

  /**
   * An item is in no group exactly when its single key, or any of its
   * several keys, has no value; with several keys the group value is the
   * tuple of the key values in key order, and with no keys it is the empty
   * tuple, shared by every item.
   */
  lemma GroupValueMeaning(item: Item, keys: seq<string>)
    ensures |keys| == 1 ==> GroupValueOf(item, keys) == (if FieldValue(item, keys[0]).Some? then Some(Single(FieldValue(item, keys[0]).value)) else None)
    ensures |keys| != 1 ==>
      (GroupValueOf(item, keys).None? <==> exists i :: 0 <= i < |keys| && FieldValue(item, keys[i]).None?)
    ensures |keys| != 1 && GroupValueOf(item, keys).Some? ==>
      && GroupValueOf(item, keys).value.Composite?
      && |GroupValueOf(item, keys).value.values| == |keys|
      && forall i :: 0 <= i < |keys| ==> FieldValue(item, keys[i]) == Some(GroupValueOf(item, keys).value.values[i])
    ensures keys == [] ==> GroupValueOf(item, keys) == Some(Composite([]))
  {
    ValuesOfMeaning(item, keys);
  }

  method GetGroupValue(item: Item, keys: seq<string>) returns (r: Option<GroupValue>)
    ensures r == GroupValueOf(item, keys)
  {
    if |keys| == 1 {
      var v := FieldValue(item, keys[0]);
      return if v.Some? then Some(Single(v.value)) else None;
    }
    var values: seq<Value> := [];
    for i := 0 to |keys|
      invariant |values| == i
      invariant forall j :: 0 <= j < i ==> FieldValue(item, keys[j]) == Some(values[j])
    {
      var value := FieldValue(item, keys[i]);
      if value.None? {
        ValuesOfMeaning(item, keys);
        return None;
      }
      values := values + [value.value];
    }
    ValuesOfMeaning(item, keys);
    assert ValuesOf(item, keys).value == values;
    return Some(Composite(values));
  }

  // ---------------------------------------------------------------------
  // Partitioning
  // ---------------------------------------------------------------------

  /** The group map: its keys in insertion order, and each group's items. */
  datatype Partition = Partition(order: seq<GroupValue>, groups: map<GroupValue, seq<Item>>)

  /** The group map after the items have been visited in order. */
  function PartitionOf(items: seq<Item>, keys: seq<string>): (p: Partition)
    ensures forall g :: g in p.order <==> g in p.groups
  {
    if items == [] then Partition([], map[])
    else
      var p := PartitionOf(items[..|items| - 1], keys);
      var x := items[|items| - 1];
      match GroupValueOf(x, keys)
      case None => p
      case Some(g) =>
        if g in p.groups then Partition(p.order, p.groups[g := p.groups[g] + [x]])
        else Partition(p.order + [g], p.groups[g := [x]])
  }

  method GroupResults(results: seq<Item>, keys: seq<string>) returns (order: seq<GroupValue>, groups: map<GroupValue, seq<Item>>)
    ensures Partition(order, groups) == PartitionOf(results, keys)
  {
    order, groups := [], map[];
    for i := 0 to |results|
      invariant Partition(order, groups) == PartitionOf(results[..i], keys)
    {
      var item := results[i];
      ghost var visited := results[..i + 1];
      assert visited[..|visited| - 1] == results[..i] && visited[|visited| - 1] == item;
      var groupValue := GetGroupValue(item, keys);
      if groupValue.None? {
        assert PartitionOf(visited, keys) == PartitionOf(results[..i], keys);
        continue;
      }
      var g := groupValue.value;
      var group := if g in groups then groups[g] else [];
      group := group + [item];
      assert g !in groups ==> group == [item];
      if g !in groups {
        order := order + [g];
      }
      groups := groups[g := group];
    }
    assert results[..|results|] == results;
  }

  /** The items whose group value is g, in input order. */
  function Members(items: seq<Item>, keys: seq<string>, g: GroupValue): seq<Item> {
    if items == [] then []
    else
      Members(items[..|items| - 1], keys, g)
      + (if GroupValueOf(items[|items| - 1], keys) == Some(g) then [items[|items| - 1]] else [])
  }

  /** Some item has group value g. */
  ghost predicate Occurs(items: seq<Item>, keys: seq<string>, g: GroupValue) {
    exists i :: 0 <= i < |items| && GroupValueOf(items[i], keys) == Some(g)
  }

  /** An item occurs in a sequence exactly when it occurs in its front or is its last item. */
  lemma OccursSnoc(items: seq<Item>, keys: seq<string>, g: GroupValue)
    requires items != []
    ensures Occurs(items, keys, g) <==>
      Occurs(items[..|items| - 1], keys, g) || GroupValueOf(items[|items| - 1], keys) == Some(g)
  {
    var init := items[..|items| - 1];
    if Occurs(items, keys, g) && GroupValueOf(items[|items| - 1], keys) != Some(g) {
      var i :| 0 <= i < |items| && GroupValueOf(items[i], keys) == Some(g);
      assert i < |init|;
      assert init[i] == items[i];
    }
    if Occurs(init, keys, g) {
      var i :| 0 <= i < |init| && GroupValueOf(init[i], keys) == Some(g);
      assert items[i] == init[i];
    }
  }

  /** The key order of the partition holds no value twice. */
  lemma {:induction false} PartitionNoRepeats(items: seq<Item>, keys: seq<string>)
    ensures StableSort.NoRepeats(PartitionOf(items, keys).order)
  {
    if items != [] {
      var init := items[..|items| - 1];
      PartitionNoRepeats(init, keys);
      var p0 := PartitionOf(init, keys);
      var v := GroupValueOf(items[|items| - 1], keys);
      if v.Some? && v.value !in p0.groups {
        var order := p0.order + [v.value];
        forall i, j | 0 <= i < j < |order| ensures order[i] != order[j] {
          if j == |p0.order| {
            assert order[i] == p0.order[i];
          }
        }
      }
    }
  }

  /** The partition has a group exactly for each group value that occurs. */
  lemma {:induction false} PartitionKeys(items: seq<Item>, keys: seq<string>)
    ensures forall g :: g in PartitionOf(items, keys).groups <==> Occurs(items, keys, g)
  {
    if items != [] {
      var init := items[..|items| - 1];
      PartitionKeys(init, keys);
      forall g ensures Occurs(items, keys, g) <==> Occurs(init, keys, g) || GroupValueOf(items[|items| - 1], keys) == Some(g) {
        OccursSnoc(items, keys, g);
      }
    }
  }

  /** Each group of the partition holds exactly the items with its value, in input order, and is non-empty. */
  lemma {:induction false} PartitionMembers(items: seq<Item>, keys: seq<string>)
    ensures var p := PartitionOf(items, keys);
      forall g :: g in p.groups ==> p.groups[g] == Members(items, keys, g) && p.groups[g] != []
  {
    if items != [] {
      var init := items[..|items| - 1];
      PartitionMembers(init, keys);
      var v := GroupValueOf(items[|items| - 1], keys);
      if v.Some? && v.value !in PartitionOf(init, keys).groups {
        PartitionKeys(init, keys);
        MembersEmpty(init, keys, v.value);
      }
    }
  }

  /**
   * The partition: one group per distinct group value that occurs, none
   * twice; each group holds exactly the items with its value, in input order.
   */
  lemma PartitionGroups(items: seq<Item>, keys: seq<string>)
    ensures var p := PartitionOf(items, keys);
      && StableSort.NoRepeats(p.order)
      && (forall g :: g in p.groups <==> Occurs(items, keys, g))
      && (forall g :: g in p.groups ==> p.groups[g] == Members(items, keys, g) && p.groups[g] != [])
  {
    PartitionNoRepeats(items, keys);
    PartitionKeys(items, keys);
    PartitionMembers(items, keys);
  }

  lemma {:induction false} MembersEmpty(items: seq<Item>, keys: seq<string>, g: GroupValue)
    requires !Occurs(items, keys, g)
    ensures Members(items, keys, g) == []
  {
    if items != [] {
      var init := items[..|items| - 1];
      forall i | 0 <= i < |init| ensures GroupValueOf(init[i], keys) != Some(g) {
        assert init[i] == items[i];
      }
      MembersEmpty(init, keys, g);
    }
  }

  /** The items of a group all have its value; every item with that value is in it. */
  lemma {:induction false} MembersExact(items: seq<Item>, keys: seq<string>, g: GroupValue)
    ensures forall x :: x in Members(items, keys, g) ==> x in items && GroupValueOf(x, keys) == Some(g)
    ensures forall i :: 0 <= i < |items| && GroupValueOf(items[i], keys) == Some(g) ==> items[i] in Members(items, keys, g)
  {
    if items != [] {
      var init := items[..|items| - 1];
      MembersExact(init, keys, g);
      forall i | 0 <= i < |items| && GroupValueOf(items[i], keys) == Some(g) ensures items[i] in Members(items, keys, g) {
        if i < |init| {
          assert items[i] == init[i];
        }
      }
    }
  }

  /** Some item before position i has group value g. */
  ghost predicate SeenBefore(items: seq<Item>, keys: seq<string>, g: GroupValue, i: int) {
    exists i' :: 0 <= i' < i && i' < |items| && GroupValueOf(items[i'], keys) == Some(g)
  }

  /** Visiting one more item keeps the key order so far and appends at most its value, when it is new. */
  lemma PartitionExtends(items: seq<Item>, keys: seq<string>)
    requires items != []
    ensures var init := items[..|items| - 1];
      var p0, p := PartitionOf(init, keys), PartitionOf(items, keys);
      && p0.order <= p.order && |p.order| <= |p0.order| + 1
      && (|p.order| == |p0.order| + 1 ==>
            GroupValueOf(items[|items| - 1], keys) == Some(p.order[|p0.order|])
            && !Occurs(init, keys, p.order[|p0.order|]))
      && (forall g :: g in p0.order ==> Occurs(init, keys, g))
  {
    PartitionKeys(items[..|items| - 1], keys);
  }

  /** The step of PartitionFirstSeenOrder for groups a < b and an item i of group b. */
  lemma FirstSeenStep(items: seq<Item>, keys: seq<string>, a: nat, b: nat, i: nat)
    requires items != []
    requires var p := PartitionOf(items, keys);
      a < b < |p.order| && i < |items| && GroupValueOf(items[i], keys) == Some(p.order[b])
    requires var init, p0 := items[..|items| - 1], PartitionOf(items[..|items| - 1], keys);
      i < |init| && b < |p0.order| && GroupValueOf(init[i], keys) == Some(p0.order[b]) ==> SeenBefore(init, keys, p0.order[a], i)
    ensures SeenBefore(items, keys, PartitionOf(items, keys).order[a], i)
  {
    var init := items[..|items| - 1];
    var p0, p := PartitionOf(init, keys), PartitionOf(items, keys);
    PartitionExtends(items, keys);
    assert p.order[a] == p0.order[a];
    if i == |init| {
      assert Occurs(init, keys, p.order[a]);
      var i' :| 0 <= i' < |init| && GroupValueOf(init[i'], keys) == Some(p.order[a]);
      assert items[i'] == init[i'];
    } else {
      assert init[i] == items[i];
      if b == |p0.order| {
        assert false;
      } else {
        assert p.order[b] == p0.order[b];
        var i' :| 0 <= i' < i && i' < |init| && GroupValueOf(init[i'], keys) == Some(p.order[a]);
        assert items[i'] == init[i'];
      }
    }
  }

  /**
   * Groups come in first-seen order: every item of a later group is
   * preceded by some item of each earlier group.
   */
  lemma {:induction false} PartitionFirstSeenOrder(items: seq<Item>, keys: seq<string>)
    ensures var p := PartitionOf(items, keys);
      forall a, b, i :: 0 <= a < b < |p.order| && 0 <= i < |items| && GroupValueOf(items[i], keys) == Some(p.order[b]) ==>
        SeenBefore(items, keys, p.order[a], i)
  {
    if items != [] {
      var init := items[..|items| - 1];
      PartitionFirstSeenOrder(init, keys);
      var p := PartitionOf(items, keys);
      forall a, b, i | 0 <= a < b < |p.order| && 0 <= i < |items| && GroupValueOf(items[i], keys) == Some(p.order[b])
        ensures SeenBefore(items, keys, p.order[a], i)
      {
        FirstSeenStep(items, keys, a, b, i);
      }
    }
  }

  // ---------------------------------------------------------------------
  // The sort comparator
  // ---------------------------------------------------------------------

  /**
   * One sort key's verdict: 0 means "decide on the next key". Missing values
   * go last ascending and first descending; numbers compare numerically and
   * strings by TextOrder; a mixed or boolean pair is undecided.
   */
  function KeyCompare(a: Option<Value>, b: Option<Value>, dir: Direction): int {
    if a.None? && b.None? then 0
    else if a.None? then (if dir == Asc then 1 else -1)
    else if b.None? then (if dir == Asc then -1 else 1)
    else if a.value.Num? && b.value.Num? && a.value.n != b.value.n then
      var asc := if a.value.n < b.value.n then -1 else 1;
      if dir == Asc then asc else -asc
    else if a.value.Str? && b.value.Str? && TextOrder.Compare(a.value.s, b.value.s) != 0 then
      var asc := TextOrder.Compare(a.value.s, b.value.s);
      if dir == Asc then asc else -asc
    else 0
  }

  /** The comparator of `sortAndSlice`: the first sort key with a verdict decides. */
  function CompareItems(a: Item, b: Item, keys: seq<string>, dir: Direction): int {
    if keys == [] then 0
    else
      var c := KeyCompare(FieldValue(a, keys[0]), FieldValue(b, keys[0]), dir);
      if c != 0 then c else CompareItems(a, b, keys[1..], dir)
  }

  function Comparator(keys: seq<string>, dir: Direction): (Item, Item) -> int {
    (a: Item, b: Item) => CompareItems(a, b, keys, dir)
  }

  function Min(a: nat, b: nat): nat {
    if a <= b then a else b
  }

  /** A sorted copy, cut to its first k items. */
  function SortAndSlice(items: seq<Item>, keys: seq<string>, dir: Direction, k: nat): seq<Item> {
    var sorted := StableSort.Sort(items, Comparator(keys, dir));
    sorted[..Min(k, |sorted|)]
  }

  function ApplyAggregation(items: seq<Item>, aggregate: Aggregate): seq<Item> {
    match aggregate
    case MinK(keys, k) => SortAndSlice(items, NormalizeKeys(keys), Asc, k)
    case MaxK(keys, k) => SortAndSlice(items, NormalizeKeys(keys), Desc, k)
  }

  /** The kind of a value: string, number or boolean. */
  function Kind(v: Value): nat {
    match v
    case Str(_) => 0
    case Num(_) => 1
    case Bool(_) => 2
  }

  /** The values two items have for a key are of one kind, when both are present. */
  predicate KindsAgree(a: Option<Value>, b: Option<Value>) {
    a.Some? && b.Some? ==> Kind(a.value) == Kind(b.value)
  }

  /** On every sort key, the items' present values are all of one kind. */
  ghost predicate WellTyped(u: seq<Item>, keys: seq<string>) {
    forall a, b, i :: a in u && b in u && 0 <= i < |keys| ==> KindsAgree(FieldValue(a, keys[i]), FieldValue(b, keys[i]))
  }

  lemma KeyCompareAntisymmetric(a: Option<Value>, b: Option<Value>, dir: Direction)
    ensures KeyCompare(b, a, dir) == -KeyCompare(a, b, dir)
  {
    if a.Some? && b.Some? && a.value.Str? && b.value.Str? {
      TextOrder.CompareAntisymmetric(a.value.s, b.value.s);
    }
  }

  /** TextOrder's strict part chains with its non-strict part. */
  lemma TextStrict(x: string, y: string, z: string)
    requires TextOrder.Compare(x, y) <= 0 && TextOrder.Compare(y, z) <= 0
    ensures TextOrder.Compare(x, z) <= 0
    ensures TextOrder.Compare(x, y) < 0 || TextOrder.Compare(y, z) < 0 ==> TextOrder.Compare(x, z) < 0
  {
    TextOrder.CompareTransitive(x, y, z);
    TextOrder.CompareZeroIffEqual(x, z);
    TextOrder.CompareZeroIffEqual(x, y);
    TextOrder.CompareZeroIffEqual(y, z);
    TextOrder.CompareAntisymmetric(x, y);
  }

  /** Within one kind, a key's comparison is a total preorder. */
  lemma KeyCompareTransitive(a: Option<Value>, b: Option<Value>, c: Option<Value>, dir: Direction)
    requires KindsAgree(a, b) && KindsAgree(b, c) && KindsAgree(a, c)
    ensures var x, y, z := KeyCompare(a, b, dir), KeyCompare(b, c, dir), KeyCompare(a, c, dir);
      && (x <= 0 && y <= 0 ==> z <= 0)
      && (x < 0 && y <= 0 ==> z < 0)
      && (x <= 0 && y < 0 ==> z < 0)
      && (x == 0 && y == 0 ==> z == 0)
  {
    if a.Some? && b.Some? && c.Some? && a.value.Str? {
      var s, t, u := a.value.s, b.value.s, c.value.s;
      TextOrder.CompareZeroIffEqual(s, t);
      TextOrder.CompareZeroIffEqual(t, u);
      TextOrder.CompareZeroIffEqual(s, u);
      if dir == Asc {
        if TextOrder.Compare(s, t) <= 0 && TextOrder.Compare(t, u) <= 0 {
          TextStrict(s, t, u);
        }
      } else {
        TextOrder.CompareAntisymmetric(s, t);
        TextOrder.CompareAntisymmetric(t, u);
        TextOrder.CompareAntisymmetric(s, u);
        if TextOrder.Compare(u, t) <= 0 && TextOrder.Compare(t, s) <= 0 {
          TextStrict(u, t, s);
        }
      }
    }
  }

  lemma {:induction false} CompareItemsAntisymmetric(a: Item, b: Item, keys: seq<string>, dir: Direction)
    ensures CompareItems(b, a, keys, dir) == -CompareItems(a, b, keys, dir)
  {
    if keys != [] {
      KeyCompareAntisymmetric(FieldValue(a, keys[0]), FieldValue(b, keys[0]), dir);
      CompareItemsAntisymmetric(a, b, keys[1..], dir);
    }
  }

  lemma {:induction false} CompareItemsTransitive(a: Item, b: Item, c: Item, keys: seq<string>, dir: Direction)
    requires forall i :: 0 <= i < |keys| ==>
      && KindsAgree(FieldValue(a, keys[i]), FieldValue(b, keys[i]))
      && KindsAgree(FieldValue(b, keys[i]), FieldValue(c, keys[i]))
      && KindsAgree(FieldValue(a, keys[i]), FieldValue(c, keys[i]))
    requires CompareItems(a, b, keys, dir) <= 0 && CompareItems(b, c, keys, dir) <= 0
    ensures CompareItems(a, c, keys, dir) <= 0
  {
    if keys != [] {
      KeyCompareTransitive(FieldValue(a, keys[0]), FieldValue(b, keys[0]), FieldValue(c, keys[0]), dir);
      if KeyCompare(FieldValue(a, keys[0]), FieldValue(b, keys[0]), dir) == 0
        && KeyCompare(FieldValue(b, keys[0]), FieldValue(c, keys[0]), dir) == 0
      {
        forall i | 0 <= i < |keys[1..]| ensures
          && KindsAgree(FieldValue(a, keys[1..][i]), FieldValue(b, keys[1..][i]))
          && KindsAgree(FieldValue(b, keys[1..][i]), FieldValue(c, keys[1..][i]))
          && KindsAgree(FieldValue(a, keys[1..][i]), FieldValue(c, keys[1..][i]))
        {
          assert keys[1..][i] == keys[i + 1];
        }
        CompareItemsTransitive(a, b, c, keys[1..], dir);
      }
    }
  }

  /** On well-typed items the comparator is a total preorder. */
  lemma ComparatorTotal(u: seq<Item>, keys: seq<string>, dir: Direction)
    requires WellTyped(u, keys)
    ensures StableSort.TotalPreorderOn(u, Comparator(keys, dir))
  {
    var cmp := Comparator(keys, dir);
    forall a, b | a in u && b in u ensures StableSort.AntisymmetricAt(cmp, a, b) {
      CompareItemsAntisymmetric(a, b, keys, dir);
    }
    forall a, b, c | a in u && b in u && c in u ensures StableSort.TransitiveAt(cmp, a, b, c) {
      if cmp(a, b) <= 0 && cmp(b, c) <= 0 {
        CompareItemsTransitive(a, b, c, keys, dir);
      }
    }
  }

  // ---------------------------------------------------------------------
  // What one group's aggregation keeps
  // ---------------------------------------------------------------------

  lemma MultisetSlice<T>(s: seq<T>, m: nat)
    requires m <= |s|
    ensures multiset(s[..m]) + multiset(s[m..]) == multiset(s)
  {
    assert s == s[..m] + s[m..];
  }

  /** min(k, size) items are kept, each taken from the group and none more often than it occurs. */
  lemma SortAndSliceSize(items: seq<Item>, keys: seq<string>, dir: Direction, k: nat)
    ensures |SortAndSlice(items, keys, dir, k)| == Min(k, |items|)
    ensures multiset(SortAndSlice(items, keys, dir, k)) <= multiset(items)
  {
    var sorted := StableSort.Sort(items, Comparator(keys, dir));
    MultisetSlice(sorted, Min(k, |sorted|));
  }

  /**
   * On well-typed items the kept items are in comparator order, and no item
   * left out comes before a kept one.
   */
  lemma SortAndSliceOrder(items: seq<Item>, keys: seq<string>, dir: Direction, k: nat)
    requires WellTyped(items, keys)
    ensures var r := SortAndSlice(items, keys, dir, k);
      && (forall i, j :: 0 <= i < j < |r| ==> CompareItems(r[i], r[j], keys, dir) <= 0)
      && (forall x, y :: x in r && y in multiset(items) - multiset(r) ==> CompareItems(x, y, keys, dir) <= 0)
  {
    var cmp := Comparator(keys, dir);
    var sorted := StableSort.Sort(items, cmp);
    var m := Min(k, |sorted|);
    ComparatorTotal(items, keys, dir);
    StableSort.SortSorted(items, cmp);
    MultisetSlice(sorted, m);
    SliceOrder(sorted, m, cmp);
  }

  /** In a sorted sequence, the front m elements are sorted and none comes after an element of the rest. */
  lemma SliceOrder<T>(sorted: seq<T>, m: nat, cmp: (T, T) -> int)
    requires m <= |sorted| && StableSort.Sorted(sorted, cmp)
    ensures forall i, j :: 0 <= i < j < m ==> cmp(sorted[..m][i], sorted[..m][j]) <= 0
    ensures forall x, y :: x in sorted[..m] && y in multiset(sorted) - multiset(sorted[..m]) ==> cmp(x, y) <= 0
  {
    var r := sorted[..m];
    MultisetSlice(sorted, m);
    forall x, y | x in r && y in multiset(sorted) - multiset(r) ensures cmp(x, y) <= 0 {
      SliceBefore(sorted, m, cmp, x, y);
    }
  }

  /** An element of the front of a sorted sequence comes no later than one of its rest. */
  lemma SliceBefore<T>(sorted: seq<T>, m: nat, cmp: (T, T) -> int, x: T, y: T)
    requires m <= |sorted| && StableSort.Sorted(sorted, cmp)
    requires x in sorted[..m] && y in multiset(sorted[m..])
    ensures cmp(x, y) <= 0
  {
    var i :| 0 <= i < m && sorted[..m][i] == x;
    var j :| 0 <= j < |sorted[m..]| && sorted[m..][j] == y;
    assert cmp(sorted[i], sorted[m + j]) <= 0;
  }

  /**
   * The order a comparator verdict of "not after" means on the first sort
   * key: ascending, a missing value only before another missing one, numbers
   * non-decreasing, strings in TextOrder; descending, the mirror image, so
   * missing values come first.
   */
  predicate InOrder(a: Option<Value>, b: Option<Value>, dir: Direction) {
    if dir == Asc then
      && (a.None? ==> b.None?)
      && (a.Some? && b.Some? && a.value.Num? && b.value.Num? ==> a.value.n <= b.value.n)
      && (a.Some? && b.Some? && a.value.Str? && b.value.Str? ==> TextOrder.Compare(a.value.s, b.value.s) <= 0)
    else
      && (b.None? ==> a.None?)
      && (a.Some? && b.Some? && a.value.Num? && b.value.Num? ==> a.value.n >= b.value.n)
      && (a.Some? && b.Some? && a.value.Str? && b.value.Str? ==> TextOrder.Compare(a.value.s, b.value.s) >= 0)
  }

  lemma FirstKeyInOrder(a: Item, b: Item, keys: seq<string>, dir: Direction)
    requires keys != [] && CompareItems(a, b, keys, dir) <= 0
    ensures InOrder(FieldValue(a, keys[0]), FieldValue(b, keys[0]), dir)
  {
    var x, y := FieldValue(a, keys[0]), FieldValue(b, keys[0]);
    assert KeyCompare(x, y, dir) <= 0;
    if x.Some? && y.Some? && x.value.Str? && y.value.Str? {
      TextOrder.CompareAntisymmetric(x.value.s, y.value.s);
    }
  }

  /**
   * `$min_k` output runs non-decreasing on the first sort key with missing
   * values last; `$max_k` output runs non-increasing with missing values first.
   */
  lemma SortAndSliceFirstKey(items: seq<Item>, keys: seq<string>, dir: Direction, k: nat)
    requires WellTyped(items, keys) && keys != []
    ensures var r := SortAndSlice(items, keys, dir, k);
      forall i, j :: 0 <= i < j < |r| ==> InOrder(FieldValue(r[i], keys[0]), FieldValue(r[j], keys[0]), dir)
  {
    var r := SortAndSlice(items, keys, dir, k);
    SortAndSliceOrder(items, keys, dir, k);
    forall i, j | 0 <= i < j < |r| ensures InOrder(FieldValue(r[i], keys[0]), FieldValue(r[j], keys[0]), dir) {
      FirstKeyInOrder(r[i], r[j], keys, dir);
    }
  }

  lemma {:induction false} TieClassPrefix<T>(s: seq<T>, m: nat, v: T, cmp: (T, T) -> int)
    requires m <= |s|
    ensures var t := StableSort.TieClass(s[..m], v, cmp);
      |t| <= |StableSort.TieClass(s, v, cmp)| && t == StableSort.TieClass(s, v, cmp)[..|t|]
  {
    if m > 0 {
      assert s[..m][1..] == s[1..][..m - 1];
      TieClassPrefix(s[1..], m - 1, v, cmp);
    }
  }

  /**
   * Stability: the kept items that tie with v on every sort key are the
   * first of the group's items tying with v, in the group's order.
   */
  lemma SortAndSliceStable(items: seq<Item>, keys: seq<string>, dir: Direction, k: nat, v: Item)
    requires WellTyped(items, keys) && v in items
    ensures var cmp, r := Comparator(keys, dir), SortAndSlice(items, keys, dir, k);
      var tied := StableSort.TieClass(r, v, cmp);
      |tied| <= |StableSort.TieClass(items, v, cmp)| && tied == StableSort.TieClass(items, v, cmp)[..|tied|]
  {
    var cmp := Comparator(keys, dir);
    var sorted := StableSort.Sort(items, cmp);
    ComparatorTotal(items, keys, dir);
    StableSort.SortStable(items, v, cmp);
    TieClassPrefix(sorted, Min(k, |sorted|), v, cmp);
  }

  // ---------------------------------------------------------------------
  // The whole aggregation
  // ---------------------------------------------------------------------

  /** `parts.join(sep)` */
  function Join(parts: seq<string>, sep: string): string {
    if parts == [] then ""
    else if |parts| == 1 then parts[0]
    else parts[0] + sep + Join(parts[1..], sep)
  }

  function MakeGroup(keys: seq<string>, g: GroupValue, members: seq<Item>, aggregate: Aggregate): Group {
    Group(Join(keys, ","), g, ApplyAggregation(members, aggregate))
  }

  /** One group per value of the key order, in that order, each aggregated. */
  function MakeGroups(keys: seq<string>, p: Partition, aggregate: Aggregate): (r: seq<Group>)
    requires forall g :: g in p.order ==> g in p.groups
    ensures |r| == |p.order|
    ensures forall j :: 0 <= j < |r| ==> r[j].groupValue == p.order[j]
  {
    seq(|p.order|, j requires 0 <= j < |p.order| => MakeGroup(keys, p.order[j], p.groups[p.order[j]], aggregate))
  }

  /** What grouping the results yields. */
  function GroupBy(results: seq<Item>, config: GroupByClause): seq<Group> {
    var keys := NormalizeKeys(config.keys);
    MakeGroups(keys, PartitionOf(results, keys), config.aggregate)
  }

  /** The loop over the group map that aggregates each group. */
  method AggregateGroups(keys: seq<string>, order: seq<GroupValue>, groups: map<GroupValue, seq<Item>>, aggregate: Aggregate)
    returns (processed: seq<Group>)
    requires forall g :: g in order ==> g in groups
    ensures processed == MakeGroups(keys, Partition(order, groups), aggregate)
  {
    ghost var expected := MakeGroups(keys, Partition(order, groups), aggregate);
    processed := [];
    for j := 0 to |order|
      invariant |processed| == j
      invariant forall i :: 0 <= i < j ==> processed[i] == expected[i]
    {
      var groupValue := order[j];
      var group := AggregateGroup(keys, groupValue, groups[groupValue], aggregate);
      processed := processed + [group];
    }
  }

  /** One group of the output: its key name, its value and its aggregated items. */
  method AggregateGroup(keys: seq<string>, groupValue: GroupValue, items: seq<Item>, aggregate: Aggregate) returns (group: Group)
    ensures group == MakeGroup(keys, groupValue, items, aggregate)
  {
    var aggregated := ApplyAggregation(items, aggregate);
    group := Group(Join(keys, ","), groupValue, aggregated);
  }

  method Process(results: seq<Item>, config: GroupByClause) returns (processed: seq<Group>)
    ensures processed == GroupBy(results, config)
  {
    var groupKeys := NormalizeKeys(config.keys);
    var order, groups := GroupResults(results, groupKeys);
    processed := AggregateGroups(groupKeys, order, groups, config.aggregate);
  }

  /** The k and the direction an aggregate asks for. */
  function AggregateK(aggregate: Aggregate): nat {
    match aggregate
    case MinK(_, k) => k
    case MaxK(_, k) => k
  }

  /** min(k, size) items are kept, each taken from the group and none more often than it occurs. */
  lemma ApplyAggregationSize(items: seq<Item>, aggregate: Aggregate)
    ensures |ApplyAggregation(items, aggregate)| == Min(AggregateK(aggregate), |items|)
    ensures multiset(ApplyAggregation(items, aggregate)) <= multiset(items)
  {
    match aggregate
    case MinK(sortKeys, k) => SortAndSliceSize(items, NormalizeKeys(sortKeys), Asc, k);
    case MaxK(sortKeys, k) => SortAndSliceSize(items, NormalizeKeys(sortKeys), Desc, k);
  }

  /**
   * Output group j belongs to the j-th first-seen value: its key name is the
   * fields joined with ",", and it keeps min(k, size) items drawn from exactly
   * the (non-empty) items with that value.
   */
  lemma GroupAt(results: seq<Item>, config: GroupByClause, j: nat)
    requires j < |PartitionOf(results, NormalizeKeys(config.keys)).order|
    ensures var keys := NormalizeKeys(config.keys);
      var p, out := PartitionOf(results, keys), GroupBy(results, config);
      && j < |out|
      && out[j].groupValue == p.order[j]
      && out[j].groupKey == Join(keys, ",")
      && |out[j].items| == Min(AggregateK(config.aggregate), |Members(results, keys, p.order[j])|)
      && multiset(out[j].items) <= multiset(Members(results, keys, p.order[j]))
      && Members(results, keys, p.order[j]) != []
  {
    var keys := NormalizeKeys(config.keys);
    var p := PartitionOf(results, keys);
    PartitionMembers(results, keys);
    ApplyAggregationSize(p.groups[p.order[j]], config.aggregate);
  }

  /** The output groups are those, and only those, of the group values that occur, none twice. */
  lemma GroupByValues(results: seq<Item>, config: GroupByClause)
    ensures var keys, out := NormalizeKeys(config.keys), GroupBy(results, config);
      && (forall g :: (exists j :: 0 <= j < |out| && out[j].groupValue == g) <==> Occurs(results, keys, g))
      && (forall i, j :: 0 <= i < j < |out| ==> out[i].groupValue != out[j].groupValue)
  {
    var keys, out := NormalizeKeys(config.keys), GroupBy(results, config);
    var p := PartitionOf(results, keys);
    PartitionNoRepeats(results, keys);
    PartitionKeys(results, keys);
    forall g ensures (exists j :: 0 <= j < |out| && out[j].groupValue == g) <==> Occurs(results, keys, g) {
      if Occurs(results, keys, g) {
        var j :| 0 <= j < |p.order| && p.order[j] == g;
        assert out[j].groupValue == g;
      }
    }
  }

  /**
   * The groups, in first-seen order and without repeats, are those of the
   * group values that occur; group j has key name the fields joined with
   * ",", and min(k, size) items drawn from exactly the items with its value.
   */
  lemma GroupByGroups(results: seq<Item>, config: GroupByClause)
    ensures var keys, out := NormalizeKeys(config.keys), GroupBy(results, config);
      && (forall g :: (exists j :: 0 <= j < |out| && out[j].groupValue == g) <==> Occurs(results, keys, g))
      && (forall i, j :: 0 <= i < j < |out| ==> out[i].groupValue != out[j].groupValue)
      && (forall j :: 0 <= j < |out| ==>
            && out[j].groupKey == Join(keys, ",")
            && |out[j].items| == Min(AggregateK(config.aggregate), |Members(results, keys, out[j].groupValue)|)
            && multiset(out[j].items) <= multiset(Members(results, keys, out[j].groupValue))
            && Members(results, keys, out[j].groupValue) != [])
  {
    var keys, out := NormalizeKeys(config.keys), GroupBy(results, config);
    GroupByValues(results, config);
    forall j | 0 <= j < |out| ensures
      && out[j].groupKey == Join(keys, ",")
      && |out[j].items| == Min(AggregateK(config.aggregate), |Members(results, keys, out[j].groupValue)|)
      && multiset(out[j].items) <= multiset(Members(results, keys, out[j].groupValue))
      && Members(results, keys, out[j].groupValue) != []
    {
      GroupAt(results, config, j);
    }
  }

  /** No results, no groups. */
  lemma GroupByEmpty(config: GroupByClause)
    ensures GroupBy([], config) == []
  {
  }

  /** The key name of a composite grouping joins its fields with ",". */
  lemma GroupKeyJoinsFields()
    ensures Join(["category"], ",") == "category"
    ensures Join(["category", "year"], ",") == "category,year"
  {
  }

  /** A result with a category and a year, as in the composite-key example. */
  function Dated(id: string, category: string, year: real, score: real): Item {
    Item(id, None, None, Some(map["category" := Str(category), "year" := Num(year)]), Some(score), None)
  }

  /** Grouped on category and year, such a result falls in the group of its pair. */
  lemma DatedGroupValue(id: string, category: string, year: real, score: real)
    ensures GroupValueOf(Dated(id, category, year, score), ["category", "year"]) == Some(Composite([Str(category), Num(year)]))
  {
    var item, keys := Dated(id, category, year, score), ["category", "year"];
    assert FieldValue(item, keys[0]) == Some(Str(category));
    assert FieldValue(item, keys[1]) == Some(Num(year));
    ValuesOfMeaning(item, keys);
    var vs := ValuesOf(item, keys).value;
    assert vs == [Str(category), Num(year)];
  }

  /** The group value of every item, in input order. */
  function GroupValues(items: seq<Item>, keys: seq<string>): (vs: seq<Option<GroupValue>>)
    ensures |vs| == |items| && forall i :: 0 <= i < |items| ==> vs[i] == GroupValueOf(items[i], keys)
  {
    seq(|items|, i requires 0 <= i < |items| => GroupValueOf(items[i], keys))
  }

  /** The defined values of vs, each at its first occurrence only. */
  function FirstSeenValues(vs: seq<Option<GroupValue>>): seq<GroupValue> {
    if vs == [] then []
    else
      var seen := FirstSeenValues(vs[..|vs| - 1]);
      match vs[|vs| - 1]
      case None => seen
      case Some(g) => if g in seen then seen else seen + [g]
  }

  /** The key order lists the items' group values, each at its first occurrence, in input order. */
  lemma {:induction false} PartitionOrderFirstSeen(items: seq<Item>, keys: seq<string>)
    ensures PartitionOf(items, keys).order == FirstSeenValues(GroupValues(items, keys))
  {
    if items != [] {
      var init := items[..|items| - 1];
      PartitionOrderFirstSeen(init, keys);
      assert GroupValues(items, keys)[..|items| - 1] == GroupValues(init, keys);
    }
  }

  /** Values g1, g2, g1, g3, g4, all distinct, are first seen in the order g1, g2, g3, g4. */
  lemma FiveValuesFirstSeen(g1: GroupValue, g2: GroupValue, g3: GroupValue, g4: GroupValue)
    requires g1 != g2 && g1 != g3 && g1 != g4 && g2 != g3 && g2 != g4 && g3 != g4
    ensures FirstSeenValues([Some(g1), Some(g2), Some(g1), Some(g3), Some(g4)]) == [g1, g2, g3, g4]
  {
    var vs := [Some(g1), Some(g2), Some(g1), Some(g3), Some(g4)];
    assert vs[..1][..0] == [];
    assert vs[..2][..1] == vs[..1];
    assert vs[..3][..2] == vs[..2];
    assert vs[..4][..3] == vs[..3];
    assert vs[..4] == vs[..5][..4];
    assert vs[..5] == vs;
    assert FirstSeenValues(vs[..1]) == [g1];
    assert FirstSeenValues(vs[..2]) == [g1, g2];
    assert FirstSeenValues(vs[..3]) == [g1, g2];
    assert FirstSeenValues(vs[..4]) == [g1, g2, g3];
  }

  /** Visiting values g1, g2, g1, g3, g4, all distinct, yields the key order g1, g2, g3, g4. */
  lemma FiveItemsOrder(results: seq<Item>, keys: seq<string>, g1: GroupValue, g2: GroupValue, g3: GroupValue, g4: GroupValue)
    requires |results| == 5
    requires && GroupValueOf(results[0], keys) == Some(g1) && GroupValueOf(results[1], keys) == Some(g2)
             && GroupValueOf(results[2], keys) == Some(g1) && GroupValueOf(results[3], keys) == Some(g3)
             && GroupValueOf(results[4], keys) == Some(g4)
    requires g1 != g2 && g1 != g3 && g1 != g4 && g2 != g3 && g2 != g4 && g3 != g4
    ensures PartitionOf(results, keys).order == [g1, g2, g3, g4]
  {
    PartitionOrderFirstSeen(results, keys);
    assert GroupValues(results, keys) == [Some(g1), Some(g2), Some(g1), Some(g3), Some(g4)];
    FiveValuesFirstSeen(g1, g2, g3, g4);
  }

  /** Five results whose values are g1, g2, g1, g3, g4, all distinct, make the four groups g1, g2, g3, g4. */
  lemma FourGroups(results: seq<Item>, config: GroupByClause, g1: GroupValue, g2: GroupValue, g3: GroupValue, g4: GroupValue)
    requires |results| == 5
    requires var keys := NormalizeKeys(config.keys);
      && GroupValueOf(results[0], keys) == Some(g1) && GroupValueOf(results[1], keys) == Some(g2)
      && GroupValueOf(results[2], keys) == Some(g1) && GroupValueOf(results[3], keys) == Some(g3)
      && GroupValueOf(results[4], keys) == Some(g4)
    requires g1 != g2 && g1 != g3 && g1 != g4 && g2 != g3 && g2 != g4 && g3 != g4
    ensures var out := GroupBy(results, config);
      |out| == 4 && out[0].groupValue == g1 && out[1].groupValue == g2 && out[2].groupValue == g3 && out[3].groupValue == g4
  {
    FiveItemsOrder(results, NormalizeKeys(config.keys), g1, g2, g3, g4);
  }

  /** So the composite-key example makes four groups: A|2024, A|2023, B|2024, B|2023. */
  lemma CompositeKeysExample()
    ensures var results := [Dated("1", "A", 2024.0, 0.1), Dated("2", "A", 2023.0, 0.2), Dated("3", "A", 2024.0, 0.3),
                            Dated("4", "B", 2024.0, 0.15), Dated("5", "B", 2023.0, 0.25)];
      var out := GroupBy(results, GroupByClause(Many(["category", "year"]), MinK(One("#score"), 10)));
      && |out| == 4
      && out[0].groupValue == Composite([Str("A"), Num(2024.0)])
      && out[1].groupValue == Composite([Str("A"), Num(2023.0)])
      && out[2].groupValue == Composite([Str("B"), Num(2024.0)])
      && out[3].groupValue == Composite([Str("B"), Num(2023.0)])
  {
    DatedGroupValue("1", "A", 2024.0, 0.1);
    DatedGroupValue("2", "A", 2023.0, 0.2);
    DatedGroupValue("3", "A", 2024.0, 0.3);
    DatedGroupValue("4", "B", 2024.0, 0.15);
    DatedGroupValue("5", "B", 2023.0, 0.25);
    var results := [Dated("1", "A", 2024.0, 0.1), Dated("2", "A", 2023.0, 0.2), Dated("3", "A", 2024.0, 0.3),
                    Dated("4", "B", 2024.0, 0.15), Dated("5", "B", 2023.0, 0.25)];
    FourGroups(results, GroupByClause(Many(["category", "year"]), MinK(One("#score"), 10)),
      Composite([Str("A"), Num(2024.0)]), Composite([Str("A"), Num(2023.0)]),
      Composite([Str("B"), Num(2024.0)]), Composite([Str("B"), Num(2023.0)]));
  }

  /** The sort keys and direction of an aggregate. */
  function AggregateKeys(aggregate: Aggregate): seq<string> {
    match aggregate
    case MinK(keys, _) => NormalizeKeys(keys)
    case MaxK(keys, _) => NormalizeKeys(keys)
  }

  function AggregateDirection(aggregate: Aggregate): Direction {
    if aggregate.MinK? then Asc else Desc
  }

  /**
   * When the results are well typed on the sort keys, every group's items
   * are in comparator order, and on the first sort key `$min_k` groups run
   * non-decreasing with missing values last, `$max_k` groups non-increasing
   * with missing values first.
   */
  lemma GroupByOrderedWithinGroups(results: seq<Item>, config: GroupByClause)
    requires WellTyped(results, AggregateKeys(config.aggregate))
    ensures var sortKeys, dir, out := AggregateKeys(config.aggregate), AggregateDirection(config.aggregate), GroupBy(results, config);
      forall j :: 0 <= j < |out| ==>
        && (forall a, b :: 0 <= a < b < |out[j].items| ==> CompareItems(out[j].items[a], out[j].items[b], sortKeys, dir) <= 0)
        && (sortKeys != [] ==> forall a, b :: 0 <= a < b < |out[j].items| ==>
              InOrder(FieldValue(out[j].items[a], sortKeys[0]), FieldValue(out[j].items[b], sortKeys[0]), dir))
  {
    var keys, sortKeys, dir := NormalizeKeys(config.keys), AggregateKeys(config.aggregate), AggregateDirection(config.aggregate);
    var p := PartitionOf(results, keys);
    var out := GroupBy(results, config);
    PartitionGroups(results, keys);
    forall j | 0 <= j < |out| ensures
      && (forall a, b :: 0 <= a < b < |out[j].items| ==> CompareItems(out[j].items[a], out[j].items[b], sortKeys, dir) <= 0)
      && (sortKeys != [] ==> forall a, b :: 0 <= a < b < |out[j].items| ==>
            InOrder(FieldValue(out[j].items[a], sortKeys[0]), FieldValue(out[j].items[b], sortKeys[0]), dir))
    {
      var members := p.groups[p.order[j]];
      MembersExact(results, keys, p.order[j]);
      assert WellTyped(members, sortKeys);
      assert out[j].items == SortAndSlice(members, sortKeys, dir, AggregateK(config.aggregate));
      SortAndSliceOrder(members, sortKeys, dir, AggregateK(config.aggregate));
      if sortKeys != [] {
        SortAndSliceFirstKey(members, sortKeys, dir, AggregateK(config.aggregate));
      }
    }
  }

  /** Ascending on `#score`: a missing score comes after 0.3, and 0.1 before 0.3. */
  lemma ScoreComparisons()
    ensures var a, b, c := Item("1", None, None, None, Some(0.1), None), Item("2", None, None, None, None, None), Item("3", None, None, None, Some(0.3), None);
      var cmp := Comparator(["#score"], Asc);
      cmp(b, c) == 1 && cmp(a, c) == -1
  {
    var a, b, c := Item("1", None, None, None, Some(0.1), None), Item("2", None, None, None, None, None), Item("3", None, None, None, Some(0.3), None);
    assert FieldValue(a, "#score") == Some(Num(0.1));
    assert FieldValue(b, "#score") == None;
    assert FieldValue(c, "#score") == Some(Num(0.3));
  }

  /** Sorting three elements when the second goes after the third and the first before it. */
  lemma SortThree<T>(a: T, b: T, c: T, cmp: (T, T) -> int)
    requires cmp(b, c) > 0 && cmp(a, c) <= 0
    ensures StableSort.Sort([a, b, c], cmp) == [a, c, b]
  {
    assert [a, b, c][1..] == [b, c];
    SortTwo(b, c, cmp);
    assert StableSort.Insert(a, [c, b], cmp) == [a, c, b];
  }

  /** Sorting two elements when the first goes after the second. */
  lemma SortTwo<T>(b: T, c: T, cmp: (T, T) -> int)
    requires cmp(b, c) > 0
    ensures StableSort.Sort([b, c], cmp) == [c, b]
  {
    assert [b, c][1..] == [c] && [c][1..] == [];
    assert StableSort.Sort([c], cmp) == [c];
    assert StableSort.Insert(b, [c], cmp) == [c] + StableSort.Insert(b, [], cmp);
  }

  /** Ascending on `#score`, an item without a score goes after those with one. */
  lemma MissingScoreSortsLast()
    ensures var a, b, c := Item("1", None, None, None, Some(0.1), None), Item("2", None, None, None, None, None), Item("3", None, None, None, Some(0.3), None);
      SortAndSlice([a, b, c], ["#score"], Asc, 3) == [a, c, b]
  {
    var a, b, c := Item("1", None, None, None, Some(0.1), None), Item("2", None, None, None, None, None), Item("3", None, None, None, Some(0.3), None);
    ScoreComparisons();
    SortThree(a, b, c, Comparator(["#score"], Asc));
  }

  /** How many items fall in the groups of the values vs. */
  function MemberCount(items: seq<Item>, keys: seq<string>, vs: seq<GroupValue>): nat {
    if vs == [] then 0
    else MemberCount(items, keys, vs[..|vs| - 1]) + |Members(items, keys, vs[|vs| - 1])|
  }

  lemma {:induction false} MemberCountNoItems(keys: seq<string>, vs: seq<GroupValue>)
    ensures MemberCount([], keys, vs) == 0
  {
    if vs != [] {
      MemberCountNoItems(keys, vs[..|vs| - 1]);
    }
  }

  /** Appending an item adds one to the count exactly when its group value is among vs. */
  lemma {:induction false} MemberCountSnoc(items: seq<Item>, keys: seq<string>, vs: seq<GroupValue>, x: Item)
    requires StableSort.NoRepeats(vs)
    ensures MemberCount(items + [x], keys, vs)
      == MemberCount(items, keys, vs) + (if GroupValueOf(x, keys).Some? && GroupValueOf(x, keys).value in vs then 1 else 0)
  {
    var ext := items + [x];
    assert ext[..|ext| - 1] == items;
    if vs != [] {
      var init, last := vs[..|vs| - 1], vs[|vs| - 1];
      assert StableSort.NoRepeats(init) by {
        forall i, j | 0 <= i < j < |init| ensures init[i] != init[j] {
          assert init[i] == vs[i] && init[j] == vs[j];
        }
      }
      assert last !in init by {
        forall i | 0 <= i < |init| ensures init[i] != last {
          assert init[i] == vs[i];
        }
      }
      assert forall v :: v in vs <==> v in init || v == last;
      MemberCountSnoc(items, keys, init, x);
    }
  }

  /** Distinct groups never hold more items than there are. */
  lemma {:induction false} MemberCountBound(items: seq<Item>, keys: seq<string>, vs: seq<GroupValue>)
    requires StableSort.NoRepeats(vs)
    ensures MemberCount(items, keys, vs) <= |items|
  {
    if items == [] {
      MemberCountNoItems(keys, vs);
    } else {
      var init, x := items[..|items| - 1], items[|items| - 1];
      MemberCountBound(init, keys, vs);
      assert init + [x] == items;
      MemberCountSnoc(init, keys, vs, x);
    }
  }
}
