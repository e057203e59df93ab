/**
 * Projecting result items onto a requested key set
 * (packages/server/src/services/field-selector.service.ts).
 *
 * A key is either a reserved marker starting with '#' (`#document`,
 * `#embedding`, `#score`, `#metadata`, ...) or the bare name of a metadata
 * field. An empty key set selects everything.
 */
module FieldSelector {
  import opened Types

  datatype SelectClause = SelectClause(keys: seq<string>)

  /** `k.startsWith("#")` */
  predicate IsMarker(k: string) {
    |k| > 0 && k[0] == '#'
  }

  /** Whether a built-in field is selected: everything is when the key set is empty. */
  predicate Selects(keys: seq<string>, marker: string) {
    keys == [] || marker in keys
  }

  /** The keys that name metadata fields, in order. */
  function MetadataFields(keys: seq<string>): (r: seq<string>)
    ensures forall f :: f in r <==> f in keys && !IsMarker(f)
    ensures |r| <= |keys|
  {
    if keys == [] then []
    else (if IsMarker(keys[0]) then [] else [keys[0]]) + MetadataFields(keys[1..])
  }

  /** The entries of m named in fields: what the partial-metadata loop builds. */
  function Restrict(m: Metadata, fields: seq<string>): (r: Metadata)
    ensures forall f :: f in r <==> f in m && f in fields
    ensures forall f :: f in r ==> r[f] == m[f]
  {
    if fields == [] then map[]
    else
      var partial, field := Restrict(m, fields[..|fields| - 1]), fields[|fields| - 1];
      assert forall f :: f in fields <==> f in fields[..|fields| - 1] || f == field;
      if field in m then partial[field := m[field]] else partial
  }

  /** The metadata an item keeps under a key set. */
  function ProjectMetadata(metadata: Option<Metadata>, keys: seq<string>): Option<Metadata> {
    match metadata
    case None => None
    case Some(m) =>
      if Selects(keys, "#metadata") then Some(m)
      else if |MetadataFields(keys)| > 0 then
        var partial := Restrict(m, MetadataFields(keys));
        if |partial| > 0 then Some(partial) else None
      else None
  }

  /** The projection of one item. */
  function Project(item: Item, keys: seq<string>): Item {
    Item(
      item.id,
      if Selects(keys, "#document") then item.document else None,
      if Selects(keys, "#embedding") then item.embedding else None,
      ProjectMetadata(item.metadata, keys),
      if Selects(keys, "#score") then item.score else None,
      if Selects(keys, "#score") then item.distance else None)
  }

  /** The projection of every item. */
  function Select(results: seq<Item>, select: SelectClause): seq<Item> {
    seq(|results|, j requires 0 <= j < |results| => Project(results[j], select.keys))
  }

  /** The partial-metadata loop: copies, in key order, the named entries that exist. */
  method PartialMetadata(m: Metadata, fields: seq<string>) returns (partial: Metadata)
    ensures partial == Restrict(m, fields)
  {
    partial := map[];
    for i := 0 to |fields|
      invariant partial == Restrict(m, fields[..i])
    {
      var field := fields[i];
      assert fields[..i + 1][..i] == fields[..i];
      if field in m {
        partial := partial[field := m[field]];
      }
    }
    assert fields[..|fields|] == fields;
  }

  /** The metadata branch of the item projection. */
  method FilterMetadata(metadata: Option<Metadata>, keys: seq<string>, fields: seq<string>) returns (r: Option<Metadata>)
    requires fields == MetadataFields(keys)
    ensures r == ProjectMetadata(metadata, keys)
  {
    r := None;
    if metadata.Some? {
      var m := metadata.value;
      if |keys| == 0 || "#metadata" in keys {
        r := Some(m);
      } else if |fields| > 0 {
        var partial := PartialMetadata(m, fields);
        if |partial| > 0 {
          r := Some(partial);
        }
      }
    }
  }

  /** Builds the projection of one item field by field, as the source does. */
  method ProjectItem(item: Item, keys: seq<string>, fields: seq<string>) returns (filtered: Item)
    requires fields == MetadataFields(keys)
    ensures filtered == Project(item, keys)
  {
    var includeAll := |keys| == 0;
    var document, embedding, score, distance := None, None, None, None;
    if includeAll || "#document" in keys {
      if item.document.Some? {
        document := item.document;
      }
    }
    if includeAll || "#embedding" in keys {
      if item.embedding.Some? {
        embedding := item.embedding;
      }
    }
    if includeAll || "#score" in keys {
      if item.score.Some? {
        score := item.score;
      }
      if item.distance.Some? {
        distance := item.distance;
      }
    }
    var metadata := FilterMetadata(item.metadata, keys, fields);
    filtered := Item(item.id, document, embedding, metadata, score, distance);
  }

  /** `FieldSelectorService.process`: projects every item onto the key set. */
  method Process(results: seq<Item>, select: SelectClause) returns (out: seq<Item>)
    ensures out == Select(results, select)
  {
    var fields := MetadataFields(select.keys);
    out := [];
    for j := 0 to |results|
      invariant |out| == j
      invariant forall l :: 0 <= l < j ==> out[l] == Project(results[l], select.keys)
    {
      var filtered := ProjectItem(results[j], select.keys, fields);
      out := out + [filtered];
    }
  }

  /** One output item per input item, in order, each keeping its id. */
  lemma SelectKeepsIds(results: seq<Item>, select: SelectClause)
    ensures |Select(results, select)| == |results|
    ensures Ids(Select(results, select)) == Ids(results)
  {
    var out := Select(results, select);
    assert forall j :: 0 <= j < |out| ==> Ids(out)[j] == Ids(results)[j];
  }

  /** An empty key set copies every item unchanged. */
  lemma EmptySelectionIsIdentity(results: seq<Item>)
    ensures Select(results, SelectClause([])) == results
  {
  }

  /** `m` holds a subset of the entries of `whole`. */
  predicate SubMap(m: Metadata, whole: Metadata) {
    forall f :: f in m ==> f in whole && m[f] == whole[f]
  }

  /**
   * Nothing is synthesised: every present output field is the input's own
   * value, and output metadata is a part of the input's metadata.
   */
  lemma ProjectSynthesisesNothing(item: Item, keys: seq<string>)
    ensures var p := Project(item, keys);
      && p.id == item.id
      && (p.document.Some? ==> p.document == item.document)
      && (p.embedding.Some? ==> p.embedding == item.embedding)
      && (p.score.Some? ==> p.score == item.score)
      && (p.distance.Some? ==> p.distance == item.distance)
      && (p.metadata.Some? ==> item.metadata.Some? && SubMap(p.metadata.value, item.metadata.value))
  {
  }

  /**
   * Selecting `#score` copies both the score and the distance, each only when
   * present; `#distance` on its own selects neither.
   */
  lemma ScoreSelectsDistance(item: Item, keys: seq<string>)
    ensures var p := Project(item, keys);
      && (p.score.Some? <==> item.score.Some? && (keys == [] || "#score" in keys))
      && (p.distance.Some? <==> item.distance.Some? && (keys == [] || "#score" in keys))
    ensures keys == ["#distance"] ==> Project(item, keys).score.None? && Project(item, keys).distance.None?
  {
  }

  /** `#metadata` keeps the whole metadata map, whatever named fields sit beside it. */
  lemma MetadataMarkerWins(item: Item, keys: seq<string>)
    requires "#metadata" in keys
    ensures Project(item, keys).metadata == item.metadata
  {
  }

  /**
   * Without `#metadata` and with a non-empty key set, an item keeps exactly
   * the named metadata entries that exist, and has no metadata when none do.
   */
  lemma NamedMetadataFields(item: Item, keys: seq<string>)
    requires keys != [] && "#metadata" !in keys
    requires item.metadata.Some?
    ensures var p, m := Project(item, keys), item.metadata.value;
      && (p.metadata.Some? <==> exists f :: f in keys && !IsMarker(f) && f in m)
      && (p.metadata.Some? ==>
            && (forall f :: f in p.metadata.value <==> f in m && f in keys && !IsMarker(f))
            && SubMap(p.metadata.value, m))
  {
    var m := item.metadata.value;
    var fields := MetadataFields(keys);
    var partial := Restrict(m, fields);
    if exists f :: f in keys && !IsMarker(f) && f in m {
      var f :| f in keys && !IsMarker(f) && f in m;
      assert f in partial;
      assert |fields| > 0;
    }
  }

  /** A non-empty key set leaves out every field it does not select. */
  lemma UnselectedFieldsAbsent(item: Item, keys: seq<string>)
    requires keys != []
    ensures var p := Project(item, keys);
      && ("#document" !in keys ==> p.document.None?)
      && ("#embedding" !in keys ==> p.embedding.None?)
      && ("#score" !in keys ==> p.score.None? && p.distance.None?)
      && ("#metadata" !in keys && MetadataFields(keys) == [] ==> p.metadata.None?)
  {
  }

  /** Projecting twice onto the same key set changes nothing more. */
  lemma ProjectIdempotent(item: Item, keys: seq<string>)
    ensures Project(Project(item, keys), keys) == Project(item, keys)
  {
    ProjectMetadataIdempotent(item.metadata, keys);
  }

  /** Restricting twice to the same fields is restricting once. */
  lemma RestrictIdempotent(m: Metadata, fields: seq<string>)
    ensures Restrict(Restrict(m, fields), fields) == Restrict(m, fields)
  {
    var r := Restrict(m, fields);
    var rr := Restrict(r, fields);
    assert forall f :: f in rr <==> f in r;
    assert forall f :: f in rr ==> rr[f] == r[f];
  }

  lemma ProjectMetadataIdempotent(metadata: Option<Metadata>, keys: seq<string>)
    ensures ProjectMetadata(ProjectMetadata(metadata, keys), keys) == ProjectMetadata(metadata, keys)
  {
    if metadata.Some? && !Selects(keys, "#metadata") && |MetadataFields(keys)| > 0 {
      RestrictIdempotent(metadata.value, MetadataFields(keys));
    }
  }

  lemma SelectIdempotent(results: seq<Item>, select: SelectClause)
    ensures Select(Select(results, select), select) == Select(results, select)
  {
    forall j | 0 <= j < |results|
      ensures Project(Project(results[j], select.keys), select.keys) == Project(results[j], select.keys)
    {
      ProjectIdempotent(results[j], select.keys);
    }
  }

  /** The key set `#score, title, author` selects the score and two metadata fields. */
  lemma ScoreTitleAuthorKeys()
    ensures var keys := ["#score", "title", "author"];
      && MetadataFields(keys) == ["title", "author"]
      && Selects(keys, "#score")
      && !Selects(keys, "#document") && !Selects(keys, "#embedding") && !Selects(keys, "#metadata")
  {
    var keys := ["#score", "title", "author"];
    assert IsMarker(keys[0]) && !IsMarker(keys[1]) && !IsMarker(keys[2]);
    assert "#document"[1] != keys[0][1] && "#embedding"[1] != keys[0][1] && "#metadata"[1] != keys[0][1];
  }

  /** Named fields keep only the entries that exist. */
  lemma NamedFieldsExample()
    ensures var m := map["title" := Str("Test"), "author" := Str("John"), "year" := Num(2024.0)];
      var item := Item("doc1", Some("Hello world"), None, Some(m), Some(0.95), Some(0.05));
      Project(item, ["#score", "title", "author"])
      == Item("doc1", None, None, Some(map["title" := Str("Test"), "author" := Str("John")]), Some(0.95), Some(0.05))
  {
    var m := map["title" := Str("Test"), "author" := Str("John"), "year" := Num(2024.0)];
    var keys := ["#score", "title", "author"];
    ScoreTitleAuthorKeys();
    var fields: seq<string> := ["title", "author"];
    assert fields[..1] == ["title"] && ["title"][..0] == [];
    assert Restrict(m, ["title"]) == map["title" := Str("Test")];
    assert Restrict(m, fields) == map["title" := Str("Test"), "author" := Str("John")];
    assert ProjectMetadata(Some(m), keys) == Some(map["title" := Str("Test"), "author" := Str("John")]);
  }

  /** An item none of whose metadata fields is named keeps no metadata. */
  lemma MissingFieldsExample()
    ensures var m := map["title" := Str("Test"), "author" := Str("John"), "year" := Num(2024.0)];
      var item := Item("doc1", Some("Hello world"), None, Some(m), Some(0.95), Some(0.05));
      Project(item, ["nonexistent"]) == Item("doc1", None, None, None, None, None)
  {
    var m := map["title" := Str("Test"), "author" := Str("John"), "year" := Num(2024.0)];
    assert MetadataFields(["nonexistent"]) == ["nonexistent"];
    assert Restrict(m, ["nonexistent"]) == map[];
  }
}
