/**
 * Shared data model of the search pipeline: result items, metadata values,
 * ranking queries and the fusion clause, as the request and response schemas
 * of the SDK describe them.
 */
module Types {

  datatype Option<+T> = None | Some(value: T) {
    function GetOr(default: T): T {
      match this
      case Some(v) => v
      case None => default
    }
  }

  datatype Result<+T, +E> = Ok(value: T) | Err(error: E)

  /** A metadata value: string, number or boolean. */
  datatype Value = Str(s: string) | Num(n: real) | Bool(b: bool)

  type Metadata = map<string, Value>

  /**
   * One search result. `score` is higher-is-better in some modes and the
   * negated fusion sum after RRF; `distance` is the store's distance.
   */
  datatype Item = Item(
    id: string,
    document: Option<string>,
    embedding: Option<seq<real>>,
    metadata: Option<Metadata>,
    score: Option<real>,
    distance: Option<real>)

  /** The query of a nearest-neighbour search: text or an embedding vector. */
  datatype QueryContent = Text(text: string) | Vector(vector: seq<real>)

  /** A nearest-neighbour ranking query. `default` is accepted and never used. */
  datatype KnnQuery = KnnQuery(
    query: QueryContent,
    key: Option<string>,
    limit: Option<nat>,
    returnRank: Option<bool>,
    default: Option<real>)

  /** A Reciprocal Rank Fusion clause over several nearest-neighbour queries. */
  datatype RrfClause = RrfClause(
    ranks: seq<KnnQuery>,
    k: Option<int>,
    weights: Option<seq<real>>,
    normalize: Option<bool>)

  /** The ids of a sequence of items, in order. */
  function Ids(items: seq<Item>): (r: seq<string>)
    ensures |r| == |items|
    ensures forall j :: 0 <= j < |items| ==> r[j] == items[j].id
  {
    seq(|items|, j requires 0 <= j < |items| => items[j].id)
  }
}
