/**
 * The string comparison used when sorting by a string-valued key. The
 * source calls `localeCompare`; this model stands for it by the
 * lexicographic order on UTF-16 code units, a total order.
 */
module TextOrder {

  /** Three-way lexicographic comparison: -1, 0 or 1. */
  function Compare(x: string, y: string): (r: int)
    ensures -1 <= r <= 1
  {
    if x == [] && y == [] then 0
    else if x == [] then -1
    else if y == [] then 1
    else if x[0] < y[0] then -1
    else if x[0] > y[0] then 1
    else Compare(x[1..], y[1..])
  }

  /** Compare says 0 exactly for equal strings. */
  lemma {:induction false} CompareZeroIffEqual(x: string, y: string)
    ensures Compare(x, y) == 0 <==> x == y
  {
    if x != [] && y != [] && x[0] == y[0] {
      CompareZeroIffEqual(x[1..], y[1..]);
      assert x == [x[0]] + x[1..] && y == [y[0]] + y[1..];
    }
  }

  /** Swapping the arguments negates the result. */
  lemma {:induction false} CompareAntisymmetric(x: string, y: string)
    ensures Compare(y, x) == -Compare(x, y)
  {
    if x != [] && y != [] && x[0] == y[0] {
      CompareAntisymmetric(x[1..], y[1..]);
    }
  }

  /** "Not after" is transitive. */
  lemma {:induction false} CompareTransitive(x: string, y: string, z: string)
    requires Compare(x, y) <= 0 && Compare(y, z) <= 0
    ensures Compare(x, z) <= 0
  {
    if x != [] && y != [] && z != [] && x[0] == y[0] && y[0] == z[0] {
      CompareTransitive(x[1..], y[1..], z[1..]);
    }
  }
}
