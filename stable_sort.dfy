/**
 * A stable comparator sort, standing for `Array.prototype.sort`, which is
 * stable. A comparator returns a negative number when its first argument
 * goes first, a positive one when its second does, and 0 for a tie.
 *
 * For a comparator that is a total preorder on the elements, Sort is
 * proved to return a sorted permutation that keeps tied elements in their
 * input order: what a stable `Array.prototype.sort` guarantees for a
 * consistent comparator.
 */
module StableSort {

  /** Inserts x before the first element it does not come after. */
  function Insert<T>(x: T, s: seq<T>, cmp: (T, T) -> int): (r: seq<T>)
    ensures |r| == |s| + 1
    ensures multiset(r) == multiset{x} + multiset(s)
  {
    if s == [] then [x]
    else if cmp(x, s[0]) <= 0 then [x] + s
    else
      assert s == [s[0]] + s[1..];
      [s[0]] + Insert(x, s[1..], cmp)
  }

  /** Stable insertion sort. */
  function Sort<T>(s: seq<T>, cmp: (T, T) -> int): (r: seq<T>)
    ensures |r| == |s|
    ensures multiset(r) == multiset(s)
  {
    if s == [] then []
    else
      assert s == [s[0]] + s[1..];
      Insert(s[0], Sort(s[1..], cmp), cmp)
  }

  ghost predicate Sorted<T>(s: seq<T>, cmp: (T, T) -> int) {
    forall i, j :: 0 <= i < j < |s| ==> cmp(s[i], s[j]) <= 0
  }

  /** The sign of cmp(a, b) is the opposite of that of cmp(b, a). */
  ghost predicate AntisymmetricAt<T>(cmp: (T, T) -> int, a: T, b: T) {
    cmp(a, b) < 0 <==> cmp(b, a) > 0
  }

  /** "Does not come after" is transitive through b. */
  ghost predicate TransitiveAt<T>(cmp: (T, T) -> int, a: T, b: T, c: T) {
    cmp(a, b) <= 0 && cmp(b, c) <= 0 ==> cmp(a, c) <= 0
  }

  /** cmp is a total preorder on the elements of u. */
  ghost predicate TotalPreorderOn<T>(u: seq<T>, cmp: (T, T) -> int) {
    && (forall a, b {:trigger AntisymmetricAt(cmp, a, b)} ::
          a in u && b in u ==> AntisymmetricAt(cmp, a, b))
    && (forall a, b, c {:trigger TransitiveAt(cmp, a, b, c)} ::
          a in u && b in u && c in u ==> TransitiveAt(cmp, a, b, c))
  }

  /** The elements of s tied with v, in the order of s. */
  function TieClass<T>(s: seq<T>, v: T, cmp: (T, T) -> int): seq<T>
  {
    if s == [] then []
    else (if cmp(s[0], v) == 0 then [s[0]] else []) + TieClass(s[1..], v, cmp)
  }

  lemma SortMember<T>(s: seq<T>, cmp: (T, T) -> int, e: T)
    ensures e in Sort(s, cmp) <==> e in s
  {
    var r := Sort(s, cmp);
    assert e in r <==> e in multiset(r);
    assert e in s <==> e in multiset(s);
  }

  lemma InsertMember<T>(x: T, s: seq<T>, cmp: (T, T) -> int, e: T)
    ensures e in Insert(x, s, cmp) <==> e == x || e in s
  {
    var r := Insert(x, s, cmp);
    assert e in r <==> e in multiset(r);
    assert e in s <==> e in multiset(s);
  }

  lemma SortAllIn<T>(s: seq<T>, cmp: (T, T) -> int, u: seq<T>)
    requires AllIn(s, u)
    ensures AllIn(Sort(s, cmp), u)
  {
    forall e | e in Sort(s, cmp) ensures e in u { SortMember(s, cmp, e); }
  }

  lemma TailAllIn<T>(s: seq<T>, u: seq<T>)
    requires s != [] && AllIn(s, u)
    ensures AllIn(s[1..], u) && s[0] in u
  {
    forall e | e in s[1..] ensures e in u { assert e in s; }
    assert s[0] in s;
  }

  /** Every element of s is an element of u. */
  ghost predicate AllIn<T>(s: seq<T>, u: seq<T>) {
    forall e :: e in s ==> e in u
  }

  lemma {:induction false} SortedCons<T>(x: T, s: seq<T>, cmp: (T, T) -> int)
    requires Sorted(s, cmp)
    requires forall j :: 0 <= j < |s| ==> cmp(x, s[j]) <= 0
    ensures Sorted([x] + s, cmp)
  {
    var r := [x] + s;
    forall i, j | 0 <= i < j < |r| ensures cmp(r[i], r[j]) <= 0 {
      assert r[j] == s[j - 1];
      if i > 0 { assert r[i] == s[i - 1]; }
    }
  }

  lemma SortedTail<T>(s: seq<T>, cmp: (T, T) -> int)
    requires s != [] && Sorted(s, cmp)
    ensures Sorted(s[1..], cmp)
  {
    var t := s[1..];
    forall i, j | 0 <= i < j < |t| ensures cmp(t[i], t[j]) <= 0 {
      assert t[i] == s[i + 1] && t[j] == s[j + 1];
    }
  }

  lemma Transitive<T>(u: seq<T>, cmp: (T, T) -> int, a: T, b: T, c: T)
    requires TotalPreorderOn(u, cmp) && a in u && b in u && c in u
    requires cmp(a, b) <= 0 && cmp(b, c) <= 0
    ensures cmp(a, c) <= 0
  {
    assert TransitiveAt(cmp, a, b, c);
  }

  lemma Antisymmetric<T>(u: seq<T>, cmp: (T, T) -> int, a: T, b: T)
    requires TotalPreorderOn(u, cmp) && a in u && b in u
    ensures cmp(a, b) < 0 <==> cmp(b, a) > 0
    ensures cmp(a, b) == 0 ==> cmp(b, a) == 0
  {
    assert AntisymmetricAt(cmp, a, b) && AntisymmetricAt(cmp, b, a);
  }

  lemma {:induction false} InsertSorted<T>(x: T, s: seq<T>, cmp: (T, T) -> int, u: seq<T>)
    requires TotalPreorderOn(u, cmp)
    requires x in u && AllIn(s, u)
    requires Sorted(s, cmp)
    ensures Sorted(Insert(x, s, cmp), cmp)
  {
    if s == [] {
    } else if cmp(x, s[0]) <= 0 {
      forall j | 0 <= j < |s| ensures cmp(x, s[j]) <= 0 {
        if j > 0 {
          assert s[0] in s && s[j] in s;
          Transitive(u, cmp, x, s[0], s[j]);
        }
      }
      SortedCons(x, s, cmp);
    } else {
      var t := s[1..];
      SortedTail(s, cmp);
      TailAllIn(s, u);
      InsertSorted(x, t, cmp, u);
      var ins := Insert(x, t, cmp);
      Antisymmetric(u, cmp, x, s[0]);
      forall j | 0 <= j < |ins| ensures cmp(s[0], ins[j]) <= 0 {
        InsertMember(x, t, cmp, ins[j]);
        if ins[j] != x {
          var m :| 0 <= m < |t| && t[m] == ins[j];
          assert s[m + 1] == ins[j];
        }
      }
      SortedCons(s[0], ins, cmp);
    }
  }

  /** With a total preorder, Sort returns a sorted sequence. */
  lemma SortSorted<T>(s: seq<T>, cmp: (T, T) -> int)
    requires TotalPreorderOn(s, cmp)
    ensures Sorted(Sort(s, cmp), cmp)
  {
    SortSortedIn(s, cmp, s);
  }

  lemma {:induction false} SortSortedIn<T>(s: seq<T>, cmp: (T, T) -> int, u: seq<T>)
    requires TotalPreorderOn(u, cmp)
    requires AllIn(s, u)
    ensures Sorted(Sort(s, cmp), cmp)
  {
    if s != [] {
      TailAllIn(s, u);
      SortSortedIn(s[1..], cmp, u);
      SortAllIn(s[1..], cmp, u);
      InsertSorted(s[0], Sort(s[1..], cmp), cmp, u);
    }
  }

  lemma TieClassCons<T>(x: T, s: seq<T>, v: T, cmp: (T, T) -> int)
    ensures TieClass([x] + s, v, cmp) == (if cmp(x, v) == 0 then [x] else []) + TieClass(s, v, cmp)
  {
    var r := [x] + s;
    assert r[0] == x && r[1..] == s;
  }

  lemma {:induction false} InsertTies<T>(x: T, s: seq<T>, v: T, cmp: (T, T) -> int, u: seq<T>)
    requires TotalPreorderOn(u, cmp)
    requires x in u && v in u && AllIn(s, u)
    ensures TieClass(Insert(x, s, cmp), v, cmp) == (if cmp(x, v) == 0 then [x] else []) + TieClass(s, v, cmp)
  {
    if s == [] {
      assert Insert(x, s, cmp) == [x] + s;
      TieClassCons(x, s, v, cmp);
    } else if cmp(x, s[0]) <= 0 {
      assert Insert(x, s, cmp) == [x] + s;
      TieClassCons(x, s, v, cmp);
    } else {
      var t := s[1..];
      TailAllIn(s, u);
      InsertTies(x, t, v, cmp, u);
      var ins := Insert(x, t, cmp);
      assert Insert(x, s, cmp) == [s[0]] + ins;
      TieClassCons(s[0], ins, v, cmp);
      var rest := TieClass(t, v, cmp);
      assert TieClass(s, v, cmp) == (if cmp(s[0], v) == 0 then [s[0]] else []) + rest;
      if cmp(x, v) == 0 {
        if cmp(s[0], v) == 0 {
          Antisymmetric(u, cmp, s[0], v);
          Transitive(u, cmp, x, v, s[0]);
          assert false;
        }
        assert TieClass(s, v, cmp) == rest;
        assert TieClass(ins, v, cmp) == [x] + rest;
      } else {
        assert TieClass(ins, v, cmp) == rest;
      }
    }
  }

  /**
   * Stability: the elements tied with any v appear in Sort's output in the same
   * order as in its input.
   */
  lemma SortStable<T>(s: seq<T>, v: T, cmp: (T, T) -> int)
    requires TotalPreorderOn(s, cmp) && v in s
    ensures TieClass(Sort(s, cmp), v, cmp) == TieClass(s, v, cmp)
  {
    SortStableIn(s, v, cmp, s);
  }

  lemma {:induction false} SortStableIn<T>(s: seq<T>, v: T, cmp: (T, T) -> int, u: seq<T>)
    requires TotalPreorderOn(u, cmp) && v in u
    requires AllIn(s, u)
    ensures TieClass(Sort(s, cmp), v, cmp) == TieClass(s, v, cmp)
  {
    if s != [] {
      TailAllIn(s, u);
      SortStableIn(s[1..], v, cmp, u);
      SortAllIn(s[1..], cmp, u);
      InsertTies(s[0], Sort(s[1..], cmp), v, cmp, u);
    }
  }

  /** x occurs somewhere before y in s. */
  ghost predicate Precedes<T>(s: seq<T>, x: T, y: T) {
    exists i, j :: 0 <= i < j < |s| && s[i] == x && s[j] == y
  }

  /** The tie class of v holds exactly the elements of s that tie with v. */
  lemma {:induction false} TieClassMember<T>(s: seq<T>, v: T, cmp: (T, T) -> int, e: T)
    ensures e in TieClass(s, v, cmp) <==> e in s && cmp(e, v) == 0
  {
    if s != [] {
      TieClassMember(s[1..], v, cmp, e);
      assert s == [s[0]] + s[1..];
    }
  }

  /** Two elements that tie with v come in the same order in s as in its tie class. */
  lemma {:induction false} TieClassPrecedes<T>(s: seq<T>, v: T, cmp: (T, T) -> int, x: T, y: T)
    requires cmp(x, v) == 0 && cmp(y, v) == 0
    ensures Precedes(s, x, y) <==> Precedes(TieClass(s, v, cmp), x, y)
  {
    if s != [] {
      TieClassPrecedes(s[1..], v, cmp, x, y);
      PrecedesCons(s, v, cmp, x, y);
      PrecedesUncons(s, v, cmp, x, y);
    }
  }

  lemma PrecedesCons<T>(s: seq<T>, v: T, cmp: (T, T) -> int, x: T, y: T)
    requires s != [] && cmp(x, v) == 0 && cmp(y, v) == 0
    requires Precedes(s[1..], x, y) ==> Precedes(TieClass(s[1..], v, cmp), x, y)
    ensures Precedes(s, x, y) ==> Precedes(TieClass(s, v, cmp), x, y)
  {
    var t, tc := s[1..], TieClass(s[1..], v, cmp);
    var pre: seq<T> := if cmp(s[0], v) == 0 then [s[0]] else [];
    assert TieClass(s, v, cmp) == pre + tc;
    if Precedes(s, x, y) {
      var i, j :| 0 <= i < j < |s| && s[i] == x && s[j] == y;
      if i == 0 {
        assert y == t[j - 1];
        TieClassMember(t, v, cmp, y);
        PrecedesHead(x, tc, y);
      } else {
        assert t[i - 1] == x && t[j - 1] == y;
        PrecedesShift(pre, tc, x, y);
      }
    }
  }

  lemma PrecedesUncons<T>(s: seq<T>, v: T, cmp: (T, T) -> int, x: T, y: T)
    requires s != [] && cmp(x, v) == 0 && cmp(y, v) == 0
    requires Precedes(TieClass(s[1..], v, cmp), x, y) ==> Precedes(s[1..], x, y)
    ensures Precedes(TieClass(s, v, cmp), x, y) ==> Precedes(s, x, y)
  {
    var t, tc := s[1..], TieClass(s[1..], v, cmp);
    var pre: seq<T> := if cmp(s[0], v) == 0 then [s[0]] else [];
    assert TieClass(s, v, cmp) == pre + tc;
    assert s == [s[0]] + t;
    if Precedes(pre + tc, x, y) {
      PrecedesSplit(pre, tc, x, y);
      if Precedes(tc, x, y) {
        PrecedesShift([s[0]], t, x, y);
      } else {
        TieClassMember(t, v, cmp, y);
        PrecedesHead(x, t, y);
      }
    }
  }

  /** The head precedes every element of the tail. */
  lemma PrecedesHead<T>(x: T, u: seq<T>, y: T)
    requires y in u
    ensures Precedes([x] + u, x, y)
  {
    var n :| 0 <= n < |u| && u[n] == y;
    assert ([x] + u)[0] == x && ([x] + u)[n + 1] == y;
  }

  /** Order within a suffix is order within the whole. */
  lemma PrecedesShift<T>(pre: seq<T>, u: seq<T>, x: T, y: T)
    requires Precedes(u, x, y)
    ensures Precedes(pre + u, x, y)
  {
    var m, n :| 0 <= m < n < |u| && u[m] == x && u[n] == y;
    assert (pre + u)[m + |pre|] == x && (pre + u)[n + |pre|] == y;
  }

  /** Order after a prefix of at most one element: from the prefix, or within the rest. */
  lemma PrecedesSplit<T>(pre: seq<T>, u: seq<T>, x: T, y: T)
    requires |pre| <= 1 && Precedes(pre + u, x, y)
    ensures Precedes(u, x, y) || (pre == [x] && y in u)
  {
    var c := pre + u;
    var m, n :| 0 <= m < n < |c| && c[m] == x && c[n] == y;
    if m < |pre| {
      assert pre == [x] && u[n - 1] == y;
    } else {
      assert u[m - |pre|] == x && u[n - |pre|] == y;
    }
  }

  /** Stability, pairwise: if x and y tie and Sort puts x before y, then x was before y. */
  lemma SortKeepsTiedPairs<T>(s: seq<T>, cmp: (T, T) -> int, x: T, y: T)
    requires TotalPreorderOn(s, cmp) && x in s
    requires cmp(x, x) == 0 && cmp(y, x) == 0
    ensures Precedes(Sort(s, cmp), x, y) <==> Precedes(s, x, y)
  {
    SortStable(s, x, cmp);
    TieClassPrecedes(Sort(s, cmp), x, cmp, x, y);
    TieClassPrecedes(s, x, cmp, x, y);
  }

  /** No element occurs twice. */
  ghost predicate NoRepeats<T>(s: seq<T>) {
    forall i, j :: 0 <= i < j < |s| ==> s[i] != s[j]
  }

  lemma NoRepeatsTail<T>(s: seq<T>)
    requires s != [] && NoRepeats(s)
    ensures NoRepeats(s[1..]) && s[0] !in s[1..]
  {
    var t := s[1..];
    forall i, j | 0 <= i < j < |t| ensures t[i] != t[j] {
      assert t[i] == s[i + 1] && t[j] == s[j + 1];
    }
    forall m | 0 <= m < |t| ensures t[m] != s[0] { assert t[m] == s[m + 1]; }
  }

  lemma NoRepeatsCons<T>(x: T, s: seq<T>)
    requires NoRepeats(s) && x !in s
    ensures NoRepeats([x] + s)
  {
    var r := [x] + s;
    forall i, j | 0 <= i < j < |r| ensures r[i] != r[j] {
      assert r[j] == s[j - 1];
      if i > 0 { assert r[i] == s[i - 1]; }
    }
  }

  /** Sorting a sequence without repeated elements gives one without repeats. */
  lemma {:induction false} SortNoRepeats<T>(s: seq<T>, cmp: (T, T) -> int)
    requires NoRepeats(s)
    ensures NoRepeats(Sort(s, cmp))
  {
    if s != [] {
      NoRepeatsTail(s);
      SortNoRepeats(s[1..], cmp);
      SortMember(s[1..], cmp, s[0]);
      InsertNoRepeats(s[0], Sort(s[1..], cmp), cmp);
    }
  }

  lemma {:induction false} InsertNoRepeats<T>(x: T, s: seq<T>, cmp: (T, T) -> int)
    requires NoRepeats(s) && x !in s
    ensures NoRepeats(Insert(x, s, cmp))
  {
    if s == [] {
    } else if cmp(x, s[0]) <= 0 {
      NoRepeatsCons(x, s);
    } else {
      NoRepeatsTail(s);
      InsertNoRepeats(x, s[1..], cmp);
      InsertMember(x, s[1..], cmp, s[0]);
      NoRepeatsCons(s[0], Insert(x, s[1..], cmp));
    }
  }
}
