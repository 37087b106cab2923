/**
 * Python's stable `sorted`/`list.sort` as insertion sort under a total
 * "may come before" relation. For a descending sort by key, `before(a, b)` is
 * `key(a) >= key(b)`; for an ascending one, `key(a) <= key(b)`.
 */
module Sorting {

  ghost predicate Total<T(!new)>(before: (T, T) -> bool) {
    forall a, b :: before(a, b) || before(b, a)
  }

  /** Every element may come before its successor. */
  predicate Sorted<T>(s: seq<T>, before: (T, T) -> bool) {
    forall i :: 0 < i < |s| ==> before(s[i - 1], s[i])
  }

  /** Inserts `x` in front of the first element it may come before. */
  function Insert<T(!new)>(x: T, s: seq<T>, before: (T, T) -> bool): (r: seq<T>)
    requires Total(before)
    ensures multiset(r) == multiset(s) + multiset{x}
    ensures Sorted(s, before) ==> Sorted(r, before)
    ensures r != [] && (r[0] == x || (s != [] && r[0] == s[0]))
  {
    if s == [] || before(x, s[0]) then [x] + s
    else
      var rest := Insert(x, s[1..], before);
      assert s == [s[0]] + s[1..];
      [s[0]] + rest
  }

  /** The stable sort: each element is placed ahead of the later elements it may come before. */
  function Sort<T(!new)>(s: seq<T>, before: (T, T) -> bool): (r: seq<T>)
    requires Total(before)
    ensures multiset(r) == multiset(s) && |r| == |s|
    ensures Sorted(r, before)
  {
    if s == [] then []
    else
      assert s == [s[0]] + s[1..];
      Insert(s[0], Sort(s[1..], before), before)
  }

  /** The elements of `s` tied with `y` (each may come before the other), in their order in `s`. */
  function Ties<T>(s: seq<T>, before: (T, T) -> bool, y: T): seq<T> {
    if s == [] then []
    else (if before(s[0], y) && before(y, s[0]) then [s[0]] else []) + Ties(s[1..], before, y)
  }

  /** Inserting `x` puts it ahead of every element it is tied with. */
  lemma {:induction false} InsertTies<T(!new)>(x: T, s: seq<T>, before: (T, T) -> bool, y: T)
    requires Total(before)
    requires forall a, b, c {:trigger before(a, b), before(b, c), before(a, c)} :: before(a, b) && before(b, c) ==> before(a, c)
    ensures Ties(Insert(x, s, before), before, y) == (if before(x, y) && before(y, x) then [x] else []) + Ties(s, before, y)
  {
    var tx := if before(x, y) && before(y, x) then [x] else [];
    if s == [] || before(x, s[0]) {
      assert Insert(x, s, before) == [x] + s;
      assert ([x] + s)[1..] == s;
    } else {
      var rest := Insert(x, s[1..], before);
      assert Insert(x, s, before) == [s[0]] + rest;
      assert ([s[0]] + rest)[1..] == rest;
      var t0 := if before(s[0], y) && before(y, s[0]) then [s[0]] else [];
      assert Ties([s[0]] + rest, before, y) == t0 + Ties(rest, before, y);
      assert Ties(s, before, y) == t0 + Ties(s[1..], before, y);
      InsertTies(x, s[1..], before, y);
      var a := Ties(s[1..], before, y);
      if tx != [] {
        assert !(before(s[0], y) && before(y, s[0]));
        assert t0 + Ties(rest, before, y) == Ties(rest, before, y);
        assert t0 + a == a;
      } else {
        assert tx + a == a;
        assert tx + Ties(s, before, y) == Ties(s, before, y);
      }
    }
  }

  /** The sort is stable: elements tied under the order keep their input order. */
  lemma {:induction false} SortStable<T(!new)>(s: seq<T>, before: (T, T) -> bool, y: T)
    requires Total(before)
    requires forall a, b, c {:trigger before(a, b), before(b, c), before(a, c)} :: before(a, b) && before(b, c) ==> before(a, c)
    ensures Ties(Sort(s, before), before, y) == Ties(s, before, y)
  {
    if s != [] {
      SortStable(s[1..], before, y);
      InsertTies(s[0], Sort(s[1..], before), before, y);
    }
  }

  /** A sorted sequence under a transitive relation is ordered pairwise, not just neighbour-wise. */
  lemma {:induction false} SortedPairwise<T(!new)>(s: seq<T>, before: (T, T) -> bool, i: int, j: int)
    requires Sorted(s, before)
    requires forall a, b, c :: before(a, b) && before(b, c) ==> before(a, c)
    requires 0 <= i < j < |s|
    ensures before(s[i], s[j])
  {
    if i < j - 1 {
      SortedPairwise(s, before, i, j - 1);
    }
  }
}
