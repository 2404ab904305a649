/** `Array.prototype.sort` with a comparator, as the gallery uses it: a
    stable sort (required of the built-in since ECMAScript 2019) by a total
    preorder `le`, where `le(a, b)` means the comparator puts `a` at or
    before `b` (it returns a value <= 0). */
module Sorting {
  import opened Seqs

  ghost predicate TotalPreorder<T(!new)>(le: (T, T) -> bool) {
    && (forall x, y :: le(x, y) || le(y, x))
    && (forall x, y, z :: le(x, y) && le(y, z) ==> le(x, z))
  }

  ghost predicate SortedBy<T>(s: seq<T>, le: (T, T) -> bool) {
    forall i, j :: 0 <= i < j < |s| ==> le(s[i], s[j])
  }

  /** The elements whose key equals that of `k` (the comparator returns 0). */
  function SameKey<T>(le: (T, T) -> bool, k: T): T -> bool {
    y => le(y, k) && le(k, y)
  }

  /** The elements of `s` that tie with `k`, in their order in `s`. */
  function KeyClass<T(!new)>(s: seq<T>, le: (T, T) -> bool, k: T): seq<T> {
    Filter(s, SameKey(le, k))
  }

  /** Every group of tied elements appears in `r` in the order it has in `s`. */
  ghost predicate StableFor<T(!new)>(r: seq<T>, s: seq<T>, le: (T, T) -> bool) {
    forall k :: KeyClass(r, le, k) == KeyClass(s, le, k)
  }

  /** Inserts `x` in front of the first element it may precede. */
  function Insert<T>(x: T, s: seq<T>, le: (T, T) -> bool): (r: seq<T>)
    ensures multiset(r) == multiset(s) + multiset{x}
  {
    if s == [] || le(x, s[0]) then [x] + s
    else
      assert s == [s[0]] + s[1..];
      [s[0]] + Insert(x, s[1..], le)
  }

  /** Insertion sort: stable, because an element is inserted ahead of the
      later elements it ties with. */
  function StableSort<T>(s: seq<T>, le: (T, T) -> bool): (r: seq<T>)
    ensures multiset(r) == multiset(s) && |r| == |s|
  {
    if s == [] then []
    else
      assert s == [s[0]] + s[1..];
      Insert(s[0], StableSort(s[1..], le), le)
  }

  lemma {:induction false} InsertSorted<T(!new)>(x: T, s: seq<T>, le: (T, T) -> bool)
    requires TotalPreorder(le) && SortedBy(s, le)
    ensures SortedBy(Insert(x, s, le), le)
  {
    if s == [] || le(x, s[0]) {
    } else {
      var tail := Insert(x, s[1..], le);
      InsertSorted(x, s[1..], le);
      forall y | y in tail ensures le(s[0], y) {
        assert y in multiset(tail);
        if y != x {
          assert y in s[1..];
        }
      }
    }
  }

  lemma {:induction false} StableSortSorted<T(!new)>(s: seq<T>, le: (T, T) -> bool)
    requires TotalPreorder(le)
    ensures SortedBy(StableSort(s, le), le)
  {
    if s != [] {
      StableSortSorted(s[1..], le);
      InsertSorted(s[0], StableSort(s[1..], le), le);
    }
  }

  lemma {:induction false} InsertKeyClass<T(!new)>(x: T, s: seq<T>, le: (T, T) -> bool, k: T)
    requires TotalPreorder(le) && SortedBy(s, le)
    ensures KeyClass(Insert(x, s, le), le, k) ==
      (if SameKey(le, k)(x) then [x] else []) + KeyClass(s, le, k)
  {
    var r := Insert(x, s, le);
    if s == [] || le(x, s[0]) {
      assert r[0] == x && r[1..] == s;
    } else {
      var tail := Insert(x, s[1..], le);
      assert r[0] == s[0] && r[1..] == tail;
      InsertKeyClass(x, s[1..], le, k);
      // s[0] comes strictly before x, so it cannot tie with k when x does
      assert SameKey(le, k)(x) ==> !SameKey(le, k)(s[0]);
    }
  }

  /** The sort keeps every group of tied elements in input order. */
  lemma {:induction false} StableSortStable<T(!new)>(s: seq<T>, le: (T, T) -> bool)
    requires TotalPreorder(le)
    ensures StableFor(StableSort(s, le), s, le)
  {
    if s != [] {
      StableSortStable(s[1..], le);
      StableSortSorted(s[1..], le);
      forall k ensures KeyClass(StableSort(s, le), le, k) == KeyClass(s, le, k) {
        InsertKeyClass(s[0], StableSort(s[1..], le), le, k);
        assert s == [s[0]] + s[1..];
      }
    }
  }
}
