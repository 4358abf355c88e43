/** Sorting a sequence by a total order. */
module Sorting {

  ghost predicate TotalOrder<T(!new)>(le: (T, T) -> bool) {
    && (forall a, b :: le(a, b) || le(b, a))
    && (forall a, b, c :: le(a, b) && le(b, c) ==> le(a, c))
  }

  ghost predicate Sorted<T>(s: seq<T>, le: (T, T) -> bool) {
    forall i, j :: 0 <= i < j < |s| ==> le(s[i], s[j])
  }

  function Insert<T>(x: T, s: seq<T>, le: (T, T) -> bool): seq<T> {
    if s == [] then [x]
    else if le(x, s[0]) then [x] + s
    else [s[0]] + Insert(x, s[1..], le)
  }

  function Sort<T>(s: seq<T>, le: (T, T) -> bool): seq<T> {
    if s == [] then [] else Insert(s[0], Sort(s[1..], le), le)
  }

  lemma {:induction false} InsertSorts<T(!new)>(x: T, s: seq<T>, le: (T, T) -> bool)
    requires TotalOrder(le) && Sorted(s, le)
    ensures Sorted(Insert(x, s, le), le) && multiset(Insert(x, s, le)) == multiset(s) + multiset{x}
  {
    if s == [] {
      assert Insert(x, s, le) == [x];
    } else if le(x, s[0]) {
      forall j | 0 <= j < |s| ensures le(x, s[j]) { if j > 0 { assert le(s[0], s[j]); } }
      PrependSorts(x, s, le);
    } else {
      var head, tail := s[0], s[1..];
      var r := Insert(x, tail, le);
      assert s == [head] + tail;
      InsertSorts(x, tail, le);
      forall j | 0 <= j < |r| ensures le(head, r[j]) {
        assert r[j] in multiset(r);
        if r[j] != x { LaterIsAbove(head, tail, r[j], le); }
      }
      PrependSorts(head, r, le);
    }
  }

  lemma PrependSorts<T(!new)>(x: T, s: seq<T>, le: (T, T) -> bool)
    requires Sorted(s, le) && forall j :: 0 <= j < |s| ==> le(x, s[j])
    ensures Sorted([x] + s, le) && multiset([x] + s) == multiset(s) + multiset{x}
  {
  }

  lemma LaterIsAbove<T(!new)>(head: T, tail: seq<T>, y: T, le: (T, T) -> bool)
    requires Sorted([head] + tail, le) && y in tail
    ensures le(head, y)
  {
    var j :| 0 <= j < |tail| && tail[j] == y;
    var s := [head] + tail;
    assert le(s[0], s[j + 1]);
  }

  /** Sorting gives an ordered permutation. */
  lemma {:induction false} SortSorts<T(!new)>(s: seq<T>, le: (T, T) -> bool)
    requires TotalOrder(le)
    ensures Sorted(Sort(s, le), le) && multiset(Sort(s, le)) == multiset(s) && |Sort(s, le)| == |s|
  {
    if s != [] {
      assert s == [s[0]] + s[1..];
      SortSorts(s[1..], le);
      InsertSorts(s[0], Sort(s[1..], le), le);
    }
    assert |multiset(Sort(s, le))| == |multiset(s)|;
  }
}
