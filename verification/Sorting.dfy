/** What `Array.prototype.sort` promises: a stable sort by a comparator that is a total preorder. */
module Sorting {
  ghost predicate TotalPreorder<T(!new)>(le: (T, T) -> bool) {
    && (forall x, y :: le(x, y) || le(y, x))
    && (forall x, y, z :: le(x, y) && le(y, z) ==> le(x, z))
  }

  ghost predicate SortedBy<T>(s: seq<T>, le: (T, T) -> bool) {
    forall i, j :: 0 <= i < j < |s| ==> le(s[i], s[j])
  }

  /** Behind everything not greater. */
  function Insert<T>(s: seq<T>, x: T, le: (T, T) -> bool): seq<T> {
    if s != [] && le(s[0], x) then [s[0]] + Insert(s[1..], x, le) else [x] + s
  }

  function StableSort<T>(s: seq<T>, le: (T, T) -> bool): seq<T> {
    if s == [] then [] else Insert(StableSort(s[..|s| - 1], le), s[|s| - 1], le)
  }

  lemma {:induction false} InsertElements<T>(s: seq<T>, x: T, le: (T, T) -> bool)
    ensures multiset(Insert(s, x, le)) == multiset(s) + multiset{x}
  {
    if s != [] && le(s[0], x) {
      InsertElements(s[1..], x, le);
      assert s == [s[0]] + s[1..];
    }
  }

  lemma {:induction false} InsertSorts<T(!new)>(s: seq<T>, x: T, le: (T, T) -> bool)
    requires TotalPreorder(le) && SortedBy(s, le)
    ensures SortedBy(Insert(s, x, le), le)
  {
    if s != [] && le(s[0], x) {
      InsertSorts(s[1..], x, le);
      InsertElements(s[1..], x, le);
      var more := Insert(s[1..], x, le);
      forall j | 0 <= j < |more| ensures le(s[0], more[j]) {
        assert more[j] in multiset(s[1..]) + multiset{x};
      }
    } else if s != [] {
      assert le(x, s[0]);
      forall j | 0 <= j < |s| ensures le(x, s[j]) { assert j == 0 || le(s[0], s[j]); }
    }
  }

  lemma {:induction false} SortSorts<T(!new)>(s: seq<T>, le: (T, T) -> bool)
    requires TotalPreorder(le)
    ensures SortedBy(StableSort(s, le), le)
    ensures multiset(StableSort(s, le)) == multiset(s)
    ensures |StableSort(s, le)| == |s|
  {
    if s != [] {
      hide TotalPreorder, SortedBy, Insert;
      var front := s[..|s| - 1];
      SortSorts(front, le);
      InsertSorts(StableSort(front, le), s[|s| - 1], le);
      InsertElements(StableSort(front, le), s[|s| - 1], le);
      assert s == front + [s[|s| - 1]];
      assert |multiset(StableSort(s, le))| == |multiset(s)|;
    } else {
      assert SortedBy<T>([], le);
    }
  }

  /** The elements that compare equal to x, in order. */
  ghost function Class<T>(s: seq<T>, x: T, le: (T, T) -> bool): seq<T> {
    if s == [] then []
    else (if le(s[0], x) && le(x, s[0]) then [s[0]] else []) + Class(s[1..], x, le)
  }

  lemma {:induction false} ClassAppend<T>(a: seq<T>, b: seq<T>, x: T, le: (T, T) -> bool)
    ensures Class(a + b, x, le) == Class(a, x, le) + Class(b, x, le)
  {
    if a == [] {
      assert a + b == b;
    } else {
      assert (a + b)[1..] == a[1..] + b;
      ClassAppend(a[1..], b, x, le);
    }
  }

  lemma {:induction false} NoClass<T(!new)>(s: seq<T>, x: T, le: (T, T) -> bool)
    requires forall i :: 0 <= i < |s| ==> !le(s[i], x)
    ensures Class(s, x, le) == []
  {
    if s != [] { NoClass(s[1..], x, le); }
  }

  lemma {:induction false} InsertStable<T(!new)>(s: seq<T>, y: T, x: T, le: (T, T) -> bool)
    requires TotalPreorder(le) && SortedBy(s, le)
    ensures Class(Insert(s, y, le), x, le) == Class(s, x, le) + Class([y], x, le)
  {
    if s != [] && le(s[0], y) {
      InsertStable(s[1..], y, x, le);
      assert ([s[0]] + Insert(s[1..], y, le))[1..] == Insert(s[1..], y, le);
    } else {
      ClassAppend([y], s, x, le);
      if le(y, x) && le(x, y) {
        forall i | 0 <= i < |s| ensures !le(s[i], x) {
          assert !le(s[0], y);
          assert i == 0 || le(s[0], s[i]);
        }
        NoClass(s, x, le);
      }
    }
  }

  lemma SortStep<T>(front: seq<T>, last: T, le: (T, T) -> bool)
    ensures StableSort(front + [last], le) == Insert(StableSort(front, le), last, le)
  {
    hide Insert;
    assert (front + [last])[..|front|] == front;
  }

  lemma ClassOfNone<T>(x: T, le: (T, T) -> bool)
    ensures Class(StableSort<T>([], le), x, le) == [] == Class([], x, le)
  {
  }

  /** Elements that compare equal keep their order. */
  lemma {:induction false} SortStable<T(!new)>(s: seq<T>, x: T, le: (T, T) -> bool)
    requires TotalPreorder(le)
    ensures Class(StableSort(s, le), x, le) == Class(s, x, le)
  {
    hide *;
    if s == [] {
      ClassOfNone(x, le);
    } else {
      var front, last := s[..|s| - 1], s[|s| - 1];
      assert s == front + [last];
      SortStep(front, last, le);
      SortStable(front, x, le);
      SortSorts(front, le);
      InsertStable(StableSort(front, le), last, x, le);
      ClassAppend(front, [last], x, le);
    }
  }
}
