/** Sequences as multisets. */
module Permutations {
  lemma TakeOut<T>(s: seq<T>, i: nat)
    requires i < |s|
    ensures s == s[..i] + [s[i]] + s[i + 1..]
    ensures multiset(s) == multiset(s[..i] + s[i + 1..]) + multiset{s[i]}
  {
    assert s == s[..i] + [s[i]] + s[i + 1..];
  }

  lemma MatchLast<T>(a: seq<T>, b: seq<T>) returns (i: nat)
    requires multiset(a) == multiset(b) && a != []
    ensures i < |b| && b[i] == a[|a| - 1]
    ensures multiset(a[..|a| - 1]) == multiset(b[..i] + b[i + 1..])
  {
    var front, last := a[..|a| - 1], a[|a| - 1];
    assert a == front + [last];
    assert last in multiset(b);
    i :| 0 <= i < |b| && b[i] == last;
    TakeOut(b, i);
    ghost var rest := multiset(b[..i] + b[i + 1..]);
    calc {
      multiset(front);
      multiset(front) + multiset{last} - multiset{last};
      multiset(a) - multiset{last};
      rest + multiset{last} - multiset{last};
      rest;
    }
  }

  lemma AtMostOnce<T>(s: seq<T>, i: nat, j: nat)
    requires i < j < |s| && forall x :: x in multiset(s) ==> multiset(s)[x] == 1
    ensures s[i] != s[j]
  {
    TakeOut(s, j);
    var others := s[..j] + s[j + 1..];
    assert s[j] in multiset(s) && multiset(s)[s[j]] == multiset(others)[s[j]] + 1;
    assert others[i] == s[i] && s[i] in multiset(others);
  }

  lemma OnceEach<T>(s: seq<T>, i: nat)
    requires i < |s| && forall j :: 0 <= j < |s| && j != i ==> s[j] != s[i]
    ensures multiset(s)[s[i]] == 1
  {
    TakeOut(s, i);
    assert s[i] !in s[..i] + s[i + 1..];
  }

  function Filter<T>(rs: seq<T>, p: T -> bool): seq<T> {
    if rs == [] then []
    else
      var front, last := Filter(rs[..|rs| - 1], p), rs[|rs| - 1];
      if p(last) then front + [last] else front
  }

  lemma {:induction false} FilterPermutes<T>(a: seq<T>, b: seq<T>, p: T -> bool)
    requires multiset(a) == multiset(b)
    ensures multiset(Filter(a, p)) == multiset(Filter(b, p))
    decreases |a|
  {
    if a == [] {
      assert |multiset(b)| == 0;
    } else {
      var i := MatchLast(a, b);
      var left, x, right := b[..i], b[i], b[i + 1..];
      FilterPermutes(a[..|a| - 1], left + right, p);
      assert b == left + [x] + right;
      FilterAppend(left, right, p);
      FilterAppend(left + [x], right, p);
      FilterAppend(left, [x], p);
      assert [x][..0] == [];
      hide Filter;
    }
  }

  lemma {:induction false} FilterAppend<T>(a: seq<T>, b: seq<T>, p: T -> bool)
    ensures Filter(a + b, p) == Filter(a, p) + Filter(b, p)
  {
    if b == [] {
      assert a + b == a;
    } else {
      assert (a + b)[..|a + b| - 1] == a + b[..|b| - 1];
      FilterAppend(a, b[..|b| - 1], p);
    }
  }

  function SumNat<T>(rs: seq<T>, f: T -> nat): nat {
    if rs == [] then 0 else SumNat(rs[..|rs| - 1], f) + f(rs[|rs| - 1])
  }

  lemma {:induction false} SumNatPermutes<T>(a: seq<T>, b: seq<T>, f: T -> nat)
    requires multiset(a) == multiset(b)
    ensures SumNat(a, f) == SumNat(b, f)
    decreases |a|
  {
    if a == [] {
      assert |multiset(b)| == 0;
    } else {
      var i := MatchLast(a, b);
      SumNatPermutes(a[..|a| - 1], b[..i] + b[i + 1..], f);
      SumNatMiddle(b[..i], b[i], b[i + 1..], f);
      assert b == b[..i] + [b[i]] + b[i + 1..];
    }
  }

  lemma {:induction false} SumNatMiddle<T>(left: seq<T>, x: T, right: seq<T>, f: T -> nat)
    ensures SumNat(left + [x] + right, f) == SumNat(left + right, f) + f(x)
  {
    if right == [] {
      assert (left + [x] + right)[..|left|] == left && left + right == left;
    } else {
      var front := right[..|right| - 1];
      assert (left + [x] + right)[..|left + [x] + right| - 1] == left + [x] + front;
      assert (left + right)[..|left + right| - 1] == left + front;
      SumNatMiddle(left, x, front, f);
    }
  }
}
