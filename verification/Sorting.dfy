/** `sorted` with a key: a stable insertion sort by a strict order. */
module Sorting {
  /** Insertion after the elements that e is not below. */
  function Insert<T>(less: (T, T) -> bool, e: T, s: seq<T>): (r: seq<T>)
    ensures multiset(r) == multiset([e]) + multiset(s) && |r| == |s| + 1
    decreases |s|
  {
    if |s| == 0 || less(e, s[0]) then [e] + s
    else
      assert s == [s[0]] + s[1..];
      [s[0]] + Insert(less, e, s[1..])
  }

  function Sort<T>(less: (T, T) -> bool, s: seq<T>): (r: seq<T>)
    ensures multiset(r) == multiset(s) && |r| == |s|
    decreases |s|
  {
    if |s| == 0 then []
    else
      assert s == s[..|s| - 1] + [s[|s| - 1]];
      Insert(less, s[|s| - 1], Sort(less, s[..|s| - 1]))
  }

  ghost predicate Asymmetric<T(!new)>(less: (T, T) -> bool) {
    forall a, b :: less(a, b) ==> !less(b, a)
  }

  /** No element below the one before it. */
  predicate NotDescending<T>(less: (T, T) -> bool, s: seq<T>) {
    forall i :: 0 < i < |s| ==> !less(s[i], s[i - 1])
  }

  lemma {:induction false} InsertKeeps<T(!new)>(less: (T, T) -> bool, e: T, s: seq<T>)
    requires Asymmetric(less) && NotDescending(less, s)
    ensures NotDescending(less, Insert(less, e, s))
    decreases |s|
  {
    if |s| > 0 && !less(e, s[0]) {
      var rest := Insert(less, e, s[1..]);
      InsertKeeps(less, e, s[1..]);
      assert |rest| > 0 && (rest[0] == e || (|s| > 1 && rest[0] == s[1]));
    }
  }

  /** The result is in order. */
  lemma {:induction false} SortSorts<T(!new)>(less: (T, T) -> bool, s: seq<T>)
    requires Asymmetric(less)
    ensures NotDescending(less, Sort(less, s))
    decreases |s|
  {
    if |s| > 0 {
      SortSorts(less, s[..|s| - 1]);
      InsertKeeps(less, s[|s| - 1], Sort(less, s[..|s| - 1]));
    }
  }

  predicate Distinct<T(==)>(s: seq<T>) {
    forall i, j :: 0 <= i < j < |s| ==> s[i] != s[j]
  }

  ghost predicate IsLeast(m: nat, s: set<nat>) {
    m in s && forall x :: x in s ==> m <= x
  }

  lemma {:induction false} LeastExists(s: set<nat>) returns (m: nat)
    requires s != {}
    ensures IsLeast(m, s)
    decreases |s|
  {
    m :| m in s;
    var rest := s - {m};
    if rest != {} {
      var least := LeastExists(rest);
      m := if m < least then m else least;
    }
    forall x | x in s
      ensures m <= x
    {
      assert x in rest || rest == {} || x in s - rest;
    }
  }

  // ------------------------------------------------------- equal multisets

  lemma SameRest<T>(a: seq<T>, b: seq<T>)
    requires |a| > 0 && |b| > 0 && a[0] == b[0] && multiset(a) == multiset(b)
    ensures multiset(a[1..]) == multiset(b[1..])
  {
    assert a == [a[0]] + a[1..] && b == [b[0]] + b[1..];
    assert multiset(a[1..]) == multiset(a) - multiset{a[0]};
  }

  lemma SameEnds<T>(a: seq<T>, b: seq<T>)
    requires multiset(a) == multiset(b)
    ensures |a| == |b|
    ensures |a| > 0 ==> a[0] in b && b[0] in a
  {
    assert |a| == |multiset(a)| == |b|;
    if |a| > 0 {
      assert a[0] in multiset(a) && b[0] in multiset(b);
    }
  }

  function Mapped<T, U>(f: T -> U, s: seq<T>): (m: seq<U>)
    ensures |m| == |s| && forall i :: 0 <= i < |m| ==> m[i] == f(s[i])
  {
    seq(|s|, i requires 0 <= i < |s| => f(s[i]))
  }

  lemma MappedConcat<T, U>(f: T -> U, a: seq<T>, b: seq<T>)
    ensures Mapped(f, a + b) == Mapped(f, a) + Mapped(f, b)
  {
  }

  lemma MappedRemoval<T, U>(f: T -> U, s: seq<T>, k: nat)
    requires k < |s|
    ensures multiset(Mapped(f, s)) == multiset(Mapped(f, s[..k] + s[k + 1..])) + multiset{f(s[k])}
    ensures multiset(s) == multiset(s[..k] + s[k + 1..]) + multiset{s[k]}
  {
    hide Mapped;
    var x, y := s[..k], s[k + 1..];
    assert s == x + ([s[k]] + y);
    MappedConcat(f, x, [s[k]] + y);
    MappedConcat(f, [s[k]], y);
    MappedConcat(f, x, y);
    assert Mapped(f, [s[k]]) == [f(s[k])];
  }

  /** A function of the elements keeps equal multisets equal. */
  lemma {:induction false} MappedMultiset<T, U>(f: T -> U, a: seq<T>, b: seq<T>)
    requires multiset(a) == multiset(b)
    ensures multiset(Mapped(f, a)) == multiset(Mapped(f, b))
    decreases |a|
  {
    hide Mapped;
    SameEnds(a, b);
    if |a| == 0 {
      assert a == b;
    } else {
      var k :| 0 <= k < |b| && b[k] == a[0];
      var restA, restB := a[..0] + a[1..], b[..k] + b[k + 1..];
      MappedRemoval(f, a, 0);
      MappedRemoval(f, b, k);
      assert multiset(restA) == multiset(a) - multiset{a[0]} == multiset(restB);
      MappedMultiset(f, restA, restB);
    }
  }
}
