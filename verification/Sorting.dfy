/** The stable sort the sources rely on (`Array.prototype.sort`), and the fact
    that makes sorted outputs independent of input order. */
module Sorting {

  ghost predicate TotalPreorder<T(!new)>(le: (T, T) -> bool) {
    && (forall x, y :: le(x, y) || le(y, x))
    && (forall x, y, z :: le(x, y) && le(y, z) ==> le(x, z))
  }

  ghost predicate Sorted<T>(xs: seq<T>, le: (T, T) -> bool) {
    forall i, j :: 0 <= i < j < |xs| ==> le(xs[i], xs[j])
  }

  /** `le` tells any two different elements of `xs` apart. */
  ghost predicate Separates<T>(xs: seq<T>, le: (T, T) -> bool) {
    forall x, y :: x in xs && y in xs && le(x, y) && le(y, x) ==> x == y
  }

  function Insert<T>(x: T, xs: seq<T>, le: (T, T) -> bool): seq<T> {
    if xs == [] then [x]
    else if le(x, xs[0]) then [x] + xs
    else [xs[0]] + Insert(x, xs[1..], le)
  }

  function Sort<T>(xs: seq<T>, le: (T, T) -> bool): seq<T> {
    if xs == [] then [] else Insert(xs[0], Sort(xs[1..], le), le)
  }

  lemma {:induction false} InsertMembers<T>(x: T, xs: seq<T>, le: (T, T) -> bool)
    ensures multiset(Insert(x, xs, le)) == multiset{x} + multiset(xs)
  {
    if xs != [] && !le(x, xs[0]) {
      InsertMembers(x, xs[1..], le);
      assert xs == [xs[0]] + xs[1..];
    }
  }

  lemma {:induction false} InsertSorted<T(!new)>(x: T, xs: seq<T>, le: (T, T) -> bool)
    requires TotalPreorder(le) && Sorted(xs, le)
    ensures Sorted(Insert(x, xs, le), le)
  {
    if xs != [] {
      if le(x, xs[0]) {
        forall j | 0 <= j < |xs| ensures le(x, xs[j]) {
          assert le(xs[0], xs[0]);
          assert le(xs[0], xs[j]);
        }
      } else {
        var rest := Insert(x, xs[1..], le);
        InsertSorted(x, xs[1..], le);
        InsertMembers(x, xs[1..], le);
        forall j | 0 <= j < |rest| ensures le(xs[0], rest[j]) {
          assert rest[j] in multiset(rest);
          if rest[j] != x {
            assert rest[j] in xs[1..];
          }
        }
      }
    }
  }

  lemma {:induction false} SortSorts<T(!new)>(xs: seq<T>, le: (T, T) -> bool)
    ensures multiset(Sort(xs, le)) == multiset(xs)
    ensures |Sort(xs, le)| == |xs|
    ensures TotalPreorder(le) ==> Sorted(Sort(xs, le), le)
  {
    if xs != [] {
      SortSorts(xs[1..], le);
      InsertMembers(xs[0], Sort(xs[1..], le), le);
      if TotalPreorder(le) { InsertSorted(xs[0], Sort(xs[1..], le), le); }
      assert xs == [xs[0]] + xs[1..];
      assert |multiset(Sort(xs, le))| == |multiset(xs)|;
    }
  }

  lemma SortMembers<T(!new)>(xs: seq<T>, le: (T, T) -> bool, x: T)
    ensures x in Sort(xs, le) <==> x in xs
  {
    SortSorts(xs, le);
    assert x in Sort(xs, le) <==> x in multiset(Sort(xs, le));
    assert x in xs <==> x in multiset(xs);
  }

  lemma FirstIsLeast<T(!new)>(xs: seq<T>, y: T, le: (T, T) -> bool)
    requires TotalPreorder(le) && Sorted(xs, le) && y in xs
    ensures le(xs[0], y)
  {
    var k :| 0 <= k < |xs| && xs[k] == y;
    if k == 0 { assert le(y, y); } else { assert le(xs[0], xs[k]); }
  }

  /** A permutation sorted by a separating order is unique. */
  lemma {:induction false} SortedUnique<T(!new)>(xs: seq<T>, ys: seq<T>, le: (T, T) -> bool)
    requires TotalPreorder(le) && Sorted(xs, le) && Sorted(ys, le)
    requires Separates(xs, le)
    requires multiset(xs) == multiset(ys)
    ensures xs == ys
  {
    assert |xs| == |multiset(xs)| == |multiset(ys)| == |ys|;
    if xs != [] {
      SameFirst(xs, ys, le);
      TailStays(xs, le);
      TailStays(ys, le);
      hide Sorted, Separates, TotalPreorder;
      SameTails(xs, ys);
      SortedUnique(xs[1..], ys[1..], le);
      assert xs == [xs[0]] + xs[1..] && ys == [ys[0]] + ys[1..];
    }
  }

  lemma SameFirst<T(!new)>(xs: seq<T>, ys: seq<T>, le: (T, T) -> bool)
    requires TotalPreorder(le) && Sorted(xs, le) && Sorted(ys, le) && Separates(xs, le)
    requires multiset(xs) == multiset(ys) && xs != [] && ys != []
    ensures xs[0] == ys[0]
  {
    hide Sorted, TotalPreorder;
    assert xs[0] in multiset(ys) && ys[0] in multiset(xs);
    FirstIsLeast(xs, ys[0], le);
    FirstIsLeast(ys, xs[0], le);
  }

  lemma SameTails<T>(xs: seq<T>, ys: seq<T>)
    requires xs != [] && ys != [] && xs[0] == ys[0] && multiset(xs) == multiset(ys)
    ensures multiset(xs[1..]) == multiset(ys[1..])
  {
    assert xs == [xs[0]] + xs[1..] && ys == [ys[0]] + ys[1..];
    assert multiset(xs[1..]) == multiset(xs) - multiset{xs[0]} == multiset(ys[1..]);
  }

  lemma TailStays<T>(xs: seq<T>, le: (T, T) -> bool)
    requires xs != [] && Sorted(xs, le)
    ensures Sorted(xs[1..], le)
    ensures Separates(xs, le) ==> Separates(xs[1..], le)
  {
  }

  /** Sorting forgets the order of its input. */
  lemma SortIgnoresOrder<T(!new)>(xs: seq<T>, ys: seq<T>, le: (T, T) -> bool)
    requires TotalPreorder(le) && Separates(xs, le)
    requires multiset(xs) == multiset(ys)
    ensures Sort(xs, le) == Sort(ys, le)
  {
    SortSorts(xs, le);
    SortSorts(ys, le);
    forall x | x in Sort(xs, le) ensures x in xs { SortMembers(xs, le, x); }
    SortedUnique(Sort(xs, le), Sort(ys, le), le);
  }

  /** A sorted sequence is a fixed point of the sort. */
  lemma {:induction false} SortFixed<T(!new)>(xs: seq<T>, le: (T, T) -> bool)
    requires TotalPreorder(le) && Sorted(xs, le)
    ensures Sort(xs, le) == xs
  {
    if xs != [] {
      SortFixed(xs[1..], le);
      assert xs == [xs[0]] + xs[1..];
    }
  }

  ghost predicate Distinct<T>(s: seq<T>) {
    forall i, j :: 0 <= i < j < |s| ==> s[i] != s[j]
  }

  lemma {:induction false} DistinctOnce<T>(s: seq<T>, y: T)
    requires Distinct(s)
    ensures multiset(s)[y] == if y in s then 1 else 0
  {
    if s != [] {
      DistinctOnce(s[1..], y);
      assert s == [s[0]] + s[1..];
      assert y == s[0] ==> y !in s[1..];
    }
  }

  lemma OnceDistinct<T>(s: seq<T>)
    requires forall y :: y in s ==> multiset(s)[y] == 1
    ensures Distinct(s)
  {
    forall i, j | 0 <= i < j < |s| ensures s[i] != s[j] {
      assert s == s[..j] + [s[j]] + s[j + 1..];
      assert multiset(s)[s[j]] >= multiset(s[..j])[s[j]] + 1;
      assert s[j] !in s[..j];
      assert s[i] == s[..j][i];
    }
  }

  lemma PermutationDistinct<T>(s: seq<T>, t: seq<T>)
    requires Distinct(s) && multiset(s) == multiset(t)
    ensures Distinct(t)
  {
    forall y | y in t ensures multiset(t)[y] == 1 {
      assert y in multiset(t);
      DistinctOnce(s, y);
    }
    OnceDistinct(t);
  }

  lemma SameMembers<T(!new)>(s: seq<T>, t: seq<T>)
    requires Distinct(s) && Distinct(t) && forall y :: y in s <==> y in t
    ensures multiset(s) == multiset(t)
  {
    forall y ensures multiset(s)[y] == multiset(t)[y] {
      DistinctOnce(s, y);
      DistinctOnce(t, y);
    }
  }

  /** The head of a list, found in a permutation of it, can be taken out of both. */
  lemma TakeOutHead<T>(s: seq<T>, t: seq<T>, k: nat)
    requires s != [] && k < |t| && t[k] == s[0] && multiset(s) == multiset(t)
    ensures multiset(s[1..]) == multiset(t[..k] + t[k + 1..])
    ensures t == t[..k] + [s[0]] + t[k + 1..]
  {
    assert s == [s[0]] + s[1..];
    assert t == t[..k] + [s[0]] + t[k + 1..];
    assert multiset(t) == multiset(t[..k] + t[k + 1..]) + multiset{s[0]};
    assert multiset(s) == multiset(s[1..]) + multiset{s[0]};
    assert multiset(s) - multiset{s[0]} == multiset(s[1..]);
  }
}
