/** Facts about sequences without repeats and about filtering. */
module Seqs {

  ghost predicate Distinct<T>(s: seq<T>) {
    forall i, j :: 0 <= i < j < |s| ==> s[i] != s[j]
  }

  ghost function Elements<T>(s: seq<T>): set<T> {
    set x | x in s
  }

  /** A sequence without repeats has as many elements as positions. */
  lemma {:induction false} DistinctCount<T>(s: seq<T>)
    requires Distinct(s)
    ensures |Elements(s)| == |s|
  {
    if s != [] {
      DistinctCount(s[1..]);
      assert Elements(s) == {s[0]} + Elements(s[1..]);
    }
  }

  lemma SubsetCount<T>(a: set<T>, b: set<T>)
    requires a <= b
    ensures |a| <= |b|
    ensures |a| == |b| ==> a == b
  {
    assert |b| == |a| + |b - a| by {
      assert b == a + (b - a);
    }
  }

  function IndexOf<T(==)>(s: seq<T>, x: T): (i: nat)
    requires x in s
    ensures i < |s| && s[i] == x && x !in s[..i]
  {
    if s[0] == x then 0
    else
      assert s == [s[0]] + s[1..];
      var k := IndexOf(s[1..], x);
      assert s[..k + 1] == [s[0]] + s[1..][..k];
      k + 1
  }

  function RemoveAt<T>(s: seq<T>, i: nat): seq<T>
    requires i < |s|
  {
    s[..i] + s[i + 1..]
  }

  function InsertAt<T>(s: seq<T>, i: nat, x: T): seq<T>
    requires i <= |s|
  {
    s[..i] + [x] + s[i..]
  }

  function Filter<T>(s: seq<T>, keep: T -> bool): seq<T> {
    if s == [] then [] else (if keep(s[0]) then [s[0]] else []) + Filter(s[1..], keep)
  }

  function Map<T, U>(s: seq<T>, f: T -> U): (r: seq<U>)
    ensures |r| == |s|
    ensures forall i :: 0 <= i < |s| ==> r[i] == f(s[i])
  {
    if s == [] then [] else [f(s[0])] + Map(s[1..], f)
  }

  lemma {:induction false} FilterConcat<T>(s: seq<T>, t: seq<T>, keep: T -> bool)
    ensures Filter(s + t, keep) == Filter(s, keep) + Filter(t, keep)
  {
    if s == [] {
      assert s + t == t;
    } else {
      assert (s + t)[1..] == s[1..] + t;
      FilterConcat(s[1..], t, keep);
      var first := if keep(s[0]) then [s[0]] else [];
      Associate(first, Filter(s[1..], keep), Filter(t, keep));
    }
  }

  lemma Associate<T>(a: seq<T>, b: seq<T>, c: seq<T>)
    ensures a + (b + c) == a + b + c
  {
  }

  lemma FilterAround<T>(before: seq<T>, x: T, behind: seq<T>, keep: T -> bool)
    ensures Filter(before + [x] + behind, keep)
         == Filter(before, keep) + (if keep(x) then [x] else []) + Filter(behind, keep)
  {
    FilterConcat(before + [x], behind, keep);
    FilterConcat(before, [x], keep);
    FilterOne(x, keep);
  }

  lemma SplitAt<T>(s: seq<T>, i: nat)
    requires i < |s|
    ensures s == s[..i] + [s[i]] + s[i + 1..]
  {
  }

  lemma FilterAt<T>(s: seq<T>, i: nat, keep: T -> bool)
    requires i < |s|
    ensures Filter(s, keep) == Filter(s[..i], keep) + (if keep(s[i]) then [s[i]] else []) + Filter(s[i + 1..], keep)
  {
    SplitAt(s, i);
    FilterAround(s[..i], s[i], s[i + 1..], keep);
  }

  lemma FilterOne<T>(x: T, keep: T -> bool)
    ensures Filter([x], keep) == if keep(x) then [x] else []
  {
    assert [x][1..] == [];
  }

  lemma {:induction false} FilterElements<T>(s: seq<T>, keep: T -> bool)
    ensures forall x :: x in Filter(s, keep) <==> x in s && keep(x)
  {
    if s != [] {
      FilterElements(s[1..], keep);
      assert s == [s[0]] + s[1..];
    }
  }

  lemma IndexIn<T>(s: seq<T>, x: T) returns (i: nat)
    requires x in s
    ensures i < |s| && s[i] == x
  {
    i :| 0 <= i < |s| && s[i] == x;
  }

  /** Only `d - p - 1` elements fit strictly between positions p and d. */
  lemma CountBetween<T>(s: seq<T>, p: nat, d: nat, found: set<T>)
    requires p < d < |s| && Distinct(s)
    requires forall x :: x in found ==> exists i :: p < i < d && s[i] == x
    ensures |found| <= d - p - 1
  {
    var between := s[p + 1..d];
    forall x | x in found
      ensures x in Elements(between)
    {
      var i :| p < i < d && s[i] == x;
      assert between[i - p - 1] == x;
    }
    DistinctCount(between);
    SubsetCount(found, Elements(between));
  }

  function MoveToFront<T(==)>(s: seq<T>, x: T): seq<T> {
    [x] + if x in s then RemoveAt(s, IndexOf(s, x)) else s
  }

  /** Where each element behind the moved one came from. */
  function Origin<T(==)>(s: seq<T>, x: T, i: nat): (k: nat)
    requires 1 <= i < |MoveToFront(s, x)|
    ensures k < |s| && k <= i && MoveToFront(s, x)[i] == s[k]
  {
    if x in s then if i - 1 < IndexOf(s, x) then i - 1 else i else i - 1
  }

  lemma OriginIncreases<T>(s: seq<T>, x: T, i: nat, j: nat)
    requires 1 <= i < j < |MoveToFront(s, x)|
    ensures Origin(s, x, i) < Origin(s, x, j)
  {}

  lemma MovedElements<T>(s: seq<T>, x: T)
    ensures forall y :: y in MoveToFront(s, x) <==> y == x || y in s
  {
    if x in s {
      var k := IndexOf(s, x);
      assert s == s[..k] + [x] + s[k + 1..];
    }
  }

  lemma MoveToFrontDistinct<T>(s: seq<T>, x: T)
    requires Distinct(s)
    ensures Distinct(MoveToFront(s, x))
  {
    var moved := MoveToFront(s, x);
    forall i, j | 0 <= i < j < |moved|
      ensures moved[i] != moved[j]
    {
      if i > 0 {
        OriginIncreases(s, x, i, j);
        assert moved[i] == s[Origin(s, x, i)] && moved[j] == s[Origin(s, x, j)];
      } else {
        assert moved[j] == s[Origin(s, x, j)];
      }
    }
  }

  // ---- Permutations ----

  lemma SameElements<T>(s: seq<T>, t: seq<T>)
    requires multiset(s) == multiset(t)
    ensures forall x :: x in s <==> x in t
  {
    forall x
      ensures x in s <==> x in t
    {
      assert x in s <==> x in multiset(s);
      assert x in t <==> x in multiset(t);
    }
  }

  lemma {:induction false} OnceEach<T>(s: seq<T>, x: T)
    requires Distinct(s)
    ensures multiset(s)[x] <= 1
  {
    if s != [] {
      OnceEach(s[1..], x);
      assert s == [s[0]] + s[1..];
    }
  }

  lemma CountedTwice<T>(s: seq<T>, i: nat, j: nat)
    requires i < j < |s| && s[i] == s[j]
    ensures multiset(s)[s[i]] >= 2
  {
    assert s == s[..i] + [s[i]] + s[i + 1..j] + [s[j]] + s[j + 1..];
  }

  lemma DistinctFromMultiset<T>(s: seq<T>, t: seq<T>)
    requires multiset(s) == multiset(t) && Distinct(s)
    ensures Distinct(t)
  {
    forall i, j | 0 <= i < j < |t|
      ensures t[i] != t[j]
    {
      OnceEach(s, t[i]);
      if t[i] == t[j] {
        CountedTwice(t, i, j);
      }
    }
  }

  lemma SamePlace<T>(s: seq<T>, i: nat, j: nat)
    requires Distinct(s) && i < |s| && j < |s| && s[i] == s[j]
    ensures i == j
  {}
}
