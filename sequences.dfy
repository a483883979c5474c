/** Sequence notions used by several parts of the model: counting the elements
    that pass a test, summing counters, and keeping the first occurrence of each
    key in order of appearance (the "seen" lists and group orders of the source). */
module Sequences {

  /** Number of elements of `s` that pass `test`. */
  function Count<T>(s: seq<T>, test: T -> bool): nat
  {
    if s == [] then 0
    else Count(s[..|s| - 1], test) + (if test(s[|s| - 1]) then 1 else 0)
  }

  /** The positions of `s` whose element passes `test`. */
  ghost function PassingIndices<T>(s: seq<T>, test: T -> bool): set<nat>
  {
    set i: nat | i < |s| && test(s[i])
  }

  lemma {:induction false} CountIsNumberOfPassingIndices<T>(s: seq<T>, test: T -> bool)
    ensures Count(s, test) == |PassingIndices(s, test)|
    ensures Count(s, test) <= |s|
    decreases |s|
  {
    if s != [] {
      var n := |s| - 1;
      CountIsNumberOfPassingIndices(s[..n], test);
      var before := PassingIndices(s[..n], test);
      if test(s[n]) {
        assert PassingIndices(s, test) == before + {n};
        assert n !in before;
      } else {
        assert PassingIndices(s, test) == before;
      }
    }
  }

  lemma {:induction false} CountPositiveIffSomePasses<T>(s: seq<T>, test: T -> bool)
    ensures Count(s, test) > 0 <==> exists i :: 0 <= i < |s| && test(s[i])
    decreases |s|
  {
    if s != [] {
      var n := |s| - 1;
      CountPositiveIffSomePasses(s[..n], test);
      if exists i :: 0 <= i < n && test(s[..n][i]) {
        var i :| 0 <= i < n && test(s[..n][i]);
        assert test(s[i]);
      }
    }
  }

  lemma CountAppend<T>(s: seq<T>, x: T, test: T -> bool)
    ensures Count(s + [x], test) == Count(s, test) + (if test(x) then 1 else 0)
  {
    assert (s + [x])[..|s|] == s;
  }

  /** One more element of a prefix, appended to a fixed start. */
  lemma PrefixStep<T>(start: seq<T>, s: seq<T>, i: nat)
    requires i < |s|
    ensures start + s[..i + 1] == (start + s[..i]) + [s[i]]
  {
    assert s[..i + 1] == s[..i] + [s[i]];
  }

  /** Sum of a sequence of counters. */
  function Sum(s: seq<nat>): nat
  {
    if s == [] then 0 else Sum(s[..|s| - 1]) + s[|s| - 1]
  }

  lemma {:induction false} SumIncrement(s: seq<nat>, k: nat)
    requires k < |s|
    ensures Sum(s[k := s[k] + 1]) == Sum(s) + 1
    decreases |s|
  {
    var n := |s| - 1;
    var t := s[k := s[k] + 1];
    assert t[..n] == if k < n then s[..n][k := s[k] + 1] else s[..n];
    if k < n {
      SumIncrement(s[..n], k);
    }
  }

  lemma {:induction false} SumOfZeros(n: nat)
    ensures Sum(seq(n, _ => 0)) == 0
    decreases n
  {
    if n > 0 {
      assert seq(n, _ => 0)[..n - 1] == seq(n - 1, _ => 0);
      SumOfZeros(n - 1);
    }
  }

  predicate NoDuplicates<T(==)>(s: seq<T>)
  {
    forall i, j :: 0 <= i < j < |s| ==> s[i] != s[j]
  }

  /** The index of the first occurrence of `x` in `s`. */
  function FirstIndex<T(==)>(s: seq<T>, x: T): (i: nat)
    requires x in s
    ensures i < |s| && s[i] == x
    ensures forall j :: 0 <= j < i ==> s[j] != x
  {
    if s[0] == x then 0 else 1 + FirstIndex(s[1..], x)
  }

  /** The elements of `s` with every repeat dropped, in order of first appearance. */
  function Distinct<T(==)>(s: seq<T>): seq<T>
  {
    if s == [] then []
    else
      var d := Distinct(s[..|s| - 1]);
      if s[|s| - 1] in d then d else d + [s[|s| - 1]]
  }

  lemma DistinctAppend<T>(s: seq<T>, x: T)
    ensures Distinct(s + [x]) == if x in Distinct(s) then Distinct(s) else Distinct(s) + [x]
  {
    assert (s + [x])[..|s|] == s;
  }

  lemma {:induction false} DistinctIsDeduplication<T>(s: seq<T>)
    ensures NoDuplicates(Distinct(s))
    ensures forall x :: x in Distinct(s) <==> x in s
    ensures |Distinct(s)| <= |s|
    decreases |s|
  {
    if s != [] {
      var n := |s| - 1;
      DistinctIsDeduplication(s[..n]);
      assert s == s[..n] + [s[n]];
    }
  }

  lemma DistinctMember<T>(s: seq<T>, x: T)
    ensures x in Distinct(s) <==> x in s
  {
    DistinctIsDeduplication(s);
  }

  lemma FirstIndexAppend<T>(s: seq<T>, x: T, y: T)
    requires y in s
    ensures FirstIndex(s + [x], y) == FirstIndex(s, y)
  {
    var i := FirstIndex(s, y);
    var j := FirstIndex(s + [x], y);
    assert (s + [x])[i] == y;
    assert s[j] == y by { assert j <= i; }
  }

  /** The keys of `Distinct(s)` are listed in order of their first appearance in `s`. */
  lemma {:induction false} DistinctKeepsFirstSeenOrder<T>(s: seq<T>)
    ensures forall i, j :: 0 <= i < j < |Distinct(s)| ==>
      Distinct(s)[i] in s && Distinct(s)[j] in s &&
      FirstIndex(s, Distinct(s)[i]) < FirstIndex(s, Distinct(s)[j])
    decreases |s|
  {
    if s != [] {
      var n := |s| - 1;
      var p := s[..n];
      DistinctKeepsFirstSeenOrder(p);
      DistinctIsDeduplication(p);
      assert s == p + [s[n]];
      var d := Distinct(p);
      forall y | y in d
        ensures y in p && FirstIndex(s, y) == FirstIndex(p, y) && FirstIndex(p, y) < n
      {
        DistinctMember(p, y);
        FirstIndexAppend(p, s[n], y);
      }
      var e := Distinct(s);
      DistinctAppend(p, s[n]);
      if s[n] !in d {
        DistinctMember(p, s[n]);
        assert FirstIndex(s, s[n]) == n;
      }
      forall i, j | 0 <= i < j < |e|
        ensures e[i] in s && e[j] in s && FirstIndex(s, e[i]) < FirstIndex(s, e[j])
      {
        assert e[i] == d[i] && d[i] in d;
        if j < |d| {
          assert e[j] == d[j] && d[j] in d;
        }
      }
    } else {
      assert Distinct(s) == [];
    }
  }
}
