/** Facts about sequences that describe how the rows of a frame are filtered:
    order-preserving deletion (subsequences), absence of repeats, and keeping
    the first occurrence of every element. */
module Sequences {

  /** No element occurs twice in `s`. */
  predicate Distinct<T(==)>(s: seq<T>)
  {
    forall i, j :: 0 <= i < j < |s| ==> s[i] != s[j]
  }

  /** `a` is obtained from `b` by deleting elements and keeping the others in order. */
  predicate IsSubsequence<T(==)>(a: seq<T>, b: seq<T>)
    decreases |b|
  {
    |a| <= |b| &&
    (a == [] ||
     (a[|a| - 1] == b[|b| - 1] && IsSubsequence(a[..|a| - 1], b[..|b| - 1])) ||
     IsSubsequence(a, b[..|b| - 1]))
  }

  /** `s` with `x` deleted, the other elements in their original order. */
  function Without<T(==,!new)>(s: seq<T>, x: T): (r: seq<T>)
    ensures forall y :: y in r <==> y in s && y != x
    ensures Distinct(s) ==> Distinct(r)
  {
    if s == [] then []
    else
      assert s == s[..|s| - 1] + [s[|s| - 1]];
      assert Distinct(s) ==> Distinct(s[..|s| - 1]) && s[|s| - 1] !in s[..|s| - 1];
      if s[|s| - 1] == x then Without(s[..|s| - 1], x)
      else Without(s[..|s| - 1], x) + [s[|s| - 1]]
  }

  /** The first occurrence of every element of `s`, in the order of those occurrences. */
  function KeepFirst<T(==,!new)>(s: seq<T>): (r: seq<T>)
    ensures Distinct(r)
    ensures forall x :: x in r <==> x in s
  {
    if s == [] then []
    else
      assert s == s[..|s| - 1] + [s[|s| - 1]];
      var prefix := KeepFirst(s[..|s| - 1]);
      if s[|s| - 1] in prefix then prefix else prefix + [s[|s| - 1]]
  }

  /** The position of the first occurrence of `x` in `s`. */
  function FirstIndex<T(==)>(s: seq<T>, x: T): (k: nat)
    requires x in s
    ensures k < |s| && s[k] == x && x !in s[..k]
  {
    if s[0] == x then 0
    else
      var k := FirstIndex(s[1..], x);
      assert s[..k + 1] == [s[0]] + s[1..][..k];
      k + 1
  }

  /** Every element of `a` occurs in `s`, and `a` lists them in the order of their
      first occurrences in `s`. */
  predicate InFirstOccurrenceOrder<T(==)>(a: seq<T>, s: seq<T>)
  {
    (forall i :: 0 <= i < |a| ==> a[i] in s) &&
    forall i, j :: 0 <= i < j < |a| ==> FirstIndex(s, a[i]) < FirstIndex(s, a[j])
  }

  lemma FirstIndexUnique<T>(s: seq<T>, x: T, k: nat)
    requires k < |s| && s[k] == x && x !in s[..k]
    ensures FirstIndex(s, x) == k
  {
  }

  /** Deleting the last element keeps a sequence a supersequence of what it contained. */
  lemma SubsequenceOfPrefix<T>(a: seq<T>, b: seq<T>)
    requires |b| > 0 && IsSubsequence(a, b[..|b| - 1])
    ensures IsSubsequence(a, b)
  {
  }

  lemma {:induction false} SubsequenceReflexive<T>(s: seq<T>)
    ensures IsSubsequence(s, s)
    decreases |s|
  {
    if s != [] {
      SubsequenceReflexive(s[..|s| - 1]);
    }
  }

  lemma {:induction false} SubsequenceMembers<T>(a: seq<T>, b: seq<T>)
    requires IsSubsequence(a, b)
    ensures forall x :: x in a ==> x in b
    decreases |b|
  {
    if a != [] {
      assert b == b[..|b| - 1] + [b[|b| - 1]];
      if a[|a| - 1] == b[|b| - 1] && IsSubsequence(a[..|a| - 1], b[..|b| - 1]) {
        SubsequenceMembers(a[..|a| - 1], b[..|b| - 1]);
        assert a == a[..|a| - 1] + [a[|a| - 1]];
      } else {
        SubsequenceMembers(a, b[..|b| - 1]);
      }
    }
  }

  lemma {:induction false} SubsequenceTransitive<T>(a: seq<T>, b: seq<T>, c: seq<T>)
    requires IsSubsequence(a, b) && IsSubsequence(b, c)
    ensures IsSubsequence(a, c)
    decreases |c|
  {
    if a != [] {
      if b[|b| - 1] == c[|c| - 1] && IsSubsequence(b[..|b| - 1], c[..|c| - 1]) {
        if a[|a| - 1] == b[|b| - 1] && IsSubsequence(a[..|a| - 1], b[..|b| - 1]) {
          SubsequenceTransitive(a[..|a| - 1], b[..|b| - 1], c[..|c| - 1]);
        } else {
          SubsequenceTransitive(a, b[..|b| - 1], c[..|c| - 1]);
        }
      } else {
        SubsequenceTransitive(a, b, c[..|c| - 1]);
      }
    }
  }

  lemma {:induction false} SubsequenceOfDistinct<T>(a: seq<T>, b: seq<T>)
    requires IsSubsequence(a, b) && Distinct(b)
    ensures Distinct(a)
    decreases |b|
  {
    if a != [] {
      var b' := b[..|b| - 1];
      assert Distinct(b');
      if a[|a| - 1] == b[|b| - 1] && IsSubsequence(a[..|a| - 1], b') {
        SubsequenceOfDistinct(a[..|a| - 1], b');
        SubsequenceMembers(a[..|a| - 1], b');
        assert b[|b| - 1] !in b';
        assert a == a[..|a| - 1] + [a[|a| - 1]];
      } else {
        SubsequenceOfDistinct(a, b');
      }
    }
  }

  lemma {:induction false} WithoutIsSubsequence<T(!new)>(s: seq<T>, x: T)
    ensures IsSubsequence(Without(s, x), s)
    decreases |s|
  {
    if s != [] {
      WithoutIsSubsequence(s[..|s| - 1], x);
      var w := Without(s[..|s| - 1], x);
      if s[|s| - 1] != x {
        assert (w + [s[|s| - 1]])[..|w|] == w;
      }
    }
  }

  /** Deleting one label from more than one distinct labels leaves some. */
  lemma WithoutOfLonger<T(!new)>(s: seq<T>, x: T)
    requires Distinct(s) && |s| > 1
    ensures Without(s, x) != []
  {
    var y := if s[0] != x then s[0] else s[1];
    assert y in s && y != x;
  }

  lemma {:induction false} KeepFirstIsSubsequence<T(!new)>(s: seq<T>)
    ensures IsSubsequence(KeepFirst(s), s)
    decreases |s|
  {
    if s != [] {
      KeepFirstIsSubsequence(s[..|s| - 1]);
      var p := KeepFirst(s[..|s| - 1]);
      if s[|s| - 1] !in p {
        assert (p + [s[|s| - 1]])[..|p|] == p;
      }
    }
  }

  /** Extending `s` at the end leaves the first occurrences of its elements where they were. */
  lemma FirstIndexOfPrefix<T>(s: seq<T>, y: T)
    requires |s| > 0 && y in s[..|s| - 1]
    ensures FirstIndex(s, y) == FirstIndex(s[..|s| - 1], y) < |s| - 1
  {
    var k := FirstIndex(s[..|s| - 1], y);
    assert s[..k] == s[..|s| - 1][..k];
    FirstIndexUnique(s, y, k);
  }

  lemma {:induction false} KeepFirstInOrder<T(!new)>(s: seq<T>)
    ensures InFirstOccurrenceOrder(KeepFirst(s), s)
    decreases |s|
  {
    if s != [] {
      var s', x := s[..|s| - 1], s[|s| - 1];
      assert s == s' + [x];
      KeepFirstInOrder(s');
      var p := KeepFirst(s');
      forall i | 0 <= i < |p|
        ensures p[i] in s && FirstIndex(s, p[i]) == FirstIndex(s', p[i]) < |s| - 1
      {
        FirstIndexOfPrefix(s, p[i]);
      }
      if x !in p {
        FirstIndexUnique(s, x, |s| - 1);
        var r := p + [x];
        assert forall i :: 0 <= i < |p| ==> r[i] == p[i];
      }
    }
  }

  /** A prefix of a sequence in first-occurrence order is in that order too. */
  lemma PrefixInFirstOccurrenceOrder<T>(b: seq<T>, s: seq<T>, n: nat)
    requires n <= |b| && InFirstOccurrenceOrder(b, s)
    ensures InFirstOccurrenceOrder(b[..n], s)
  {
    assert forall i :: 0 <= i < n ==> b[..n][i] == b[i];
  }

  lemma {:induction false} SubsequenceInFirstOccurrenceOrder<T>(a: seq<T>, b: seq<T>, s: seq<T>)
    requires IsSubsequence(a, b) && InFirstOccurrenceOrder(b, s)
    ensures InFirstOccurrenceOrder(a, s)
    decreases |b|
  {
    if a != [] {
      var b' := b[..|b| - 1];
      PrefixInFirstOccurrenceOrder(b, s, |b| - 1);
      if a[|a| - 1] == b[|b| - 1] && IsSubsequence(a[..|a| - 1], b') {
        var a', x := a[..|a| - 1], a[|a| - 1];
        SubsequenceInFirstOccurrenceOrder(a', b', s);
        SubsequenceMembers(a', b');
        forall i | 0 <= i < |a'|
          ensures a'[i] in s && FirstIndex(s, a'[i]) < FirstIndex(s, x)
        {
          assert a'[i] in b';
          var k :| 0 <= k < |b'| && b'[k] == a'[i];
          assert b[k] == a'[i];
        }
        assert a == a' + [x];
        assert forall i :: 0 <= i < |a'| ==> a[i] == a'[i];
      } else {
        SubsequenceInFirstOccurrenceOrder(a, b', s);
      }
    }
  }
}
