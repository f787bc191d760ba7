/**
  Keeping the first occurrence of every value in a sequence and dropping its
  later repeats, as a loop does that skips values already in a `seen` set.
 */
module Occurrences {

  /** No value occurs twice in `s`. */
  predicate NoDuplicates<T(==,!new)>(s: seq<T>)
  {
    forall i, j :: 0 <= i < j < |s| ==> s[i] != s[j]
  }

  /** The position where `x` first occurs in `s`. */
  function FirstIndex<T(==,!new)>(s: seq<T>, x: T): (k: nat)
    requires x in s
    ensures k < |s| && s[k] == x && x !in s[..k]
  {
    if s[0] == x then 0
    else
      var k := 1 + FirstIndex(s[1..], x);
      assert s[..k] == [s[0]] + s[1..][..k - 1];
      k
  }

  /** `s` without the later repeats: element `i` is kept exactly when `s[i] !in s[..i]`. */
  function FirstOccurrences<T(==,!new)>(s: seq<T>): (r: seq<T>)
    ensures |r| <= |s|
    ensures forall x :: x in r <==> x in s
  {
    if s == [] then []
    else
      var init, last := s[..|s| - 1], s[|s| - 1];
      assert s == init + [last];
      FirstOccurrences(init) + (if last in init then [] else [last])
  }

  /** Every value of `t` occurs in `s`, and `t` lists them in order of their first occurrence in `s`. */
  predicate OrderedByFirstOccurrence<T(==,!new)>(s: seq<T>, t: seq<T>)
  {
    && (forall x :: x in t ==> x in s)
    && (forall i, j :: 0 <= i < j < |t| ==> FirstIndex(s, t[i]) < FirstIndex(s, t[j]))
  }

  /** A position holding `x` with no `x` before it is the first index of `x`. */
  lemma FirstIndexUnique<T(!new)>(s: seq<T>, x: T, k: nat)
    requires k < |s| && s[k] == x && x !in s[..k]
    ensures FirstIndex(s, x) == k
  {
    var f := FirstIndex(s, x);
    assert f >= k by {
      assert x !in s[..k];
      assert forall i :: 0 <= i < k ==> s[..k][i] == s[i];
    }
    assert f <= k by {
      assert x !in s[..f];
      assert forall i :: 0 <= i < f ==> s[..f][i] == s[i];
    }
  }

  /** Cutting off a tail that `x` does not need leaves the first index of `x` where it was. */
  lemma FirstIndexPrefix<T(!new)>(s: seq<T>, m: nat, x: T)
    requires m <= |s| && x in s[..m]
    ensures x in s && FirstIndex(s[..m], x) == FirstIndex(s, x)
  {
    var f := FirstIndex(s[..m], x);
    assert s[..m][..f] == s[..f];
    FirstIndexUnique(s, x, f);
  }

  /** The first-occurrence list repeats nothing. */
  lemma {:induction false} FirstOccurrencesDistinct<T(!new)>(s: seq<T>)
    ensures NoDuplicates(FirstOccurrences(s))
  {
    if s != [] {
      FirstOccurrencesDistinct(s[..|s| - 1]);
    }
  }

  /** The first-occurrence list keeps the order in which values first occur in `s`. */
  lemma {:induction false} FirstOccurrencesOrdered<T(!new)>(s: seq<T>)
    ensures OrderedByFirstOccurrence(s, FirstOccurrences(s))
  {
    if s != [] {
      var n := |s|;
      var init, last := s[..n - 1], s[n - 1];
      var r0 := FirstOccurrences(init);
      FirstOccurrencesOrdered(init);
      forall x | x in init
        ensures FirstIndex(init, x) == FirstIndex(s, x) < n - 1
      {
        FirstIndexPrefix(s, n - 1, x);
      }
      if last !in init {
        FirstIndexUnique(s, last, n - 1);
        var r := FirstOccurrences(s);
        assert r == r0 + [last];
        forall i, j | 0 <= i < j < |r|
          ensures FirstIndex(s, r[i]) < FirstIndex(s, r[j])
        {
          assert r[i] == r0[i] && r[i] in init;
          if j < |r0| {
            assert r[j] == r0[j];
          }
        }
      }
    }
  }

  /** In a list ordered by first occurrence, the value that first occurs last in `s` comes last. */
  lemma LatestFirstOccurrenceIsLast<T(!new)>(s: seq<T>, t: seq<T>, k: nat)
    requires OrderedByFirstOccurrence(s, t)
    requires k < |t| && t[k] in s && FirstIndex(s, t[k]) == |s| - 1
    ensures k == |t| - 1
  {
    var m := |t| - 1;
    assert t[m] in s;
    assert FirstIndex(s, t[m]) < |s|;
  }

  /** An ordered list whose values all occur in a prefix of `s` is ordered with respect to that prefix. */
  lemma OrderedWithinPrefix<T(!new)>(s: seq<T>, m: nat, t: seq<T>)
    requires m <= |s| && OrderedByFirstOccurrence(s, t)
    requires forall x :: x in t ==> x in s[..m]
    ensures OrderedByFirstOccurrence(s[..m], t)
  {
    forall x | x in s[..m]
      ensures FirstIndex(s[..m], x) == FirstIndex(s, x)
    {
      FirstIndexPrefix(s, m, x);
    }
  }

  /** Dropping the last element keeps a list ordered. */
  lemma OrderedDropLast<T(!new)>(s: seq<T>, t: seq<T>)
    requires t != [] && OrderedByFirstOccurrence(s, t)
    ensures OrderedByFirstOccurrence(s, t[..|t| - 1])
  {
    var t' := t[..|t| - 1];
    assert forall i :: 0 <= i < |t'| ==> t'[i] == t[i];
  }

  /** Without its repeat-free last element `last`, `t` holds exactly the other values. */
  lemma DropLastMembers<T(!new)>(t: seq<T>, rest: seq<T>, last: T)
    requires t != [] && t[|t| - 1] == last && NoDuplicates(t)
    requires last !in rest
    requires forall x :: x in t <==> x in rest || x == last
    ensures NoDuplicates(t[..|t| - 1])
    ensures forall x :: x in t[..|t| - 1] <==> x in rest
  {
    var t' := t[..|t| - 1];
    assert t == t' + [last];
    assert last !in t' by {
      assert forall i :: 0 <= i < |t'| ==> t'[i] == t[i];
    }
  }

  /**
    The three properties together pin the first-occurrence list down: any list
    that repeats nothing, holds exactly the values of `s` and keeps their order of
    first occurrence is `FirstOccurrences(s)`.
   */
  lemma {:induction false} FirstOccurrencesUnique<T(!new)>(s: seq<T>, t: seq<T>)
    requires NoDuplicates(t)
    requires forall x :: x in t <==> x in s
    requires OrderedByFirstOccurrence(s, t)
    ensures t == FirstOccurrences(s)
  {
    if s == [] {
      assert t == [] by {
        assert forall i :: 0 <= i < |t| ==> t[i] in t;
      }
    } else {
      var n := |s|;
      var init, last := s[..n - 1], s[n - 1];
      assert s == init + [last];
      if last in init {
        assert forall x :: x in t <==> x in init;
        OrderedWithinPrefix(s, n - 1, t);
        FirstOccurrencesUnique(init, t);
      } else {
        FirstIndexUnique(s, last, n - 1);
        assert last in t;
        var k :| 0 <= k < |t| && t[k] == last;
        LatestFirstOccurrenceIsLast(s, t, k);
        var m := |t| - 1;
        var t' := t[..m];
        assert t == t' + [last];
        DropLastMembers(t, init, last);
        OrderedDropLast(s, t);
        OrderedWithinPrefix(s, n - 1, t');
        FirstOccurrencesUnique(init, t');
      }
    }
  }

  /** A list without repeats is its own first-occurrence list. */
  lemma FirstOccurrencesOfDistinct<T(!new)>(s: seq<T>)
    requires NoDuplicates(s)
    ensures FirstOccurrences(s) == s
  {
    forall i | 0 <= i < |s|
      ensures FirstIndex(s, s[i]) == i
    {
      assert forall j :: 0 <= j < i ==> s[..i][j] == s[j];
      FirstIndexUnique(s, s[i], i);
    }
    FirstOccurrencesUnique(s, s);
  }

  /** Removing later repeats a second time changes nothing. */
  lemma FirstOccurrencesIdempotent<T(!new)>(s: seq<T>)
    ensures FirstOccurrences(FirstOccurrences(s)) == FirstOccurrences(s)
  {
    FirstOccurrencesDistinct(s);
    FirstOccurrencesOfDistinct(FirstOccurrences(s));
  }

  /** A list without repeats has as many elements as it has distinct values. */
  lemma {:induction false} DistinctCardinality<T(!new)>(t: seq<T>)
    requires NoDuplicates(t)
    ensures |set x | x in t| == |t|
  {
    if t != [] {
      var init := t[..|t| - 1];
      DistinctCardinality(init);
      assert t == init + [t[|t| - 1]];
      assert (set x | x in t) == (set x | x in init) + {t[|t| - 1]};
    }
  }

  /** The first-occurrence list has one element per distinct value of `s`. */
  lemma FirstOccurrencesCount<T(!new)>(s: seq<T>)
    ensures |FirstOccurrences(s)| == |set x | x in s|
  {
    var r := FirstOccurrences(s);
    FirstOccurrencesDistinct(s);
    DistinctCardinality(r);
    assert (set x | x in r) == (set x | x in s);
  }
}
