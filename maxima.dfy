/**
  Reference definitions for the maximum of a sequence of action values and
  for the indices that attain it. These are the specifications that the
  scanning argmax and the greedy policies are proved against.
 */
module Maxima {

  /** Strictly increasing: every index list produced by a left-to-right scan. */
  predicate StrictlyIncreasing(s: seq<nat>)
  {
    forall i, j :: 0 <= i < j < |s| ==> s[i] < s[j]
  }

  /** The largest value of a non-empty sequence, folded from the left. */
  function MaxOf(s: seq<real>): (m: real)
    requires |s| > 0
    ensures m in s
    ensures forall j :: 0 <= j < |s| ==> s[j] <= m
  {
    if |s| == 1 then s[0]
    else
      var m := MaxOf(s[..|s| - 1]);
      if s[|s| - 1] > m then s[|s| - 1] else m
  }

  /** The indices below n whose value is exactly m, in increasing order. */
  function TiesUpTo(s: seq<real>, m: real, n: nat): seq<nat>
    requires n <= |s|
  {
    if n == 0 then []
    else TiesUpTo(s, m, n - 1) + (if s[n - 1] == m then [n - 1] else [])
  }

  /** The tie set of s: every index whose value is the maximum, in increasing order. */
  function TieSet(s: seq<real>): seq<nat>
  {
    if |s| == 0 then [] else TiesUpTo(s, MaxOf(s), |s|)
  }

  /**
    The first index of a maximum, as numpy's argmax returns it: the running
    index changes only on a strictly larger value.
   */
  function FirstMaxIndex(s: seq<real>): (k: nat)
    requires |s| > 0
    ensures k < |s|
    ensures forall j :: 0 <= j < |s| ==> s[j] <= s[k]
    ensures forall j :: 0 <= j < k ==> s[j] < s[k]
  {
    if |s| == 1 then 0
    else
      var k := FirstMaxIndex(s[..|s| - 1]);
      if s[|s| - 1] > s[k] then |s| - 1 else k
  }

  lemma {:induction false} TiesUpToMembers(s: seq<real>, m: real, n: nat)
    requires n <= |s|
    ensures forall i :: i in TiesUpTo(s, m, n) <==> 0 <= i < n && s[i] == m
  {
    if n > 0 {
      TiesUpToMembers(s, m, n - 1);
    }
  }

  lemma {:induction false} TiesUpToIncreasing(s: seq<real>, m: real, n: nat)
    requires n <= |s|
    ensures StrictlyIncreasing(TiesUpTo(s, m, n))
  {
    if n > 0 {
      TiesUpToIncreasing(s, m, n - 1);
      TiesUpToMembers(s, m, n - 1);
      var t := TiesUpTo(s, m, n - 1);
      assert forall i :: 0 <= i < |t| ==> t[i] in t;
    }
  }

  /** A value that occurs nowhere below n has no ties there. */
  lemma TiesUpToAbsent(s: seq<real>, m: real, n: nat)
    requires n <= |s|
    requires forall j :: 0 <= j < n ==> s[j] != m
    ensures TiesUpTo(s, m, n) == []
  {
    TiesUpToMembers(s, m, n);
  }

  /** Extending a non-empty prefix by one element updates its maximum as the scan does. */
  lemma MaxOfSnoc(s: seq<real>, i: nat)
    requires 0 < i < |s|
    ensures MaxOf(s[..i + 1]) == if s[i] > MaxOf(s[..i]) then s[i] else MaxOf(s[..i])
  {
    assert s[..i + 1][..i] == s[..i];
  }

  /**
    The tie set of a non-empty sequence is non-empty, strictly increasing, and
    holds exactly the indices whose value equals the maximum; of an empty one it
    is empty.
   */
  lemma TieSetSpec(s: seq<real>)
    ensures |TieSet(s)| == 0 <==> |s| == 0
    ensures StrictlyIncreasing(TieSet(s))
    ensures |s| > 0 ==> forall i :: i in TieSet(s) <==> 0 <= i < |s| && s[i] == MaxOf(s)
  {
    if |s| > 0 {
      var m := MaxOf(s);
      TiesUpToMembers(s, m, |s|);
      TiesUpToIncreasing(s, m, |s|);
      var k :| 0 <= k < |s| && s[k] == m;
      assert k in TieSet(s);
    }
  }

  /** Two strictly increasing sequences with the same members are equal. */
  lemma {:induction false} IncreasingDeterminedByMembers(a: seq<nat>, b: seq<nat>)
    requires StrictlyIncreasing(a) && StrictlyIncreasing(b)
    requires forall x :: x in a <==> x in b
    ensures a == b
  {
    if a != [] {
      assert a[0] in b;
    }
    if b != [] {
      assert b[0] in a;
    }
    if a != [] && b != [] {
      assert a[0] == b[0];
      forall x
        ensures x in a[1..] <==> x in b[1..]
      {
        assert x in a[1..] <==> x in a && x != a[0];
        assert x in b[1..] <==> x in b && x != b[0];
      }
      IncreasingDeterminedByMembers(a[1..], b[1..]);
      assert a == [a[0]] + a[1..];
      assert b == [b[0]] + b[1..];
    }
  }

  /**
    The tie set is the only strictly increasing list holding exactly the
    maximal indices: the scan's candidate list is fully determined.
   */
  lemma {:induction false} TieSetUnique(s: seq<real>, c: seq<nat>)
    requires |s| > 0
    requires StrictlyIncreasing(c)
    requires forall i :: i in c <==> 0 <= i < |s| && s[i] == MaxOf(s)
    ensures c == TieSet(s)
  {
    TieSetSpec(s);
    IncreasingDeterminedByMembers(c, TieSet(s));
  }

  /** A strict unique maximum is the whole tie set, so every pick from it returns it. */
  lemma TieSetOfUniqueMax(s: seq<real>, k: nat)
    requires k < |s|
    requires forall j :: 0 <= j < |s| && j != k ==> s[j] < s[k]
    ensures TieSet(s) == [k]
  {
    assert MaxOf(s) == s[k];
    TieSetUnique(s, [k]);
  }

  /** numpy's first-match argmax picks the lowest index of the tie set. */
  lemma FirstMaxIsFirstTie(s: seq<real>)
    requires |s| > 0
    ensures |TieSet(s)| > 0 && FirstMaxIndex(s) == TieSet(s)[0]
  {
    TieSetSpec(s);
    var t := TieSet(s);
    var k := FirstMaxIndex(s);
    assert s[k] == MaxOf(s);
    assert k in t;
    assert t[0] in t;
  }
}
