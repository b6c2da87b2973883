/**
 * Shuffling a list in place (as a library shuffle does) is modelled as an
 * arbitrary choice of a reordering of it: every property proved about a
 * shuffled list holds whatever order the random source produces.
 */
module Shuffles {

  /** `s` holds the same elements as `t`, as many times each: a possible outcome of shuffling `t`. */
  predicate IsShuffleOf<T(==)>(s: seq<T>, t: seq<T>) {
    multiset(s) == multiset(t)
  }

  ghost predicate NoRepeats<T>(s: seq<T>) {
    forall i, j :: 0 <= i < j < |s| ==> s[i] != s[j]
  }

  /** Shuffling a list without repetitions gives a list without repetitions of the same elements. */
  lemma ShuffleOfNoRepeats<T>(s: seq<T>, t: seq<T>)
    requires IsShuffleOf(s, t) && NoRepeats(t)
    ensures |s| == |t| && NoRepeats(s)
    ensures forall x :: x in s <==> x in t
  {
    assert multiset(s) == multiset(t);
    assert |s| == |multiset(s)| == |multiset(t)| == |t|;
    forall i, j | 0 <= i < j < |s|
      ensures s[i] != s[j]
    {
      if s[i] == s[j] {
        RepeatCountsTwice(s, i, j);
        AtMostOnce(t, s[i]);
      }
    }
    forall x
      ensures x in s <==> x in t
    {
      assert x in s <==> x in multiset(s);
      assert x in t <==> x in multiset(t);
    }
  }

  lemma RepeatCountsTwice<T>(s: seq<T>, i: int, j: int)
    requires 0 <= i < j < |s| && s[i] == s[j]
    ensures multiset(s)[s[i]] >= 2
  {
    assert s == s[..j] + s[j..];
    assert s[..j][i] == s[i];
    assert s[j..][0] == s[i];
    assert multiset(s) == multiset(s[..j]) + multiset(s[j..]);
  }

  lemma {:induction false} AtMostOnce<T>(t: seq<T>, x: T)
    requires NoRepeats(t)
    ensures multiset(t)[x] <= 1
  {
    if t != [] {
      assert t == [t[0]] + t[1..];
      assert NoRepeats(t[1..]) by {
        forall i, j | 0 <= i < j < |t[1..]|
          ensures t[1..][i] != t[1..][j]
        {
          assert t[1..][i] == t[i + 1] && t[1..][j] == t[j + 1];
        }
      }
      AtMostOnce(t[1..], x);
      if x == t[0] {
        assert x !in t[1..] by {
          forall k | 0 <= k < |t[1..]|
            ensures t[1..][k] != x
          {
            assert t[1..][k] == t[k + 1];
          }
        }
      }
      assert multiset(t) == multiset{t[0]} + multiset(t[1..]);
    }
  }
}
