/** Sequence facts used across the model: duplicate freedom and filtering. */
module Seqs {

  predicate NoDups<T(==)>(s: seq<T>) {
    forall i, j :: 0 <= i < j < |s| ==> s[i] != s[j]
  }

  function Elems<T(==)>(s: seq<T>): set<T> {
    set x | x in s
  }

  lemma NoDupsAppend<T>(a: seq<T>, b: seq<T>)
    requires NoDups(a) && NoDups(b)
    requires Elems(a) !! Elems(b)
    ensures NoDups(a + b)
  {
    var c := a + b;
    forall i, j | 0 <= i < j < |c|
      ensures c[i] != c[j]
    {
      if j < |a| {
      } else if i >= |a| {
        assert c[i] == b[i - |a|] && c[j] == b[j - |a|];
      } else {
        assert c[i] in Elems(a) && c[j] in Elems(b);
      }
    }
  }

  lemma ElemsAppend<T>(a: seq<T>, b: seq<T>)
    ensures Elems(a + b) == Elems(a) + Elems(b)
  {
  }

  /** Appending one element keeps duplicate freedom exactly when the element is new. */
  lemma NoDupsSnoc<T>(a: seq<T>, x: T)
    ensures NoDups(a + [x]) <==> NoDups(a) && x !in a
  {
    if NoDups(a + [x]) {
      assert forall i :: 0 <= i < |a| ==> (a + [x])[i] == a[i];
      forall k | 0 <= k < |a| ensures a[k] != x {
        assert (a + [x])[|a|] == x;
      }
    } else if NoDups(a) && x !in a {
      NoDupsAppend(a, [x]);
    }
  }

  /** A duplicate-free sequence has a duplicate-free prefix. */
  lemma NoDupsPrefix<T>(a: seq<T>, b: seq<T>)
    requires NoDups(a + b)
    ensures NoDups(a)
  {
    assert forall i :: 0 <= i < |a| ==> (a + b)[i] == a[i];
  }

  /** A second part that starts with an element of the first repeats it. */
  lemma RepeatAtJoin<T>(a: seq<T>, b: seq<T>)
    requires |b| > 0 && b[0] in a
    ensures !NoDups(a + b)
  {
    var k :| 0 <= k < |a| && a[k] == b[0];
    assert (a + b)[k] == (a + b)[|a|];
  }

  /** A duplicate-free sequence has as many elements as its element set. */
  lemma {:induction false} NoDupsCard<T>(s: seq<T>)
    requires NoDups(s)
    ensures |Elems(s)| == |s|
  {
    if |s| > 0 {
      var t := s[1..];
      assert NoDups(t) by {
        forall i, j | 0 <= i < j < |t| ensures t[i] != t[j] {
          assert t[i] == s[i + 1] && t[j] == s[j + 1];
        }
      }
      NoDupsCard(t);
      assert s[0] !in Elems(t) by {
        forall k | 0 <= k < |t| ensures t[k] != s[0] {
          assert t[k] == s[k + 1];
        }
      }
      assert Elems(s) == {s[0]} + Elems(t) by {
        assert s == [s[0]] + t;
      }
    }
  }

  /** A duplicate-free sequence drawn from a set is no longer than the set. */
  lemma NoDupsBound<T>(s: seq<T>, k: set<T>)
    requires NoDups(s)
    requires Elems(s) <= k
    ensures |s| <= |k|
  {
    NoDupsCard(s);
    assert |Elems(s)| <= |k| by { SubsetCard(Elems(s), k); }
  }

  lemma SubsetCard<T>(a: set<T>, b: set<T>)
    requires a <= b
    ensures |a| <= |b|
  {
    assert b == a + (b - a);
  }

  function Filter<T(==)>(s: seq<T>, p: T -> bool): (r: seq<T>)
    ensures |r| <= |s|
    ensures forall i :: 0 <= i < |r| ==> r[i] in s && p(r[i])
    ensures forall i :: 0 <= i < |s| && p(s[i]) ==> s[i] in r
  {
    if |s| == 0 then []
    else if p(s[0]) then [s[0]] + Filter(s[1..], p)
    else Filter(s[1..], p)
  }

  lemma FilterAppend<T>(a: seq<T>, b: seq<T>, p: T -> bool)
    ensures Filter(a + b, p) == Filter(a, p) + Filter(b, p)
  {
    if |a| > 0 {
      assert (a + b)[1..] == a[1..] + b;
      FilterAppend(a[1..], b, p);
    } else {
      assert a + b == b;
    }
  }
}
