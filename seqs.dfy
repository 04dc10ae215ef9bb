/**
 * The Python list operations the maze code relies on (`in`, `remove`,
 * `reverse`) and the facts about duplicate-free lists that the builder and
 * the solver use.
 */
module Seqs {

  predicate NoDuplicates<T(==)>(s: seq<T>) {
    forall i, j :: 0 <= i < j < |s| ==> s[i] != s[j]
  }

  function Elements<T>(s: seq<T>): set<T> {
    set x | x in s
  }

  /** Position of the first occurrence of `x` in `s`. */
  function IndexOf<T(==)>(s: seq<T>, x: T): (k: nat)
    requires x in s
    ensures k < |s| && s[k] == x && forall i :: 0 <= i < k ==> s[i] != x
  {
    if s[0] == x then 0 else 1 + IndexOf(s[1..], x)
  }

  /**
   * `list.remove(x)`: drops the first occurrence of `x`, and nothing else.
   * Python raises `ValueError` when `x` is absent, so `x` must be present.
   */
  function RemoveFirst<T(==)>(s: seq<T>, x: T): (r: seq<T>)
    requires x in s
    ensures |r| == |s| - 1
    ensures forall i :: 0 <= i < |r| ==> r[i] == s[if i < IndexOf(s, x) then i else i + 1]
  {
    if s[0] == x then s[1..]
    else [s[0]] + RemoveFirst(s[1..], x)
  }

  /** `list.reverse()`. */
  function Reverse<T>(s: seq<T>): (r: seq<T>)
    ensures |r| == |s|
    ensures forall i :: 0 <= i < |s| ==> r[i] == s[|s| - 1 - i]
  {
    if s == [] then [] else Reverse(s[1..]) + [s[0]]
  }

  /** A duplicate-free list has as many elements as its set of elements. */
  lemma {:induction false} DistinctCard<T>(s: seq<T>)
    requires NoDuplicates(s)
    ensures |Elements(s)| == |s|
  {
    if s != [] {
      var t := s[..|s| - 1];
      assert NoDuplicates(t);
      DistinctCard(t);
      assert Elements(s) == Elements(t) + {s[|s| - 1]};
      assert s[|s| - 1] !in Elements(t);
    }
  }

  /** A duplicate-free list drawn from a finite set is no longer than it. */
  lemma DistinctBound<T>(s: seq<T>, k: set<T>)
    requires NoDuplicates(s)
    requires forall i :: 0 <= i < |s| ==> s[i] in k
    ensures |s| <= |k|
  {
    DistinctCard(s);
    forall x | x in Elements(s) ensures x in k {
      var i :| 0 <= i < |s| && s[i] == x;
    }
    assert k == Elements(s) + (k - Elements(s));
  }

  /** Removing an element leaves every other element of the list, and removes `x` from a list without repeats. */
  lemma RemoveFirstMembers<T>(s: seq<T>, x: T)
    requires x in s
    ensures forall y :: y != x ==> (y in RemoveFirst(s, x) <==> y in s)
    ensures NoDuplicates(s) ==> x !in RemoveFirst(s, x)
  {
    var k := IndexOf(s, x);
    var r := RemoveFirst(s, x);
    forall y | y in r ensures y in s {
      var i :| 0 <= i < |r| && r[i] == y;
      assert r[i] == s[if i < k then i else i + 1];
    }
    forall y | y in s && y != x ensures y in r {
      var i :| 0 <= i < |s| && s[i] == y;
      assert r[if i < k then i else i - 1] == y;
    }
    if NoDuplicates(s) {
      forall i | 0 <= i < |r| ensures r[i] != x {
        assert r[i] == s[if i < k then i else i + 1];
      }
    }
  }

  /** Removing an element from a duplicate-free list leaves exactly the others, still without repeats. */
  lemma RemoveFirstDistinct<T>(s: seq<T>, x: T)
    requires x in s && NoDuplicates(s)
    ensures NoDuplicates(RemoveFirst(s, x))
    ensures forall y :: y in RemoveFirst(s, x) <==> y in s && y != x
  {
    RemoveFirstMembers(s, x);
    var k := IndexOf(s, x);
    var r := RemoveFirst(s, x);
    forall i, j | 0 <= i < j < |r| ensures r[i] != r[j] {
      var i', j' := if i < k then i else i + 1, if j < k then j else j + 1;
      assert r[i] == s[i'] && r[j] == s[j'] && i' < j';
    }
  }

  /** Reversal keeps the elements and the absence of repeats. */
  lemma ReverseDistinct<T>(s: seq<T>)
    ensures forall x :: x in Reverse(s) <==> x in s
    ensures NoDuplicates(s) ==> NoDuplicates(Reverse(s))
  {
    var r := Reverse(s);
    forall x | x in s ensures x in r {
      var i :| 0 <= i < |s| && s[i] == x;
      assert r[|s| - 1 - i] == x;
    }
    if NoDuplicates(s) {
      forall i, j | 0 <= i < j < |r| ensures r[i] != r[j] {
        assert r[i] == s[|s| - 1 - i] && r[j] == s[|s| - 1 - j];
      }
    }
  }
}
