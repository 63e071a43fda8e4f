/**
 * Sequence helpers shared by the discovery and destruction models: the set of
 * elements of a list, duplicate freedom, and the list filter behind
 * `Collection.removeAll` and `stream().filter(...)`.
 */
module Seqs {

  /** The elements of `s`, as a set. */
  function Elems<T>(s: seq<T>): set<T>
  {
    set x | x in s
  }

  /** No element of `s` occurs twice. */
  predicate NoDuplicates<T(==)>(s: seq<T>)
  {
    forall i, j :: 0 <= i < j < |s| ==> s[i] != s[j]
  }

  /** `s` with every element of `ex` dropped and the order of the rest kept. */
  function Without<T(!new)>(s: seq<T>, ex: set<T>): (r: seq<T>)
    ensures forall x :: x in r <==> x in s && x !in ex
    ensures |r| <= |s|
    ensures NoDuplicates(s) ==> NoDuplicates(r)
  {
    if s == [] then []
    else (if s[0] in ex then [] else [s[0]]) + Without(s[1..], ex)
  }

  /** Two duplicate-free lists with no common element concatenate to a duplicate-free list. */
  lemma DistinctConcat<T>(s: seq<T>, t: seq<T>)
    requires NoDuplicates(s) && NoDuplicates(t)
    requires forall x :: x in s ==> x !in t
    ensures NoDuplicates(s + t)
  {
    forall i, j | 0 <= i < j < |s + t|
      ensures (s + t)[i] != (s + t)[j]
    {
      if j >= |s| && i < |s| {
        assert (s + t)[i] in s;
        assert (s + t)[j] in t;
      }
    }
  }

  /** Filtering out a set that covers every element of `t` leaves nothing. */
  lemma {:induction false} WithoutCovered<T(!new)>(t: seq<T>, ex: set<T>)
    requires forall x :: x in t ==> x in ex
    ensures Without(t, ex) == []
  {
    if t != [] {
      WithoutCovered(t[1..], ex);
    }
  }

  /**
   * Appending elements of `ex` to a list disjoint from `ex` and then removing
   * every element of `ex` gives back the original list.
   */
  lemma {:induction false} RemoveAllAfterAddAll<T(!new)>(s: seq<T>, t: seq<T>, ex: set<T>)
    requires forall x :: x in s ==> x !in ex
    requires forall x :: x in t ==> x in ex
    ensures Without(s + t, ex) == s
  {
    if s == [] {
      assert s + t == t;
      WithoutCovered(t, ex);
    } else {
      assert (s + t)[0] == s[0];
      assert (s + t)[1..] == s[1..] + t;
      RemoveAllAfterAddAll(s[1..], t, ex);
    }
  }

  /**
   * Filtering distributes over concatenation: with `WithoutSingle`, this says
   * that `Without` keeps the survivors in their original order.
   */
  lemma {:induction false} WithoutConcat<T(!new)>(s: seq<T>, t: seq<T>, ex: set<T>)
    ensures Without(s + t, ex) == Without(s, ex) + Without(t, ex)
    decreases |s|
  {
    if s == [] {
      assert s + t == t;
    } else {
      var head := if s[0] in ex then [] else [s[0]];
      var st := s + t;
      assert st[0] == s[0] && st[1..] == s[1..] + t;
      WithoutConcat(s[1..], t, ex);
      calc {
        Without(st, ex);
        head + Without(st[1..], ex);
        head + (Without(s[1..], ex) + Without(t, ex));
        (head + Without(s[1..], ex)) + Without(t, ex);
      }
    }
  }

  /** A one-element list is kept or dropped whole. */
  lemma WithoutSingle<T(!new)>(x: T, ex: set<T>)
    ensures Without([x], ex) == if x in ex then [] else [x]
  {
    assert [x][1..] == [];
  }

  /** A duplicate-free list has as many elements as its length. */
  lemma {:induction false} DistinctCount<T>(s: seq<T>)
    requires NoDuplicates(s)
    ensures |Elems(s)| == |s|
  {
    if s != [] {
      var t := s[1..];
      assert NoDuplicates(t);
      DistinctCount(t);
      assert Elems(s) == Elems(t) + {s[0]};
      assert s[0] !in Elems(t);
    }
  }
}
