/** Sequence helpers shared by the match engine and the friends list. */
module Seqs {

  /** No element occurs twice. */
  predicate AllDistinct<T(==,!new)>(s: seq<T>)
  {
    forall i, j :: 0 <= i < j < |s| ==> s[i] != s[j]
  }

  /** The elements of `s` with later repetitions dropped, in order of first
      appearance: the key order of a JavaScript object filled from `s`, and
      the rows a set-membership (`in`) filter can return at most once. */
  function Distinct<T(==,!new)>(s: seq<T>): (r: seq<T>)
    ensures AllDistinct(r)
    ensures forall x :: x in r <==> x in s
    ensures |r| <= |s|
  {
    if s == [] then []
    else
      var r' := Distinct(s[..|s| - 1]);
      if s[|s| - 1] in r' then r' else r' + [s[|s| - 1]]
  }

  /** Where `x` first occurs in `s`. */
  function FirstIndex<T(==)>(s: seq<T>, x: T): (k: nat)
    requires x in s
    ensures k < |s| && s[k] == x && x !in s[..k]
  {
    var init := s[..|s| - 1];
    if x in init then
      var k := FirstIndex(init, x);
      assert s[..k] == init[..k];
      k
    else
      assert s == init + [s[|s| - 1]];
      |s| - 1
  }

  /** `Distinct` lists the elements in order of their first occurrence. */
  lemma {:induction false} DistinctInOrder<T(!new)>(s: seq<T>)
    ensures forall i, j :: 0 <= i < j < |Distinct(s)| ==> FirstIndex(s, Distinct(s)[i]) < FirstIndex(s, Distinct(s)[j])
    decreases |s|
  {
    if s != [] {
      var init := s[..|s| - 1];
      var r', r := Distinct(init), Distinct(s);
      DistinctInOrder(init);
      assert forall y :: y in init ==> FirstIndex(s, y) == FirstIndex(init, y);
      forall i, j | 0 <= i < j < |r|
        ensures FirstIndex(s, r[i]) < FirstIndex(s, r[j])
      {
        if j < |r'| {
          assert r[i] == r'[i] && r[j] == r'[j];
        } else {
          assert r[i] == r'[i] && r[j] == s[|s| - 1] && s[|s| - 1] !in init;
        }
      }
    }
  }
}
