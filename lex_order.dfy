/** The order JavaScript's default `Array.prototype.sort` puts two user ids
    in, and the canonical pair of a friendship built from it. */
module LexOrder {

  /** Strict lexicographic order, character by character; a proper prefix
      comes first. */
  predicate Less(a: string, b: string)
    decreases |a|
  {
    if |a| == 0 then |b| > 0
    else if |b| == 0 then false
    else if a[0] != b[0] then a[0] < b[0]
    else Less(a[1..], b[1..])
  }

  predicate LessEq(a: string, b: string)
  {
    a == b || Less(a, b)
  }

  lemma {:induction false} LessIrreflexive(a: string)
    ensures !Less(a, a)
    decreases |a|
  {
    if |a| > 0 {
      LessIrreflexive(a[1..]);
    }
  }

  lemma {:induction false} LessAsymmetric(a: string, b: string)
    ensures !(Less(a, b) && Less(b, a))
    decreases |a|
  {
    if |a| > 0 && |b| > 0 && a[0] == b[0] {
      LessAsymmetric(a[1..], b[1..]);
    }
  }

  /** Any two different strings are ordered one way or the other. */
  lemma {:induction false} LessTotal(a: string, b: string)
    ensures a == b || Less(a, b) || Less(b, a)
    decreases |a|
  {
    if |a| > 0 && |b| > 0 && a[0] == b[0] {
      LessTotal(a[1..], b[1..]);
      if a[1..] == b[1..] {
        assert a == [a[0]] + a[1..] && b == [b[0]] + b[1..];
      }
    }
  }

  lemma LessEqAntisymmetric(a: string, b: string)
    requires LessEq(a, b) && LessEq(b, a)
    ensures a == b
  {
    LessAsymmetric(a, b);
  }

  /** `[a, b].sort()`: the two ids, smaller first; equal ids keep their
      places. */
  function SortPair(a: string, b: string): (p: (string, string))
    ensures LessEq(p.0, p.1)
    ensures (p.0 == a && p.1 == b) || (p.0 == b && p.1 == a)
  {
    LessTotal(a, b);
    if Less(b, a) then (b, a) else (a, b)
  }

  /** The pair is canonical: it does not depend on which of the two ids
      comes first. */
  lemma SortPairSymmetric(a: string, b: string)
    ensures SortPair(a, b) == SortPair(b, a)
  {
    LessAsymmetric(a, b);
  }

  /** The canonical pair is the only ordered arrangement of the two ids. */
  lemma SortPairUnique(a: string, b: string, p: (string, string))
    requires (p.0 == a && p.1 == b) || (p.0 == b && p.1 == a)
    requires LessEq(p.0, p.1)
    ensures p == SortPair(a, b)
  {
    LessAsymmetric(a, b);
  }
}
