/** JavaScript's relational operators on strings: the two strings are compared
    element by element, and a proper prefix is smaller than the longer string. */
module Strings {

  /** `a < b` on strings (so `a > b` is `Less(b, a)`). */
  predicate Less(a: string, b: string): (r: bool)
    ensures |a| < |b| && a == b[..|a|] ==> r
    ensures |b| <= |a| && b == a[..|b|] ==> !r
    decreases |a|
  {
    if b == [] then false
    else if a == [] then true
    else if a[0] != b[0] then a[0] < b[0]
    else Less(a[1..], b[1..])
  }

  /** `a <= b`: not `a > b`. */
  predicate AtMost(a: string, b: string)
  {
    !Less(b, a)
  }

  lemma {:induction false} LessIrreflexive(a: string)
    ensures !Less(a, a)
  {
    if a != [] {
      LessIrreflexive(a[1..]);
    }
  }

  lemma {:induction false} LessTransitive(a: string, b: string, c: string)
    requires Less(a, b) && Less(b, c)
    ensures Less(a, c)
  {
    if a != [] && a[0] == b[0] && b[0] == c[0] {
      LessTransitive(a[1..], b[1..], c[1..]);
    }
  }

  /** At the first position where two strings differ, the characters there
      decide the order. */
  lemma {:induction false} LessFirstDifference(a: string, b: string, k: nat)
    requires k < |a| && k < |b| && a[..k] == b[..k] && a[k] != b[k]
    ensures Less(a, b) <==> a[k] < b[k]
    decreases k
  {
    if k > 0 {
      assert a[0] == a[..k][0] && b[0] == b[..k][0];
      assert a[1..][..k - 1] == a[..k][1..];
      assert b[1..][..k - 1] == b[..k][1..];
      LessFirstDifference(a[1..], b[1..], k - 1);
    }
  }

  /** Any two distinct strings are ordered one way or the other. */
  lemma {:induction false} LessTotal(a: string, b: string)
    ensures a == b || Less(a, b) || Less(b, a)
  {
    if a != [] && b != [] && a[0] == b[0] {
      LessTotal(a[1..], b[1..]);
      if a[1..] == b[1..] {
        assert a == [a[0]] + a[1..] && b == [b[0]] + b[1..];
      }
    }
  }

  lemma LessAsymmetric(a: string, b: string)
    ensures Less(a, b) ==> !Less(b, a)
  {
    if Less(a, b) && Less(b, a) {
      LessTransitive(a, b, a);
      LessIrreflexive(a);
    }
  }

  /** Non-strict order is transitive: the order a sorted sequence needs. */
  lemma AtMostTransitive(a: string, b: string, c: string)
    requires AtMost(a, b) && AtMost(b, c)
    ensures AtMost(a, c)
  {
    LessTotal(a, b);
    LessTotal(b, c);
    if a != b && b != c {
      LessTransitive(a, b, c);
      LessAsymmetric(a, c);
    } else {
      LessIrreflexive(a);
      LessIrreflexive(c);
    }
  }
}
