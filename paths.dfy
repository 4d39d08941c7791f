/**
 * Lexicographic order on absolute paths, character by character; a proper
 * prefix comes first. The line-with-most-a query breaks ties with it.
 */
module Paths {
  import opened Records

  /**
   * `a` comes before or equals `b`: a prefix comes first, and a path that
   * comes first starts with a character no greater than the other's.
   */
  predicate PathLeq(a: Path, b: Path)
    ensures |a| <= |b| && a == b[..|a|] ==> PathLeq(a, b)
    ensures PathLeq(a, b) && |a| > 0 ==> |b| > 0 && a[0] <= b[0]
  {
    |a| == 0 || (|b| > 0 && (a[0] < b[0] || (a[0] == b[0] && PathLeq(a[1..], b[1..]))))
  }

  lemma {:induction false} PathLeqReflexive(a: Path)
    ensures PathLeq(a, a)
  {
    if |a| > 0 {
      PathLeqReflexive(a[1..]);
    }
  }

  lemma {:induction false} PathLeqTotal(a: Path, b: Path)
    ensures PathLeq(a, b) || PathLeq(b, a)
  {
    if |a| > 0 && |b| > 0 && a[0] == b[0] {
      PathLeqTotal(a[1..], b[1..]);
    }
  }

  lemma {:induction false} PathLeqAntisymmetric(a: Path, b: Path)
    requires PathLeq(a, b) && PathLeq(b, a)
    ensures a == b
  {
    if |a| > 0 && |b| > 0 {
      PathLeqAntisymmetric(a[1..], b[1..]);
      assert a == [a[0]] + a[1..];
      assert b == [b[0]] + b[1..];
    }
  }

  lemma {:induction false} PathLeqTransitive(a: Path, b: Path, c: Path)
    requires PathLeq(a, b) && PathLeq(b, c)
    ensures PathLeq(a, c)
  {
    if |a| > 0 && |b| > 0 && |c| > 0 && a[0] == b[0] == c[0] {
      PathLeqTransitive(a[1..], b[1..], c[1..]);
    }
  }
}
