/**
  The natural order of Java strings, as `String.compareTo` defines it: the
  difference of the first pair of characters that differ, or, when one string
  is a prefix of the other, the difference of the lengths.  Every comparison
  of names in the student queries (the comparator on last and first names and
  the `minBy(naturalOrder())` merge of the name map) goes through it.
 */
module JavaStrings {

  /** `a.compareTo(b)`; only its sign is ever inspected by the queries. */
  function CompareTo(a: string, b: string): int
    decreases |a|
  {
    if a == [] || b == [] then |a| - |b|
    else if a[0] != b[0] then a[0] as int - b[0] as int
    else CompareTo(a[1..], b[1..])
  }

  /** `a.compareTo(b) <= 0`: `a` does not come after `b`. */
  predicate NotAfter(a: string, b: string) {
    CompareTo(a, b) <= 0
  }

  /** `BinaryOperator.minBy(Comparator.naturalOrder())` applied to `(a, b)`. */
  function MinBy(a: string, b: string): (r: string)
    ensures r == a || r == b
    ensures NotAfter(r, a) && NotAfter(r, b)
  {
    CompareToAntisymmetric(a, b);
    CompareToZeroIff(a, a);
    CompareToZeroIff(b, b);
    if CompareTo(a, b) <= 0 then a else b
  }

  /**
    Lexicographic precedence, defined independently of `CompareTo`: `a` is a
    proper prefix of `b`, or at the first position where they differ the
    character of `a` is the smaller one.
   */
  ghost predicate Precedes(a: string, b: string) {
    || (|a| < |b| && a == b[..|a|])
    || exists k :: 0 <= k < |a| && k < |b| && a[..k] == b[..k] && a[k] < b[k]
  }

  /** `compareTo` returns 0 exactly on equal strings. */
  lemma {:induction false} CompareToZeroIff(a: string, b: string)
    ensures CompareTo(a, b) == 0 <==> a == b
    decreases |a|
  {
    if a == [] || b == [] {
    } else if a[0] != b[0] {
    } else {
      CompareToZeroIff(a[1..], b[1..]);
      assert a == [a[0]] + a[1..] && b == [b[0]] + b[1..];
    }
  }

  /** Swapping the arguments negates the result. */
  lemma {:induction false} CompareToAntisymmetric(a: string, b: string)
    ensures CompareTo(b, a) == -CompareTo(a, b)
    decreases |a|
  {
    if a == [] || b == [] {
    } else if a[0] != b[0] {
    } else {
      CompareToAntisymmetric(a[1..], b[1..]);
    }
  }

  /**
    `compareTo` is transitive, and a chain `a <= b <= c` collapses to
    `a == c` only when both of its steps are equalities.
   */
  lemma {:induction false} CompareToTransitive(a: string, b: string, c: string)
    requires CompareTo(a, b) <= 0 && CompareTo(b, c) <= 0
    ensures CompareTo(a, c) <= 0
    ensures CompareTo(a, c) == 0 ==> a == b && b == c
    decreases |a|
  {
    if a == [] {
      if c == [] {
        assert b == [];
      }
    } else if c == [] || b == [] {
    } else if a[0] == b[0] && b[0] == c[0] {
      CompareToTransitive(a[1..], b[1..], c[1..]);
      assert a == [a[0]] + a[1..] && b == [b[0]] + b[1..] && c == [c[0]] + c[1..];
    }
  }

  /** `NotAfter` is a total order on strings. */
  lemma NotAfterTotalOrder(a: string, b: string, c: string)
    ensures NotAfter(a, a)
    ensures NotAfter(a, b) || NotAfter(b, a)
    ensures NotAfter(a, b) && NotAfter(b, a) ==> a == b
    ensures NotAfter(a, b) && NotAfter(b, c) ==> NotAfter(a, c)
  {
    CompareToZeroIff(a, a);
    CompareToZeroIff(a, b);
    CompareToAntisymmetric(a, b);
    if NotAfter(a, b) && NotAfter(b, c) {
      CompareToTransitive(a, b, c);
    }
  }

  /** A negative `compareTo` is exactly lexicographic precedence. */
  lemma {:induction false} CompareToNegativeIff(a: string, b: string)
    ensures CompareTo(a, b) < 0 <==> Precedes(a, b)
    decreases |a|
  {
    if a == [] {
      assert b[..0] == [];
    } else if b == [] {
    } else if a[0] != b[0] {
      PrecedesAtDifferentHeads(a, b);
    } else {
      CompareToNegativeIff(a[1..], b[1..]);
      if Precedes(a[1..], b[1..]) {
        PrecedesFromTails(a, b);
      }
      if Precedes(a, b) {
        PrecedesGivesTails(a, b);
      }
    }
  }

  lemma PrecedesAtDifferentHeads(a: string, b: string)
    requires a != [] && b != [] && a[0] != b[0]
    ensures Precedes(a, b) <==> a[0] < b[0]
  {
  }

  lemma PrecedesFromTails(a: string, b: string)
    requires a != [] && b != [] && a[0] == b[0]
    requires Precedes(a[1..], b[1..])
    ensures Precedes(a, b)
  {
    var a', b' := a[1..], b[1..];
    if |a'| < |b'| && a' == b'[..|a'|] {
      assert a == [a[0]] + a' && b[..|a|] == [b[0]] + b'[..|a'|];
    } else {
      var k :| 0 <= k < |a'| && k < |b'| && a'[..k] == b'[..k] && a'[k] < b'[k];
      assert a[..k + 1] == [a[0]] + a'[..k] && b[..k + 1] == [b[0]] + b'[..k];
      assert a[k + 1] == a'[k] && b[k + 1] == b'[k];
    }
  }

  lemma PrecedesGivesTails(a: string, b: string)
    requires a != [] && b != [] && a[0] == b[0]
    requires Precedes(a, b)
    ensures Precedes(a[1..], b[1..])
  {
    var a', b' := a[1..], b[1..];
    if |a| < |b| && a == b[..|a|] {
      assert a' == a[1..] == b[..|a|][1..] == b'[..|a'|];
    } else {
      var k :| 0 <= k < |a| && k < |b| && a[..k] == b[..k] && a[k] < b[k];
      assert k > 0;
      assert a'[..k - 1] == a[..k][1..] && b'[..k - 1] == b[..k][1..];
      assert a'[k - 1] == a[k] && b'[k - 1] == b[k];
    }
  }
}
