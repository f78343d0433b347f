/**
  The stream stages the student queries are built from, specialised to
  student records: `sorted(comparator)`, `min(comparator)`,
  `collect(toSet())` and `collect(toMap(key, value, minBy(naturalOrder())))`.
  Each is a function over the sequence of elements the stream delivers, in
  encounter order, with a contract that says what the stage guarantees.
 */
module Streams {
  import opened JavaStrings
  import opened Students

  /** `java.util.Optional`: the result of `min` on a possibly empty stream. */
  datatype Optional<T> = Empty | Of(value: T)

  // ---------------------------------------------------------------- sorted

  /** Every element may stand before every later one. */
  predicate Sorted(o: Order, s: seq<Student>) {
    forall i, j :: 0 <= i < j < |s| ==> Le(o, s[i], s[j])
  }

  /** Inserts `x` in front of the first element of `s` that it may precede. */
  function Insert(o: Order, x: Student, s: seq<Student>): (r: seq<Student>)
    ensures multiset(r) == multiset(s) + multiset{x}
  {
    if s == [] then [x]
    else if Le(o, x, s[0]) then [x] + s
    else
      assert s == [s[0]] + s[1..];
      [s[0]] + Insert(o, x, s[1..])
  }

  /** Insertion into a sorted list keeps it sorted. */
  lemma {:induction false} InsertSorted(o: Order, x: Student, s: seq<Student>)
    requires Sorted(o, s)
    ensures Sorted(o, Insert(o, x, s))
  {
    if s == [] {
    } else if Le(o, x, s[0]) {
      InsertAtFront(o, x, s);
    } else {
      InsertSorted(o, x, s[1..]);
      InsertBehind(o, x, s, Insert(o, x, s[1..]));
    }
  }

  lemma InsertAtFront(o: Order, x: Student, s: seq<Student>)
    requires s != [] && Sorted(o, s) && Le(o, x, s[0])
    ensures Sorted(o, [x] + s)
  {
    forall j | 0 < j < |s| ensures Le(o, x, s[j]) {
      CompareTransitive(o, x, s[0], s[j]);
    }
  }

  lemma InsertBehind(o: Order, x: Student, s: seq<Student>, rest: seq<Student>)
    requires s != [] && Sorted(o, s) && !Le(o, x, s[0])
    requires multiset(rest) == multiset(s[1..]) + multiset{x}
    requires Sorted(o, rest)
    ensures Sorted(o, [s[0]] + rest)
  {
    TotalPreorder(o, x, s[0], x);
    forall j | 0 <= j < |rest| ensures Le(o, s[0], rest[j]) {
      assert rest[j] in multiset(rest);
      if rest[j] != x {
        assert rest[j] in s[1..];
        var k :| 0 <= k < |s[1..]| && s[1..][k] == rest[j];
        assert s[k + 1] == rest[j];
      }
    }
  }

  /**
    `sorted(comparator)`: a stable sort, modelled as insertion of each element,
    last to first, in front of the first element it may precede.
   */
  function SortBy(o: Order, s: seq<Student>): (r: seq<Student>)
    ensures multiset(r) == multiset(s)
    ensures |r| == |s|
    ensures Sorted(o, r)
  {
    if s == [] then []
    else
      assert s == [s[0]] + s[1..];
      InsertSorted(o, s[0], SortBy(o, s[1..]));
      Insert(o, s[0], SortBy(o, s[1..]))
  }

  /** Sorting an already sorted list returns it unchanged. */
  lemma {:induction false} SortSortedIsIdentity(o: Order, s: seq<Student>)
    requires Sorted(o, s)
    ensures SortBy(o, s) == s
  {
    if s != [] {
      SortSortedIsIdentity(o, s[1..]);
      assert s == [s[0]] + s[1..];
    }
  }

  /** Sorting twice gives the same list as sorting once. */
  lemma SortIdempotent(o: Order, s: seq<Student>)
    ensures SortBy(o, SortBy(o, s)) == SortBy(o, s)
  {
    SortSortedIsIdentity(o, SortBy(o, s));
  }

  /** No two distinct elements of `s` tie under `o`. */
  ghost predicate NoTies(o: Order, s: seq<Student>) {
    forall x, y :: x in s && y in s && Compare(o, x, y) == 0 ==> x == y
  }

  /**
    When no two distinct elements tie under the order, a sorted permutation is
    unique: the order alone then fixes the sort's result.
   */
  lemma {:induction false} SortedPermutationUnique(o: Order, a: seq<Student>, b: seq<Student>)
    requires Sorted(o, a) && Sorted(o, b) && multiset(a) == multiset(b)
    requires NoTies(o, a)
    ensures a == b
    decreases |a|
  {
    if a != [] {
      SortedHeadsTie(o, a, b);
      assert a[0] == b[0];
      TailsPermutation(a, b);
      assert Sorted(o, a[1..]) && Sorted(o, b[1..]);
      assert NoTies(o, a[1..]) by {
        forall x, y | x in a[1..] && y in a[1..] && Compare(o, x, y) == 0 ensures x == y {
          assert x in a && y in a;
        }
      }
      SortedPermutationUnique(o, a[1..], b[1..]);
      assert a == [a[0]] + a[1..] && b == [b[0]] + b[1..];
    }
  }

  lemma TailsPermutation(a: seq<Student>, b: seq<Student>)
    requires a != [] && b != [] && a[0] == b[0] && multiset(a) == multiset(b)
    ensures multiset(a[1..]) == multiset(b[1..])
  {
    assert a == [a[0]] + a[1..] && b == [b[0]] + b[1..];
    assert multiset(a[1..]) == multiset(a) - multiset{a[0]};
    assert multiset(b[1..]) == multiset(b) - multiset{b[0]};
  }

  /** Two sorted permutations of one non-empty list start with tying elements. */
  lemma SortedHeadsTie(o: Order, a: seq<Student>, b: seq<Student>)
    requires Sorted(o, a) && Sorted(o, b) && multiset(a) == multiset(b) && a != []
    ensures b != [] && b[0] in a && Compare(o, a[0], b[0]) == 0
  {
    assert a[0] in multiset(b);
    assert b != [] && b[0] in multiset(a);
    var i :| 0 <= i < |b| && b[i] == a[0];
    var j :| 0 <= j < |a| && a[j] == b[0];
    TotalPreorder(o, a[0], a[0], a[0]);
    TotalPreorder(o, b[0], b[0], b[0]);
    assert Le(o, b[0], a[0]) && Le(o, a[0], b[0]);
    CompareAntisymmetric(o, a[0], b[0]);
  }

  // ---------------------------------------------------------------- min

  /**
    Position `k` holds the first element of `s` that no element may precede
    strictly: the element `reduce(BinaryOperator.minBy(comparator))` keeps,
    since `minBy` keeps its left argument on a tie.
   */
  ghost predicate IsFirstMinimal(o: Order, s: seq<Student>, k: int) {
    && 0 <= k < |s|
    && (forall j :: 0 <= j < |s| ==> Le(o, s[k], s[j]))
    && (forall j :: 0 <= j < k ==> !Le(o, s[j], s[k]))
  }

  /**
    Where `min(comparator)` finds its result: the left fold of `minBy` over
    `s`, written as recursion on the prefix that has been folded.
   */
  function MinIndex(o: Order, s: seq<Student>): (k: nat)
    requires s != []
    ensures IsFirstMinimal(o, s, k)
    decreases |s|
  {
    if |s| == 1 then TotalPreorder(o, s[0], s[0], s[0]); 0
    else
      var m := MinIndex(o, s[..|s| - 1]);
      if Le(o, s[m], s[|s| - 1]) then m
      else MinReplaced(o, s, m); |s| - 1
  }

  lemma MinReplaced(o: Order, s: seq<Student>, m: nat)
    requires |s| > 1 && IsFirstMinimal(o, s[..|s| - 1], m)
    requires !Le(o, s[m], s[|s| - 1])
    ensures IsFirstMinimal(o, s, |s| - 1)
  {
    var n := |s|;
    assert m < n - 1 && s[..n - 1][m] == s[m];
    TotalPreorder(o, s[m], s[n - 1], s[m]);
    forall j | 0 <= j < n ensures Le(o, s[n - 1], s[j]) {
      if j < n - 1 {
        assert s[..n - 1][j] == s[j];
        CompareTransitive(o, s[n - 1], s[m], s[j]);
      } else {
        TotalPreorder(o, s[j], s[j], s[j]);
      }
    }
    forall j | 0 <= j < n - 1 ensures !Le(o, s[j], s[n - 1]) {
      assert s[..n - 1][j] == s[j];
      if Le(o, s[j], s[n - 1]) {
        CompareTransitive(o, s[m], s[j], s[n - 1]);
      }
    }
  }

  /** Only one position is the first minimal one. */
  lemma FirstMinimalUnique(o: Order, s: seq<Student>, k1: int, k2: int)
    requires IsFirstMinimal(o, s, k1) && IsFirstMinimal(o, s, k2)
    ensures k1 == k2
  {
    assert Le(o, s[k1], s[k2]) && Le(o, s[k2], s[k1]);
  }

  /**
    `min(comparator)`: empty exactly on an empty stream, otherwise the first
    element that is minimal under the comparator.
   */
  function Min(o: Order, s: seq<Student>): (r: Optional<Student>)
    ensures r == Empty <==> s == []
    ensures r.Of? ==> exists k :: IsFirstMinimal(o, s, k) && s[k] == r.value
  {
    if s == [] then Empty else Of(s[MinIndex(o, s)])
  }

  /** Prepending an element: it is the first minimal one unless the old one lies strictly below it. */
  lemma FirstMinimalCons(o: Order, s: seq<Student>, k: int)
    requires |s| > 1 && IsFirstMinimal(o, s[1..], k)
    ensures IsFirstMinimal(o, s, if Le(o, s[0], s[k + 1]) then 0 else k + 1)
  {
    var x, y := s[0], s[k + 1];
    assert s[1..][k] == y;
    TotalPreorder(o, x, y, x);
    if Le(o, x, y) {
      forall j | 0 < j < |s| ensures Le(o, x, s[j]) {
        assert s[1..][j - 1] == s[j];
        CompareTransitive(o, x, y, s[j]);
      }
    } else {
      forall j | 0 < j < |s| ensures Le(o, y, s[j]) && (j < k + 1 ==> !Le(o, s[j], y)) {
        assert s[1..][j - 1] == s[j];
      }
    }
  }

  /** The head of `Insert(x, t)` is `x` exactly when `x` may precede the old head. */
  lemma InsertHead(o: Order, x: Student, t: seq<Student>)
    requires t != []
    ensures Insert(o, x, t)[0] == if Le(o, x, t[0]) then x else t[0]
  {
  }

  /**
    The stable sort puts the first minimal element first, so `min` and the
    head of `sorted` agree.
   */
  lemma {:induction false} SortHeadIsMin(o: Order, s: seq<Student>)
    requires s != []
    ensures SortBy(o, s)[0] == s[MinIndex(o, s)]
  {
    if |s| == 1 {
      assert SortBy(o, s) == Insert(o, s[0], []);
    } else {
      var t := s[1..];
      SortHeadIsMin(o, t);
      var k := MinIndex(o, t);
      assert SortBy(o, s) == Insert(o, s[0], SortBy(o, t));
      InsertHead(o, s[0], SortBy(o, t));
      assert t[k] == s[k + 1];
      FirstMinimalCons(o, s, k);
      FirstMinimalUnique(o, s, if Le(o, s[0], s[k + 1]) then 0 else k + 1, MinIndex(o, s));
    }
  }

  // ---------------------------------------------------------------- toSet

  /** `collect(toSet())`: the elements, with duplicates collapsed. */
  function ToSet(xs: seq<string>): (r: set<string>)
    ensures forall x :: x in r <==> x in xs
    ensures |r| <= |xs|
  {
    if xs == [] then {}
    else
      var rest := ToSet(xs[1..]);
      assert forall x :: x in xs <==> x == xs[0] || x in xs[1..];
      assert |{xs[0]} + rest| <= |{xs[0]}| + |rest|;
      {xs[0]} + rest
  }

  // ---------------------------------------------------------------- toMap

  /**
    The map `collect(toMap(key, value, minBy(naturalOrder())))` must be: its
    keys are exactly the keys of the elements, and each key maps to a value of
    one of its elements that comes after none of that key's values.
   */
  ghost predicate IsMinMap(key: Student -> string, value: Student -> string,
                           xs: seq<Student>, m: map<string, string>)
  {
    && (forall x :: x in xs ==> key(x) in m && NotAfter(m[key(x)], value(x)))
    && (forall k :: k in m ==> exists x :: x in xs && key(x) == k && value(x) == m[k])
  }

  /**
    One accumulation step of `toMap`: `HashMap.merge(key(x), value(x), minBy)`,
    which stores the value on a new key and otherwise `minBy(old, new)`.
   */
  function Merge(key: Student -> string, value: Student -> string,
                 m: map<string, string>, x: Student): map<string, string>
  {
    var k := key(x);
    if k in m then m[k := MinBy(m[k], value(x))] else m[k := value(x)]
  }

  /** Merging the last element into the map of the earlier ones gives the map of all. */
  lemma MergeKeepsMin(key: Student -> string, value: Student -> string,
                      xs: seq<Student>, m: map<string, string>)
    requires xs != [] && IsMinMap(key, value, xs[..|xs| - 1], m)
    ensures IsMinMap(key, value, xs, Merge(key, value, m, xs[|xs| - 1]))
  {
    var init, x := xs[..|xs| - 1], xs[|xs| - 1];
    assert xs == init + [x];
    var m' := Merge(key, value, m, x);
    var k := key(x);
    forall y | y in xs
      ensures key(y) in m' && NotAfter(m'[key(y)], value(y))
    {
      if y == x {
        NotAfterTotalOrder(value(x), value(x), value(x));
      } else if key(y) == k {
        assert y in init;
        CompareToTransitive(m'[k], m[k], value(y));
      } else {
        assert y in init;
      }
    }
    forall k' | k' in m'
      ensures exists y :: y in xs && key(y) == k' && value(y) == m'[k']
    {
      if k' == k && !(k in m && m'[k] == m[k]) {
        assert key(x) == k' && value(x) == m'[k'];
      } else {
        var y :| y in init && key(y) == k' && value(y) == m[k'];
        assert y in xs;
      }
    }
  }

  /**
    `collect(toMap(key, value, minBy(naturalOrder())))`: the elements are merged
    into the map in encounter order.
   */
  function ToMapKeepingMin(key: Student -> string, value: Student -> string,
                           xs: seq<Student>): (r: map<string, string>)
    ensures IsMinMap(key, value, xs, r)
    decreases |xs|
  {
    if xs == [] then map[]
    else
      var m := ToMapKeepingMin(key, value, xs[..|xs| - 1]);
      MergeKeepsMin(key, value, xs, m);
      Merge(key, value, m, xs[|xs| - 1])
  }

  /**
    The map the merge rule builds is fixed by the set of elements alone: a
    different encounter order, or repeated elements, give the same map.
   */
  lemma MinMapUnique(key: Student -> string, value: Student -> string,
                     xs: seq<Student>, ys: seq<Student>,
                     m1: map<string, string>, m2: map<string, string>)
    requires IsMinMap(key, value, xs, m1) && IsMinMap(key, value, ys, m2)
    requires forall x :: x in xs <==> x in ys
    ensures m1 == m2
  {
    assert m1.Keys == m2.Keys by {
      forall k | k in m1 ensures k in m2 {
        var x :| x in xs && key(x) == k && value(x) == m1[k];
      }
      forall k | k in m2 ensures k in m1 {
        var y :| y in ys && key(y) == k && value(y) == m2[k];
      }
    }
    forall k | k in m1 ensures m1[k] == m2[k] {
      var x :| x in xs && key(x) == k && value(x) == m1[k];
      var y :| y in ys && key(y) == k && value(y) == m2[k];
      NotAfterTotalOrder(m1[k], m2[k], m1[k]);
    }
  }

  /** Reordering the stream does not change the collected map. */
  lemma ToMapOrderIndependent(key: Student -> string, value: Student -> string,
                              xs: seq<Student>, ys: seq<Student>)
    requires multiset(xs) == multiset(ys)
    ensures ToMapKeepingMin(key, value, xs) == ToMapKeepingMin(key, value, ys)
  {
    forall x ensures x in xs <==> x in ys {
      assert x in xs <==> x in multiset(xs);
      assert x in ys <==> x in multiset(ys);
    }
    MinMapUnique(key, value, xs, ys,
                 ToMapKeepingMin(key, value, xs), ToMapKeepingMin(key, value, ys));
  }
}
