/**
  The student query engine: stateless queries over a list of student records.
  Projections keep the input order, the sorting queries return sorted
  permutations, the `find` queries filter by equality and then sort by
  `STUDENT_COMPARATOR`, and the group query builds a last name to first name
  map that keeps the smallest first name on a collision.
 */
module StudentDB {
  import opened JavaStrings
  import opened Students
  import opened Streams

  // ---------------------------------------------------------------- projections

  /** `collectField(mapper, students)`: `map(mapper)` collected into a list. */
  function CollectField(mapper: Student -> string, students: seq<Student>): (r: seq<string>)
    ensures |r| == |students|
    ensures forall i :: 0 <= i < |students| ==> r[i] == mapper(students[i])
  {
    if students == [] then []
    else [mapper(students[0])] + CollectField(mapper, students[1..])
  }

  function GetFirstNames(students: seq<Student>): (r: seq<string>)
    ensures |r| == |students|
    ensures forall i :: 0 <= i < |students| ==> r[i] == students[i].firstName
  {
    CollectField(GetFirstName, students)
  }

  function GetLastNames(students: seq<Student>): (r: seq<string>)
    ensures |r| == |students|
    ensures forall i :: 0 <= i < |students| ==> r[i] == students[i].lastName
  {
    CollectField(GetLastName, students)
  }

  function GetGroups(students: seq<Student>): (r: seq<string>)
    ensures |r| == |students|
    ensures forall i :: 0 <= i < |students| ==> r[i] == students[i].group
  {
    CollectField(GetGroup, students)
  }

  /** The mapper of `getFullNames`: first name, one space, last name. */
  function FullName(s: Student): string {
    s.firstName + " " + s.lastName
  }

  function GetFullNames(students: seq<Student>): (r: seq<string>)
    ensures |r| == |students|
    ensures forall i :: 0 <= i < |students| ==>
              r[i] == students[i].firstName + " " + students[i].lastName
  {
    CollectField(FullName, students)
  }

  // ---------------------------------------------------------------- distinct names

  /** Exactly the first names that occur in the input, each once. */
  function GetDistinctFirstNames(students: seq<Student>): (r: set<string>)
    ensures forall n :: n in r <==> exists i :: 0 <= i < |students| && students[i].firstName == n
    ensures |r| <= |students|
  {
    var names := CollectField(GetFirstName, students);
    assert forall n :: n in names <==> exists i :: 0 <= i < |names| && names[i] == n;
    ToSet(names)
  }

  // ---------------------------------------------------------------- minimum

  /**
    The first name of the first student with the smallest id under the
    natural order, or `""` for an empty list.  This is not the alphabetically
    smallest first name.
   */
  function GetMinStudentFirstName(students: seq<Student>): (r: string)
    ensures students == [] ==> r == ""
    ensures students != [] ==>
              exists k :: 0 <= k < |students| && r == students[k].firstName
                && (forall j :: 0 <= j < |students| ==> students[k].id <= students[j].id)
                && (forall j :: 0 <= j < k ==> students[j].id > students[k].id)
  {
    match Min(Natural, students)
    case Empty => ""
    case Of(s) => s.firstName
  }

  // ---------------------------------------------------------------- sorting

  /** `sorted()` by the natural order: a permutation with ids non-decreasing. */
  function SortStudentsById(students: seq<Student>): (r: seq<Student>)
    ensures multiset(r) == multiset(students)
    ensures forall i, j :: 0 <= i < j < |r| ==> r[i].id <= r[j].id
  {
    SortBy(Natural, students)
  }

  /** `toSortedList`: `sorted(STUDENT_COMPARATOR)` collected into a list. */
  function ToSortedList(students: seq<Student>): (r: seq<Student>)
    ensures multiset(r) == multiset(students)
    ensures Sorted(ByName, r)
  {
    SortBy(ByName, students)
  }

  /** The same pipeline as `toSortedList`, written out a second time in the source. */
  function SortStudentsByName(students: seq<Student>): (r: seq<Student>)
    ensures multiset(r) == multiset(students)
    ensures Sorted(ByName, r)
  {
    ToSortedList(students)
  }

  // ---------------------------------------------------------------- filtering

  /** `filterByValue`: the students whose selected field equals `value`, in input order. */
  function FilterByValue(students: seq<Student>, filter: Student -> string, value: string)
    : (r: seq<Student>)
    ensures forall x :: multiset(r)[x] == if filter(x) == value then multiset(students)[x] else 0
  {
    if students == [] then []
    else
      var rest := FilterByValue(students[1..], filter, value);
      assert students == [students[0]] + students[1..];
      if filter(students[0]) == value then [students[0]] + rest else rest
  }

  function FindStudentsByFirstName(students: seq<Student>, name: string): (r: seq<Student>)
    ensures Sorted(ByName, r)
    ensures forall x :: multiset(r)[x] == if x.firstName == name then multiset(students)[x] else 0
  {
    ToSortedList(FilterByValue(students, GetFirstName, name))
  }

  function FindStudentsByLastName(students: seq<Student>, name: string): (r: seq<Student>)
    ensures Sorted(ByName, r)
    ensures forall x :: multiset(r)[x] == if x.lastName == name then multiset(students)[x] else 0
  {
    ToSortedList(FilterByValue(students, GetLastName, name))
  }

  function FindStudentsByGroup(students: seq<Student>, group: string): (r: seq<Student>)
    ensures Sorted(ByName, r)
    ensures forall x :: multiset(r)[x] == if x.group == group then multiset(students)[x] else 0
  {
    ToSortedList(FilterByValue(students, GetGroup, group))
  }

  // ---------------------------------------------------------------- names by group

  /**
    The last names of the students of `group`, each mapped to the smallest
    (by `String.compareTo`) first name among that group's students with that
    last name.
   */
  function FindStudentNamesByGroup(students: seq<Student>, group: string)
    : (r: map<string, string>)
    ensures forall x :: x in students && x.group == group ==>
              x.lastName in r && NotAfter(r[x.lastName], x.firstName)
    ensures forall k :: k in r ==>
              exists x :: x in students && x.group == group && x.lastName == k && x.firstName == r[k]
  {
    FilterMembers(students, GetGroup, group);
    ToMapKeepingMin(GetLastName, GetFirstName, FilterByValue(students, GetGroup, group))
  }

  // ---------------------------------------------------------------- lemmas

  /** A student is kept by the filter exactly when it occurs and its field matches. */
  lemma FilterMembers(students: seq<Student>, filter: Student -> string, value: string)
    ensures forall x :: x in FilterByValue(students, filter, value) <==> x in students && filter(x) == value
  {
  }

  /** Filtering a list with a known head. */
  lemma FilterCons(filter: Student -> string, value: string, y: Student, u: seq<Student>)
    ensures FilterByValue([y] + u, filter, value)
         == if filter(y) == value then [y] + FilterByValue(u, filter, value)
            else FilterByValue(u, filter, value)
  {
  }

  /** Filtering what `Insert` produced is inserting into what the filter keeps. */
  lemma {:induction false} FilterInsert(o: Order, filter: Student -> string, value: string,
                                        x: Student, t: seq<Student>)
    requires Sorted(o, t)
    ensures FilterByValue(Insert(o, x, t), filter, value)
         == if filter(x) == value then Insert(o, x, FilterByValue(t, filter, value))
            else FilterByValue(t, filter, value)
  {
    if t == [] {
    } else if Le(o, x, t[0]) {
      FilterInsertFront(o, filter, value, x, t);
    } else {
      assert Sorted(o, t[1..]);
      FilterInsert(o, filter, value, x, t[1..]);
      FilterInsertBehind(o, filter, value, x, t);
    }
  }

  /** The case of `FilterInsert` where `x` goes in front of the whole list. */
  lemma FilterInsertFront(o: Order, filter: Student -> string, value: string,
                          x: Student, t: seq<Student>)
    requires Sorted(o, t) && t != [] && Le(o, x, t[0])
    ensures FilterByValue(Insert(o, x, t), filter, value)
         == if filter(x) == value then Insert(o, x, FilterByValue(t, filter, value))
            else FilterByValue(t, filter, value)
  {
    var kept := FilterByValue(t, filter, value);
    assert Insert(o, x, t) == [x] + t;
    FilterCons(filter, value, x, t);
    if kept != [] {
      FilterMembers(t, filter, value);
      assert kept[0] in t;
      var j :| 0 <= j < |t| && t[j] == kept[0];
      if j > 0 {
        CompareTransitive(o, x, t[0], kept[0]);
      }
      assert Insert(o, x, kept) == [x] + kept;
    }
  }

  /** The case of `FilterInsert` where `x` goes behind the head, given the tail's case. */
  lemma FilterInsertBehind(o: Order, filter: Student -> string, value: string,
                           x: Student, t: seq<Student>)
    requires t != [] && !Le(o, x, t[0])
    requires FilterByValue(Insert(o, x, t[1..]), filter, value)
          == if filter(x) == value then Insert(o, x, FilterByValue(t[1..], filter, value))
             else FilterByValue(t[1..], filter, value)
    ensures FilterByValue(Insert(o, x, t), filter, value)
         == if filter(x) == value then Insert(o, x, FilterByValue(t, filter, value))
            else FilterByValue(t, filter, value)
  {
  }

  /**
    Filtering then sorting equals sorting then filtering: the stable sort moves
    no kept student past another kept one.
   */
  lemma {:induction false} FilterSortCommute(o: Order, filter: Student -> string, value: string,
                                             s: seq<Student>)
    ensures FilterByValue(SortBy(o, s), filter, value) == SortBy(o, FilterByValue(s, filter, value))
  {
    if s != [] {
      FilterSortCommute(o, filter, value, s[1..]);
      FilterInsert(o, filter, value, s[0], SortBy(o, s[1..]));
      var kept := FilterByValue(s[1..], filter, value);
      if filter(s[0]) == value {
        assert FilterByValue(s, filter, value) == [s[0]] + kept;
        assert ([s[0]] + kept)[1..] == kept;
      }
    }
  }

  /**
    Each `find` query returns exactly the matching students of
    `sortStudentsByName`, in the same order.
   */
  lemma FindIsFilteredSortByName(students: seq<Student>, value: string)
    ensures FindStudentsByFirstName(students, value)
         == FilterByValue(SortStudentsByName(students), GetFirstName, value)
    ensures FindStudentsByLastName(students, value)
         == FilterByValue(SortStudentsByName(students), GetLastName, value)
    ensures FindStudentsByGroup(students, value)
         == FilterByValue(SortStudentsByName(students), GetGroup, value)
  {
    FilterSortCommute(ByName, GetFirstName, value, students);
    FilterSortCommute(ByName, GetLastName, value, students);
    FilterSortCommute(ByName, GetGroup, value, students);
  }

  /** Sorting a sorted result again changes nothing, for both orders. */
  lemma SortsAreIdempotent(students: seq<Student>)
    ensures SortStudentsById(SortStudentsById(students)) == SortStudentsById(students)
    ensures SortStudentsByName(SortStudentsByName(students)) == SortStudentsByName(students)
  {
    SortIdempotent(Natural, students);
    SortIdempotent(ByName, students);
  }

  /** No two distinct students of the list share an id. */
  ghost predicate UniqueIds(students: seq<Student>) {
    forall x, y :: x in students && y in students && x.id == y.id ==> x == y
  }

  /** With unique ids, no two distinct students of a permutation of the input tie under either order. */
  lemma UniqueIdsNoTies(students: seq<Student>, s: seq<Student>)
    requires UniqueIds(students) && multiset(s) == multiset(students)
    ensures NoTies(Natural, s) && NoTies(ByName, s)
  {
    forall x, y | x in s && y in s && (Compare(Natural, x, y) == 0 || Compare(ByName, x, y) == 0)
      ensures x == y
    {
      assert x in multiset(students) && y in multiset(students);
      NameCompareZeroIff(x, y);
    }
  }

  /**
    With unique ids the natural order is total on the input, so the result of
    `sortStudentsById` is its only permutation with ids non-decreasing.
   */
  lemma SortByIdDeterminedByUniqueIds(students: seq<Student>, r: seq<Student>)
    requires UniqueIds(students)
    requires multiset(r) == multiset(students)
    requires forall i, j :: 0 <= i < j < |r| ==> r[i].id <= r[j].id
    ensures r == SortStudentsById(students)
  {
    var byId := SortStudentsById(students);
    UniqueIdsNoTies(students, byId);
    assert Sorted(Natural, r);
    SortedPermutationUnique(Natural, byId, r);
  }

  /**
    With unique ids `STUDENT_COMPARATOR` is total on the input (the id breaks
    every tie of names), so the result of `sortStudentsByName` is its only
    permutation sorted by that comparator.
   */
  lemma SortByNameDeterminedByUniqueIds(students: seq<Student>, r: seq<Student>)
    requires UniqueIds(students)
    requires multiset(r) == multiset(students)
    requires Sorted(ByName, r)
    ensures r == SortStudentsByName(students)
  {
    var byName := SortStudentsByName(students);
    UniqueIdsNoTies(students, byName);
    SortedPermutationUnique(ByName, byName, r);
  }

  /** The minimum query reads the first name of the head of `sortStudentsById`. */
  lemma MinFirstNameIsHeadOfSortById(students: seq<Student>)
    requires students != []
    ensures GetMinStudentFirstName(students) == SortStudentsById(students)[0].firstName
  {
    SortHeadIsMin(Natural, students);
  }

  /**
    The name map does not depend on the order of the input (the merge keeps
    the minimum, not the last value written).
   */
  lemma NamesByGroupOrderIndependent(s1: seq<Student>, s2: seq<Student>, group: string)
    requires multiset(s1) == multiset(s2)
    ensures FindStudentNamesByGroup(s1, group) == FindStudentNamesByGroup(s2, group)
  {
    var f1, f2 := FilterByValue(s1, GetGroup, group), FilterByValue(s2, GetGroup, group);
    assert multiset(f1) == multiset(f2) by {
      forall x ensures multiset(f1)[x] == multiset(f2)[x] { }
    }
    ToMapOrderIndependent(GetLastName, GetFirstName, f1, f2);
  }

  // ---------------------------------------------------------------- worked examples

  /**
    Two students, Ann Lee (id 3, group A) and Bob Kim (id 1, group B): both
    sorts put Bob first, and the minimum query answers "Bob" although "Ann"
    is the alphabetically smaller first name.
   */
  lemma TwoStudentsExample(ann: Student, bob: Student)
    requires ann == Student(3, "Ann", "Lee", "A") && bob == Student(1, "Bob", "Kim", "B")
    ensures SortStudentsById([ann, bob]) == [bob, ann]
    ensures SortStudentsByName([ann, bob]) == [bob, ann]
    ensures GetMinStudentFirstName([ann, bob]) == "Bob"
    ensures CompareTo(ann.firstName, bob.firstName) < 0
  {
    TwoStudentsSorted(ann, bob);
    assert [ann, bob][..1] == [ann] && [ann][..0] == [];
    assert MinIndex(Natural, [ann]) == 0;
  }

  lemma TwoStudentsSorted(ann: Student, bob: Student)
    requires ann == Student(3, "Ann", "Lee", "A") && bob == Student(1, "Bob", "Kim", "B")
    ensures SortStudentsById([ann, bob]) == [bob, ann]
    ensures SortStudentsByName([ann, bob]) == [bob, ann]
    ensures CompareTo(ann.firstName, bob.firstName) < 0
  {
    assert [ann, bob][1..] == [bob];
    assert SortBy(Natural, [bob]) == [bob];
    assert SortBy(ByName, [bob]) == [bob];
    assert CompareTo("Lee", "Kim") > 0;
  }

  /**
    Two students of one group share a last name: the map holds that last name
    with the lexicographically smaller first name, whichever comes first in
    the input (Smith/Bob and Smith/Alice give Smith -> Alice).
   */
  lemma NameCollisionKeepsSmaller(first: Student, second: Student, group: string)
    requires first.group == group && second.group == group
    requires first.lastName == second.lastName
    requires Precedes(second.firstName, first.firstName)
    ensures FindStudentNamesByGroup([first, second], group) == map[first.lastName := second.firstName]
    ensures FindStudentNamesByGroup([second, first], group) == map[first.lastName := second.firstName]
  {
    NameCollisionMap(first, second, group);
    assert multiset([first, second]) == multiset([second, first]);
    NamesByGroupOrderIndependent([first, second], [second, first], group);
  }

  lemma NameCollisionMap(first: Student, second: Student, group: string)
    requires first.group == group && second.group == group
    requires first.lastName == second.lastName
    requires Precedes(second.firstName, first.firstName)
    ensures FindStudentNamesByGroup([first, second], group) == map[first.lastName := second.firstName]
  {
    FilterKeepsBoth(first, second, group);
    MapOfCollision(first, second);
  }

  lemma FilterKeepsBoth(first: Student, second: Student, group: string)
    requires first.group == group && second.group == group
    ensures FilterByValue([first, second], GetGroup, group) == [first, second]
  {
    assert [first, second][1..] == [second] && [second][1..] == [];
  }

  lemma MapOfCollision(first: Student, second: Student)
    requires first.lastName == second.lastName
    requires Precedes(second.firstName, first.firstName)
    ensures ToMapKeepingMin(GetLastName, GetFirstName, [first, second])
              == map[first.lastName := second.firstName]
  {
    assert [first, second][..1] == [first] && [first][..0] == [];
    assert ToMapKeepingMin(GetLastName, GetFirstName, [first]) == map[first.lastName := first.firstName];
    CompareToNegativeIff(second.firstName, first.firstName);
    CompareToAntisymmetric(second.firstName, first.firstName);
    assert MinBy(first.firstName, second.firstName) == second.firstName;
  }
}
