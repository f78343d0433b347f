# Student query engine — a Dafny model

This project models `StudentDB`, a stateless query engine over a list of
student records. Each record has an id, a first name, a last name and a group
label. The engine answers twelve queries:

- four projections (first names, last names, groups, full names) built on
  `collectField`;
- the set of distinct first names;
- the first name of the student that is minimal under the record's natural
  order;
- two sorts: by the natural order, and by `STUDENT_COMPARATOR`, which compares
  last name, then first name, then id;
- three equality filters (by first name, last name or group), each followed by
  the sort by `STUDENT_COMPARATOR`;
- a map from last name to first name for one group. When two students share a
  last name, the map keeps the first name that is smaller under
  `String.compareTo`.

Every query is a single stream pipeline in the source, so every query here is
a pure function over a `seq<Student>`. The files are:

- `java_strings.dfy` (module `JavaStrings`): `String.compareTo` and
  `minBy(naturalOrder())` on strings. It proves that `compareTo` is a total
  order, and that a negative result means lexicographic precedence
  (`Precedes`, a definition independent of `compareTo`).
- `students.dfy` (module `Students`): the `Student` record, the natural order
  (`Integer.compare` on ids) and `STUDENT_COMPARATOR`. Both are proved to be
  total preorders, and `STUDENT_COMPARATOR` is proved to be the lexicographic
  order on (last name, first name, id).
- `streams.dfy` (module `Streams`): the stream stages the queries use. These
  are `sorted` (a stable insertion sort), `min` (the left fold of
  `BinaryOperator.minBy`), `toSet`, and `toMap` with the `minBy` merge
  function. Each is proved against a specification: a sorted permutation, the
  first minimal element, exactly the elements, and the minimum value per key.
- `student_db.dfy` (module `StudentDB`): the twelve queries, the helpers
  `collectField`, `toSortedList` and `filterByValue`, and the lemmas that
  relate the queries to one another.

Ids are not assumed to be unique, because nothing in `StudentDB.java` enforces
it. The sorts therefore promise a sorted permutation. Unique ids appear only as
a hypothesis of the two lemmas that prove each sort's result is the only
sorted permutation. `Student.java` is not part of this model. Its natural
order is modelled as `Integer.compare` on the ids.

## Model

| member | source | states |
|---|---|---|
| `JavaStrings.CompareToZeroIff` | src/main/java/info/kgeorgiy/java/advanced/student/StudentDB.java:10-11 | `compareTo` on names is 0 exactly when the strings are equal |
| `JavaStrings.CompareToAntisymmetric` | src/main/java/info/kgeorgiy/java/advanced/student/StudentDB.java:10-11 | swapping the arguments of `compareTo` negates the result |
| `JavaStrings.CompareToTransitive` | src/main/java/info/kgeorgiy/java/advanced/student/StudentDB.java:10-11 | `compareTo(a,b) <= 0` and `compareTo(b,c) <= 0` give `compareTo(a,c) <= 0`, which is 0 only if all three are equal |
| `JavaStrings.NotAfterTotalOrder` | src/main/java/info/kgeorgiy/java/advanced/student/StudentDB.java:85 | the natural order of strings is reflexive, total, antisymmetric and transitive |
| `JavaStrings.CompareToNegativeIff` | src/main/java/info/kgeorgiy/java/advanced/student/StudentDB.java:10-11 | `compareTo(a,b) < 0` exactly when `a` is a proper prefix of `b` or is smaller at the first differing character |
| `JavaStrings.MinBy` | src/main/java/info/kgeorgiy/java/advanced/student/StudentDB.java:85 | `minBy(naturalOrder())` returns one of its two arguments, and that argument comes after neither of them |
| `Students.CompareAntisymmetric` | src/main/java/info/kgeorgiy/java/advanced/student/StudentDB.java:10-12 | for the natural order and for `STUDENT_COMPARATOR`, swapping the students negates the comparison |
| `Students.CompareTransitive` | src/main/java/info/kgeorgiy/java/advanced/student/StudentDB.java:10-12 | both comparators are transitive |
| `Students.TotalPreorder` | src/main/java/info/kgeorgiy/java/advanced/student/StudentDB.java:10-12 | both comparators are reflexive, total and transitive |
| `Students.NaturalOrderById` | src/main/java/info/kgeorgiy/java/advanced/student/StudentDB.java:44 | the natural order compares ids: `a` precedes or ties `b` iff `a.id <= b.id`, and two students tie iff their ids are equal |
| `Students.NameCompareZeroIff` | src/main/java/info/kgeorgiy/java/advanced/student/StudentDB.java:10-12 | `STUDENT_COMPARATOR` ties exactly when last name, first name and id are all equal; the group plays no part |
| `Students.NameOrderIsLexicographic` | src/main/java/info/kgeorgiy/java/advanced/student/StudentDB.java:10-12 | `STUDENT_COMPARATOR` is the lexicographic order on (last name, first name, id), with names ordered by `Precedes` |
| `Streams.Insert` | src/main/java/info/kgeorgiy/java/advanced/student/StudentDB.java:59 | one insertion step of the sort adds exactly one element to the list |
| `Streams.InsertSorted` | src/main/java/info/kgeorgiy/java/advanced/student/StudentDB.java:59 | inserting into a sorted list keeps it sorted |
| `Streams.SortBy` | src/main/java/info/kgeorgiy/java/advanced/student/StudentDB.java:52 | `sorted(comparator)` returns a permutation of its input, ordered non-decreasingly by the comparator |
| `Streams.SortSortedIsIdentity` | src/main/java/info/kgeorgiy/java/advanced/student/StudentDB.java:59 | the stable sort leaves an already sorted list unchanged |
| `Streams.SortIdempotent` | src/main/java/info/kgeorgiy/java/advanced/student/StudentDB.java:95 | sorting twice gives the same list as sorting once |
| `Streams.SortedPermutationUnique` | src/main/java/info/kgeorgiy/java/advanced/student/StudentDB.java:95 | when no two distinct elements tie, two sorted permutations of one list are equal |
| `Streams.MinIndex` | src/main/java/info/kgeorgiy/java/advanced/student/StudentDB.java:44 | the left fold of `minBy` stops at the first element that no element precedes strictly |
| `Streams.FirstMinimalUnique` | src/main/java/info/kgeorgiy/java/advanced/student/StudentDB.java:44 | only one position can hold the first minimal element |
| `Streams.Min` | src/main/java/info/kgeorgiy/java/advanced/student/StudentDB.java:43-44 | `min(comparator)` is empty exactly on an empty stream; otherwise it is the first minimal element |
| `Streams.SortHeadIsMin` | src/main/java/info/kgeorgiy/java/advanced/student/StudentDB.java:42-54 | the head of the stable sort is the element that `min` returns |
| `Streams.ToSet` | src/main/java/info/kgeorgiy/java/advanced/student/StudentDB.java:38 | `toSet()` holds exactly the elements of the stream, and no more of them than the stream has |
| `Streams.MergeKeepsMin` | src/main/java/info/kgeorgiy/java/advanced/student/StudentDB.java:82-86 | merging one more element with `minBy` turns the map of the earlier elements into the map of all elements |
| `Streams.ToMapKeepingMin` | src/main/java/info/kgeorgiy/java/advanced/student/StudentDB.java:82-86 | the keys of `toMap` are exactly the keys of the elements; each key maps to the value of one of its elements, and that value comes after none of the key's values |
| `Streams.MinMapUnique` | src/main/java/info/kgeorgiy/java/advanced/student/StudentDB.java:82-86 | the map the `minBy` merge rule builds is fixed by the set of elements alone |
| `Streams.ToMapOrderIndependent` | src/main/java/info/kgeorgiy/java/advanced/student/StudentDB.java:82-86 | reordering the stream does not change the collected map |
| `StudentDB.CollectField` | src/main/java/info/kgeorgiy/java/advanced/student/StudentDB.java:89-91 | the result has the input's length, and element i is the mapper applied to student i |
| `StudentDB.GetFirstNames` | src/main/java/info/kgeorgiy/java/advanced/student/StudentDB.java:15-17 | same length as the input; element i is the first name of student i |
| `StudentDB.GetLastNames` | src/main/java/info/kgeorgiy/java/advanced/student/StudentDB.java:20-22 | same length as the input; element i is the last name of student i |
| `StudentDB.GetGroups` | src/main/java/info/kgeorgiy/java/advanced/student/StudentDB.java:25-27 | same length as the input; element i is the group of student i |
| `StudentDB.GetFullNames` | src/main/java/info/kgeorgiy/java/advanced/student/StudentDB.java:30-32 | same length as the input; element i is the first name, one space, then the last name of student i |
| `StudentDB.GetDistinctFirstNames` | src/main/java/info/kgeorgiy/java/advanced/student/StudentDB.java:35-39 | a name is in the set iff some student has it as first name; the set is no larger than the input |
| `StudentDB.GetMinStudentFirstName` | src/main/java/info/kgeorgiy/java/advanced/student/StudentDB.java:42-47 | `""` for an empty list; otherwise the first name of the first student whose id is minimal, not the alphabetically smallest name |
| `StudentDB.SortStudentsById` | src/main/java/info/kgeorgiy/java/advanced/student/StudentDB.java:50-54 | a permutation of the input with ids non-decreasing |
| `StudentDB.ToSortedList` | src/main/java/info/kgeorgiy/java/advanced/student/StudentDB.java:93-97 | a permutation of the input, sorted by `STUDENT_COMPARATOR` |
| `StudentDB.SortStudentsByName` | src/main/java/info/kgeorgiy/java/advanced/student/StudentDB.java:57-61 | a permutation of the input, sorted by `STUDENT_COMPARATOR` |
| `StudentDB.FilterByValue` | src/main/java/info/kgeorgiy/java/advanced/student/StudentDB.java:99-103 | each student occurs in the result as often as in the input if its field equals the value, and not at all otherwise |
| `StudentDB.FilterMembers` | src/main/java/info/kgeorgiy/java/advanced/student/StudentDB.java:99-103 | a student is in the filtered list iff it is in the input and its field equals the value |
| `StudentDB.FindStudentsByFirstName` | src/main/java/info/kgeorgiy/java/advanced/student/StudentDB.java:64-66 | exactly the input's students with that first name, with their multiplicities, sorted by `STUDENT_COMPARATOR` |
| `StudentDB.FindStudentsByLastName` | src/main/java/info/kgeorgiy/java/advanced/student/StudentDB.java:69-71 | exactly the input's students with that last name, with their multiplicities, sorted by `STUDENT_COMPARATOR` |
| `StudentDB.FindStudentsByGroup` | src/main/java/info/kgeorgiy/java/advanced/student/StudentDB.java:74-76 | exactly the input's students of that group, with their multiplicities, sorted by `STUDENT_COMPARATOR` |
| `StudentDB.FindStudentNamesByGroup` | src/main/java/info/kgeorgiy/java/advanced/student/StudentDB.java:79-87 | the keys are exactly the last names of the group's students; each maps to the first name of one of them with that last name, and that name is not after any of their first names |
| `StudentDB.FilterInsert` | src/main/java/info/kgeorgiy/java/advanced/student/StudentDB.java:93-103 | filtering after one insertion step equals inserting into the filtered list, or just filtering when the inserted student does not match |
| `StudentDB.FilterSortCommute` | src/main/java/info/kgeorgiy/java/advanced/student/StudentDB.java:93-103 | filtering a sorted list equals sorting the filtered list |
| `StudentDB.FindIsFilteredSortByName` | src/main/java/info/kgeorgiy/java/advanced/student/StudentDB.java:57-76 | each `find` query equals `sortStudentsByName` of the input with the non-matching students removed |
| `StudentDB.SortsAreIdempotent` | src/main/java/info/kgeorgiy/java/advanced/student/StudentDB.java:50-61 | sorting the result of either sort again returns it unchanged |
| `StudentDB.SortByIdDeterminedByUniqueIds` | src/main/java/info/kgeorgiy/java/advanced/student/StudentDB.java:50-54 | with unique ids, `sortStudentsById` returns the only permutation of the input with ids non-decreasing |
| `StudentDB.SortByNameDeterminedByUniqueIds` | src/main/java/info/kgeorgiy/java/advanced/student/StudentDB.java:57-61 | with unique ids, `sortStudentsByName` returns the only permutation of the input sorted by `STUDENT_COMPARATOR` |
| `StudentDB.MinFirstNameIsHeadOfSortById` | src/main/java/info/kgeorgiy/java/advanced/student/StudentDB.java:42-54 | on a non-empty list, the minimum query returns the first name of the head of `sortStudentsById` |
| `StudentDB.NamesByGroupOrderIndependent` | src/main/java/info/kgeorgiy/java/advanced/student/StudentDB.java:79-87 | the name map depends only on the multiset of students, not on their order (the merge keeps the minimum, not the last write) |
| `StudentDB.TwoStudentsExample` | src/main/java/info/kgeorgiy/java/advanced/student/StudentDB.java:42-61 | for Ann Lee (id 3) and Bob Kim (id 1), both sorts give Bob then Ann, and the minimum query gives "Bob" although "Ann" sorts first |
| `StudentDB.NameCollisionKeepsSmaller` | src/main/java/info/kgeorgiy/java/advanced/student/StudentDB.java:79-87 | two students of one group with the same last name: the map holds that last name with the smaller first name, whatever their order in the input |

## Left out

- Null handling: the `NullPointerException` paths of `group.equals` (line 81), of `filter.apply(...).equals` (line 101) and of `toMap` on a null value. All fields and arguments are present values.
- `Student.java` is not part of this model. Its `compareTo` is taken to be `Integer.compare` on the ids, and its fields are read-only values.
- UTF-16: Java strings are sequences of UTF-16 code units. Here a string is a Dafny `seq<char>`, and `compareTo` subtracts the characters' code points.
- The 32-bit width of `int` ids: ids are unbounded integers. `Integer.compare` does not overflow, so no result depends on the width.
- Stream and collection mechanics: laziness, the concrete `List`, `Set` and `Map` classes, and hash iteration order. Results are sequences, sets and maps.
- `Collection` arguments: the sort and `find` queries accept any `Collection`. Here the input is the sequence in the collection's iteration order.
- Stability of `sorted`: the model sorts stably, as Java does on the ordered streams these queries build. The contracts of the sort queries promise only a sorted permutation. Idempotence, agreement of `min` with the head of the sort, and commuting the filter with the sort rest on that stability.
