/**
  The student record the queries read, and the two orders they sort and
  compare by: the natural order of `Student` (by id) and
  `STUDENT_COMPARATOR` (last name, then first name, then id).
 */
module Students {
  import opened JavaStrings

  /** A read-only student record: id, first name, last name and group label. */
  datatype Student = Student(id: int, firstName: string, lastName: string, group: string)

  /** The accessors the queries pass around as `Student::getXxx`. */
  function GetFirstName(s: Student): string { s.firstName }
  function GetLastName(s: Student): string { s.lastName }
  function GetGroup(s: Student): string { s.group }

  /** `Integer.compare(x, y)`. */
  function IntegerCompare(x: int, y: int): int {
    if x < y then -1 else if x == y then 0 else 1
  }

  /** `Student.compareTo`: the natural order, by id. */
  function NaturalCompare(a: Student, b: Student): int {
    IntegerCompare(a.id, b.id)
  }

  /**
    `STUDENT_COMPARATOR`: `comparing(getLastName)`, `thenComparing(getFirstName)`,
    `thenComparing(getId)`; each stage is consulted only when the earlier ones tie.
   */
  function NameCompare(a: Student, b: Student): int {
    var byLastName := CompareTo(a.lastName, b.lastName);
    if byLastName != 0 then byLastName
    else
      var byFirstName := CompareTo(a.firstName, b.firstName);
      if byFirstName != 0 then byFirstName
      else IntegerCompare(a.id, b.id)
  }

  /** The two comparators the queries use. */
  datatype Order = Natural | ByName

  function Compare(o: Order, a: Student, b: Student): int {
    match o
    case Natural => NaturalCompare(a, b)
    case ByName => NameCompare(a, b)
  }

  /** `a` may stand before `b` in a list sorted by `o`. */
  predicate Le(o: Order, a: Student, b: Student) {
    Compare(o, a, b) <= 0
  }

  /** Both comparators are antisymmetric in the sense of `Comparator`: swapping negates. */
  lemma CompareAntisymmetric(o: Order, a: Student, b: Student)
    ensures Compare(o, b, a) == -Compare(o, a, b)
  {
    CompareToAntisymmetric(a.lastName, b.lastName);
    CompareToAntisymmetric(a.firstName, b.firstName);
  }

  /** Both comparators are transitive. */
  lemma CompareTransitive(o: Order, a: Student, b: Student, c: Student)
    requires Le(o, a, b) && Le(o, b, c)
    ensures Le(o, a, c)
  {
    if o == ByName {
      NameCompareTransitive(a, b, c);
    }
  }

  lemma NameCompareTransitive(a: Student, b: Student, c: Student)
    requires NameCompare(a, b) <= 0 && NameCompare(b, c) <= 0
    ensures NameCompare(a, c) <= 0
  {
    CompareToZeroIff(a.lastName, b.lastName);
    CompareToZeroIff(b.lastName, c.lastName);
    CompareToZeroIff(a.lastName, c.lastName);
    CompareToTransitive(a.lastName, b.lastName, c.lastName);
    if a.lastName == b.lastName == c.lastName {
      CompareToZeroIff(a.firstName, b.firstName);
      CompareToZeroIff(b.firstName, c.firstName);
      CompareToZeroIff(a.firstName, c.firstName);
      CompareToTransitive(a.firstName, b.firstName, c.firstName);
    }
  }

  /** Each order is a total preorder: reflexive, total and transitive. */
  lemma TotalPreorder(o: Order, a: Student, b: Student, c: Student)
    ensures Le(o, a, a)
    ensures Le(o, a, b) || Le(o, b, a)
    ensures Le(o, a, b) && Le(o, b, c) ==> Le(o, a, c)
  {
    CompareAntisymmetric(o, a, a);
    CompareAntisymmetric(o, a, b);
    if Le(o, a, b) && Le(o, b, c) {
      CompareTransitive(o, a, b, c);
    }
  }

  /** The natural order ties exactly the students with equal ids. */
  lemma NaturalOrderById(a: Student, b: Student)
    ensures Le(Natural, a, b) <==> a.id <= b.id
    ensures Compare(Natural, a, b) == 0 <==> a.id == b.id
  {
  }

  /**
    `STUDENT_COMPARATOR` ties exactly the students whose key
    (last name, first name, id) is the same; the group plays no part.
   */
  lemma NameCompareZeroIff(a: Student, b: Student)
    ensures NameCompare(a, b) == 0 <==>
              a.lastName == b.lastName && a.firstName == b.firstName && a.id == b.id
  {
    CompareToZeroIff(a.lastName, b.lastName);
    CompareToZeroIff(a.firstName, b.firstName);
  }

  /**
    `STUDENT_COMPARATOR` is the lexicographic order on the key
    (last name, first name, id), with names ordered by `Precedes`.
   */
  lemma NameOrderIsLexicographic(a: Student, b: Student)
    ensures Le(ByName, a, b) <==>
              || Precedes(a.lastName, b.lastName)
              || (a.lastName == b.lastName && Precedes(a.firstName, b.firstName))
              || (a.lastName == b.lastName && a.firstName == b.firstName && a.id <= b.id)
  {
    CompareToZeroIff(a.lastName, b.lastName);
    CompareToZeroIff(a.firstName, b.firstName);
    CompareToNegativeIff(a.lastName, b.lastName);
    CompareToNegativeIff(a.firstName, b.firstName);
    CompareToNegativeIff(a.lastName, a.lastName);
    CompareToNegativeIff(a.firstName, a.firstName);
  }
}
