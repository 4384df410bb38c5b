/** The animal record served by the remote store, and the comparator the list sorts with. */
module Animals {
  import opened Wrappers
  import opened Decimal

  /**
   * One record. `kind` is the record's `type` field (a reserved word here); the age is a
   * non-negative whole number, and the checkup date is kept as the text the store sends.
   */
  datatype Animal = Animal(id: string, name: string, age: nat, kind: string, nextCheckup: string)

  /** `animal.age.toString()` */
  function AgeText(a: Animal): string {
    NatToString(a.age)
  }

  /**
   * The sort comparator `(a, b) => parseInt(a.age) - parseInt(b.age)`. A NaN difference is
   * read by `Array.prototype.sort` as 0; with whole-number ages that branch is never taken.
   */
  function CompareByAge(a: Animal, b: Animal): int {
    match (ParseInt(AgeText(a)), ParseInt(AgeText(b)))
    case (Some(x), Some(y)) => x as int - y as int
    case _ => 0
  }

  /** The comparator is the plain age difference, so it orders records by ascending age. */
  lemma CompareByAgeIsAgeDifference(a: Animal, b: Animal)
    ensures CompareByAge(a, b) == a.age - b.age
  {
    ParseIntOfNatToString(a.age);
    ParseIntOfNatToString(b.age);
  }
}
