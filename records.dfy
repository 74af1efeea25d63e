/** The record kept by the application: the Kotlin data class `Person`.
    Equality of two `Person` values is structural over all seven fields,
    exactly as for a Kotlin data class. */
module Records {

  datatype Person = Person(
    id: int,
    firstName: string,
    lastName: string,
    birthDate: string,
    phone: string,
    email: string,
    address: string)

  /** The two records agree on the six text columns (the id may differ). */
  predicate SameFields(a: Person, b: Person)
  {
    && a.firstName == b.firstName
    && a.lastName == b.lastName
    && a.birthDate == b.birthDate
    && a.phone == b.phone
    && a.email == b.email
    && a.address == b.address
  }

  /** The row `row` after an SQL UPDATE that sets the six text columns
      from `src`: the id column is not part of the SET list. */
  function WithFields(row: Person, src: Person): (r: Person)
    ensures r.id == row.id
    ensures SameFields(r, src)
    ensures row.id == src.id ==> r == src
  {
    row.(firstName := src.firstName, lastName := src.lastName, birthDate := src.birthDate,
         phone := src.phone, email := src.email, address := src.address)
  }
}
