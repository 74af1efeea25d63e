/** The check both forms make before saving: `values.any { it.isBlank() }`. */
module FormGuard {

  /** Kotlin's `Char.isWhitespace()` on the JVM: Java's `isWhitespace` or
      `isSpaceChar` (the Unicode space, line and paragraph separators). */
  predicate IsWhitespace(c: char)
  {
    || '\t' <= c <= '\r'
    || '\U{1C}' <= c <= '\U{1F}'
    || c == ' '
    || c == '\U{A0}'
    || c == '\U{1680}'
    || '\U{2000}' <= c <= '\U{200A}'
    || c == '\U{2028}'
    || c == '\U{2029}'
    || c == '\U{202F}'
    || c == '\U{205F}'
    || c == '\U{3000}'
  }

  /** `isBlank()`: empty, or whitespace only. */
  predicate IsBlank(s: string)
  {
    forall i :: 0 <= i < |s| ==> IsWhitespace(s[i])
  }

  predicate AnyBlank(values: seq<string>)
  {
    exists i :: 0 <= i < |values| && IsBlank(values[i])
  }

  /** The six form fields, in the order the forms list them. */
  function FormValues(firstName: string, lastName: string, birthDate: string,
                      phone: string, email: string, address: string): seq<string>
  {
    [firstName, lastName, birthDate, phone, email, address]
  }

  /** A form that passes the guard has, in every field, a character that is
      not whitespace; in particular no field is empty. */
  lemma AcceptedFieldsHaveContent(values: seq<string>, i: int)
    requires !AnyBlank(values) && 0 <= i < |values|
    ensures |values[i]| > 0
    ensures exists k :: 0 <= k < |values[i]| && !IsWhitespace(values[i][k])
  {
  }
}
