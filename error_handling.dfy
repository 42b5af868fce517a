/** Error codes and messages shared by the API routes and the pages, and tests on thrown values. */
module ErrorHandling {

  /** The Postgres code of a unique-constraint violation. */
  const UniqueViolation: string := "23505"

  const DuplicateUrl: string := "A company with this " + "URL already exists."
  const DuplicateName: string := "A company with this " + "name already exists."
  const TooManyRequests: string := "Too many requests. " + "Please try again later."

  /**
   * A thrown value: an `Error` with its message and whether it carries a
   * `cause` property, or any other value, given with the text `String(value)`
   * gives for it.
   */
  datatype Thrown = ErrorValue(message: string, hasCause: bool) | OtherValue(asString: string)

  /** The message of an `Error`, or the string form of anything else. */
  function GetErrorMessage(error: Thrown): (m: string)
    ensures error.ErrorValue? ==> m == error.message
    ensures error.OtherValue? ==> m == error.asString
  {
    match error
    case ErrorValue(message, _) => message
    case OtherValue(text) => text
  }

  predicate IsDuplicateUrlError(error: Thrown) {
    GetErrorMessage(error) == DuplicateUrl
  }

  predicate IsDuplicateNameError(error: Thrown) {
    GetErrorMessage(error) == DuplicateName
  }

  /** An `Error` with the rate-limit message and a `cause` property. */
  predicate IsRateLimitError(error: Thrown) {
    error.ErrorValue? && error.message == TooManyRequests && error.hasCause
  }

  /** The three messages are distinct. */
  lemma MessagesDiffer()
    ensures DuplicateUrl != DuplicateName
    ensures TooManyRequests != DuplicateUrl && TooManyRequests != DuplicateName
  {
    assert DuplicateUrl[20] == 'U' && DuplicateName[20] == 'n';
    assert TooManyRequests[0] == 'T' && DuplicateUrl[0] == 'A' && DuplicateName[0] == 'A';
  }

  /** No value is both a duplicate-URL and a duplicate-name error. */
  lemma DuplicatesExclusive(error: Thrown)
    ensures !(IsDuplicateUrlError(error) && IsDuplicateNameError(error))
  {
    MessagesDiffer();
  }

  /** A rate-limit error is neither duplicate error, and it is always an `Error` value. */
  lemma RateLimitIsNotDuplicate(error: Thrown)
    requires IsRateLimitError(error)
    ensures error.ErrorValue? && GetErrorMessage(error) == TooManyRequests
    ensures !IsDuplicateUrlError(error) && !IsDuplicateNameError(error)
  {
    MessagesDiffer();
  }
}
