/** Optional values, failure-or-value results and constants shared by both pipelines. */
module Results {

  /** The resolution attribute that holds an event's email addresses. */
  const PersonalEmailsKey := "PERSONAL_EMAILS"

  /** A cell that may be null (Python `None`, a pandas `NaN`). */
  datatype Option<T> = None | Some(value: T)

  /** What an endpoint returns: its rows, or the exception that stops it. */
  datatype Result<T, E> = Success(value: T) | Failure(error: E)

  /** Exceptions raised by the pipelines on otherwise well-formed input. */
  datatype Error =
      /** `pd.DataFrame([])` has no columns, so `dropna(subset=[...])` raises `KeyError`. */
      MissingColumns
}
