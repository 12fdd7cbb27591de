/** Small shared datatypes: optional values, and the outcome of an operation
    that can fail the way the web backends fail (404, a validation error, or
    an uncaught exception). */
module Common {

  datatype Option<+T> = None | Some(value: T) {
    /** The wrapped value, or `default` when there is none. */
    function GetOr(default: T): T {
      match this
      case Some(v) => v
      case None => default
    }
  }

  /** The failures the backends report to a caller. */
  datatype Error =
    | NotFound                          // 404: missing, or not owned by the caller
    | ValidationError(field: string)    // 400: the named input field was rejected
    | ServerError                       // 500: an exception the view does not catch

  datatype Result<+T> = Ok(value: T) | Err(error: Error) {
    /** The value of a success; nothing for a failure. */
    function ToOption(): (r: Option<T>)
      ensures r.Some? <==> this.Ok?
      ensures r.Some? ==> r.value == this.value
    {
      match this
      case Ok(v) => Some(v)
      case Err(_) => None
    }
  }
}
