/** How a request handler ends when it does not go on to its database or
    file work: an explicit error response, or a Python exception that
    Flask turns into "500 Internal Server Error". */
module Http {
  import opened Json

  datatype Failure =
    | Rejected(status: int, msg: string)
    | Raised(error: PyError)
  {
    /** The HTTP status the client receives. */
    function Status(): (code: int)
      ensures Raised? ==> code == 500
      ensures Rejected? ==> code == status
    {
      match this
      case Rejected(s, _) => s
      case Raised(_) => 500
    }
  }

  /** The 400 response of the editor tools, `{"msg": msg}`. */
  function BadRequest(msg: string): Failure {
    Rejected(400, msg)
  }
}
