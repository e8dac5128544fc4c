/** The HTTP-style outcome of an endpoint: a value, or the status code and
    detail text of the HTTPException the endpoint raises. */
module Http {

  datatype Result<+T> = Ok(value: T) | Err(status: int, detail: string) {

    predicate IsFailure() {
      Err?
    }

    function PropagateFailure<U>(): Result<U>
      requires Err?
    {
      Err(status, detail)
    }

    function Extract(): T
      requires Ok?
    {
      value
    }
  }

  const BadRequest := 400
  const Unauthorized := 401
  const ServerError := 500

  const DbNotConfigured := "Database not configured"
  const EmailAlreadyRegistered := "Email already registered"
  const InvalidCredentials := "Invalid credentials"
  const UnauthorizedDetail := "Unauthorized"
  /** The text of the framework's response to an exception the endpoint does
      not catch. */
  const InternalServerError := "Internal Server Error"
  const AppointmentBooked := "Appointment booked successfully"
}
