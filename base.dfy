/** Shared vocabulary of the gym backend model: optional values, the error
    kinds the services distinguish, and integer time instants. */
module Base {

  datatype Option<+T> = None | Some(value: T)

  /** The errors the code tells apart:
      - RecordNotFound: gorm.ErrRecordNotFound, raised by a `First` that matches no row;
      - Driver: any other failure reported by the database driver or a foreign library;
      - Message: an `errors.New(text)` built by the services themselves. */
  datatype Error = RecordNotFound | Driver(detail: string) | Message(text: string)

  datatype Result<+T> = Ok(value: T) | Err(error: Error)

  /** The driver's answer to a write that breaks a primary key or unique index. */
  const UniqueViolation: Error := Driver("duplicate key value violates unique constraint")

  /** A point in time, in seconds. Every request reads the clock once. */
  type Instant = int

  /** The outcome of a repository call that returns only an error. */
  function Outcome(fault: Option<string>): (e: Option<Error>)
    ensures e.None? <==> fault.None?
  {
    if fault.Some? then Some(Driver(fault.value)) else None
  }
}
