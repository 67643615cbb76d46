/** The user record, the events the repository-backed service emits, and the errors the services signal. */
module Records {
  import Validation

  /** The creation time of a record. Read from the clock by the source; opaque here and supplied by the caller. */
  type Timestamp = int

  /** A stored user: the store-assigned id, the three validated fields, and the creation time. */
  datatype User = User(id: int, name: string, email: string, age: int, createdAt: Timestamp)

  /** The kinds of event sent after a successful write. */
  datatype EventKind = Created | Deleted

  /** An event as the service requests it: its kind and the email of the record concerned. */
  datatype UserEvent = UserEvent(kind: EventKind, email: string)

  /** Why a service operation fails; each is an `IllegalArgumentException` in the source. */
  datatype ServiceError =
    | InvalidField(field: Validation.FieldError)  // a field check failed
    | InvalidId                                   // id null or not positive
    | NotFound                                    // no record with the id to update
    | DuplicateEmail                              // another record already holds the email
}
