/** Shared vocabulary of the counselling back end: nullable values, the business
    error kinds, users and their two roles. */
module Common {

  /** A Java reference that may be null. */
  datatype Option<T> = None | Some(value: T)

  /** A service call either returns a value or throws an exception whose error kind
      is reported to the caller. */
  datatype Result<T> = Ok(value: T) | Err(error: ErrorCode)

  /** The error kinds of the application, in declaration order. Anything that is not
      a business exception (for instance IllegalArgumentException from Enum.valueOf)
      is reported as InternalServerError. */
  datatype ErrorCode =
    | EmailAlreadyExists
    | InvalidCredentials
    | Unauthorized
    | Forbidden
    | RoomNotFound
    | InvalidInviteCode
    | AlreadyJoined
    | ClientNotFound
    | DbtCardNotFound
    | ValidationError
    | InternalServerError
    | UserNotFound

  /** Opaque string identifiers (UUIDs in the running system). */
  type Id = string

  /** A LocalDateTime, abstracted to a clock reading supplied by the caller. */
  type Time = int

  /** A Java String that may be null. */
  type NStr = Option<string>

  /** `s != null && !s.isEmpty()` */
  predicate Present(s: NStr) {
    s.Some? && |s.value| > 0
  }

  /** The closed enumeration User.UserType. */
  datatype Role = Counselor | Client

  /** Enum.name() of the role. */
  function RoleName(r: Role): string {
    match r
    case Counselor => "counselor"
    case Client => "client"
  }

  datatype User = User(userId: Id, name: string, email: string, role: Role)
}
