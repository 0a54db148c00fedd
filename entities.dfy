/** The entities of the work-logging store: users, the access keys they own and
    the work logs they submit, plus the failure kinds the user service raises.
    Entities are values; the service replaces them in its store when it changes one. */
module Entities {

  datatype Option<+T> = None | Some(value: T)

  /** The outcome of a service call: the value it returns, or the exception it throws. */
  datatype Result<+T> = Ok(value: T) | Err(error: ServiceError)

  /** An instant, in minutes since the calendar's epoch (DateTime is never negative). */
  type Instant = nat

  const MinutesPerDay: nat := 1440

  /** `DateTime.Date`: the midnight that starts the day `t` falls in. */
  function DateOf(t: Instant): (d: Instant)
    ensures d <= t < d + MinutesPerDay
    ensures d % MinutesPerDay == 0
  {
    t - t % MinutesPerDay
  }

  /** An instant that is already a date (time of day zero). */
  predicate IsDate(t: Instant) {
    t % MinutesPerDay == 0
  }

  /** The source's enum `AccessKeyState { Active, Inative }`. */
  datatype AccessKeyState = Active | Inactive

  /** An access key row: the 32-character `Key` (a `char(32)` column), its owner,
      its expiration instant and its lifecycle state. */
  datatype AccessKey = AccessKey(
    id: int,
    key: string,
    ownerId: int,
    expiration: Instant,
    state: AccessKeyState)

  /** A work log row. `startTime` and `endTime` are times of day (TimeSpan), in minutes;
      `description` and `details` are nullable strings. */
  datatype WorkLog = WorkLog(
    id: int,
    userId: int,
    entryDate: Instant,
    startTime: int,
    endTime: int,
    description: Option<string>,
    details: Option<string>)

  /** The columns of a user that a caller supplies when registering. */
  datatype UserProfile = UserProfile(
    firstName: string,
    lastName: string,
    email: string,
    teamId: int,
    isActive: bool)

  /** A user row together with the two collections the user owns. */
  datatype MirzaUser = MirzaUser(
    id: int,
    firstName: string,
    lastName: string,
    email: string,
    teamId: int,
    isActive: bool,
    accessKeys: seq<AccessKey>,
    workLogs: seq<WorkLog>)

  /** Why `AccessKeyException` was thrown: its three messages. */
  datatype AccessKeyFailure =
    | UserDoesNotExist(userId: int)
    | UserNotActive(userId: int)
    | InvalidAccessKey

  /** The exceptions the user service lets escape, one constructor per kind. */
  datatype ServiceError =
    | AccessKeyException(reason: AccessKeyFailure)
      /** ArgumentNullException with the parameter's name. */
    | ArgumentNull(paramName: string)
    | WorkLogModelValidation(messages: seq<string>)
    | UserModelValidation(messages: seq<string>)
      /** ArgumentException("Invalid userId") from AddWorkLog. */
    | InvalidUserId
      /** InvalidOperationException for overlapping work periods. */
    | OverlappingWorkLog
      /** InvalidOperationException from `Single` when the case-insensitive
          search for the key does not find exactly one key. */
    | NoSingleMatch
    | DuplicateEmail(email: string)
      /** NullReferenceException from DeleteUser on an id with no user. */
    | NullReference
}
