/** The user service: access-key issue and deactivation, the active-key lookup,
    work-log admission, registration and soft delete, each a read-check-write on
    the store it holds. */
module UserServiceModel {
  import opened Entities
  import opened AccessKeyFormat
  import opened WorkLogOverlap
  import opened UserStore

  /** What the model assumes of `AccessKey.IsActive`, whose body is not part of this
      model: a key whose State is Inactive is never active (it may also be inactive
      by expiration). */
  ghost predicate ActiveOnlyInActiveState(isActive: (AccessKey, Instant) -> bool) {
    forall k, now :: isActive(k, now) ==> k.state == Active
  }

  /** `null ?? "-"`. */
  function OrDash(s: Option<string>): string {
    match s
    case Some(v) => v
    case None => "-"
  }

  class UserService {
    /** The user table, by primary key, with each user's keys and logs. */
    var users: map<int, MirzaUser>
    /** The next values of the three identity columns. */
    var nextUserId: int
    var nextKeyId: int
    var nextLogId: int

    /** UserValidator and WorkLogValidator: the messages of the failed rules. */
    const validateUser: UserProfile -> seq<string>
    const validateWorkLog: WorkLog -> seq<string>
    /** `AccessKey.IsActive` at an instant. */
    const keyIsActive: (AccessKey, Instant) -> bool

    ghost predicate Valid()
      reads this
    {
      && ActiveOnlyInActiveState(keyIsActive)
      && StoreInvariant(users, nextUserId, nextKeyId, nextLogId)
    }

    /** A service over an existing store (a fresh database has no users and identity
        columns starting at 1); the validators are the service's own. */
    constructor (users: map<int, MirzaUser>, nextUserId: int, nextKeyId: int, nextLogId: int,
                 validateUser: UserProfile -> seq<string>, validateWorkLog: WorkLog -> seq<string>,
                 keyIsActive: (AccessKey, Instant) -> bool)
      requires StoreInvariant(users, nextUserId, nextKeyId, nextLogId)
      requires ActiveOnlyInActiveState(keyIsActive)
      ensures Valid()
      ensures this.users == users && this.nextUserId == nextUserId
      ensures this.nextKeyId == nextKeyId && this.nextLogId == nextLogId
      ensures this.validateUser == validateUser && this.validateWorkLog == validateWorkLog
      ensures this.keyIsActive == keyIsActive
    {
      this.validateUser := validateUser;
      this.validateWorkLog := validateWorkLog;
      this.keyIsActive := keyIsActive;
      this.users := users;
      this.nextUserId, this.nextKeyId, this.nextLogId := nextUserId, nextKeyId, nextLogId;
    }

    /** `FindAsync(id)`: the user stored under the id, if any. */
    function GetUser(id: int): (r: Option<MirzaUser>)
      reads this
      ensures r.Some? <==> id in users
      ensures r.Some? ==> r.value == users[id]
    {
      if id in users then Some(users[id]) else None
    }

    /** Issues the key printed from `guid` to an existing, active user; the key is
        Active and expires at `expiration`. */
    method AddAccessKey(userId: int, guid: Guid, expiration: Instant) returns (r: Result<AccessKey>)
      requires Valid()
      modifies this
      ensures Valid()
      ensures userId !in old(users) ==>
                r == Err(AccessKeyException(UserDoesNotExist(userId))) && unchanged(this)
      ensures userId in old(users) && !old(users)[userId].isActive ==>
                r == Err(AccessKeyException(UserNotActive(userId))) && unchanged(this)
      ensures userId in old(users) && old(users)[userId].isActive ==>
                var u := old(users)[userId];
                && r == Ok(AccessKey(old(nextKeyId), FormatN(guid), userId, expiration, Active))
                && users == old(users)[userId := u.(accessKeys := u.accessKeys + [r.value])]
                && nextKeyId == old(nextKeyId) + 1
                && nextUserId == old(nextUserId) && nextLogId == old(nextLogId)
      ensures r.Ok? ==> forall id, k :: id in old(users) && 0 <= k < |old(users)[id].accessKeys|
                          ==> old(users)[id].accessKeys[k].id != r.value.id
      ensures KeysMoveForward(old(users), users)
    {
      if userId !in users {
        return Err(AccessKeyException(UserDoesNotExist(userId)));
      }
      var user := users[userId];
      if !user.isActive {
        return Err(AccessKeyException(UserNotActive(userId)));
      }
      var accessKey := AccessKey(nextKeyId, FormatN(guid), userId, expiration, Active);
      var updated := user.(accessKeys := user.accessKeys + [accessKey]);
      assert UserRowInvariant(userId, updated, nextKeyId + 1, nextLogId);
      users := users[userId := updated];
      nextKeyId := nextKeyId + 1;
      r := Ok(accessKey);
    }

    /** Turns the user's key `accessKey` Inactive, or returns it as it is when it is
        already not active. */
    method DeactivateAccessKey(userId: int, accessKey: string, now: Instant) returns (r: Result<AccessKey>)
      requires Valid()
      modifies this
      ensures Valid()
      ensures userId !in old(users) ==>
                r == Err(AccessKeyException(UserDoesNotExist(userId))) && unchanged(this)
      ensures userId in old(users) && !old(users)[userId].isActive ==>
                r == Err(AccessKeyException(UserNotActive(userId))) && unchanged(this)
      ensures userId in old(users) && old(users)[userId].isActive
              && !HasExactKey(old(users)[userId].accessKeys, accessKey) ==>
                r == Err(AccessKeyException(InvalidAccessKey)) && unchanged(this)
      ensures userId in old(users) && old(users)[userId].isActive
              && HasExactKey(old(users)[userId].accessKeys, accessKey)
              && |IgnoreCaseMatches(old(users)[userId].accessKeys, accessKey)| != 1 ==>
                r == Err(NoSingleMatch) && unchanged(this)
      ensures userId in old(users) && old(users)[userId].isActive
              && HasExactKey(old(users)[userId].accessKeys, accessKey)
              && |IgnoreCaseMatches(old(users)[userId].accessKeys, accessKey)| == 1 ==>
                var u := old(users)[userId];
                var j := SoleMatch(u.accessKeys, accessKey);
                && u.accessKeys[j].key == accessKey
                && if keyIsActive(u.accessKeys[j], now) then
                     && r == Ok(u.accessKeys[j].(state := Inactive))
                     && users == old(users)[userId := u.(accessKeys := u.accessKeys[j := r.value])]
                     && nextUserId == old(nextUserId) && nextKeyId == old(nextKeyId)
                     && nextLogId == old(nextLogId)
                   else
                     r == Ok(u.accessKeys[j]) && unchanged(this)
      ensures r.Ok? ==> !keyIsActive(r.value, now)
      ensures KeysMoveForward(old(users), users)
    {
      if userId !in users {
        return Err(AccessKeyException(UserDoesNotExist(userId)));
      }
      var user := users[userId];
      if !user.isActive {
        return Err(AccessKeyException(UserNotActive(userId)));
      }
      if !HasExactKey(user.accessKeys, accessKey) {
        return Err(AccessKeyException(InvalidAccessKey));
      }
      var matches := IgnoreCaseMatches(user.accessKeys, accessKey);
      if |matches| != 1 {
        return Err(NoSingleMatch);
      }
      ExactKeyIsFound(user.accessKeys, accessKey);
      var j :| j in matches;
      assert j == SoleMatch(user.accessKeys, accessKey);
      var found := user.accessKeys[j];
      if !keyIsActive(found, now) {
        return Ok(found);
      }
      var deactivated := found.(state := Inactive);
      var updated := user.(accessKeys := user.accessKeys[j := deactivated]);
      assert UserRowInvariant(userId, updated, nextKeyId, nextLogId);
      users := users[userId := updated];
      r := Ok(deactivated);
    }

    /** The active user holding an Active, unexpired key equal to `accessKey`;
        `None` when no user or more than one user matches, the failure of
        `SingleOrDefault` being swallowed. */
    method GetUserWithActiveAccessKey(accessKey: string, now: Instant) returns (r: Option<MirzaUser>)
      requires Valid()
      ensures r.Some? <==> |LiveKeyHolders(users, accessKey, now)| == 1
      ensures r.Some? ==> LiveKeyHolders(users, accessKey, now) == {r.value.id}
                          && r.value.id in users && users[r.value.id] == r.value
      ensures r.Some? ==> r.value.isActive
                          && exists k :: 0 <= k < |r.value.accessKeys|
                               && r.value.accessKeys[k].state == Active
                               && r.value.accessKeys[k].expiration >= now
                               && r.value.accessKeys[k].key == accessKey
    {
      var holders := LiveKeyHolders(users, accessKey, now);
      if |holders| != 1 {
        return None;
      }
      ghost var sole := Sole(holders);
      assert sole in holders;
      var id :| id in holders;
      r := Some(users[id]);
    }

    /** Admits a work log for an active user when it passes validation and trips
        the overlap rule against none of the user's logs on its date. */
    method AddWorkLog(userId: int, workLog: Option<WorkLog>) returns (r: Result<WorkLog>)
      requires Valid()
      modifies this
      ensures Valid()
      ensures workLog.None? ==> r == Err(ArgumentNull("workLog")) && unchanged(this)
      ensures workLog.Some? && validateWorkLog(workLog.value) != [] ==>
                r == Err(WorkLogModelValidation(validateWorkLog(workLog.value))) && unchanged(this)
      ensures workLog.Some? && validateWorkLog(workLog.value) == []
              && !(userId in old(users) && old(users)[userId].isActive) ==>
                r == Err(InvalidUserId) && unchanged(this)
      ensures workLog.Some? && validateWorkLog(workLog.value) == []
              && userId in old(users) && old(users)[userId].isActive
              && AnyConflict(old(users)[userId].workLogs, workLog.value) ==>
                r == Err(OverlappingWorkLog) && unchanged(this)
      ensures workLog.Some? && validateWorkLog(workLog.value) == []
              && userId in old(users) && old(users)[userId].isActive
              && !AnyConflict(old(users)[userId].workLogs, workLog.value) ==>
                var c := workLog.value;
                var u := old(users)[userId];
                && r == Ok(WorkLog(old(nextLogId), userId, DateOf(c.entryDate), c.startTime, c.endTime,
                                   Some(OrDash(c.description)), Some(OrDash(c.details))))
                && users == old(users)[userId := u.(workLogs := u.workLogs + [r.value])]
                && nextLogId == old(nextLogId) + 1
                && nextUserId == old(nextUserId) && nextKeyId == old(nextKeyId)
      ensures r.Ok? ==> DayDisjoint(users[userId].workLogs)
      ensures KeysMoveForward(old(users), users)
    {
      if workLog.None? {
        return Err(ArgumentNull("workLog"));
      }
      var candidate := workLog.value;
      var errors := validateWorkLog(candidate);
      if errors != [] {
        return Err(WorkLogModelValidation(errors));
      }
      if !(userId in users && users[userId].isActive) {
        return Err(InvalidUserId);
      }
      var user := users[userId];
      if AnyConflict(user.workLogs, candidate) {
        return Err(OverlappingWorkLog);
      }
      var stored := WorkLog(nextLogId, userId, DateOf(candidate.entryDate), candidate.startTime,
                            candidate.endTime, Some(OrDash(candidate.description)),
                            Some(OrDash(candidate.details)));
      AdmitKeepsDayDisjoint(user.workLogs, candidate, stored);
      var updated := user.(workLogs := user.workLogs + [stored]);
      assert UserRowInvariant(userId, updated, nextKeyId, nextLogId + 1);
      users := users[userId := updated];
      nextLogId := nextLogId + 1;
      r := Ok(stored);
    }

    /** Soft delete: the user's active flag becomes false and nothing else changes. */
    method DeleteUser(id: int) returns (r: Result<()>)
      requires Valid()
      modifies this
      ensures Valid()
      ensures id !in old(users) ==> r == Err(NullReference) && unchanged(this)
      ensures id in old(users) ==>
                && r == Ok(())
                && users == old(users)[id := old(users)[id].(isActive := false)]
                && nextUserId == old(nextUserId) && nextKeyId == old(nextKeyId)
                && nextLogId == old(nextLogId)
      ensures KeysMoveForward(old(users), users)
    {
      if id !in users {
        return Err(NullReference);
      }
      var user := users[id];
      users := users[id := user.(isActive := false)];
      r := Ok(());
    }

    /** Registers a user whose email no active user has, under the next user id. */
    method Register(user: Option<UserProfile>) returns (r: Result<MirzaUser>)
      requires Valid()
      modifies this
      ensures Valid()
      ensures user.None? ==> r == Err(ArgumentNull("user")) && unchanged(this)
      ensures user.Some? && validateUser(user.value) != [] ==>
                r == Err(UserModelValidation(validateUser(user.value))) && unchanged(this)
      ensures user.Some? && validateUser(user.value) == [] && EmailTaken(old(users), user.value.email) ==>
                r == Err(DuplicateEmail(user.value.email)) && unchanged(this)
      ensures user.Some? && validateUser(user.value) == [] && !EmailTaken(old(users), user.value.email) ==>
                var p := user.value;
                && old(nextUserId) !in old(users)
                && r == Ok(MirzaUser(old(nextUserId), p.firstName, p.lastName, p.email, p.teamId,
                                     p.isActive, [], []))
                && users == old(users)[old(nextUserId) := r.value]
                && nextUserId == old(nextUserId) + 1
                && nextKeyId == old(nextKeyId) && nextLogId == old(nextLogId)
      ensures r.Ok? ==> GetUser(r.value.id) == Some(r.value)
      ensures KeysMoveForward(old(users), users)
    {
      if user.None? {
        return Err(ArgumentNull("user"));
      }
      var p := user.value;
      var errors := validateUser(p);
      if errors != [] {
        return Err(UserModelValidation(errors));
      }
      if EmailTaken(users, p.email) {
        return Err(DuplicateEmail(p.email));
      }
      var stored := MirzaUser(nextUserId, p.firstName, p.lastName, p.email, p.teamId, p.isActive, [], []);
      assert UserRowInvariant(nextUserId, stored, nextKeyId, nextLogId);
      users := users[nextUserId := stored];
      nextUserId := nextUserId + 1;
      r := Ok(stored);
    }
  }

  /** Deactivating the same key twice: the second call raises no new error, returns
      what the first returned and writes nothing. */
  method DeactivateTwice(s: UserService, userId: int, accessKey: string, now: Instant)
    returns (first: Result<AccessKey>, second: Result<AccessKey>)
    requires s.Valid()
    modifies s
    ensures s.Valid()
    ensures second == first
    ensures first.Ok? ==> first.value.key == accessKey && !s.keyIsActive(first.value, now)
    ensures first.Err? ==> s.users == old(s.users)
    ensures first.Ok? ==> userId in old(s.users)
                          && var u := old(s.users)[userId];
                          && |IgnoreCaseMatches(u.accessKeys, accessKey)| == 1
                          && s.users == old(s.users)[userId := u.(accessKeys :=
                               u.accessKeys[SoleMatch(u.accessKeys, accessKey) := first.value])]
  {
    ghost var before := s.users;
    first := s.DeactivateAccessKey(userId, accessKey, now);
    ghost var afterFirst := s.users;
    if first.Ok? {
      var u := before[userId];
      var j := SoleMatch(u.accessKeys, accessKey);
      KeyStateKeepsMatches(u.accessKeys, j, first.value.state, accessKey);
      assert s.users[userId].accessKeys == u.accessKeys[j := first.value];
    }
    second := s.DeactivateAccessKey(userId, accessKey, now);
    assert s.users == afterFirst;
  }

  /** Issuing two keys from distinct Guids to an active user gives two distinct
      Active keys, both owned by that user. */
  method IssueTwice(s: UserService, userId: int, g1: Guid, g2: Guid, expiration: Instant)
    returns (first: Result<AccessKey>, second: Result<AccessKey>)
    requires s.Valid()
    requires g1 != g2
    modifies s
    ensures s.Valid()
    ensures first.Ok? <==> second.Ok?
    ensures first.Ok? ==> && first.value.key != second.value.key
                          && first.value.ownerId == userId && second.value.ownerId == userId
                          && first.value.state == Active && second.value.state == Active
  {
    first := s.AddAccessKey(userId, g1, expiration);
    second := s.AddAccessKey(userId, g2, expiration);
    FormatNInjective(g1, g2);
  }

  /** An email is free again once the active user holding it is soft deleted. */
  method RegisterAfterDelete(s: UserService, p: UserProfile)
    returns (first: Result<MirzaUser>, second: Result<MirzaUser>)
    requires s.Valid()
    modifies s
    ensures s.Valid()
    ensures first.Ok? ==> second.Ok? && second.value.email == first.value.email
                          && second.value.id != first.value.id
  {
    first := s.Register(Some(p));
    if first.Ok? {
      var deleted := s.DeleteUser(first.value.id);
      second := s.Register(Some(p));
    } else {
      second := first;
    }
  }
}
