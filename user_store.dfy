/** Facts about the store of users the service reads and writes: the invariant every
    row keeps, and the queries the service runs against the store. */
module UserStore {
  import opened Entities
  import opened AccessKeyFormat
  import opened WorkLogOverlap

  /** What holds of the row stored under `id`: the row carries its own id, it owns
      every key and log in its collections, every key is in "N" format, ids handed
      out so far are below the identity counters, every log has a truncated date,
      and its logs on one date never overlap. */
  predicate UserRowInvariant(id: int, u: MirzaUser, nextKeyId: int, nextLogId: int) {
    && u.id == id
    && (forall k :: 0 <= k < |u.accessKeys| ==>
          u.accessKeys[k].ownerId == id && u.accessKeys[k].id < nextKeyId
          && |u.accessKeys[k].key| == 32 && IsLowerHex(u.accessKeys[k].key))
    && (forall k :: 0 <= k < |u.workLogs| ==>
          u.workLogs[k].userId == id && u.workLogs[k].id < nextLogId && IsDate(u.workLogs[k].entryDate))
    && DayDisjoint(u.workLogs)
  }

  predicate StoreInvariant(users: map<int, MirzaUser>, nextUserId: int, nextKeyId: int, nextLogId: int) {
    forall id :: id in users ==> id < nextUserId && UserRowInvariant(id, users[id], nextKeyId, nextLogId)
  }

  /** The key test inside GetUserWithActiveAccessKey's query. */
  predicate IsLiveKey(k: AccessKey, accessKey: string, now: Instant) {
    k.state == Active && k.expiration >= now && accessKey == k.key
  }

  /** The whole query predicate: an active user holding a live key equal to `accessKey`. */
  predicate HoldsLiveKey(u: MirzaUser, accessKey: string, now: Instant) {
    u.isActive && exists k :: 0 <= k < |u.accessKeys| && IsLiveKey(u.accessKeys[k], accessKey, now)
  }

  /** The users the query matches; `SingleOrDefault` returns one only when there is one. */
  function LiveKeyHolders(users: map<int, MirzaUser>, accessKey: string, now: Instant): set<int> {
    set id | id in users && HoldsLiveKey(users[id], accessKey, now)
  }

  /** The exact, case-sensitive membership test on a user's keys. */
  predicate HasExactKey(keys: seq<AccessKey>, accessKey: string) {
    exists k :: 0 <= k < |keys| && keys[k].key == accessKey
  }

  /** The positions the case-insensitive `Single` search matches. */
  function IgnoreCaseMatches(keys: seq<AccessKey>, accessKey: string): set<nat> {
    set j | 0 <= j < |keys| && EqualsIgnoreCase(accessKey, keys[j].key)
  }

  /** The element of a one-element set. */
  ghost function Sole<T>(s: set<T>): (x: T)
    requires |s| == 1
    ensures s == {x}
  {
    var x :| x in s;
    assert |s - {x}| == 0;
    x
  }

  /** The one position of a search that matched one key. */
  ghost function SoleMatch(keys: seq<AccessKey>, accessKey: string): (j: nat)
    requires |IgnoreCaseMatches(keys, accessKey)| == 1
    ensures IgnoreCaseMatches(keys, accessKey) == {j}
    ensures j < |keys|
  {
    Sole(IgnoreCaseMatches(keys, accessKey))
  }

  /** When the exact test passes, the case-insensitive search matches at least that
      key, and when it matches one key only, that key is the exact match. */
  lemma ExactKeyIsFound(keys: seq<AccessKey>, accessKey: string)
    requires HasExactKey(keys, accessKey)
    ensures |IgnoreCaseMatches(keys, accessKey)| >= 1
    ensures |IgnoreCaseMatches(keys, accessKey)| == 1 ==> keys[SoleMatch(keys, accessKey)].key == accessKey
  {
    var k :| 0 <= k < |keys| && keys[k].key == accessKey;
    ExactMatchIgnoresCase(accessKey, keys[k].key);
    assert k in IgnoreCaseMatches(keys, accessKey);
  }

  /** Keys in "N" format with pairwise distinct texts: an argument in that format that
      passes the exact test is matched by the case-insensitive search exactly once,
      so `Single` cannot throw. */
  lemma FormattedKeysMatchOnce(keys: seq<AccessKey>, accessKey: string, k: nat)
    requires forall j :: 0 <= j < |keys| ==> IsLowerHex(keys[j].key)
    requires forall i, j :: 0 <= i < j < |keys| ==> keys[i].key != keys[j].key
    requires IsLowerHex(accessKey)
    requires k < |keys| && keys[k].key == accessKey
    ensures IgnoreCaseMatches(keys, accessKey) == {k}
  {
    forall j | j in IgnoreCaseMatches(keys, accessKey) ensures j == k {
      LowerHexIgnoreCaseIsExact(accessKey, keys[j].key);
    }
    ExactMatchIgnoresCase(accessKey, keys[k].key);
  }

  /** Changing a key's state keeps both searches' answers. */
  lemma KeyStateKeepsMatches(keys: seq<AccessKey>, j: nat, state: AccessKeyState, accessKey: string)
    requires j < |keys|
    ensures HasExactKey(keys[j := keys[j].(state := state)], accessKey) == HasExactKey(keys, accessKey)
    ensures IgnoreCaseMatches(keys[j := keys[j].(state := state)], accessKey) == IgnoreCaseMatches(keys, accessKey)
  {
    var after := keys[j := keys[j].(state := state)];
    assert forall i :: 0 <= i < |keys| ==> after[i].key == keys[i].key;
  }

  /** The search at line 84 can disagree with the exact test at line 79: with keys
      "a" and "A" held, the argument "a" passes the exact test but the
      case-insensitive search matches both keys, so `Single` throws. */
  lemma AmbiguousIgnoreCaseMatch(k1: AccessKey, k2: AccessKey)
    requires k1.key == "a" && k2.key == "A"
    ensures HasExactKey([k1, k2], "a")
    ensures IgnoreCaseMatches([k1, k2], "a") == {0, 1}
    ensures |IgnoreCaseMatches([k1, k2], "a")| == 2
  {
    assert [k1, k2][0].key == "a";
    assert EqualsIgnoreCase("a", [k1, k2][1].key);
    assert IgnoreCaseMatches([k1, k2], "a") == {0, 1};
  }

  /** An active user already uses the email. */
  predicate EmailTaken(users: map<int, MirzaUser>, email: string) {
    exists id :: id in users && users[id].isActive && users[id].email == email
  }

  /** One key's lifecycle step: unchanged, or Active turned Inactive. */
  predicate KeyMovedForward(before: AccessKey, after: AccessKey) {
    after == before || (before.state == Active && after == before.(state := Inactive))
  }

  /** From one store to the next no user disappears, and every key a user held is
      still held at the same position, having at most moved from Active to Inactive. */
  predicate KeysMoveForward(before: map<int, MirzaUser>, after: map<int, MirzaUser>) {
    forall id :: id in before ==>
      id in after && |before[id].accessKeys| <= |after[id].accessKeys|
      && forall k :: 0 <= k < |before[id].accessKeys| ==>
           KeyMovedForward(before[id].accessKeys[k], after[id].accessKeys[k])
  }

  /** Over any run of operations keys still only move forward; in particular an
      Inactive key is never reactivated. */
  lemma KeysMoveForwardTransitive(a: map<int, MirzaUser>, b: map<int, MirzaUser>, c: map<int, MirzaUser>)
    requires KeysMoveForward(a, b) && KeysMoveForward(b, c)
    ensures KeysMoveForward(a, c)
    ensures forall id, k :: id in a && 0 <= k < |a[id].accessKeys| && a[id].accessKeys[k].state == Inactive
              ==> c[id].accessKeys[k] == a[id].accessKeys[k]
  {
    forall id | id in a
      ensures forall k :: 0 <= k < |a[id].accessKeys| ==>
                KeyMovedForward(a[id].accessKeys[k], c[id].accessKeys[k])
    {
      forall k | 0 <= k < |a[id].accessKeys|
        ensures KeyMovedForward(a[id].accessKeys[k], c[id].accessKeys[k])
      {
        assert KeyMovedForward(a[id].accessKeys[k], b[id].accessKeys[k]);
        assert KeyMovedForward(b[id].accessKeys[k], c[id].accessKeys[k]);
      }
    }
  }
}
