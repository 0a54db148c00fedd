/** The rule AddWorkLog uses to refuse a work log whose period overlaps one the
    user already logged on the same calendar date, and what that rule means. */
module WorkLogOverlap {
  import opened Entities

  predicate SameDate(a: WorkLog, b: WorkLog) {
    DateOf(a.entryDate) == DateOf(b.entryDate)
  }

  /** The time clause of the overlap test, exactly as written: the candidate starts
      inside the existing period, or it ends after the existing period starts while
      starting before it. */
  predicate TripsOverlapRule(candidate: WorkLog, existing: WorkLog) {
    (candidate.startTime >= existing.startTime && candidate.startTime < existing.endTime)
    || (candidate.endTime > existing.startTime && candidate.startTime < existing.startTime)
  }

  /** The whole `Any` predicate for one existing log: same date, then the time clause. */
  predicate Conflicts(candidate: WorkLog, existing: WorkLog) {
    SameDate(existing, candidate) && TripsOverlapRule(candidate, existing)
  }

  /** `user.WorkLog.Any(...)`, scanning the user's logs in order. */
  function AnyConflict(logs: seq<WorkLog>, candidate: WorkLog): (found: bool)
    ensures found <==> exists i :: 0 <= i < |logs| && Conflicts(candidate, logs[i])
  {
    if logs == [] then false
    else Conflicts(candidate, logs[0]) || AnyConflict(logs[1..], candidate)
  }

  /** A proper period: it starts before it ends. */
  predicate HasTimeRange(w: WorkLog) {
    w.startTime < w.endTime
  }

  /** The two half-open periods [start, end) share an instant. */
  predicate Intersects(a: WorkLog, b: WorkLog) {
    a.startTime < b.endTime && b.startTime < a.endTime
  }

  /** Every pair of periods that share an instant trips the rule, whatever their
      endpoints: a candidate starting at or after the existing start trips the first
      clause, one starting before it trips the second. */
  lemma IntersectionTripsRule(candidate: WorkLog, existing: WorkLog)
    ensures Intersects(candidate, existing) ==> TripsOverlapRule(candidate, existing)
  {
  }

  /** On proper periods the rule is exactly half-open intersection. The first clause
      covers a candidate that starts inside the existing period; the second covers one
      that starts before it and ends after it starts. */
  lemma RuleIsHalfOpenIntersection(candidate: WorkLog, existing: WorkLog)
    requires HasTimeRange(candidate) && HasTimeRange(existing)
    ensures TripsOverlapRule(candidate, existing) <==> Intersects(candidate, existing)
  {
  }

  /** Without a proper candidate period the two differ: a reversed candidate whose
      start lies inside an existing period is refused though it shares no instant. */
  lemma RuleOnReversedPeriod()
    ensures var existing := WorkLog(1, 1, 0, 420, 540, None, None);
            var candidate := WorkLog(0, 1, 0, 480, 120, None, None);
            TripsOverlapRule(candidate, existing) && !Intersects(candidate, existing)
  {
  }

  /** Abutting periods such as [10:00, 11:00) and [11:00, 12:00) never trip the rule,
      in either order. */
  lemma BackToBackAccepted(a: WorkLog, b: WorkLog)
    requires HasTimeRange(a) && HasTimeRange(b) && a.endTime == b.startTime
    ensures !TripsOverlapRule(a, b) && !TripsOverlapRule(b, a)
  {
  }

  /** Logs on other dates never conflict with the candidate. */
  lemma OtherDatesNeverConflict(logs: seq<WorkLog>, candidate: WorkLog)
    requires forall i :: 0 <= i < |logs| ==> !SameDate(logs[i], candidate)
    ensures !AnyConflict(logs, candidate)
  {
  }

  /** A user's logs on any one date do not share an instant. */
  predicate DayDisjoint(logs: seq<WorkLog>) {
    forall i, j :: 0 <= i < j < |logs| && SameDate(logs[i], logs[j]) ==> !Intersects(logs[i], logs[j])
  }

  /** Admitting a candidate that trips the rule against none of the user's logs keeps
      the user's same-date logs pairwise disjoint, for any periods, proper or not.
      `stored` is the normalised copy: same date and same times as the candidate. */
  lemma AdmitKeepsDayDisjoint(logs: seq<WorkLog>, candidate: WorkLog, stored: WorkLog)
    requires DayDisjoint(logs)
    requires !AnyConflict(logs, candidate)
    requires SameDate(stored, candidate)
    requires stored.startTime == candidate.startTime && stored.endTime == candidate.endTime
    ensures DayDisjoint(logs + [stored])
  {
    var all := logs + [stored];
    forall i, j | 0 <= i < j < |all| && SameDate(all[i], all[j])
      ensures !Intersects(all[i], all[j])
    {
      if j == |logs| {
        assert all[i] == logs[i] && all[j] == stored;
        assert !Conflicts(candidate, logs[i]);
        IntersectionTripsRule(candidate, logs[i]);
      } else {
        assert all[i] == logs[i] && all[j] == logs[j];
      }
    }
  }

  /** The scenario: with [10:00, 11:00) logged on a date, [10:30, 10:45) that date is
      refused, [11:00, 12:00) that date is admitted, and [10:30, 10:45) on the next
      date is admitted. */
  lemma OverlapScenario()
    ensures var day := 737790 * MinutesPerDay;
            var logged := [WorkLog(1, 5, day, 600, 660, Some("-"), Some("-"))];
            AnyConflict(logged, WorkLog(0, 5, day + 30, 630, 645, None, None))
            && !AnyConflict(logged, WorkLog(0, 5, day, 660, 720, None, None))
            && !AnyConflict(logged, WorkLog(0, 5, day + MinutesPerDay, 630, 645, None, None))
  {
    var day := 737790 * MinutesPerDay;
    var logged := [WorkLog(1, 5, day, 600, 660, Some("-"), Some("-"))];
    assert logged[1..] == [];
    assert DateOf(day + 30) == day;
    assert DateOf(day + MinutesPerDay) == day + MinutesPerDay;
  }
}
