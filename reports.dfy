/**
 * The report table: an append-only log of accepted reports, and the query
 * behind `/progress` (the distinct dates of one user's reports in the
 * trailing 30-day window).
 */
module Reports {
  import opened Users

  /** One row of the report table. `localDate` is the local calendar date as
      a day ordinal; `stamp` is the ISO timestamp, kept as opaque text. */
  datatype Report = Report(
    id: nat,
    userId: UserId,
    username: string,
    stamp: string,
    localDate: int,
    dayIndex: int,
    text: string)

  /** The ids the store hands out: 1, 2, 3, ... in insertion order (an
      autoincrement key over a table nothing is ever deleted from). */
  predicate IdsSequential(reports: seq<Report>) {
    forall k :: 0 <= k < |reports| ==> reports[k].id == k + 1
  }

  /** `SELECT DISTINCT local_date FROM reports WHERE user_id = user AND local_date >= since`. */
  function DistinctDatesSince(reports: seq<Report>, user: UserId, since: int): (dates: set<int>)
    ensures forall d :: d in dates ==> since <= d
    ensures forall d :: d in dates <==>
      exists k :: 0 <= k < |reports| && reports[k].userId == user && since <= reports[k].localDate && reports[k].localDate == d
  {
    set k | 0 <= k < |reports| && reports[k].userId == user && reports[k].localDate >= since :: reports[k].localDate
  }

  /** A report of another user does not change a user's dates. */
  lemma DatesIgnoreOtherUsers(reports: seq<Report>, r: Report, user: UserId, since: int)
    requires r.userId != user
    ensures DistinctDatesSince(reports + [r], user, since) == DistinctDatesSince(reports, user, since)
  {
    var before, after := DistinctDatesSince(reports, user, since), DistinctDatesSince(reports + [r], user, since);
    forall d | d in after ensures d in before {
      var k :| 0 <= k < |reports| + 1 && (reports + [r])[k].userId == user && (reports + [r])[k].localDate >= since
               && (reports + [r])[k].localDate == d;
      assert k < |reports| && reports[k] == (reports + [r])[k];
    }
    forall d | d in before ensures d in after {
      var k :| 0 <= k < |reports| && reports[k].userId == user && reports[k].localDate >= since && reports[k].localDate == d;
      assert (reports + [r])[k] == reports[k];
    }
  }

  /** A user's own report adds its date (once, however many reports share it)
      when the date lies in the window, and nothing otherwise. */
  lemma DatesOwnReport(reports: seq<Report>, r: Report, since: int)
    ensures DistinctDatesSince(reports + [r], r.userId, since)
         == DistinctDatesSince(reports, r.userId, since) + (if r.localDate >= since then {r.localDate} else {})
  {
    var user := r.userId;
    var before, after := DistinctDatesSince(reports, user, since), DistinctDatesSince(reports + [r], user, since);
    var added := if r.localDate >= since then {r.localDate} else {};
    forall d | d in after ensures d in before + added {
      var k :| 0 <= k < |reports| + 1 && (reports + [r])[k].userId == user && (reports + [r])[k].localDate >= since
               && (reports + [r])[k].localDate == d;
      if k < |reports| {
        assert reports[k] == (reports + [r])[k];
      }
    }
    forall d | d in before + added ensures d in after {
      if d in before {
        var k :| 0 <= k < |reports| && reports[k].userId == user && reports[k].localDate >= since && reports[k].localDate == d;
        assert (reports + [r])[k] == reports[k];
      } else {
        assert (reports + [r])[|reports|] == r;
      }
    }
  }

  /** The consecutive days lo, lo + 1, ..., lo + n - 1. */
  function Days(lo: int, n: nat): (days: set<int>)
    ensures forall d :: d in days <==> lo <= d < lo + n
    ensures |days| == n
  {
    if n == 0 then {} else Days(lo, n - 1) + {lo + n - 1}
  }

  /** A set of days inside a window has no more elements than the window. */
  lemma SubsetCount(a: set<int>, b: set<int>)
    requires a <= b
    ensures |a| <= |b|
  {
    assert b == a + (b - a) && a * (b - a) == {};
  }

  /** When none of the user's reports is dated after today, the progress
      count is at most 30: one per day of the window. */
  lemma ProgressAtMostThirty(reports: seq<Report>, user: UserId, today: int)
    ensures (forall k :: 0 <= k < |reports| && reports[k].userId == user ==> reports[k].localDate <= today)
              ==> |DistinctDatesSince(reports, user, today - 29)| <= 30
  {
    if forall k :: 0 <= k < |reports| && reports[k].userId == user ==> reports[k].localDate <= today {
      var dates := DistinctDatesSince(reports, user, today - 29);
      assert dates <= Days(today - 29, 30);
      SubsetCount(dates, Days(today - 29, 30));
    }
  }
}
