/**
 * Reminder times: the `/setreminder` argument check, the parse the reminder
 * job repeats on every stored time, and one tick of that job.
 */
module Reminders {
  import opened Wrappers
  import opened Text
  import opened Numbers
  import opened Users

  /** `hour, minute = map(int, s.split(":"))`: exactly two pieces, each one an
      integer for `int()`; otherwise Python raises ValueError (here `None`). */
  function ParseHourMinute(s: string): (r: Option<(int, int)>)
    ensures r.Some? ==> ':' in s
  {
    var parts := Split(s, ':');
    if |parts| == 2 && PyInt(parts[0]).Some? && PyInt(parts[1]).Some? then
      Some((PyInt(parts[0]).value, PyInt(parts[1]).value))
    else None
  }

  predicate InRange(hour: int, minute: int) {
    0 <= hour < 24 && 0 <= minute < 60
  }

  /** A stored reminder time the job can read: it parses to an in-range clock time. */
  predicate IsValidTime(s: string) {
    ParseHourMinute(s).Some? && InRange(ParseHourMinute(s).value.0, ParseHourMinute(s).value.1)
  }

  /** What `/setreminder` does with its arguments: the usage hint, the
      bad-format reply, or storing the (single) argument as given. */
  datatype SetReminderOutcome = Usage | BadFormat | Accepted(hour: int, minute: int)

  function CheckReminderArgs(args: seq<string>): (r: SetReminderOutcome)
    ensures r == Usage <==> |args| != 1 || ':' !in args[0]
    ensures r.Accepted? <==> |args| == 1 && IsValidTime(args[0])
    ensures r.Accepted? ==> ParseHourMinute(args[0]) == Some((r.hour, r.minute)) && InRange(r.hour, r.minute)
  {
    if |args| != 1 || ':' !in args[0] then Usage
    else
      match ParseHourMinute(args[0])
      case None => BadFormat
      case Some((h, m)) => if InRange(h, m) then Accepted(h, m) else BadFormat
  }

  /** The canonical "HH:MM" spelling of a clock time. */
  function ClockString(hour: nat, minute: nat): string
    requires hour < 100 && minute < 100
  {
    Pad2(hour) + ":" + Pad2(minute)
  }

  /** Reading a canonical clock string gives back its hour and minute. */
  lemma ParseClockString(hour: nat, minute: nat)
    requires hour < 100 && minute < 100
    ensures ParseHourMinute(ClockString(hour, minute)) == Some((hour, minute))
  {
    var h, m := Pad2(hour), Pad2(minute);
    assert ':' !in h && ':' !in m;
    SplitAtFirst(h, ':', m);
    SplitWithoutSeparator(m, ':');
    assert ClockString(hour, minute) == h + [':'] + m;
    PyIntPad2(hour);
    PyIntPad2(minute);
  }

  /** Every in-range time written as "HH:MM" is accepted by `/setreminder`. */
  lemma ClockStringAccepted(hour: nat, minute: nat)
    requires InRange(hour, minute)
    ensures CheckReminderArgs([ClockString(hour, minute)]) == Accepted(hour, minute)
  {
    ParseClockString(hour, minute);
  }

  /** A stored time matches the clock when it parses to the current hour and minute. */
  predicate IsDue(time: string, hour: int, minute: int) {
    ParseHourMinute(time) == Some((hour, minute))
  }

  /** A reminder set through `/setreminder` fires at its own minute and at no other. */
  lemma AcceptedFiresAtItsMinute(arg: string, hour: int, minute: int)
    requires CheckReminderArgs([arg]).Accepted?
    ensures IsDue(arg, hour, minute) <==> CheckReminderArgs([arg]) == Accepted(hour, minute)
  {
  }

  /** A reading of a stored time as (hour, minute); the job uses `ParseHourMinute`. */
  type TimeParser = string -> Option<(int, int)>

  /** The test the job applies to each stored time at the given clock reading. */
  function DueAt(parse: TimeParser, hour: int, minute: int): string -> bool {
    time => parse(time) == Some((hour, minute))
  }

  /** The users of the rows whose time passes `due`, in the order of the rows. */
  function UsersWhere(rows: seq<(UserId, string)>, due: string -> bool): (users: seq<UserId>)
    ensures |users| <= |rows|
  {
    if |rows| == 0 then []
    else
      var last := rows[|rows| - 1];
      UsersWhere(rows[..|rows| - 1], due) + (if due(last.1) then [last.0] else [])
  }

  /** The users a tick notifies, row by row, in the order of the rows. */
  function DueRows(rows: seq<(UserId, string)>, parse: TimeParser, hour: int, minute: int): seq<UserId> {
    UsersWhere(rows, DueAt(parse, hour, minute))
  }

  /** A user is selected exactly when one of their rows passes the test. */
  lemma {:induction false} UsersWhereMembers(rows: seq<(UserId, string)>, due: string -> bool, u: UserId)
    ensures u in UsersWhere(rows, due) <==> exists k :: 0 <= k < |rows| && rows[k].0 == u && due(rows[k].1)
  {
    if |rows| > 0 {
      var init := rows[..|rows| - 1];
      UsersWhereMembers(init, due, u);
      assert forall k :: 0 <= k < |init| ==> init[k] == rows[k];
    }
  }

  /** Extending the rows by one extends the selection by that row's user when it passes. */
  lemma UsersWhereStep(rows: seq<(UserId, string)>, i: nat, due: string -> bool)
    requires i < |rows|
    ensures UsersWhere(rows[..i + 1], due) == UsersWhere(rows[..i], due) + (if due(rows[i].1) then [rows[i].0] else [])
  {
    assert rows[..i + 1][..i] == rows[..i];
  }

  /** When no user has two rows, no user is selected twice. */
  lemma {:induction false} UsersWhereDistinct(rows: seq<(UserId, string)>, due: string -> bool)
    requires DistinctUsers(rows)
    ensures forall j, k :: 0 <= j < k < |UsersWhere(rows, due)| ==> UsersWhere(rows, due)[j] != UsersWhere(rows, due)[k]
  {
    if |rows| > 0 {
      var init := rows[..|rows| - 1];
      UsersWhereDistinct(init, due);
      UsersWhereMembers(init, due, rows[|rows| - 1].0);
    }
  }

  /** A user is notified exactly when one of their rows is due. */
  lemma DueRowsMembers(rows: seq<(UserId, string)>, hour: int, minute: int, u: UserId)
    ensures u in DueRows(rows, ParseHourMinute, hour, minute) <==>
              exists k :: 0 <= k < |rows| && rows[k].0 == u && IsDue(rows[k].1, hour, minute)
  {
    UsersWhereMembers(rows, DueAt(ParseHourMinute, hour, minute), u);
  }

  /** The number of leading rows whose time parses; the job gets that far. */
  function ParsedPrefix(rows: seq<(UserId, string)>, parse: TimeParser): (n: nat)
    ensures n <= |rows|
  {
    if |rows| == 0 || parse(rows[0].1).None? then 0 else 1 + ParsedPrefix(rows[1..], parse)
  }

  /** The users whose send succeeds, given the users whose send fails. */
  function Delivered(attempted: seq<UserId>, failing: set<UserId>): (delivered: seq<UserId>)
    ensures forall u :: u in delivered <==> u in attempted && u !in failing
  {
    if |attempted| == 0 then []
    else
      var last := attempted[|attempted| - 1];
      var init := attempted[..|attempted| - 1];
      assert attempted == init + [last];
      Delivered(init, failing) + (if last in failing then [] else [last])
  }

  /** One run of the reminder job over the listed rows: send to every row
      whose time equals the current (hour, minute). A failing send is logged
      and the loop goes on; a stored time that does not parse raises and ends
      the run there. The parse of a stored time is a parameter: the job
      passes `ParseHourMinute`. */
  method ReminderTick(rows: seq<(UserId, string)>, hour: int, minute: int, failing: set<UserId>, parse: TimeParser)
    returns (attempted: seq<UserId>, delivered: seq<UserId>, crashed: bool)
    ensures crashed <==> ParsedPrefix(rows, parse) < |rows|
    ensures attempted == DueRows(rows[..ParsedPrefix(rows, parse)], parse, hour, minute)
    ensures delivered == Delivered(attempted, failing)
  {
    attempted, delivered, crashed := [], [], false;
    var i := 0;
    while i < |rows|
      invariant 0 <= i <= |rows|
      invariant ParsedPrefix(rows, parse) == i + ParsedPrefix(rows[i..], parse)
      invariant attempted == DueRows(rows[..i], parse, hour, minute)
      invariant delivered == Delivered(attempted, failing)
    {
      var user, time := rows[i].0, rows[i].1;
      var parsed := parse(time);
      if parsed.None? {
        ParsedPrefixStop(rows, i, parse);
        crashed := true;
        break;
      }
      ParsedPrefixStep(rows, i, parse);
      UsersWhereStep(rows, i, DueAt(parse, hour, minute));
      DeliveredStep(attempted, user, failing);
      var (h, m) := parsed.value;
      assert DueAt(parse, hour, minute)(time) <==> h == hour && m == minute;
      if h == hour && m == minute {
        attempted := attempted + [user];
        if user !in failing {
          delivered := delivered + [user];
        }
      }
      i := i + 1;
    }
    if !crashed {
      assert rows[i..] == [];
    }
    assert ParsedPrefix(rows, parse) == i;
  }

  /** Row i parses: the rows read from position i on are that row and those read after it. */
  lemma ParsedPrefixStep(rows: seq<(UserId, string)>, i: nat, parse: TimeParser)
    requires i < |rows| && parse(rows[i].1).Some?
    ensures ParsedPrefix(rows[i..], parse) == 1 + ParsedPrefix(rows[i + 1..], parse)
  {
    assert rows[i..][1..] == rows[i + 1..];
  }

  /** Row i does not parse: nothing is read from position i on. */
  lemma ParsedPrefixStop(rows: seq<(UserId, string)>, i: nat, parse: TimeParser)
    requires i < |rows| && parse(rows[i].1).None?
    ensures ParsedPrefix(rows[i..], parse) == 0
  {
    assert rows[i..][0] == rows[i];
  }

  /** Attempting one more user extends the delivered list by them unless their send fails. */
  lemma DeliveredStep(attempted: seq<UserId>, user: UserId, failing: set<UserId>)
    ensures Delivered(attempted + [user], failing)
         == Delivered(attempted, failing) + (if user in failing then [] else [user])
  {
    assert (attempted + [user])[..|attempted|] == attempted;
  }

  /** The job reads past a row exactly when that row parses. */
  lemma {:induction false} ParsedPrefixBounds(rows: seq<(UserId, string)>, k: nat, parse: TimeParser)
    requires k < |rows|
    ensures k < ParsedPrefix(rows, parse) ==> parse(rows[k].1).Some?
    ensures ParsedPrefix(rows, parse) == k ==> parse(rows[k].1).None?
  {
    if k > 0 && parse(rows[0].1).Some? {
      ParsedPrefixBounds(rows[1..], k - 1, parse);
    }
  }

  /** When every row parses the job reads them all. */
  lemma {:induction false} ParsedPrefixAll(rows: seq<(UserId, string)>, parse: TimeParser)
    requires forall k :: 0 <= k < |rows| ==> parse(rows[k].1).Some?
    ensures ParsedPrefix(rows, parse) == |rows|
  {
    if |rows| > 0 {
      ParsedPrefixAll(rows[1..], parse);
    }
  }

  /** Rows with pairwise different users. */
  predicate DistinctUsers(rows: seq<(UserId, string)>) {
    forall j, k :: 0 <= j < k < |rows| ==> rows[j].0 != rows[k].0
  }

  /** The reminder table's rows in ascending user order, the order in which
      a full scan of a table keyed by an integer primary key returns them. */
  predicate SortedByUser(rows: seq<(UserId, string)>) {
    forall j, k :: 0 <= j < k < |rows| ==> rows[j].0 < rows[k].0
  }

  /** The time stored for a user, if the table has a row for them. */
  function Lookup(rows: seq<(UserId, string)>, user: UserId): (time: Option<string>)
    ensures time.Some? ==> exists k :: 0 <= k < |rows| && rows[k] == (user, time.value)
    ensures time.None? ==> forall k :: 0 <= k < |rows| ==> rows[k].0 != user
  {
    if |rows| == 0 then None
    else if rows[0].0 == user then Some(rows[0].1)
    else
      var rest := Lookup(rows[1..], user);
      assert forall k :: 1 <= k < |rows| ==> rows[k] == rows[1..][k - 1];
      rest
  }

  /** `REPLACE INTO`: the user's row now holds `time`; a row they already had
      is replaced in place, otherwise a row is added at its key's position. */
  function Upsert(rows: seq<(UserId, string)>, user: UserId, time: string): (result: seq<(UserId, string)>)
    ensures forall k :: 0 <= k < |result| ==> result[k] == (user, time) || result[k] in rows
    ensures (user, time) in result
  {
    if |rows| == 0 then [(user, time)]
    else if rows[0].0 < user then [rows[0]] + Upsert(rows[1..], user, time)
    else if rows[0].0 == user then [(user, time)] + rows[1..]
    else [(user, time)] + rows
  }

  /** After the upsert the user's time is the new one and nobody else's changed. */
  lemma {:induction false} UpsertLookup(rows: seq<(UserId, string)>, user: UserId, time: string, other: UserId)
    ensures Lookup(Upsert(rows, user, time), other) == if other == user then Some(time) else Lookup(rows, other)
  {
    if |rows| > 0 && rows[0].0 < user {
      UpsertLookup(rows[1..], user, time, other);
      assert ([rows[0]] + Upsert(rows[1..], user, time))[1..] == Upsert(rows[1..], user, time);
    } else if |rows| > 0 && rows[0].0 == user {
      assert ([(user, time)] + rows[1..])[1..] == rows[1..];
    } else if |rows| > 0 {
      assert ([(user, time)] + rows)[1..] == rows;
    }
  }

  /** The upsert keeps the table in key order. */
  lemma {:induction false} UpsertSorted(rows: seq<(UserId, string)>, user: UserId, time: string)
    requires SortedByUser(rows)
    ensures SortedByUser(Upsert(rows, user, time))
    ensures forall k :: 0 <= k < |Upsert(rows, user, time)| ==>
              Upsert(rows, user, time)[k].0 == user || (|rows| > 0 && rows[0].0 <= Upsert(rows, user, time)[k].0)
  {
    if |rows| > 0 && rows[0].0 < user {
      assert SortedByUser(rows[1..]);
      UpsertSorted(rows[1..], user, time);
    }
  }

  /** In a table without duplicate users each row is what lookup finds. */
  lemma {:induction false} LookupRow(rows: seq<(UserId, string)>, k: nat)
    requires DistinctUsers(rows)
    requires k < |rows|
    ensures Lookup(rows, rows[k].0) == Some(rows[k].1)
  {
    if k > 0 {
      assert DistinctUsers(rows[1..]);
      assert rows[1..][k - 1] == rows[k];
      LookupRow(rows[1..], k - 1);
    }
  }

  /** Over a table without duplicate users, a user is due exactly when the
      time stored for them is the current hour and minute. */
  lemma DueRowsLookup(rows: seq<(UserId, string)>, hour: int, minute: int, u: UserId)
    requires DistinctUsers(rows)
    ensures u in DueRows(rows, ParseHourMinute, hour, minute) <==> Lookup(rows, u).Some? && IsDue(Lookup(rows, u).value, hour, minute)
  {
    DueRowsMembers(rows, hour, minute, u);
    if u in DueRows(rows, ParseHourMinute, hour, minute) {
      var k :| 0 <= k < |rows| && rows[k].0 == u && IsDue(rows[k].1, hour, minute);
      LookupRow(rows, k);
    }
  }
}
