/**
 * The bot's state and its handlers: the per-user report conversation, the
 * report and reminder stores, `/setreminder`, `/progress` and the reminder
 * job. Replies are returned as values instead of being sent; the clock
 * reading, the message text and the command arguments are parameters.
 */
module Bot {
  import opened Wrappers
  import opened Text
  import opened Calendar
  import opened Users
  import opened Reminders
  import opened Reports

  /** Where a user stands in the report conversation. Idle users have no entry
      in the conversation map: ending a conversation removes the entry. */
  datatype ConvState = Idle | AwaitingReportText

  /** The sender of an update: a stable id and an optional display name. */
  datatype User = User(id: UserId, username: Option<string>)

  /** The replies the handlers send back; their wording is left out. */
  datatype Reply =
    | PromptReportText
    | TooShort
    | ReportSaved
    | ReportCancelled
    | ReminderUsage
    | ReminderBadFormat
    | ReminderSet(time: string)
    | NoReply

  /** The fewest characters a report may have once stripped. */
  const MinReportLength := 10

  /** Text the conversation stores: already stripped and long enough. */
  predicate IsAcceptedText(text: string) {
    |text| >= MinReportLength && Strip(text) == text
  }

  class BotState {
    /** Per-user conversation state (in memory, lost on restart). */
    var conversations: map<UserId, ConvState>
    /** The report table, in insertion order. */
    var reports: seq<Report>
    /** The reminder table: at most one row per user, in ascending user order. */
    var reminders: seq<(UserId, string)>

    ghost predicate Valid()
      reads this
    {
      && IdsSequential(reports)
      && SortedByUser(reminders)
      && forall u :: u in conversations ==> conversations[u] == AwaitingReportText
    }

    /** Every stored report came through the conversation. */
    ghost predicate ReportsAccepted()
      reads this
    {
      forall k :: 0 <= k < |reports| ==> IsAcceptedText(reports[k].text) && 1 <= reports[k].dayIndex <= 30
    }

    /** Every stored reminder time is one the reminder job can read. */
    ghost predicate RemindersReadable()
      reads this
    {
      forall k :: 0 <= k < |reminders| ==> IsValidTime(reminders[k].1)
    }

    function StateOf(user: UserId): ConvState
      reads this
    {
      if user in conversations then conversations[user] else Idle
    }

    /** Start-up: the tables keep what earlier runs stored; no conversation is open. */
    constructor (savedReports: seq<Report>, savedReminders: seq<(UserId, string)>)
      requires IdsSequential(savedReports)
      requires SortedByUser(savedReminders)
      ensures Valid()
      ensures conversations == map[] && reports == savedReports && reminders == savedReminders
    {
      conversations := map[];
      reports := savedReports;
      reminders := savedReminders;
    }

    /** Insert one report row; the store assigns the next id. */
    method SaveReport(userId: UserId, username: string, stamp: string, localDate: int, dayIndex: int, text: string)
      returns (id: nat)
      requires Valid()
      modifies this
      ensures Valid()
      ensures id == |old(reports)| + 1
      ensures reports == old(reports) + [Report(id, userId, username, stamp, localDate, dayIndex, text)]
      ensures conversations == old(conversations) && reminders == old(reminders)
    {
      id := |reports| + 1;
      reports := reports + [Report(id, userId, username, stamp, localDate, dayIndex, text)];
    }

    /** Insert or replace the user's reminder row. */
    method SetReminder(user: UserId, time: string)
      requires Valid()
      modifies this
      ensures Valid()
      ensures reminders == Upsert(old(reminders), user, time)
      ensures Lookup(reminders, user) == Some(time)
      ensures forall other :: other != user ==> Lookup(reminders, other) == Lookup(old(reminders), other)
      ensures conversations == old(conversations) && reports == old(reports)
    {
      forall other ensures Lookup(Upsert(reminders, user, time), other) == if other == user then Some(time) else Lookup(reminders, other) {
        UpsertLookup(reminders, user, time, other);
      }
      UpsertSorted(reminders, user, time);
      reminders := Upsert(reminders, user, time);
    }

    /** `/report`: open (or reopen) the conversation and ask for the text. */
    method CmdReport(user: UserId) returns (reply: Reply)
      requires Valid()
      modifies this
      ensures Valid()
      ensures conversations == old(conversations)[user := AwaitingReportText]
      ensures reports == old(reports) && reminders == old(reminders)
      ensures reply == PromptReportText
    {
      conversations := conversations[user := AwaitingReportText];
      reply := PromptReportText;
    }

    /** A plain text message. Only a user who is awaiting report text is
        answered: a text that is too short once stripped is refused and the
        user keeps waiting; otherwise the stripped text is saved with the
        date and day index of the clock reading and the conversation ends. */
    method OnTextMessage(user: User, text: string, now: LocalNow) returns (reply: Reply)
      requires Valid()
      modifies this
      ensures Valid()
      ensures reminders == old(reminders)
      ensures old(StateOf(user.id)) == Idle ==>
                reply == NoReply && conversations == old(conversations) && reports == old(reports)
      ensures old(StateOf(user.id)) == AwaitingReportText && |Strip(text)| < MinReportLength ==>
                reply == TooShort && conversations == old(conversations) && reports == old(reports)
      ensures old(StateOf(user.id)) == AwaitingReportText && |Strip(text)| >= MinReportLength ==>
                && reply == ReportSaved
                && conversations == old(conversations) - {user.id}
                && reports == old(reports) + [Report(|old(reports)| + 1, user.id, user.username.GetOr(""), now.stamp,
                                                     now.date, DayIndex(now.dayOfMonth), Strip(text))]
      ensures old(ReportsAccepted()) ==> ReportsAccepted()
    {
      if StateOf(user.id) != AwaitingReportText {
        return NoReply;
      }
      var stripped := Strip(text);
      if |stripped| < MinReportLength {
        return TooShort;
      }
      StripIdempotent(text);
      var _ := SaveReport(user.id, user.username.GetOr(""), now.stamp, now.date, DayIndex(now.dayOfMonth), stripped);
      conversations := conversations - {user.id};
      reply := ReportSaved;
    }

    /** `/cancel`: ends an open conversation; outside one it is not handled. */
    method CancelReport(user: UserId) returns (reply: Reply)
      requires Valid()
      modifies this
      ensures Valid()
      ensures conversations == old(conversations) - {user}
      ensures reports == old(reports) && reminders == old(reminders)
      ensures reply == if old(StateOf(user)) == AwaitingReportText then ReportCancelled else NoReply
    {
      reply := if StateOf(user) == AwaitingReportText then ReportCancelled else NoReply;
      conversations := conversations - {user};
    }

    /** `/setreminder HH:MM`: store the argument as given when it is a valid
        time; every other input leaves the reminder table as it was. */
    method CmdSetReminder(user: UserId, args: seq<string>) returns (reply: Reply)
      requires Valid()
      modifies this
      ensures Valid()
      ensures conversations == old(conversations) && reports == old(reports)
      ensures CheckReminderArgs(args).Accepted? ==> reminders == Upsert(old(reminders), user, args[0]) && reply == ReminderSet(args[0])
      ensures CheckReminderArgs(args) == Usage ==> reminders == old(reminders) && reply == ReminderUsage
      ensures CheckReminderArgs(args) == BadFormat ==> reminders == old(reminders) && reply == ReminderBadFormat
      ensures old(RemindersReadable()) ==> RemindersReadable()
    {
      match CheckReminderArgs(args)
      case Usage =>
        reply := ReminderUsage;
      case BadFormat =>
        reply := ReminderBadFormat;
      case Accepted(_, _) =>
        SetReminder(user, args[0]);
        reply := ReminderSet(args[0]);
    }

    /** `/progress`: the distinct dates of the user's reports in the 30 days
        ending today; the count shown is the size of this set. */
    function CmdProgress(user: UserId, today: int): (dates: set<int>)
      reads this
      ensures forall d :: d in dates ==> WindowStart(today) <= d
      ensures forall d :: d in dates ==> exists k :: 0 <= k < |reports| && reports[k].userId == user && reports[k].localDate == d
      ensures forall k :: 0 <= k < |reports| && reports[k].userId == user && WindowStart(today) <= reports[k].localDate
                ==> reports[k].localDate in dates
      ensures (forall k :: 0 <= k < |reports| && reports[k].userId == user ==> reports[k].localDate <= today)
                ==> |dates| <= 30
    {
      ProgressAtMostThirty(reports, user, today);
      DistinctDatesSince(reports, user, WindowStart(today))
    }

    /** One run of the reminder job at the given clock reading. `failing` are
        the users to whom sending fails. With readable reminder rows, exactly
        the users whose time equals the current hour and minute are sent to,
        each once, and a failed send does not keep the others from theirs. */
    method SendReminderJob(now: LocalNow, failing: set<UserId>)
      returns (attempted: seq<UserId>, delivered: seq<UserId>, crashed: bool)
      requires Valid()
      ensures attempted == DueRows(reminders[..ParsedPrefix(reminders, ParseHourMinute)], ParseHourMinute, now.hour, now.minute)
      ensures crashed <==> ParsedPrefix(reminders, ParseHourMinute) < |reminders|
      ensures crashed ==> !RemindersReadable()
      ensures RemindersReadable() ==> !crashed
      ensures !crashed ==> forall u :: u in attempted <==> Lookup(reminders, u).Some? && IsDue(Lookup(reminders, u).value, now.hour, now.minute)
      ensures forall j, k :: 0 <= j < k < |attempted| ==> attempted[j] != attempted[k]
      ensures forall u :: u in delivered <==> u in attempted && u !in failing
    {
      var rows := reminders;
      attempted, delivered, crashed := ReminderTick(rows, now.hour, now.minute, failing, ParseHourMinute);
      var read := ParsedPrefix(rows, ParseHourMinute);
      assert DistinctUsers(rows);
      assert DistinctUsers(rows[..read]);
      UsersWhereDistinct(rows[..read], DueAt(ParseHourMinute, now.hour, now.minute));
      if crashed {
        ParsedPrefixBounds(rows, read, ParseHourMinute);
      } else {
        assert rows[..read] == rows;
        forall u ensures u in attempted <==> Lookup(reminders, u).Some? && IsDue(Lookup(reminders, u).value, now.hour, now.minute) {
          DueRowsLookup(rows, now.hour, now.minute, u);
        }
      }
      if RemindersReadable() {
        ParsedPrefixAll(rows, ParseHourMinute);
      }
    }
  }
}
