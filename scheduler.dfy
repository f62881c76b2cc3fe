/** The hourly reminder run: which primaries are due at the current hour,
    when their next period is predicted from the two latest closed cycles,
    and which reminder (if any) goes to them and to their partner. */
module Scheduler {
  import opened Wrappers
  import opened Text
  import opened Schema
  import Prediction
  import Commands

  /** `reminder_time LIKE 'HH:%'`, HH the zero-padded hour. */
  predicate DueAt(time: Option<string>, hour: int) {
    time.Some? && Pad2(hour) + ":" <= time.value
  }

  /** `SELECT * FROM users WHERE reminder_time LIKE ? AND role = 'primary'`. */
  function DueUsers(users: map<UserId, User>, hour: int): (due: set<UserId>)
    ensures forall u :: u in due <==> Commands.IsPrimary(users, u) && DueAt(users[u].reminderTime, hour)
  {
    set u | u in users && users[u].role == Some(Primary) && DueAt(users[u].reminderTime, hour)
  }

  /** The two reminder windows. */
  datatype Window = Pms(days: int) | Tomorrow

  /** The message for a predicted start `daysUntil` days away: the PMS
      warning 3 to 5 days before, the "tomorrow" reminder 1 day before,
      nothing otherwise. */
  function Classify(daysUntil: int): (w: Option<Window>)
    ensures w == Some(Pms(daysUntil)) <==> 3 <= daysUntil <= 5
    ensures w == Some(Tomorrow) <==> daysUntil == 1
    ensures w.None? <==> daysUntil < 1 || daysUntil == 2 || daysUntil > 5
  {
    if 3 <= daysUntil <= 5 then Some(Pms(daysUntil))
    else if daysUntil == 1 then Some(Tomorrow)
    else None
  }

  /** A reminder sent to a primary, and the partner who gets a copy. */
  datatype Reminder = Reminder(window: Window, copyTo: Option<UserId>)

  /** The body of the loop for one due user: the next start is the latest
      start plus the gap to the one before, counted from today. */
  function UserReminder(users: map<UserId, User>, cycles: seq<CycleRow>, uid: UserId, today: int): (r: Option<Reminder>)
    requires uid in users
    ensures r.Some? ==> |ClosedDesc(cycles, uid)| >= 2
    ensures |ClosedDesc(cycles, uid)| < 2 ==> r.None?
    ensures |ClosedDesc(cycles, uid)| >= 2 ==>
              var closed := ClosedDesc(cycles, uid);
              var w := Classify(Prediction.ReminderPrediction(closed[0].start, closed[1].start) - today);
              (r.None? <==> w.None?) && (r.Some? ==> r.value == Reminder(w.value, users[uid].partnerId))
  {
    var closed := ClosedDesc(cycles, uid);
    if |closed| < 2 then None
    else
      var predicted := Prediction.ReminderPrediction(closed[0].start, closed[1].start);
      match Classify(predicted - today)
      case None => None
      case Some(w) => Some(Reminder(w, users[uid].partnerId))
  }

  /** `checkAndSendReminders` at the given hour, on today's day number: the
      reminders sent, by recipient. The users are visited in whatever order
      the query returns them. */
  method CheckAndSendReminders(users: map<UserId, User>, cycles: seq<CycleRow>, hour: int, today: int)
    returns (sent: map<UserId, Reminder>)
    ensures forall u :: u in sent <==> u in DueUsers(users, hour) && UserReminder(users, cycles, u, today).Some?
    ensures forall u :: u in sent ==> sent[u] == UserReminder(users, cycles, u, today).value
  {
    var due := DueUsers(users, hour);
    var pending := due;
    sent := map[];
    while pending != {}
      invariant pending <= due
      invariant forall u :: u in sent ==> u in due && u !in pending && UserReminder(users, cycles, u, today) == Some(sent[u])
      invariant forall u :: u in due && u !in pending ==> (u in sent <==> UserReminder(users, cycles, u, today).Some?)
      decreases |pending|
    {
      Inhabited(pending);
      var user :| user in pending;
      var reminder := UserReminder(users, cycles, user, today);
      if reminder.Some? {
        sent := sent[user := reminder.value];
      }
      pending := pending - {user};
    }
  }

  /** The hours at which the four times of the reminder menu fire. */
  const MenuHours: seq<int> := [8, 9, 12, 18]

  /** A time chosen from the menu is due at its own hour and at no other. */
  lemma MenuTimesFire(k: nat, hour: int)
    requires k < |Commands.ReminderTimes| && 0 <= hour < 100
    ensures DueAt(Some(Commands.ReminderTimes[k]), hour) <==> hour == MenuHours[k]
  {
    var t, h := Commands.ReminderTimes[k], MenuHours[k];
    if k == 0 {
      FiresAt8(hour);
      assert DueAt(Some(t), hour) <==> hour == h;
    } else if k == 1 {
      FiresAt9(hour);
      assert DueAt(Some(t), hour) <==> hour == h;
    } else if k == 2 {
      FiresAt12(hour);
      assert DueAt(Some(t), hour) <==> hour == h;
    } else {
      FiresAt18(hour);
      assert DueAt(Some(t), hour) <==> hour == h;
    }
  }

  lemma FiresAt8(hour: int)
    requires 0 <= hour < 100
    ensures DueAt(Some("08:00"), hour) <==> hour == 8
  {
    assert Pad2(8) == "08";
    assert Pad2(8) + ":" == "08:00"[..3];
    FiresAtOwnHour("08:00", 8, hour);
  }

  lemma FiresAt9(hour: int)
    requires 0 <= hour < 100
    ensures DueAt(Some("09:00"), hour) <==> hour == 9
  {
    assert Pad2(9) == "09";
    assert Pad2(9) + ":" == "09:00"[..3];
    FiresAtOwnHour("09:00", 9, hour);
  }

  lemma FiresAt12(hour: int)
    requires 0 <= hour < 100
    ensures DueAt(Some("12:00"), hour) <==> hour == 12
  {
    Pad2TwoDigits(12);
    assert DigitChar(1) == '1' && DigitChar(2) == '2';
    assert Pad2(12) + ":" == "12:00"[..3];
    FiresAtOwnHour("12:00", 12, hour);
  }

  lemma FiresAt18(hour: int)
    requires 0 <= hour < 100
    ensures DueAt(Some("18:00"), hour) <==> hour == 18
  {
    Pad2TwoDigits(18);
    assert DigitChar(1) == '1' && DigitChar(8) == '8';
    assert Pad2(18) + ":" == "18:00"[..3];
    FiresAtOwnHour("18:00", 18, hour);
  }

  /** A time that starts with the padded hour h and ':' is due at h alone. */
  lemma FiresAtOwnHour(t: string, h: int, hour: int)
    requires 0 <= h < 100 && 0 <= hour < 100 && |t| >= 3 && Pad2(h) + ":" == t[..3]
    ensures DueAt(Some(t), hour) <==> hour == h
  {
    Pad2Injective(hour, h);
    PrefixMatch(Pad2(hour), Pad2(h), t);
  }

  /** Distinct hours have distinct padded forms. */
  lemma Pad2Injective(x: int, y: int)
    requires 0 <= x < 100 && 0 <= y < 100
    ensures |Pad2(x)| == 2 && |Pad2(y)| == 2
    ensures Pad2(x) == Pad2(y) <==> x == y
  {
    Pad2Digits(x);
    Pad2Digits(y);
  }

  /** A two-character field and ':' lead t exactly when they are t's own. */
  lemma PrefixMatch(a: string, b: string, t: string)
    requires |a| == 2 && |b| == 2 && |t| >= 3 && b + ":" == t[..3]
    ensures a + ":" <= t <==> a == b
  {
    if a + ":" <= t {
      assert a + ":" == t[..3];
      assert a == (a + ":")[..2];
      assert b == (b + ":")[..2];
    }
  }

  /** With exactly two closed cycles the reminder's prediction is the one
      `/history` shows. */
  lemma ReminderMatchesHistory(cycles: seq<CycleRow>, uid: UserId)
    requires |ClosedDesc(cycles, uid)| == 2
    ensures var closed := ClosedDesc(cycles, uid);
            Prediction.Expected(closed).predicted == Prediction.ReminderPrediction(closed[0].start, closed[1].start)
  {
    Prediction.TwoCyclesAgree(ClosedDesc(cycles, uid));
  }

  /** The seeded history predicts the next start for today itself, so a
      primary who has just seeded gets no reminder that day. */
  lemma SeededNoReminder(users: map<UserId, User>, cycles: seq<CycleRow>, uid: UserId, today: int, firstId: nat)
    requires uid in users
    ensures UserReminder(users, Without(cycles, uid) + Seeded(uid, today, firstId, SeedPlan), uid, today).None?
  {
    SeededHistory(cycles, uid, today, firstId);
  }
}
