/** The handlers that only read the tables: the role gates of the commands,
    the menus they answer with, `/status` and `/history`. A reply is the
    message and the call-back data of its buttons. */
module Commands {
  import opened Wrappers
  import opened Text
  import opened Schema
  import Prediction
  import Callbacks

  datatype Reply = Reply(notice: Notice, buttons: seq<string>)

  predicate IsPrimary(users: map<UserId, User>, uid: UserId) {
    uid in users && users[uid].role == Some(Primary)
  }

  /** The answer of every primary-only command to anyone else. */
  function Refusal(users: map<UserId, User>, uid: UserId): Notice {
    Say(uid, "partnerOnlyCommand", LangOr(users, uid))
  }

  /** `handleHelpCommand`: title, the section for the user's role, footer. */
  function Help(users: map<UserId, User>, uid: UserId): (n: Notice)
    ensures n.to == uid && |n.lines| == 3
    ensures n.lines[0].key == "helpTitle" && n.lines[2].key == "helpFooter"
    ensures forall k :: 0 <= k < 3 ==> n.lines[k].lang == LangOr(users, uid)
    ensures IsPrimary(users, uid) ==> n.lines[1].key == "helpPrimary"
    ensures uid in users && users[uid].role == Some(Partner) ==> n.lines[1].key == "helpPartner"
    ensures uid !in users || users[uid].role.None? ==> n.lines[1].key == "helpUnassigned"
  {
    var lang := LangOr(users, uid);
    var section :=
      if uid !in users || users[uid].role.None? then "helpUnassigned"
      else if users[uid].role.value == Primary then "helpPrimary"
      else "helpPartner";
    Notice(uid, [Line("helpTitle", lang), Line(section, lang), Line("helpFooter", lang)])
  }

  const TrackButtons: seq<string> := ["log_method_today", "log_method_picker"]

  /** `handleTrack`: the choice between today and the date picker. */
  function Track(users: map<UserId, User>, uid: UserId): (r: Reply)
    ensures !IsPrimary(users, uid) <==> r == Reply(Refusal(users, uid), [])
    ensures IsPrimary(users, uid) ==> r.buttons == TrackButtons && r.notice.lines == [Line("trackTitle", users[uid].language)]
  {
    if !IsPrimary(users, uid) then Reply(Refusal(users, uid), [])
    else Reply(Say(uid, "trackTitle", users[uid].language), TrackButtons)
  }

  /** `handleMethodChoice`: the start/end choice, carrying the method; None
      where the handler fails on a user without a row. */
  function MethodChoice(users: map<UserId, User>, uid: UserId, data: string): (r: Option<Reply>)
    ensures r.None? <==> uid !in users
    ensures r.Some? ==> r.value.notice == Say(uid, "trackStartOrEnd", users[uid].language)
    ensures r.Some? ==> |r.value.buttons| == 2
    ensures r.Some? ==> Callbacks.DecodeLogSelect(r.value.buttons[0]) == Callbacks.LogChoice(Some("start"), Some(Callbacks.LastField(data)))
    ensures r.Some? ==> Callbacks.DecodeLogSelect(r.value.buttons[1]) == Callbacks.LogChoice(Some("end"), Some(Callbacks.LastField(data)))
  {
    Callbacks.LogSelectRoundTrip("start", Callbacks.LastField(data));
    Callbacks.LogSelectRoundTrip("end", Callbacks.LastField(data));
    if uid !in users then None
    else
      var how := Callbacks.LastField(data);
      Some(Reply(Say(uid, "trackStartOrEnd", users[uid].language),
                 [Callbacks.LogSelectData("start", how), Callbacks.LogSelectData("end", how)]))
  }

  /** Following a `/track` button to the start/end choice yields buttons that
      `handleLogSelection` decodes to that choice and the chosen method. */
  lemma TrackFlow(users: map<UserId, User>, uid: UserId, k: nat)
    requires uid in users && k < |TrackButtons|
    ensures var how := if k == 0 then "today" else "picker";
            var r := MethodChoice(users, uid, TrackButtons[k]);
            r.Some? && |r.value.buttons| == 2
            && Callbacks.DecodeLogSelect(r.value.buttons[0]) == Callbacks.LogChoice(Some("start"), Some(how))
            && Callbacks.DecodeLogSelect(r.value.buttons[1]) == Callbacks.LogChoice(Some("end"), Some(how))
  {
    var how := if k == 0 then "today" else "picker";
    assert TrackButtons[k] == "log_method" + "_" + how;
    Callbacks.LastFieldOf("log_method", how);
  }

  /** The symptom keys, in the order of the menu. */
  const SymptomKeys: seq<string> := ["cramps", "headache", "fatigue", "nausea", "bloating", "mood_swings"]

  function SymptomButtons(): (b: seq<string>)
    ensures |b| == |SymptomKeys| && forall k :: 0 <= k < |b| ==> b[k] == "log_symptom_" + SymptomKeys[k]
  {
    seq(|SymptomKeys|, k requires 0 <= k < |SymptomKeys| => "log_symptom_" + SymptomKeys[k])
  }

  /** `handleSymptomsCommand`: the menu, only while a period is open. */
  function SymptomsMenu(users: map<UserId, User>, cycles: seq<CycleRow>, uid: UserId): (r: Reply)
    ensures !IsPrimary(users, uid) <==> r == Reply(Refusal(users, uid), [])
    ensures IsPrimary(users, uid) && OpenIndex(cycles, uid).None? ==>
              r == Reply(Say(uid, "symptomsNeedActive", users[uid].language), [])
    ensures IsPrimary(users, uid) && OpenIndex(cycles, uid).Some? ==>
              r == Reply(Say(uid, "symptomsTitle", users[uid].language), SymptomButtons())
  {
    if !IsPrimary(users, uid) then Reply(Refusal(users, uid), [])
    else if OpenIndex(cycles, uid).None? then Reply(Say(uid, "symptomsNeedActive", users[uid].language), [])
    else Reply(Say(uid, "symptomsTitle", users[uid].language), SymptomButtons())
  }

  /** Each symptom button gives `handleSymptomLogging` back its key. */
  lemma SymptomButtonKeys(k: nat)
    requires k < |SymptomKeys|
    ensures Callbacks.AfterMarker(SymptomButtons()[k], "log_symptom_") == Some(SymptomKeys[k])
  {
    Callbacks.AfterMarkerOf("log_symptom_", SymptomKeys[k]);
  }

  const ReminderTimes: seq<string> := ["08:00", "09:00", "12:00", "18:00"]
  const ReminderButtons: seq<string> :=
    ["set_reminder_08:00", "set_reminder_09:00", "set_reminder_12:00", "set_reminder_18:00", "set_reminder_off"]

  /** A stored reminder time counts as on when it is a non-empty string. */
  function ReminderStatusKey(time: Option<string>): string {
    if time.Some? && time.value != "" then "remindersStatusOn" else "remindersStatusOff"
  }

  /** `handleRemindersCommand`; None where the handler fails on a user
      without a row. */
  function RemindersMenu(users: map<UserId, User>, uid: UserId): (r: Option<Reply>)
    ensures r.None? <==> uid !in users
    ensures uid in users && !IsPrimary(users, uid) ==> r == Some(Reply(Refusal(users, uid), []))
    ensures IsPrimary(users, uid) ==>
              var lang := users[uid].language;
              r == Some(Reply(Notice(uid, [Line("remindersTitle", lang), Line(ReminderStatusKey(users[uid].reminderTime), lang)]),
                              ReminderButtons))
  {
    if uid !in users then None
    else if !IsPrimary(users, uid) then Some(Reply(Refusal(users, uid), []))
    else
      var lang := users[uid].language;
      Some(Reply(Notice(uid, [Line("remindersTitle", lang), Line(ReminderStatusKey(users[uid].reminderTime), lang)]),
                 ReminderButtons))
  }

  /** `handleReminderChoice`: the text after the marker is the new time;
      "off" (and a missing part) clears it. */
  function ReminderSetting(data: string): (time: Option<string>)
    ensures Callbacks.AfterMarker(data, "set_reminder_") == Some("off") ==> time.None?
    ensures Callbacks.AfterMarker(data, "set_reminder_") != Some("off") ==> time == Callbacks.AfterMarker(data, "set_reminder_")
  {
    var choice := Callbacks.AfterMarker(data, "set_reminder_");
    if choice == Some("off") then None else choice
  }

  /** The four time buttons set their time; the last one turns reminders off. */
  lemma ReminderButtonsSet(k: nat)
    requires k < |ReminderButtons|
    ensures k < 4 ==> ReminderSetting(ReminderButtons[k]) == Some(ReminderTimes[k])
    ensures k == 4 ==> ReminderSetting(ReminderButtons[k]).None?
  {
    var v := if k < 4 then ReminderTimes[k] else "off";
    assert ReminderButtons[k] == "set_reminder_" + v;
    Callbacks.AfterMarkerOf("set_reminder_", v);
  }

  // --- /status ---

  predicate IsLinkedPartner(users: map<UserId, User>, uid: UserId) {
    uid in users && users[uid].role == Some(Partner) && users[uid].partnerId.Some?
  }

  /** `SELECT symptom_name FROM symptoms WHERE cycle_id = ? AND logged_at = ?`. */
  function SymptomsOn(symptoms: seq<SymptomRow>, cycleId: nat, day: int): (names: seq<string>)
    ensures |names| <= |symptoms|
    ensures forall n :: n in names <==>
              exists k :: 0 <= k < |symptoms| && symptoms[k] == SymptomRow(cycleId, n, day)
  {
    if |symptoms| == 0 then []
    else
      var init := SymptomsOn(symptoms[..|symptoms| - 1], cycleId, day);
      var r := symptoms[|symptoms| - 1];
      assert forall k :: 0 <= k < |symptoms| - 1 ==> symptoms[..|symptoms| - 1][k] == symptoms[k];
      if r.cycleId == cycleId && r.loggedAt == day then init + [r.name] else init
  }

  /** What `/status` reports to a partner about their primary. */
  datatype StatusReply =
    | NotPartner
    | NoData
    | OnPeriod(day: int, symptoms: seq<string>)
    | InCycle(day: int, symptoms: seq<string>)

  /** `handleStatusCommand` on today's day number. The report is about the
      primary's cycle with the latest start, open or not; its day is counted
      from 1 on the start day. None where the handler fails because the
      partner points at a user without a row. */
  function Status(users: map<UserId, User>, cycles: seq<CycleRow>, symptoms: seq<SymptomRow>, uid: UserId, today: int)
    : (r: Option<StatusReply>)
    ensures r == Some(NotPartner) <==> !IsLinkedPartner(users, uid)
    ensures r.None? <==> IsLinkedPartner(users, uid) && users[uid].partnerId.value !in users
    ensures r == Some(NoData) <==>
              IsLinkedPartner(users, uid) && users[uid].partnerId.value in users
              && LatestIndex(cycles, users[uid].partnerId.value).None?
    ensures r.Some? && (r.value.OnPeriod? || r.value.InCycle?) ==>
              var i := LatestIndex(cycles, users[uid].partnerId.value).value;
              r.value.day == today - cycles[i].start + 1
              && (r.value.OnPeriod? <==> cycles[i].end.None?)
              && r.value.symptoms == SymptomsOn(symptoms, cycles[i].id, today)
  {
    if !IsLinkedPartner(users, uid) then Some(NotPartner)
    else
      var p := users[uid].partnerId.value;
      if p !in users then None
      else match LatestIndex(cycles, p)
        case None => Some(NoData)
        case Some(i) =>
          var row := cycles[i];
          var names := SymptomsOn(symptoms, row.id, today);
          if row.end.None? then Some(OnPeriod(today - row.start + 1, names))
          else Some(InCycle(today - row.start + 1, names))
  }

  /** The message `/status` sends, in the partner's language. */
  function StatusNotice(users: map<UserId, User>, uid: UserId, r: StatusReply): (n: Notice)
    ensures n.to == uid && |n.lines| >= 1
    ensures r.NotPartner? ==> n == Refusal(users, uid)
    ensures r.OnPeriod? ==> |n.lines| == 3 && n.lines[1].key == "statusOnPeriod"
    ensures r.InCycle? ==> |n.lines| == 3 && n.lines[1].key == "statusInCycle"
    ensures (r.OnPeriod? || r.InCycle?) ==>
              n.lines[2].key == (if |r.symptoms| > 0 then "statusSymptomsToday" else "statusNoSymptoms")
  {
    var lang := LangOr(users, uid);
    match r
    case NotPartner => Refusal(users, uid)
    case NoData => Say(uid, "statusNoData", lang)
    case OnPeriod(_, names) =>
      Notice(uid, [Line("statusTitle", lang), Line("statusOnPeriod", lang),
                   Line(if |names| > 0 then "statusSymptomsToday" else "statusNoSymptoms", lang)])
    case InCycle(_, names) =>
      Notice(uid, [Line("statusTitle", lang), Line("statusInCycle", lang),
                   Line(if |names| > 0 then "statusSymptomsToday" else "statusNoSymptoms", lang)])
  }

  /** A period logged to start today is on day 1 for the partner. */
  lemma StatusFirstDay(users: map<UserId, User>, cycles: seq<CycleRow>, symptoms: seq<SymptomRow>, uid: UserId, today: int,
                       row: CycleRow)
    requires IsLinkedPartner(users, uid) && users[uid].partnerId.value in users
    requires row == CycleRow(row.id, users[uid].partnerId.value, today, None)
    requires forall k :: 0 <= k < |cycles| && cycles[k].userId == row.userId ==> cycles[k].start < today
    ensures Status(users, cycles + [row], symptoms, uid, today) == Some(OnPeriod(1, SymptomsOn(symptoms, row.id, today)))
  {
    var c := cycles + [row];
    assert c[|cycles|] == row;
  }

  /** The report follows the latest start, not the open cycle: a period
      opened with a back-dated start while a later closed cycle exists
      is reported as "in cycle". */
  lemma StatusFollowsLatestStart(today: int)
    ensures var users := map[1 := User("A", Some(Primary), "en", "gregorian", Some(2), None, None),
                             2 := User("B", Some(Partner), "en", "gregorian", Some(1), None, None)];
            var cycles := [CycleRow(0, 1, today - 10, Some(today - 6)), CycleRow(1, 1, today - 40, None)];
            OpenIndex(cycles, 1) == Some(1) && Status(users, cycles, [], 2, today) == Some(InCycle(11, []))
  {
    var cycles := [CycleRow(0, 1, today - 10, Some(today - 6)), CycleRow(1, 1, today - 40, None)];
    assert cycles[..1] == [cycles[0]];
    assert LatestIndex(cycles[..1], 1) == Some(0);
    assert LatestIndex(cycles, 1) == Some(0);
  }

  // --- /history ---

  /** `handleHistory`: the refusal (None) or the view of the user's closed
      cycles, latest start first. */
  method HistoryCommand(users: map<UserId, User>, cycles: seq<CycleRow>, uid: UserId)
    returns (view: Option<Prediction.HistoryView>)
    ensures view.None? <==> !IsPrimary(users, uid)
    ensures view.Some? ==> view.value == Prediction.Expected(ClosedDesc(cycles, uid))
  {
    if !IsPrimary(users, uid) {
      return None;
    }
    var v := Prediction.History(ClosedDesc(cycles, uid));
    view := Some(v);
  }
}
