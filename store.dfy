/** The bot's database and the handlers that change it. Each handler takes
    the sender's id and the message or call-back data, updates the tables
    as the SQL statements do, and returns the messages it sends. A handler
    that reads a column of a user row it never checked exists stops there
    when the row is missing: nothing changes and nothing is sent. */
module Bot {
  import opened Wrappers
  import opened Text
  import opened Schema
  import Civil
  import Jalali
  import Callbacks
  import DatePicker
  import Commands

  /** `Math.floor(100000 + Math.random() * 900000).toString()`: six digits. */
  lemma PairingCodeShape(n: nat)
    requires 100000 <= n <= 999999
    ensures |NatToString(n)| == 6 && ParseNat(NatToString(n)) == n
  {
    assert Pow10(6) == 1000000 && Pow10(5) == 100000;
    NatToStringLength(n, 6);
    ParseNatToString(n);
  }

  /** The three tables and the next `AUTOINCREMENT` id of `cycles`. */
  class Store {
    var users: map<UserId, User>
    var cycles: seq<CycleRow>
    var symptoms: seq<SymptomRow>
    var nextCycleId: nat

    /** At most one open cycle per user, and every cycle id in use (by a
        cycle or a symptom) is below the next one handed out. */
    predicate Valid()
      reads this
    {
      && AtMostOneOpen(cycles)
      && (forall i :: 0 <= i < |cycles| ==> cycles[i].id < nextCycleId)
      && (forall k :: 0 <= k < |symptoms| ==> symptoms[k].cycleId < nextCycleId)
    }

    constructor ()
      ensures Valid()
      ensures users == map[] && cycles == [] && symptoms == [] && nextCycleId == 0
    {
      users := map[];
      cycles := [];
      symptoms := [];
      nextCycleId := 0;
    }

    // --- Accounts (user_handler.js) ---

    /** The effect of `handlePairing`: on an unknown code the joiner is told
        so in both languages; otherwise some primary holding it is paired
        with the joiner and both are told, in the primary's language. */
    twostate predicate Paired(uid: UserId, firstName: string, code: string, new primary: Option<UserId>,
                              new notices: seq<Notice>)
      reads this
    {
      && cycles == old(cycles) && symptoms == old(symptoms) && nextCycleId == old(nextCycleId)
      && (primary.None? <==> Holders(old(users), code) == {})
      && (primary.None? ==>
            users == old(users)
            && notices == [Notice(uid, [Line("partnerLinkInvalid", "en"), Line("partnerLinkInvalid", "fa")])])
      && (primary.Some? ==>
            var p := primary.value;
            p in Holders(old(users), code)
            && users == Pair(old(users), uid, firstName, p)
            && notices == [Say(p, "partnerConnectedToYou", old(users)[p].language),
                           Say(uid, "partnerConnectedToThem", old(users)[p].language)])
    }

    /** `handlePairing`. */
    method Pairing(uid: UserId, firstName: string, code: string) returns (primary: Option<UserId>, notices: seq<Notice>)
      requires Valid()
      modifies this
      ensures Valid()
      ensures Paired(uid, firstName, code, primary, notices)
    {
      var holders := Holders(users, code);
      if holders == {} {
        primary := None;
        notices := [Notice(uid, [Line("partnerLinkInvalid", "en"), Line("partnerLinkInvalid", "fa")])];
        return;
      }
      Inhabited(holders);
      var p :| p in holders;
      var lang := users[p].language;
      users := Pair(users, uid, firstName, p);
      primary := Some(p);
      notices := [Say(p, "partnerConnectedToYou", lang), Say(uid, "partnerConnectedToThem", lang)];
    }

    /** `handleStart`: a deep-link code means pairing; otherwise a known user
        is welcomed back and a new one gets a row with the defaults. */
    method Start(uid: UserId, firstName: string, code: string) returns (primary: Option<UserId>, notices: seq<Notice>)
      requires Valid()
      modifies this
      ensures Valid()
      ensures code != "" ==> Paired(uid, firstName, code, primary, notices)
      ensures code == "" ==>
                primary.None? && cycles == old(cycles) && symptoms == old(symptoms) && nextCycleId == old(nextCycleId)
                && (uid in old(users) ==>
                      users == old(users) && notices == [Say(uid, "welcomeBack", old(users)[uid].language)])
                && (uid !in old(users) ==>
                      users == old(users)[uid := NewUser(firstName)] && notices == [Say(uid, "welcome", "en")])
    {
      if code != "" {
        primary, notices := Pairing(uid, firstName, code);
        return;
      }
      primary := None;
      if uid in users {
        notices := [Say(uid, "welcomeBack", users[uid].language)];
      } else {
        users := users[uid := NewUser(firstName)];
        notices := [Say(uid, "welcome", "en")];
      }
    }

    /** `handleLanguageChoice`: the last `_` field is the language; the
        update is a no-op for a user without a row, who is still asked for
        a role. */
    method LanguageChoice(uid: UserId, data: string) returns (notices: seq<Notice>)
      requires Valid()
      modifies this
      ensures Valid()
      ensures cycles == old(cycles) && symptoms == old(symptoms) && nextCycleId == old(nextCycleId)
      ensures var lang := Callbacks.LastField(data);
              && users == (if uid in old(users) then old(users)[uid := old(users)[uid].(language := lang)] else old(users))
              && notices == [Say(uid, if uid in old(users) && old(users)[uid].role.Some? then "settingsLanguageConfirmation"
                                      else "rolePrompt", lang)]
    {
      var lang := Callbacks.LastField(data);
      if uid in users {
        users := users[uid := users[uid].(language := lang)];
      }
      if uid in users && users[uid].role.Some? {
        notices := [Say(uid, "settingsLanguageConfirmation", lang)];
      } else {
        notices := [Say(uid, "rolePrompt", lang)];
      }
    }

    /** `handleRoleChoice`: exactly `set_role_primary` makes a primary, any
        other data a partner. */
    method RoleChoice(uid: UserId, data: string) returns (notices: seq<Notice>)
      requires Valid()
      modifies this
      ensures Valid()
      ensures cycles == old(cycles) && symptoms == old(symptoms) && nextCycleId == old(nextCycleId)
      ensures uid !in old(users) ==> users == old(users) && notices == []
      ensures uid in old(users) ==>
                var role := if data == "set_role_primary" then Primary else Partner;
                var lang := old(users)[uid].language;
                users == old(users)[uid := old(users)[uid].(role := Some(role))]
                && notices == [Say(uid, if role == Primary then "calendarPrompt" else "partnerRoleInfo", lang)]
    {
      if uid !in users {
        return [];
      }
      var lang := users[uid].language;
      var role := if data == "set_role_primary" then Primary else Partner;
      users := users[uid := users[uid].(role := Some(role))];
      if role == Primary {
        notices := [Say(uid, "calendarPrompt", lang)];
      } else {
        notices := [Say(uid, "partnerRoleInfo", lang)];
      }
    }

    /** `handleCalendarChoice`: the last `_` field is stored as the
        calendar; a user who already had a role is in the settings flow. */
    method CalendarChoice(uid: UserId, data: string) returns (notices: seq<Notice>)
      requires Valid()
      modifies this
      ensures Valid()
      ensures cycles == old(cycles) && symptoms == old(symptoms) && nextCycleId == old(nextCycleId)
      ensures uid !in old(users) ==> users == old(users) && notices == []
      ensures uid in old(users) ==>
                var calendar := Callbacks.LastField(data);
                var lang := old(users)[uid].language;
                var name := if calendar == "shamsi" then "calendarShamsi" else "calendarGregorian";
                users == old(users)[uid := old(users)[uid].(calendar := calendar)]
                && notices == [Notice(uid, [Line(if old(users)[uid].role.Some? then "settingsCalendarConfirmation"
                                                 else "setupComplete", lang), Line(name, lang)])]
    {
      if uid !in users {
        return [];
      }
      var user := users[uid];
      var calendar := Callbacks.LastField(data);
      var name := if calendar == "shamsi" then "calendarShamsi" else "calendarGregorian";
      users := users[uid := user.(calendar := calendar)];
      if user.role.Some? {
        notices := [Notice(uid, [Line("settingsCalendarConfirmation", user.language), Line(name, user.language)])];
      } else {
        notices := [Notice(uid, [Line("setupComplete", user.language), Line(name, user.language)])];
      }
    }

    /** `handlePartnerCommand`: a primary gets a fresh six-digit code, which
        replaces any earlier one. */
    method PartnerCommand(uid: UserId) returns (code: Option<string>, notices: seq<Notice>)
      requires Valid()
      modifies this
      ensures Valid()
      ensures cycles == old(cycles) && symptoms == old(symptoms) && nextCycleId == old(nextCycleId)
      ensures uid !in old(users) ==> users == old(users) && code.None? && notices == []
      ensures uid in old(users) && !Commands.IsPrimary(old(users), uid) ==>
                users == old(users) && code.None? && notices == [Commands.Refusal(old(users), uid)]
      ensures Commands.IsPrimary(old(users), uid) ==>
                code.Some? && |code.value| == 6 && AllDigits(code.value)
                && 100000 <= ParseNat(code.value) <= 999999
                && users == old(users)[uid := old(users)[uid].(pairingCode := code)]
                && notices == [Say(uid, "partnerInvite", old(users)[uid].language)]
    {
      if uid !in users {
        return None, [];
      }
      if !Commands.IsPrimary(users, uid) {
        return None, [Commands.Refusal(users, uid)];
      }
      var n: nat :| 100000 <= n <= 999999;
      PairingCodeShape(n);
      code := Some(NatToString(n));
      notices := [Say(uid, "partnerInvite", users[uid].language)];
      users := users[uid := users[uid].(pairingCode := code)];
    }

    /** `handleReminderChoice`. */
    method ReminderChoice(uid: UserId, data: string) returns (notices: seq<Notice>)
      requires Valid()
      modifies this
      ensures Valid()
      ensures cycles == old(cycles) && symptoms == old(symptoms) && nextCycleId == old(nextCycleId)
      ensures uid !in old(users) ==> users == old(users) && notices == []
      ensures uid in old(users) ==>
                var time := Commands.ReminderSetting(data);
                var lang := old(users)[uid].language;
                users == old(users)[uid := old(users)[uid].(reminderTime := time)]
                && notices == [Notice(uid, [Line("remindersUpdated", lang),
                                            Line(if time.Some? && time.value != "" then "remindersUpdatedStatusOn"
                                                 else "remindersStatusOff", lang)])]
    {
      if uid !in users {
        return [];
      }
      var lang := users[uid].language;
      var time := Commands.ReminderSetting(data);
      users := users[uid := users[uid].(reminderTime := time)];
      var status := if time.Some? && time.value != "" then "remindersUpdatedStatusOn" else "remindersStatusOff";
      notices := [Notice(uid, [Line("remindersUpdated", lang), Line(status, lang)])];
    }

    // --- Cycles (cycle_handler.js) ---

    /** The effect of `logPeriodStart` on a day number. */
    twostate predicate PeriodStarted(uid: UserId, day: int, new notices: seq<Notice>)
      reads this
    {
      && users == old(users) && symptoms == old(symptoms)
      && (uid !in old(users) ==> cycles == old(cycles) && nextCycleId == old(nextCycleId) && notices == [])
      && (uid in old(users) && OpenIndex(old(cycles), uid).Some? ==>
            cycles == old(cycles) && nextCycleId == old(nextCycleId)
            && notices == [Say(uid, "logStartFailActive", old(users)[uid].language)])
      && (uid in old(users) && OpenIndex(old(cycles), uid).None? ==>
            cycles == old(cycles) + [CycleRow(old(nextCycleId), uid, day, None)]
            && nextCycleId == old(nextCycleId) + 1
            && notices == [Say(uid, "logStartSuccess", old(users)[uid].language)]
                          + NotifyPartner(old(users), uid, "partnerNotificationPeriodStart"))
    }

    /** The effect of `logPeriodEnd` on a day number. Under the invariant the
        open cycle with the latest start is the only open one. */
    twostate predicate PeriodEnded(uid: UserId, day: int, new notices: seq<Notice>)
      reads this
    {
      && users == old(users) && symptoms == old(symptoms) && nextCycleId == old(nextCycleId)
      && (uid !in old(users) ==> cycles == old(cycles) && notices == [])
      && (uid in old(users) && OpenIndex(old(cycles), uid).None? ==>
            cycles == old(cycles) && notices == [Say(uid, "logEndFailNoActive", old(users)[uid].language)])
      && (uid in old(users) && OpenIndex(old(cycles), uid).Some? ==>
            cycles == Close(old(cycles), OpenIndex(old(cycles), uid).value, day)
            && notices == [Say(uid, "logEndSuccess", old(users)[uid].language)]
                          + NotifyPartner(old(users), uid, "partnerNotificationPeriodEnd"))
    }

    /** `logPeriodStart`: refused while a cycle is open. */
    method LogStart(uid: UserId, day: int) returns (notices: seq<Notice>)
      requires Valid()
      modifies this
      ensures Valid()
      ensures PeriodStarted(uid, day, notices)
    {
      if uid !in users {
        return [];
      }
      var lang := users[uid].language;
      if OpenIndex(cycles, uid).Some? {
        return [Say(uid, "logStartFailActive", lang)];
      }
      var row := CycleRow(nextCycleId, uid, day, None);
      OpenKeepsInvariant(cycles, row);
      cycles := cycles + [row];
      nextCycleId := nextCycleId + 1;
      notices := [Say(uid, "logStartSuccess", lang)] + NotifyPartner(users, uid, "partnerNotificationPeriodStart");
    }

    /** `logPeriodEnd`: closes the open cycle on the given day; nothing checks
        that the day is not before its start. */
    method LogEnd(uid: UserId, day: int) returns (notices: seq<Notice>)
      requires Valid()
      modifies this
      ensures Valid()
      ensures PeriodEnded(uid, day, notices)
    {
      if uid !in users {
        return [];
      }
      var lang := users[uid].language;
      var open := OpenIndex(cycles, uid);
      if open.None? {
        return [Say(uid, "logEndFailNoActive", lang)];
      }
      CloseKeepsInvariant(cycles, open.value, day);
      cycles := Close(cycles, open.value, day);
      notices := [Say(uid, "logEndSuccess", lang)] + NotifyPartner(users, uid, "partnerNotificationPeriodEnd");
    }

    /** `handleSymptomLogging`: the key after `log_symptom_` is recorded
        against the open cycle for today; a missing key fails the insert
        (the column is NOT NULL). */
    method LogSymptom(uid: UserId, data: string, today: int) returns (notices: seq<Notice>)
      requires Valid()
      modifies this
      ensures Valid()
      ensures users == old(users) && cycles == old(cycles) && nextCycleId == old(nextCycleId)
      ensures uid !in old(users) ==> symptoms == old(symptoms) && notices == []
      ensures uid in old(users) && OpenIndex(old(cycles), uid).None? ==>
                symptoms == old(symptoms) && notices == [Say(uid, "symptomsNeedActive", old(users)[uid].language)]
      ensures uid in old(users) && OpenIndex(old(cycles), uid).Some? ==>
                var key := Callbacks.AfterMarker(data, "log_symptom_");
                var lang := old(users)[uid].language;
                (key.None? ==> symptoms == old(symptoms) && notices == [])
                && (key.Some? ==>
                      symptoms == old(symptoms) + [SymptomRow(old(cycles)[OpenIndex(old(cycles), uid).value].id, key.value, today)]
                      && notices == [Say(uid, "symptomLoggedToast", lang), Say(uid, "symptomLogged", lang)]
                                    + NotifyPartner(old(users), uid, "partnerNotificationSymptom"))
    {
      if uid !in users {
        return [];
      }
      var lang := users[uid].language;
      var key := Callbacks.AfterMarker(data, "log_symptom_");
      var open := OpenIndex(cycles, uid);
      if open.None? {
        return [Say(uid, "symptomsNeedActive", lang)];
      }
      if key.None? {
        return [];
      }
      symptoms := symptoms + [SymptomRow(cycles[open.value].id, key.value, today)];
      notices := [Say(uid, "symptomLoggedToast", lang), Say(uid, "symptomLogged", lang)]
                 + NotifyPartner(users, uid, "partnerNotificationSymptom");
    }

    /** `handleLogSelection` on today's date: "today" logs at once, anything
        else opens the picker for the chosen type in the user's calendar. */
    method LogSelection(uid: UserId, data: string, today: Civil.Date, c: Jalali.Converter)
      returns (notices: seq<Notice>, keyboard: Option<seq<DatePicker.Row>>)
      requires Valid() && Civil.Valid(today) && Jalali.Lawful(c)
      modifies this
      ensures Valid()
      ensures var choice := Callbacks.DecodeLogSelect(data);
              && (uid !in old(users) ==> unchanged(this) && notices == [] && keyboard.None?)
              && (uid in old(users) && choice.how == Some("today") && choice.kind == Some("start") ==>
                    keyboard.None? && PeriodStarted(uid, Civil.DayNumber(today), notices))
              && (uid in old(users) && choice.how == Some("today") && choice.kind != Some("start") ==>
                    keyboard.None? && PeriodEnded(uid, Civil.DayNumber(today), notices))
              && (uid in old(users) && choice.how != Some("today") ==>
                    unchanged(this)
                    && notices == [Say(uid, "calendarSelectDate", old(users)[uid].language)]
                    && keyboard.Some?
                    && DatePicker.IsCalendar(keyboard.value, Callbacks.Shown(choice.kind), old(users)[uid].calendar, today, c))
    {
      var choice := Callbacks.DecodeLogSelect(data);
      if uid !in users {
        return [], None;
      }
      if choice.how == Some("today") {
        keyboard := None;
        if choice.kind == Some("start") {
          notices := LogStart(uid, Civil.DayNumber(today));
        } else {
          notices := LogEnd(uid, Civil.DayNumber(today));
        }
      } else {
        var grid := DatePicker.GenerateCalendar(Callbacks.Shown(choice.kind), users[uid].calendar, today, c);
        keyboard := Some(grid);
        notices := [Say(uid, "calendarSelectDate", users[uid].language)];
      }
    }

    /** `handleCalendarNav`: the same picker a month back or forward. A date
        part that is not a date makes the handler fail. */
    method CalendarNav(uid: UserId, data: string, c: Jalali.Converter)
      returns (notices: seq<Notice>, keyboard: Option<seq<DatePicker.Row>>)
      requires Jalali.Lawful(c)
      ensures uid !in users || DatePicker.NavTarget(data).None? ==> notices == [] && keyboard.None?
      ensures uid in users && DatePicker.NavTarget(data).Some? ==>
                var (kind, pref, date) := DatePicker.NavTarget(data).value;
                notices == [Say(uid, "calendarSelectDate", users[uid].language)]
                && keyboard.Some? && DatePicker.IsCalendar(keyboard.value, kind, pref, date, c)
    {
      if uid !in users {
        return [], None;
      }
      var target := DatePicker.NavTarget(data);
      if target.None? {
        return [], None;
      }
      var (kind, pref, date) := target.value;
      var grid := DatePicker.GenerateCalendar(kind, pref, date, c);
      keyboard := Some(grid);
      notices := [Say(uid, "calendarSelectDate", users[uid].language)];
    }

    /** `handleDateSelection`: a picked day logs a start for the `start`
        type and an end for anything else. */
    method DateSelection(uid: UserId, data: string) returns (notices: seq<Notice>)
      requires Valid()
      modifies this
      ensures Valid()
      ensures var sel := Callbacks.DecodeSelect(data);
              var day := if sel.date.Some? then Civil.ParseIso(sel.date.value) else None;
              && (day.None? ==> unchanged(this) && notices == [])
              && (day.Some? && sel.kind == Some("start") ==> PeriodStarted(uid, Civil.DayNumber(day.value), notices))
              && (day.Some? && sel.kind != Some("start") ==> PeriodEnded(uid, Civil.DayNumber(day.value), notices))
    {
      var sel := Callbacks.DecodeSelect(data);
      var day := if sel.date.Some? then Civil.ParseIso(sel.date.value) else None;
      if day.None? {
        return [];
      }
      if sel.kind == Some("start") {
        notices := LogStart(uid, Civil.DayNumber(day.value));
      } else {
        notices := LogEnd(uid, Civil.DayNumber(day.value));
      }
    }

    /** `handleSeeding`: replaces the user's cycles by three closed ones
        going back from today. Symptoms stay, attached to cycle ids no
        longer in the table. */
    method Seed(uid: UserId, today: int) returns (notices: seq<Notice>)
      requires Valid()
      modifies this
      ensures Valid()
      ensures users == old(users) && symptoms == old(symptoms)
      ensures !Commands.IsPrimary(old(users), uid) ==>
                cycles == old(cycles) && nextCycleId == old(nextCycleId) && notices == [Commands.Refusal(old(users), uid)]
      ensures Commands.IsPrimary(old(users), uid) ==>
                cycles == Without(old(cycles), uid) + Seeded(uid, today, old(nextCycleId), SeedPlan)
                && nextCycleId == old(nextCycleId) + |SeedPlan|
                && notices == [Say(uid, "seedSuccess", old(users)[uid].language)]
    {
      if !Commands.IsPrimary(users, uid) {
        return [Commands.Refusal(users, uid)];
      }
      WithoutKeepsInvariant(cycles, uid);
      cycles := Without(cycles, uid);
      InsertSeeded(uid, today, SeedPlan);
      notices := [Say(uid, "seedSuccess", users[uid].language)];
    }

    /** The `for` loop of `handleSeeding`: one closed cycle per plan step,
        each `period` days long, the next one `gap` days earlier. */
    method InsertSeeded(uid: UserId, today: int, plan: seq<(int, int)>)
      requires Valid()
      modifies this
      ensures Valid()
      ensures users == old(users) && symptoms == old(symptoms)
      ensures cycles == old(cycles) + Seeded(uid, today, old(nextCycleId), plan)
      ensures nextCycleId == old(nextCycleId) + |plan|
    {
      var base := cycles;
      var first := nextCycleId;
      var currentStart := today - 28;
      for k := 0 to |plan|
        invariant cycles == base + Seeded(uid, today, first, plan[..k])
        invariant currentStart == SeedStart(today, plan[..k])
        invariant nextCycleId == first + k
        invariant users == old(users) && symptoms == old(symptoms)
        invariant Valid()
      {
        var (period, gap) := plan[k];
        var row := CycleRow(nextCycleId, uid, currentStart, Some(currentStart + period - 1));
        SeedStep(base, uid, today, first, plan, k, currentStart);
        AppendClosedKeepsInvariant(cycles, [row]);
        cycles := cycles + [row];
        nextCycleId := nextCycleId + 1;
        currentStart := currentStart - gap;
      }
      assert plan[..|plan|] == plan;
    }
  }
}
