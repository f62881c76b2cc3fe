/** The rows of the three tables, the queries the handlers run on them, and
    the pure parts of the state changes (pairing, opening and closing a
    cycle, seeding), with the invariants they keep. */
module Schema {
  import opened Wrappers
  import Prediction

  /** A Telegram user id, the key of `users`. */
  type UserId = int

  datatype Role = Primary | Partner

  /** A row of `users`, without its key. */
  datatype User = User(
    firstName: string,
    role: Option<Role>,
    language: string,
    calendar: string,
    partnerId: Option<UserId>,
    pairingCode: Option<string>,
    reminderTime: Option<string>)

  /** `INSERT INTO users (telegram_id, first_name)`: the column defaults. */
  function NewUser(firstName: string): (u: User)
    ensures u.role.None? && u.language == "en" && u.calendar == "gregorian"
    ensures u.partnerId.None? && u.pairingCode.None? && u.reminderTime.None?
  {
    User(firstName, None, "en", "gregorian", None, None, None)
  }

  /** A row of `cycles`: start and end as day numbers; no end while open. */
  datatype CycleRow = CycleRow(id: nat, userId: UserId, start: int, end: Option<int>)

  /** A row of `symptoms`. */
  datatype SymptomRow = SymptomRow(cycleId: nat, name: string, loggedAt: int)

  /** One catalog lookup `t(key, lang)` of a message. */
  datatype Line = Line(key: string, lang: string)

  /** An outgoing message (sent, edited in place or shown as a callback
      answer): its recipient and the lookups it is made of, in order. */
  datatype Notice = Notice(to: UserId, lines: seq<Line>)

  function Say(to: UserId, key: string, lang: string): Notice {
    Notice(to, [Line(key, lang)])
  }

  /** `user ? user.language : 'en'`. */
  function LangOr(users: map<UserId, User>, uid: UserId): (lang: string)
    ensures uid in users ==> lang == users[uid].language
    ensures uid !in users ==> lang == "en"
  {
    if uid in users then users[uid].language else "en"
  }

  // --- Cycles ---

  predicate IsOpenOf(r: CycleRow, uid: UserId) {
    r.userId == uid && r.end.None?
  }

  /** The invariant of the cycle repository: a user has at most one open cycle. */
  predicate AtMostOneOpen(cycles: seq<CycleRow>) {
    forall i, j ::
      (0 <= i < |cycles| && 0 <= j < |cycles| && cycles[i].end.None? && cycles[j].end.None?
       && cycles[i].userId == cycles[j].userId) ==> i == j
  }

  /** `SELECT ... FROM cycles WHERE user_id = ? AND end_date IS NULL`: the
      first open cycle of the user, by table order. */
  function OpenIndex(cycles: seq<CycleRow>, uid: UserId): (r: Option<nat>)
    ensures r.Some? ==> r.value < |cycles| && IsOpenOf(cycles[r.value], uid)
    ensures r.Some? ==> forall j :: 0 <= j < r.value ==> !IsOpenOf(cycles[j], uid)
    ensures r.None? <==> forall j :: 0 <= j < |cycles| ==> !IsOpenOf(cycles[j], uid)
  {
    if |cycles| == 0 then None
    else if IsOpenOf(cycles[0], uid) then Some(0)
    else match OpenIndex(cycles[1..], uid)
      case None => None
      case Some(k) => Some(k + 1)
  }

  /** Under the invariant the open cycle is unique, so the first open cycle
      (symptom logging) and the open cycle with the latest start (`logPeriodEnd`)
      are the same row. */
  lemma OpenIsUnique(cycles: seq<CycleRow>, uid: UserId, j: nat)
    requires AtMostOneOpen(cycles) && j < |cycles| && IsOpenOf(cycles[j], uid)
    ensures OpenIndex(cycles, uid) == Some(j)
  {
  }

  /** Opening a cycle for a user with none open keeps the invariant. */
  lemma OpenKeepsInvariant(cycles: seq<CycleRow>, row: CycleRow)
    requires AtMostOneOpen(cycles) && OpenIndex(cycles, row.userId).None?
    ensures AtMostOneOpen(cycles + [row])
  {
  }

  /** Setting an end date keeps the invariant. */
  lemma CloseKeepsInvariant(cycles: seq<CycleRow>, i: nat, day: int)
    requires AtMostOneOpen(cycles) && i < |cycles|
    ensures AtMostOneOpen(cycles[i := cycles[i].(end := Some(day))])
  {
  }

  /** `SELECT * FROM cycles WHERE user_id = ? ORDER BY start_date DESC LIMIT 1`:
      a cycle of the user with the latest start; the first such in table
      order where several share it. */
  function LatestIndex(cycles: seq<CycleRow>, uid: UserId): (r: Option<nat>)
    ensures r.Some? ==> r.value < |cycles| && cycles[r.value].userId == uid
    ensures r.Some? ==> forall j :: 0 <= j < |cycles| && cycles[j].userId == uid ==> cycles[j].start <= cycles[r.value].start
    ensures r.None? <==> forall j :: 0 <= j < |cycles| ==> cycles[j].userId != uid
    decreases |cycles|
  {
    if |cycles| == 0 then None
    else
      var rest := LatestIndex(cycles[..|cycles| - 1], uid);
      var last := cycles[|cycles| - 1];
      if last.userId != uid then rest
      else match rest
        case None => Some(|cycles| - 1)
        case Some(k) => if last.start > cycles[k].start then Some(|cycles| - 1) else Some(k)
  }

  /** The period a row contributes to a user's history: its own, when it is
      the user's and closed. */
  function PeriodOf(r: CycleRow, uid: UserId): (ps: seq<Prediction.Period>)
    ensures |ps| <= 1
  {
    if r.userId == uid && r.end.Some? then [Prediction.Period(r.start, r.end.value)] else []
  }

  /** The closed cycles of a user, in table order. */
  function ClosedPeriods(cycles: seq<CycleRow>, uid: UserId): (ps: seq<Prediction.Period>)
    ensures |ps| <= |cycles|
  {
    if |cycles| == 0 then []
    else ClosedPeriods(cycles[..|cycles| - 1], uid) + PeriodOf(cycles[|cycles| - 1], uid)
  }

  function InsertDesc(p: Prediction.Period, ps: seq<Prediction.Period>): (r: seq<Prediction.Period>)
    requires Prediction.SortedDesc(ps)
    ensures Prediction.SortedDesc(r) && multiset(r) == multiset(ps) + multiset{p}
  {
    if |ps| == 0 then [p]
    else if p.start >= ps[0].start then
      ConsSorted(p, ps);
      [p] + ps
    else
      SortedTail(ps);
      var rest := InsertDesc(p, ps[1..]);
      RestBelow(p, ps, rest);
      ConsSorted(ps[0], rest);
      ConsMultiset(ps, rest, p);
      [ps[0]] + rest
  }

  lemma SortedTail(ps: seq<Prediction.Period>)
    requires |ps| > 0 && Prediction.SortedDesc(ps)
    ensures Prediction.SortedDesc(ps[1..])
  {
  }

  /** What is inserted behind the head starts no later than the head. */
  lemma RestBelow(p: Prediction.Period, ps: seq<Prediction.Period>, rest: seq<Prediction.Period>)
    requires |ps| > 0 && Prediction.SortedDesc(ps) && p.start < ps[0].start
    requires multiset(rest) == multiset(ps[1..]) + multiset{p}
    ensures forall x :: x in rest ==> x.start <= ps[0].start
  {
    forall x | x in rest ensures x.start <= ps[0].start {
      assert x in multiset(rest);
      if x != p {
        assert x in multiset(ps[1..]);
      }
    }
  }

  /** A head starting no earlier than the rest keeps the order. */
  lemma ConsSorted(a: Prediction.Period, rest: seq<Prediction.Period>)
    requires Prediction.SortedDesc(rest)
    requires forall x :: x in rest ==> x.start <= a.start
    ensures Prediction.SortedDesc([a] + rest)
  {
    var r := [a] + rest;
    forall i, j | 0 <= i < j < |r| ensures r[i].start >= r[j].start {
      assert r[j] == rest[j - 1];
      if i > 0 {
        assert r[i] == rest[i - 1];
      } else {
        assert r[j] in rest;
      }
    }
  }

  lemma ConsMultiset(ps: seq<Prediction.Period>, rest: seq<Prediction.Period>, p: Prediction.Period)
    requires |ps| > 0 && multiset(rest) == multiset(ps[1..]) + multiset{p}
    ensures multiset([ps[0]] + rest) == multiset(ps) + multiset{p}
  {
    assert ps == [ps[0]] + ps[1..];
  }

  /** `ORDER BY start_date DESC`: a permutation sorted by start, latest first. */
  function SortDesc(ps: seq<Prediction.Period>): (r: seq<Prediction.Period>)
    ensures Prediction.SortedDesc(r) && multiset(r) == multiset(ps)
  {
    if |ps| == 0 then []
    else
      assert ps == [ps[0]] + ps[1..];
      InsertDesc(ps[0], SortDesc(ps[1..]))
  }

  /** A list already in order comes back as it is. */
  lemma {:induction false} SortDescSorted(ps: seq<Prediction.Period>)
    requires Prediction.SortedDesc(ps)
    ensures SortDesc(ps) == ps
  {
    if |ps| > 0 {
      var tail := ps[1..];
      SortedTail(ps);
      SortDescSorted(tail);
      assert SortDesc(ps) == InsertDesc(ps[0], SortDesc(tail));
      InsertFront(ps[0], tail);
      assert ps == [ps[0]] + tail;
    }
  }

  /** A period starting no earlier than every other goes in front. */
  lemma InsertFront(p: Prediction.Period, ps: seq<Prediction.Period>)
    requires Prediction.SortedDesc(ps) && (|ps| == 0 || p.start >= ps[0].start)
    ensures InsertDesc(p, ps) == [p] + ps
  {
  }

  /** The closed cycles of `handleHistory`, latest start first. */
  function ClosedDesc(cycles: seq<CycleRow>, uid: UserId): seq<Prediction.Period> {
    SortDesc(ClosedPeriods(cycles, uid))
  }

  /** `DELETE FROM cycles WHERE user_id = ?`. */
  function Without(cycles: seq<CycleRow>, uid: UserId): (r: seq<CycleRow>)
    ensures forall i :: 0 <= i < |r| ==> r[i].userId != uid && r[i] in cycles
    ensures forall i :: 0 <= i < |cycles| && cycles[i].userId != uid ==> cycles[i] in r
  {
    if |cycles| == 0 then []
    else
      var init := Without(cycles[..|cycles| - 1], uid);
      var last := cycles[|cycles| - 1];
      assert forall i :: 0 <= i < |cycles| - 1 ==> cycles[i] == cycles[..|cycles| - 1][i];
      if last.userId == uid then init else init + [last]
  }

  lemma {:induction false} WithoutHasNone(cycles: seq<CycleRow>, uid: UserId)
    ensures ClosedPeriods(Without(cycles, uid), uid) == []
  {
    if |cycles| > 0 {
      var init := Without(cycles[..|cycles| - 1], uid);
      WithoutHasNone(cycles[..|cycles| - 1], uid);
      var w := Without(cycles, uid);
      if w != init {
        assert w[..|w| - 1] == init;
      }
    }
  }

  lemma {:induction false} WithoutKeepsInvariant(cycles: seq<CycleRow>, uid: UserId)
    requires AtMostOneOpen(cycles)
    ensures AtMostOneOpen(Without(cycles, uid))
  {
    if |cycles| > 0 {
      var init := cycles[..|cycles| - 1];
      WithoutKeepsInvariant(init, uid);
      var w := Without(cycles, uid);
      var wi := Without(init, uid);
      var last := cycles[|cycles| - 1];
      if last.userId != uid && last.end.None? {
        forall k | 0 <= k < |wi| ensures !IsOpenOf(wi[k], last.userId) {
          var m :| 0 <= m < |init| && init[m] == wi[k];
          assert cycles[m] == init[m];
        }
        OpenKeepsInvariant(wi, last);
      }
    }
  }

  /** Appending closed cycles keeps the invariant. */
  lemma {:induction false} AppendClosedKeepsInvariant(cycles: seq<CycleRow>, more: seq<CycleRow>)
    requires AtMostOneOpen(cycles) && forall k :: 0 <= k < |more| ==> more[k].end.Some?
    ensures AtMostOneOpen(cycles + more)
  {
  }

  lemma {:induction false} ClosedPeriodsAppend(a: seq<CycleRow>, b: seq<CycleRow>, uid: UserId)
    ensures ClosedPeriods(a + b, uid) == ClosedPeriods(a, uid) + ClosedPeriods(b, uid)
    decreases |b|
  {
    if |b| == 0 {
      AppendEmpty(a, b);
    } else {
      var init, last := b[..|b| - 1], b[|b| - 1];
      ClosedPeriodsAppend(a, init, uid);
      AppendInit(a, b);
      ClosedPeriodsLast(a + b, uid);
      ClosedPeriodsLast(b, uid);
      AppendAssoc(ClosedPeriods(a, uid), ClosedPeriods(init, uid), PeriodOf(last, uid));
    }
  }

  /** The definition of ClosedPeriods, one row at a time. */
  lemma ClosedPeriodsLast(cycles: seq<CycleRow>, uid: UserId)
    requires |cycles| > 0
    ensures ClosedPeriods(cycles, uid) == ClosedPeriods(cycles[..|cycles| - 1], uid) + PeriodOf(cycles[|cycles| - 1], uid)
  {
  }

  lemma AppendEmpty<T>(a: seq<T>, b: seq<T>)
    requires |b| == 0
    ensures a + b == a
  {
  }

  lemma AppendInit<T>(a: seq<T>, b: seq<T>)
    requires |b| > 0
    ensures (a + b)[..|a + b| - 1] == a + b[..|b| - 1] && (a + b)[|a + b| - 1] == b[|b| - 1]
  {
  }

  lemma AppendAssoc<T>(a: seq<T>, b: seq<T>, c: seq<T>)
    ensures (a + b) + c == a + (b + c)
  {
  }

  /** `UPDATE cycles SET end_date = ? WHERE id = ?` on row i. */
  function Close(cycles: seq<CycleRow>, i: nat, day: int): (r: seq<CycleRow>)
    requires i < |cycles|
    ensures |r| == |cycles|
  {
    cycles[i := cycles[i].(end := Some(day))]
  }

  /** Closing the user's open cycle adds exactly one closed period, from its
      start to the given day, to the user's history. */
  lemma {:induction false} CloseAddsPeriod(cycles: seq<CycleRow>, uid: UserId, i: nat, day: int)
    requires i < |cycles| && IsOpenOf(cycles[i], uid)
    ensures multiset(ClosedPeriods(Close(cycles, i, day), uid))
         == multiset(ClosedPeriods(cycles, uid)) + multiset{Prediction.Period(cycles[i].start, day)}
  {
    var n := |cycles|;
    var init, last := cycles[..n - 1], cycles[n - 1];
    var after := Close(cycles, i, day);
    var p := Prediction.Period(cycles[i].start, day);
    ClosedPeriodsLast(cycles, uid);
    if i == n - 1 {
      CloseLast(cycles, day);
      ClosedPeriodsSnoc(after, init, last.(end := Some(day)), uid);
      assert PeriodOf(last.(end := Some(day)), uid) == [p];
      assert PeriodOf(last, uid) == [];
    } else {
      var closedInit := Close(init, i, day);
      CloseEarlier(cycles, i, day);
      ClosedPeriodsSnoc(after, closedInit, last, uid);
      assert init[i] == cycles[i];
      CloseAddsPeriod(init, uid, i, day);
      MultisetSnoc(ClosedPeriods(closedInit, uid), ClosedPeriods(init, uid), PeriodOf(last, uid), p);
    }
  }

  /** A table whose last row is r holds the periods of the rows before it and r's own. */
  lemma ClosedPeriodsSnoc(cycles: seq<CycleRow>, init: seq<CycleRow>, r: CycleRow, uid: UserId)
    requires |cycles| > 0 && cycles[..|cycles| - 1] == init && cycles[|cycles| - 1] == r
    ensures ClosedPeriods(cycles, uid) == ClosedPeriods(init, uid) + PeriodOf(r, uid)
  {
  }

  lemma CloseLast(cycles: seq<CycleRow>, day: int)
    requires |cycles| > 0
    ensures var after := Close(cycles, |cycles| - 1, day);
            |after| > 0 && after[..|after| - 1] == cycles[..|cycles| - 1]
            && after[|after| - 1] == cycles[|cycles| - 1].(end := Some(day))
  {
  }

  lemma CloseEarlier(cycles: seq<CycleRow>, i: nat, day: int)
    requires i < |cycles| - 1
    ensures var after := Close(cycles, i, day);
            |after| > 0 && after[..|after| - 1] == Close(cycles[..|cycles| - 1], i, day)
            && after[|after| - 1] == cycles[|cycles| - 1]
  {
  }

  lemma MultisetSnoc(xs: seq<Prediction.Period>, ys: seq<Prediction.Period>, tail: seq<Prediction.Period>, p: Prediction.Period)
    requires multiset(xs) == multiset(ys) + multiset{p}
    ensures multiset(xs + tail) == multiset(ys + tail) + multiset{p}
  {
  }

  /** Logging a start and then an end adds that one period to the user's
      history. */
  lemma StartThenEnd(cycles: seq<CycleRow>, id: nat, uid: UserId, start: int, end: int)
    ensures var started := cycles + [CycleRow(id, uid, start, None)];
            ClosedPeriods(Close(started, |cycles|, end), uid) == ClosedPeriods(cycles, uid) + [Prediction.Period(start, end)]
  {
    var started := cycles + [CycleRow(id, uid, start, None)];
    assert Close(started, |cycles|, end) == cycles + [CycleRow(id, uid, start, Some(end))];
    assert (cycles + [CycleRow(id, uid, start, Some(end))])[..|cycles|] == cycles;
  }

  /** Closing one user's cycle leaves every other user's history as it was. */
  lemma {:induction false} CloseLeavesOthers(cycles: seq<CycleRow>, uid: UserId, i: nat, day: int, other: UserId)
    requires i < |cycles| && IsOpenOf(cycles[i], uid) && other != uid
    ensures ClosedPeriods(Close(cycles, i, day), other) == ClosedPeriods(cycles, other)
  {
    var n := |cycles|;
    var init := cycles[..n - 1];
    var after := Close(cycles, i, day);
    if i == n - 1 {
      assert after[..n - 1] == init;
    } else {
      assert after[..n - 1] == Close(init, i, day);
      assert after[n - 1] == cycles[n - 1];
      CloseLeavesOthers(init, uid, i, day, other);
    }
  }

  /** Deleting one user's cycles leaves every other user's history as it was. */
  lemma {:induction false} WithoutLeavesOthers(cycles: seq<CycleRow>, uid: UserId, other: UserId)
    requires other != uid
    ensures ClosedPeriods(Without(cycles, uid), other) == ClosedPeriods(cycles, other)
  {
    if |cycles| > 0 {
      var init := cycles[..|cycles| - 1];
      var last := cycles[|cycles| - 1];
      WithoutLeavesOthers(init, uid, other);
      if last.userId != uid {
        ClosedPeriodsAppend(Without(init, uid), [last], other);
        assert ([] + [last])[..0] == [];
      }
    }
  }

  /** The rows of one user, in table order. */
  function RowsOf(cycles: seq<CycleRow>, u: UserId): (r: seq<CycleRow>)
    ensures forall i :: 0 <= i < |r| ==> r[i].userId == u && r[i] in cycles
    ensures forall i :: 0 <= i < |cycles| && cycles[i].userId == u ==> cycles[i] in r
  {
    if |cycles| == 0 then []
    else
      var init := RowsOf(cycles[..|cycles| - 1], u);
      var last := cycles[|cycles| - 1];
      assert forall i :: 0 <= i < |cycles| - 1 ==> cycles[i] == cycles[..|cycles| - 1][i];
      if last.userId == u then init + [last] else init
  }

  /** Deleting one user's cycles keeps every other user's rows, in order. */
  lemma {:induction false} WithoutKeepsRows(cycles: seq<CycleRow>, uid: UserId, other: UserId)
    requires other != uid
    ensures RowsOf(Without(cycles, uid), other) == RowsOf(cycles, other)
  {
    if |cycles| > 0 {
      var init := cycles[..|cycles| - 1];
      var last := cycles[|cycles| - 1];
      WithoutKeepsRows(init, uid, other);
      var wi := Without(init, uid);
      if last.userId != uid {
        assert (wi + [last])[..|wi|] == wi;
      }
    }
  }

  /** Another user's open cycle survives the delete: it is still found, and
      it is the same row. */
  lemma WithoutKeepsOpen(cycles: seq<CycleRow>, uid: UserId, other: UserId)
    requires AtMostOneOpen(cycles) && other != uid
    ensures OpenIndex(Without(cycles, uid), other).Some? <==> OpenIndex(cycles, other).Some?
    ensures OpenIndex(cycles, other).Some? ==>
              Without(cycles, uid)[OpenIndex(Without(cycles, uid), other).value] == cycles[OpenIndex(cycles, other).value]
  {
    var w := Without(cycles, uid);
    WithoutKeepsInvariant(cycles, uid);
    match OpenIndex(cycles, other)
    case Some(j) =>
      assert cycles[j] in w;
      var k :| 0 <= k < |w| && w[k] == cycles[j];
      OpenIsUnique(w, other, k);
    case None =>
      forall k | 0 <= k < |w| ensures !IsOpenOf(w[k], other) {
        assert w[k] in cycles;
      }
  }

  // --- Seeding ---

  /** The plan of `handleSeeding`, latest cycle first: period length and the
      gap back to the start of the cycle before. */
  const SeedPlan: seq<(int, int)> := [(5, 28), (4, 29), (5, 27)]

  /** Where the next seeded cycle starts after the given plan steps: 28 days
      before today, then back by each gap. */
  function SeedStart(today: int, plan: seq<(int, int)>): int {
    if |plan| == 0 then today - 28 else SeedStart(today, plan[..|plan| - 1]) - plan[|plan| - 1].1
  }

  /** The rows the seeding loop inserts for the given plan steps. */
  function Seeded(uid: UserId, today: int, firstId: nat, plan: seq<(int, int)>): (rows: seq<CycleRow>)
    ensures |rows| == |plan|
    ensures forall k :: 0 <= k < |rows| ==> rows[k].userId == uid && rows[k].end.Some? && rows[k].id == firstId + k
  {
    if |plan| == 0 then []
    else
      var init := plan[..|plan| - 1];
      var s := SeedStart(today, init);
      Seeded(uid, today, firstId, init) + [CycleRow(firstId + |init|, uid, s, Some(s + plan[|plan| - 1].0 - 1))]
  }

  /** One step of the seeding loop: the row for step k extends the rows of
      the steps before it, and the start moves back by that step's gap. */
  lemma SeedStep(base: seq<CycleRow>, uid: UserId, today: int, firstId: nat, plan: seq<(int, int)>, k: nat, start: int)
    requires k < |plan| && start == SeedStart(today, plan[..k])
    ensures var row := CycleRow(firstId + k, uid, start, Some(start + plan[k].0 - 1));
            (base + Seeded(uid, today, firstId, plan[..k])) + [row] == base + Seeded(uid, today, firstId, plan[..k + 1])
            && start - plan[k].1 == SeedStart(today, plan[..k + 1])
  {
    var row := CycleRow(firstId + k, uid, start, Some(start + plan[k].0 - 1));
    assert plan[..k + 1][..k] == plan[..k];
    assert Seeded(uid, today, firstId, plan[..k + 1]) == Seeded(uid, today, firstId, plan[..k]) + [row];
    AppendAssoc(base, Seeded(uid, today, firstId, plan[..k]), [row]);
  }

  /** The three seeded cycles: days -28..-24, -56..-53 and -85..-81 from today. */
  lemma SeededRows(uid: UserId, today: int, firstId: nat)
    ensures Seeded(uid, today, firstId, SeedPlan)
         == [CycleRow(firstId, uid, today - 28, Some(today - 24)),
             CycleRow(firstId + 1, uid, today - 56, Some(today - 53)),
             CycleRow(firstId + 2, uid, today - 85, Some(today - 81))]
  {
    var p1, p2 := SeedPlan[..1], SeedPlan[..2];
    assert p1[..0] == [] && p2[..1] == p1 && SeedPlan[..2] == p2;
    assert SeedStart(today, p1) == today - 56;
    assert SeedStart(today, p2) == today - 85;
    assert Seeded(uid, today, firstId, p1) == [CycleRow(firstId, uid, today - 28, Some(today - 24))];
    assert Seeded(uid, today, firstId, p2)
        == [CycleRow(firstId, uid, today - 28, Some(today - 24)), CycleRow(firstId + 1, uid, today - 56, Some(today - 53))];
  }

  /** The seeded rows are the user's closed periods, in the order inserted. */
  lemma SeededPeriods(uid: UserId, today: int, firstId: nat)
    ensures ClosedPeriods(Seeded(uid, today, firstId, SeedPlan), uid)
         == [Prediction.Period(today - 28, today - 24), Prediction.Period(today - 56, today - 53),
             Prediction.Period(today - 85, today - 81)]
  {
    var rows := Seeded(uid, today, firstId, SeedPlan);
    SeededRows(uid, today, firstId);
    var ps := [Prediction.Period(today - 28, today - 24), Prediction.Period(today - 56, today - 53),
               Prediction.Period(today - 85, today - 81)];
    assert rows[..1][..0] == [] && rows[..2][..1] == rows[..1] && rows[..3] == rows;
    assert ClosedPeriods(rows[..1], uid) == ps[..1];
    assert ClosedPeriods(rows[..2], uid) == ps[..2];
  }

  /** Replacing a user's cycles by a block of their own rows makes the
      block's periods, when already in order, the user's whole history. */
  lemma ReplacedHistory(cycles: seq<CycleRow>, rows: seq<CycleRow>, uid: UserId)
    requires Prediction.SortedDesc(ClosedPeriods(rows, uid))
    ensures ClosedDesc(Without(cycles, uid) + rows, uid) == ClosedPeriods(rows, uid)
  {
    WithoutHasNone(cycles, uid);
    ClosedPeriodsAppend(Without(cycles, uid), rows, uid);
    assert ClosedPeriods(Without(cycles, uid) + rows, uid) == ClosedPeriods(rows, uid);
    SortDescSorted(ClosedPeriods(rows, uid));
  }

  /** After seeding, the user's history is exactly the three seeded periods,
      latest first. */
  lemma SeededHistory(cycles: seq<CycleRow>, uid: UserId, today: int, firstId: nat)
    ensures ClosedDesc(Without(cycles, uid) + Seeded(uid, today, firstId, SeedPlan), uid)
         == [Prediction.Period(today - 28, today - 24), Prediction.Period(today - 56, today - 53),
             Prediction.Period(today - 85, today - 81)]
  {
    SeededPeriods(uid, today, firstId);
    ReplacedHistory(cycles, Seeded(uid, today, firstId, SeedPlan), uid);
  }

  /** Seeding leaves every other user's history as it was. */
  lemma SeedingLeavesOthers(cycles: seq<CycleRow>, uid: UserId, today: int, firstId: nat, other: UserId)
    requires other != uid
    ensures ClosedPeriods(Without(cycles, uid) + Seeded(uid, today, firstId, SeedPlan), other)
         == ClosedPeriods(cycles, other)
  {
    var rows := Seeded(uid, today, firstId, SeedPlan);
    SeededRows(uid, today, firstId);
    WithoutLeavesOthers(cycles, uid, other);
    ClosedPeriodsAppend(Without(cycles, uid), rows, other);
    assert rows[..1][..0] == [] && rows[..2][..1] == rows[..1] && rows[..3] == rows;
    assert ClosedPeriods(rows[..1], other) == [];
    assert ClosedPeriods(rows[..2], other) == [];
  }

  /** The seeded history forecasts a 5-day period, a 29-day cycle and the
      next start tomorrow. */
  lemma SeededForecast(today: int)
    ensures var ps := [Prediction.Period(today - 28, today - 24), Prediction.Period(today - 56, today - 53),
                       Prediction.Period(today - 85, today - 81)];
            Prediction.Expected(ps) == Prediction.Forecast(ps, 5, 29, today + 1, 3)
  {
    var ps := [Prediction.Period(today - 28, today - 24), Prediction.Period(today - 56, today - 53),
               Prediction.Period(today - 85, today - 81)];
    var asc := Prediction.Reverse(ps);
    assert asc == [ps[2], ps[1], ps[0]];
    assert asc[..1][..0] == [] && asc[..2][..1] == asc[..1] && asc[..3] == asc;
    assert Prediction.SumLengths(asc[..1]) == 5;
    assert Prediction.SumLengths(asc[..2]) == 9;
    assert Prediction.SumLengths(asc) == 14;
    assert Prediction.RoundDiv(14, 3) == 5;
    assert Prediction.RoundDiv(57, 2) == 29;
  }

  // --- Users ---

  /** `SELECT * FROM users WHERE pairing_code = ? AND role = 'primary'`: every
      row the lookup can return. */
  function Holders(users: map<UserId, User>, code: string): set<UserId> {
    set u | u in users && users[u].pairingCode == Some(code) && users[u].role == Some(Primary)
  }

  /** A non-empty set of users has a member to pick. */
  lemma Inhabited(s: set<UserId>)
    requires s != {}
    ensures exists u :: u in s
  {
    if forall u :: u !in s {
      assert false;
    }
  }

  /** The two updates of a successful pairing: the joiner is inserted or
      updated as the primary's partner in the primary's language, then the
      primary points at the joiner and gives up the code. */
  function Pair(users: map<UserId, User>, joiner: UserId, joinerName: string, primary: UserId): map<UserId, User>
    requires primary in users
  {
    var lang := users[primary].language;
    var row :=
      if joiner in users then users[joiner].(role := Some(Partner), partnerId := Some(primary), language := lang)
      else User(joinerName, Some(Partner), lang, "gregorian", Some(primary), None, None);
    var step := users[joiner := row];
    step[primary := step[primary].(partnerId := Some(joiner), pairingCode := None)]
  }

  /** Pairing two distinct users links them both ways; the joiner takes the
      partner role and the primary's language, and the primary's code is gone. */
  lemma PairLinks(users: map<UserId, User>, joiner: UserId, name: string, primary: UserId)
    requires primary in users && primary in Holders(users, users[primary].pairingCode.GetOr("")) && joiner != primary
    ensures var after := Pair(users, joiner, name, primary);
            joiner in after && primary in after
            && after[joiner].partnerId == Some(primary) && after[primary].partnerId == Some(joiner)
            && after[joiner].role == Some(Partner) && after[primary].role == Some(Primary)
            && after[joiner].language == users[primary].language
            && after[primary].pairingCode.None?
  {
  }

  /** A joiner without a row gets a fresh one: their name, the calendar
      default and nothing else set; a joiner with a row keeps its other fields. */
  lemma PairUpsert(users: map<UserId, User>, joiner: UserId, name: string, primary: UserId)
    requires primary in users && joiner != primary
    ensures var after := Pair(users, joiner, name, primary);
            (joiner !in users ==> after[joiner] == User(name, Some(Partner), users[primary].language, "gregorian", Some(primary), None, None))
            && (joiner in users ==> after[joiner] == users[joiner].(role := Some(Partner), partnerId := Some(primary), language := users[primary].language))
  {
  }

  /** Pairing touches only the joiner's and the primary's rows. */
  lemma PairFrames(users: map<UserId, User>, joiner: UserId, name: string, primary: UserId)
    requires primary in users
    ensures var after := Pair(users, joiner, name, primary);
            after.Keys == users.Keys + {joiner}
            && forall u :: u in users && u != joiner && u != primary ==> after[u] == users[u]
  {
  }

  /** After a pairing neither of the two holds any code as a primary; every
      other holder keeps it. */
  lemma PairConsumesCode(users: map<UserId, User>, joiner: UserId, name: string, primary: UserId, code: string)
    requires primary in users
    ensures Holders(Pair(users, joiner, name, primary), code) == Holders(users, code) - {joiner, primary}
  {
    var after := Pair(users, joiner, name, primary);
    forall u ensures u in Holders(after, code) <==> u in Holders(users, code) - {joiner, primary} {
      if u in after && u != joiner && u != primary {
        assert after[u] == users[u];
      }
    }
  }

  /** A code one primary alone held does not resolve a second time. */
  lemma SecondJoinerRejected(users: map<UserId, User>, joiner: UserId, name: string, primary: UserId, code: string)
    requires primary in users && Holders(users, code) == {primary}
    ensures Holders(Pair(users, joiner, name, primary), code) == {}
  {
    PairConsumesCode(users, joiner, name, primary, code);
  }

  /** `notifyPartner`: the user's partner, when the user has one, gets the
      event in the partner's own language, English when the partner has no row. */
  function NotifyPartner(users: map<UserId, User>, uid: UserId, key: string): (ns: seq<Notice>)
    ensures |ns| <= 1
    ensures |ns| == 1 <==> uid in users && users[uid].partnerId.Some?
    ensures |ns| == 1 ==> var p := users[uid].partnerId.value;
                          ns[0] == Say(p, key, if p in users then users[p].language else "en")
  {
    if uid in users && users[uid].partnerId.Some? then
      var p := users[uid].partnerId.value;
      [Say(p, key, LangOr(users, p))]
    else []
  }
}
