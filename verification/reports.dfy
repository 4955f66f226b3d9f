/**
 * The daily summary (Report.daily_summary, xpoint.rb:88-124): the entries of
 * a project on a date are summed into work and pause minutes, the pauses
 * are subtracted, and the result is compared with the project's expected
 * daily hours.
 *
 * Durations are whole minutes: the difference of the two clock readings.
 * The Ruby code works in floating-point hours (seconds / 3600.0) between two
 * local times, which is that difference / 60 except across a daylight-saving
 * change. "now" is a parameter: minutes since midnight of the day the report runs,
 * since Time.parse places an "HH:MM" on the current day whatever the entry's
 * date.
 */
module Reports {
  import opened Wrappers
  import opened Text
  import opened Clock
  import opened Projects
  import opened TimeEntries

  /** 'blue' (on target), 'green' (over) and 'red' (under). */
  datatype Status = Blue | Green | Red

  /** The hash the Ruby method returns, with times in minutes instead of rounded hours. */
  datatype Summary = Summary(date: string, totalMinutes: int, workMinutes: int, pauseMinutes: int,
                             expectedHours: int, status: Status)

  /** Time.parse raising on a stored time, or daily_hours raising on a project without work days. */
  datatype ReportError = UnparsableTime | NoDailyHours

  /**
   * Ruby's `Float#round(2)`: to the nearest hundredth, halves away from zero.
   * The result is a whole number of hundredths within half a hundredth of `x`;
   * at an exact half the result lies further from zero than `x`.
   */
  function Round2(x: real): (r: real)
    ensures (r * 100.0).Floor as real == r * 100.0
    ensures -0.005 <= x - r <= 0.005
    ensures x - r == 0.005 ==> x < 0.0
    ensures x - r == -0.005 ==> x >= 0.0
  {
    if x >= 0.0 then
      var f := (x * 100.0 + 0.5).Floor;
      assert f as real <= x * 100.0 + 0.5 < f as real + 1.0;
      assert (f as real / 100.0) * 100.0 == f as real;
      f as real / 100.0
    else
      var f := ((-x) * 100.0 + 0.5).Floor;
      assert f as real <= (-x) * 100.0 + 0.5 < f as real + 1.0;
      assert (-(f as real) / 100.0) * 100.0 == -(f as real);
      assert (-(f as real)).Floor == -f;
      -(f as real) / 100.0
  }

  /** Off target, a rounded amount is at least half a hundredth away from the target. */
  lemma OffTargetBand(x: real, e: int)
    requires Round2(x) != e as real
    ensures x > e as real ==> x - e as real >= 0.005
    ensures x <= e as real ==> x - e as real <= -0.005
  {
    var r := Round2(x);
    var k := (r * 100.0).Floor;
    assert k as real == r * 100.0;
    assert k != 100 * e;
    assert x * 100.0 - 0.5 <= k as real <= x * 100.0 + 0.5;
  }

  /**
   * The status rule exactly as the Ruby code states it, on hours. Rounding
   * leaves a band of half a hundredth around the target: 'blue' within it,
   * 'green' at least that far above, 'red' at least that far below.
   */
  function StatusOfHours(workHours: real, expectedHours: int): (s: Status)
    ensures s == Blue ==> -0.005 <= workHours - expectedHours as real <= 0.005
    ensures s == Green ==> workHours - expectedHours as real >= 0.005
    ensures s == Red ==> workHours - expectedHours as real <= -0.005
  {
    if Round2(workHours) == expectedHours as real then Blue
    else
      OffTargetBand(workHours, expectedHours);
      if workHours > expectedHours as real then Green
      else Red
  }

  /**
   * A whole number of minutes rounds to a whole number `e` of hours at two
   * decimals exactly when it is `60 * e` minutes: two different minute counts
   * are 1/60 h apart, more than the 0.005 h that rounding can absorb.
   */
  lemma RoundedMinutesEqualHours(w: int, e: int)
    ensures Round2(w as real / 60.0) == e as real <==> w == 60 * e
  {
    var x := w as real / 60.0;
    if w == 60 * e {
      assert x == e as real;
      if x >= 0.0 {
        assert x * 100.0 + 0.5 == (100 * e) as real + 0.5;
        assert (x * 100.0 + 0.5).Floor == 100 * e;
      } else {
        assert (-x) * 100.0 + 0.5 == (-100 * e) as real + 0.5;
        assert ((-x) * 100.0 + 0.5).Floor == -100 * e;
      }
    }
  }

  /**
   * The status of `workMinutes` against `expectedHours`, in integer
   * arithmetic. It is the Ruby rule applied to the same amount in hours,
   * and it is Blue exactly on target, Green exactly over, Red exactly under.
   */
  function Classify(workMinutes: int, expectedHours: int): (s: Status)
    ensures s == StatusOfHours(workMinutes as real / 60.0, expectedHours)
    ensures s == Blue <==> workMinutes == 60 * expectedHours
    ensures s == Green <==> workMinutes > 60 * expectedHours
  {
    RoundedMinutesEqualHours(workMinutes, expectedHours);
    if workMinutes == 60 * expectedHours then Blue
    else if workMinutes > 60 * expectedHours then Green
    else Red
  }

  /** Both times of an entry parse (an open entry has only its start). */
  predicate Parsable(e: Entry)
  {
    ParseHHMM(e.startTime).Some? && (e.endTime.Some? ==> ParseHHMM(e.endTime.value).Some?)
  }

  predicate AllParsable(es: seq<Entry>)
  {
    forall e :: e in es ==> Parsable(e)
  }

  /**
   * Minutes from start to end, an open entry ending at `now`. A closed
   * entry lasts less than a day either way, and it does not last a negative
   * time exactly when its end does not come before its start in text order.
   */
  function Duration(e: Entry, now: int): (d: int)
    requires Parsable(e)
    ensures e.endTime.None? ==> d == now - ParseHHMM(e.startTime).value
    ensures e.endTime.Some? ==> -MinutesPerDay < d < MinutesPerDay
    ensures e.endTime.Some? ==> (d >= 0 <==> LexLe(e.startTime, e.endTime.value))
  {
    if e.endTime.Some? then
      TextOrderIsChronological(e.startTime, e.endTime.value);
      ParseHHMM(e.endTime.value).value - ParseHHMM(e.startTime).value
    else
      now - ParseHHMM(e.startTime).value
  }

  /** What an entry adds to the pause sum (`pauses`) or to the non-pause sum (`!pauses`). */
  function Share(e: Entry, now: int, pauses: bool): int
    requires Parsable(e)
  {
    if e.isPause == pauses then Duration(e, now) else 0
  }

  /** The sum of the durations of the pause entries (`pauses`) or of the other entries (`!pauses`). */
  function Accumulated(es: seq<Entry>, now: int, pauses: bool): int
    requires AllParsable(es)
  {
    if es == [] then 0
    else Accumulated(es[..|es| - 1], now, pauses) + Share(es[|es| - 1], now, pauses)
  }

  /** The summary for the two sums: work is the non-pause sum minus the pause sum. */
  function SummaryOf(date: string, total: int, pause: int, expectedHours: int): Summary
  {
    Summary(date, total, total - pause, pause, expectedHours, Classify(total - pause, expectedHours))
  }

  /** The summary of a list of parsable entries given the expected hours. */
  function Summarize(date: string, es: seq<Entry>, now: int, expectedHours: int): Summary
    requires AllParsable(es)
  {
    SummaryOf(date, Accumulated(es, now, false), Accumulated(es, now, true), expectedHours)
  }

  /** Removing one entry takes away exactly its share. */
  lemma {:induction false} AccumulatedWithout(es: seq<Entry>, k: int, now: int, pauses: bool)
    requires AllParsable(es) && 0 <= k < |es|
    ensures AllParsable(es[..k] + es[k + 1..])
    ensures Accumulated(es, now, pauses) == Accumulated(es[..k] + es[k + 1..], now, pauses) + Share(es[k], now, pauses)
    decreases |es|
  {
    var rest := es[..k] + es[k + 1..];
    forall e | e in rest
      ensures Parsable(e)
    {
      assert e in es[..k] || e in es[k + 1..];
    }
    var n := |es| - 1;
    if k == n {
      assert rest == es[..n];
    } else {
      var init := es[..n];
      assert forall e :: e in init ==> e in es;
      var shorter := init[..k] + init[k + 1..];
      assert rest == shorter + [es[n]];
      assert rest[..|rest| - 1] == shorter;
      AccumulatedWithout(init, k, now, pauses);
    }
  }

  /** The sums depend only on which entries there are, not on their order. */
  lemma {:induction false} AccumulatedPermutation(a: seq<Entry>, b: seq<Entry>, now: int, pauses: bool)
    requires AllParsable(a) && multiset(a) == multiset(b)
    ensures AllParsable(b)
    ensures Accumulated(a, now, pauses) == Accumulated(b, now, pauses)
    decreases |a|
  {
    assert forall e :: e in b ==> e in multiset(b);
    if a != [] {
      var n := |a| - 1;
      var x := a[n];
      assert a == a[..n] + [x];
      assert x in multiset(b);
      var k :| 0 <= k < |b| && b[k] == x;
      assert b == b[..k] + [x] + b[k + 1..];
      var b' := b[..k] + b[k + 1..];
      assert multiset(b') == multiset(b) - multiset{x};
      assert multiset(a[..n]) == multiset(a) - multiset{x};
      AccumulatedWithout(b, k, now, pauses);
      AccumulatedPermutation(a[..n], b', now, pauses);
    }
  }

  /** Once every entry is closed, the sums no longer depend on the clock. */
  lemma {:induction false} AccumulatedClosed(es: seq<Entry>, now: int, now': int, pauses: bool)
    requires AllParsable(es)
    requires forall e :: e in es ==> e.endTime.Some?
    ensures Accumulated(es, now, pauses) == Accumulated(es, now', pauses)
    decreases |es|
  {
    if es != [] {
      assert forall e :: e in es[..|es| - 1] ==> e in es;
      assert es[|es| - 1] in es;
      AccumulatedClosed(es[..|es| - 1], now, now', pauses);
    }
  }

  /** The summary does not depend on the order of the entries. */
  lemma SummaryOrderIndependent(date: string, a: seq<Entry>, b: seq<Entry>, now: int, expectedHours: int)
    requires AllParsable(a) && multiset(a) == multiset(b)
    ensures AllParsable(b)
    ensures Summarize(date, a, now, expectedHours) == Summarize(date, b, now, expectedHours)
  {
    AccumulatedPermutation(a, b, now, false);
    AccumulatedPermutation(a, b, now, true);
  }

  /** With every entry closed, two summaries taken at different times are identical. */
  lemma SummaryClosedIdempotent(date: string, es: seq<Entry>, now: int, now': int, expectedHours: int)
    requires AllParsable(es)
    requires forall e :: e in es ==> e.endTime.Some?
    ensures Summarize(date, es, now, expectedHours) == Summarize(date, es, now', expectedHours)
  {
    AccumulatedClosed(es, now, now', false);
    AccumulatedClosed(es, now, now', true);
  }

  /**
   * The accumulation loop of `Report.daily_summary`: the non-pause and the
   * pause durations of `es`, summed apart; fails at the first time that
   * does not parse.
   */
  method SumDurations(es: seq<Entry>, now: int) returns (r: Result<(int, int), ReportError>)
    ensures !AllParsable(es) <==> r == Failure(UnparsableTime)
    ensures AllParsable(es) ==> r == Success((Accumulated(es, now, false), Accumulated(es, now, true)))
  {
    var total, pause := 0, 0;
    var i := 0;
    while i < |es|
      invariant 0 <= i <= |es|
      invariant AllParsable(es[..i])
      invariant total == Accumulated(es[..i], now, false)
      invariant pause == Accumulated(es[..i], now, true)
    {
      var e := es[i];
      var start := ParseHHMM(e.startTime);
      if start.None? {
        assert e in es;
        return Failure(UnparsableTime);
      }
      var finish := now;
      if e.endTime.Some? {
        var parsed := ParseHHMM(e.endTime.value);
        if parsed.None? {
          assert e in es;
          return Failure(UnparsableTime);
        }
        finish := parsed.value;
      }
      var duration := finish - start.value;
      assert duration == Duration(e, now);
      if e.isPause {
        pause := pause + duration;
      } else {
        total := total + duration;
      }
      assert es[..i + 1] == es[..i] + [e];
      i := i + 1;
    }
    assert es[..i] == es;
    r := Success((total, pause));
  }

  /**
   * `Report.daily_summary`: fails if a stored time does not parse or the
   * project has no work days; otherwise sums the entries of the project on
   * that date, pauses and non-pauses apart, takes work = non-pause - pause
   * and classifies it against the project's daily hours (0 for an unknown
   * project).
   */
  method DailySummary(registry: Registry, log: Log, projectId: int, date: string, now: int)
    returns (r: Result<Summary, ReportError>)
    ensures var es := log.ForProject(projectId, date);
            if !AllParsable(es) then r == Failure(UnparsableTime)
            else if registry.DailyHours(projectId).Failure? then r == Failure(NoDailyHours)
            else r == Success(Summarize(date, es, now, registry.DailyHours(projectId).value))
  {
    var es := log.ForProject(projectId, date);
    var sums := SumDurations(es, now);
    if sums.Failure? {
      return Failure(UnparsableTime);
    }
    var (total, pause) := sums.value;
    var expected := registry.DailyHours(projectId);
    if expected.Failure? {
      return Failure(NoDailyHours);
    }
    r := Success(SummaryOf(date, total, pause, expected.value));
  }

  /**
   * The usage example at the end of the Ruby file: 09:00-12:00 work,
   * 12:00-13:00 pause, 13:00-18:00 work with 8 expected hours. The pause is
   * subtracted from a total that already leaves it out, so work is 7 hours
   * and the day is 'red'.
   */
  lemma UsageExample(now: int)
    ensures var es := [Entry(1, 1, "2024-03-08", "09:00", Some("12:00"), false),
                       Entry(2, 1, "2024-03-08", "12:00", Some("13:00"), true),
                       Entry(3, 1, "2024-03-08", "13:00", Some("18:00"), false)];
            AllParsable(es) && Summarize("2024-03-08", es, now, 8) == Summary("2024-03-08", 480, 420, 60, 8, Red)
  {
    var es := [Entry(1, 1, "2024-03-08", "09:00", Some("12:00"), false),
               Entry(2, 1, "2024-03-08", "12:00", Some("13:00"), true),
               Entry(3, 1, "2024-03-08", "13:00", Some("18:00"), false)];
    assert Format(540) == "09:00" && Format(720) == "12:00";
    assert Format(780) == "13:00" && Format(1080) == "18:00";
    ParseFormat(540);
    ParseFormat(720);
    ParseFormat(780);
    ParseFormat(1080);
    assert Duration(es[0], now) == 180 && Duration(es[1], now) == 60 && Duration(es[2], now) == 300;
    var one, two := es[..1], es[..2];
    assert one[..|one| - 1] == [] && one[|one| - 1] == es[0];
    assert Accumulated(one, now, false) == Share(es[0], now, false) == 180;
    assert Accumulated(one, now, true) == Share(es[0], now, true) == 0;
    assert two[..|two| - 1] == one && two[|two| - 1] == es[1];
    assert Accumulated(two, now, false) == 180 && Accumulated(two, now, true) == 60;
    assert es[..|es| - 1] == two;
    assert Accumulated(es, now, false) == 480 && Accumulated(es, now, true) == 60;
  }

  /** A log holding exactly the usage example's entries summarizes that date as in UsageExample. */
  lemma UsageExampleLogged(log: Log, now: int)
    requires log.entries == [Entry(1, 1, "2024-03-08", "09:00", Some("12:00"), false),
                             Entry(2, 1, "2024-03-08", "12:00", Some("13:00"), true),
                             Entry(3, 1, "2024-03-08", "13:00", Some("18:00"), false)]
    ensures AllParsable(log.ForProject(1, "2024-03-08"))
    ensures Summarize("2024-03-08", log.ForProject(1, "2024-03-08"), now, 8)
            == Summary("2024-03-08", 480, 420, 60, 8, Red)
  {
    var stored := log.entries;
    var es := log.ForProject(1, "2024-03-08");
    assert forall e :: multiset(es)[e] == multiset(stored)[e];
    assert multiset(es) == multiset(stored);
    UsageExample(now);
    SummaryOrderIndependent("2024-03-08", stored, es, now, 8);
  }

  /**
   * The usage example run end to end: project 'Projeto A' with 40 weekly
   * hours over Monday to Friday, the three entries of 2024-03-08, then the
   * daily summary of that date. The expected 8 hours come from the
   * registry, and the entries come from the log's query.
   */
  method UsageExampleEndToEnd(now: int) returns (r: Result<Summary, ReportError>)
    ensures r == Success(Summary("2024-03-08", 480, 420, 60, 8, Red))
  {
    var log := new Log();
    log.Create(1, "2024-03-08", "09:00", Some("12:00"), false);
    log.Create(1, "2024-03-08", "12:00", Some("13:00"), true);
    log.Create(1, "2024-03-08", "13:00", Some("18:00"), false);
    UsageExampleLogged(log, now);
    ghost var es := log.ForProject(1, "2024-03-08");

    var registry := new Registry();
    registry.Create("Projeto A", 40, ["Monday", "Tuesday", "Wednesday", "Thursday", "Friday"], Some("tag1,tag2"));
    UsageExampleRegistered(registry);
    assert log.ForProject(1, "2024-03-08") == es;

    r := DailySummary(registry, log, 1, "2024-03-08", now);
  }
}
