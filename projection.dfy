/**
 * The figures `getRealtimeQuota` derives once the history has been scanned:
 * the session percentage left of an estimated 55-message limit and its status,
 * the reset time and countdown, the weekly percentage of an estimated 4000
 * messages over the days on or after a cutoff date, and the models listed.
 */
module Projection {
  import opened Wrappers
  import opened Text
  import opened LogEntry
  import opened ModelName
  import opened SessionScan
  import ActiveModel

  /** `estimatedLimit`: the messages a session is taken to allow. */
  const EstimatedLimit: nat := 55

  /** `weeklyLimitEstimate` */
  const WeeklyLimitEstimate: nat := 4000

  const HourMs: nat := 60 * 60 * 1000
  const MinuteMs: nat := 60 * 1000

  /** The models listed whatever the statistics say, in this order. */
  const DefaultModels: seq<string> := ["Sonnet 4.5", "Opus 4.5", "Haiku 4.5"]

  /** What the group names as active when no switch was found. */
  const DefaultActiveModel := "Sonnet 4.5"

  // ---------------------------------------------------------------------------
  // Rounding.

  /**
   * `Math.round(n / d * 100)` on the exact quotient: the integer nearest to
   * `100n/d`, a half rounding up.
   */
  function RoundPercent(n: int, d: nat): (r: int)
    requires d > 0
    ensures 2 * d * r <= 200 * n + d < 2 * d * r + 2 * d
  {
    DivBounds(200 * n + d, 2 * d);
    (200 * n + d) / (2 * d)
  }

  lemma DivBounds(x: int, y: int)
    requires y > 0
    ensures y * (x / y) <= x < y * (x / y) + y
  {
  }

  /** The bounds pin the rounded value down: there is one integer nearest to `100n/d`. */
  lemma RoundPercentUnique(n: int, d: nat, r: int)
    requires d > 0
    requires 2 * d * r <= 200 * n + d < 2 * d * r + 2 * d
    ensures r == RoundPercent(n, d)
  {
    var q := RoundPercent(n, d);
    if r < q {
      MulLess(2 * d, r + 1, q);
    } else if q < r {
      MulLess(2 * d, q + 1, r);
    }
  }

  lemma MulLess(k: nat, a: int, b: int)
    requires k > 0 && a <= b
    ensures k * a <= k * b
  {
  }

  // ---------------------------------------------------------------------------
  // The session figure and its status.

  /** `sessionUsedPct`: the rounded share of the limit used, at most 100. */
  function SessionUsedPct(count: nat): (p: nat)
    ensures p <= 100
    ensures p == 100 <==> count >= EstimatedLimit
    ensures p < 100 ==> p == RoundPercent(count, EstimatedLimit)
  {
    var r := RoundPercent(count, EstimatedLimit);
    if r < 100 then r else 100
  }

  /** `sessionRemaining`, the group's percentage: full before any message and empty from the 55th on. */
  function SessionRemaining(count: nat): (r: nat)
    ensures r <= 100
    ensures r == 0 <==> count >= EstimatedLimit
    ensures r == 100 <==> count == 0
  {
    100 - SessionUsedPct(count)
  }

  /** A further message never leaves more of the session. */
  lemma RemainingAntitone(a: nat, b: nat)
    requires a <= b
    ensures SessionRemaining(b) <= SessionRemaining(a)
  {
    var pa, pb := RoundPercent(a, EstimatedLimit), RoundPercent(b, EstimatedLimit);
    assert 110 * pa <= 200 * b + 55 < 110 * pb + 110;
  }

  datatype Status = Healthy | Warning | Critical

  /** The status thresholds on the percentage left: below 10 and below 30. */
  function StatusOf(remaining: int): (s: Status)
    ensures s == Critical <==> remaining < 10
    ensures s == Warning <==> 10 <= remaining < 30
    ensures s == Healthy <==> 30 <= remaining
  {
    if remaining < 10 then Critical
    else if remaining < 30 then Warning
    else Healthy
  }

  /** In messages: a session turns to Warning at the 39th message and to Critical at the 50th. */
  lemma StatusByCount(count: nat)
    ensures StatusOf(SessionRemaining(count)) ==
      if count >= 50 then Critical else if count >= 39 then Warning else Healthy
  {
    if count < EstimatedLimit {
      var p := RoundPercent(count, EstimatedLimit);
      assert 110 * p <= 200 * count + 55 < 110 * p + 110;
    }
  }

  // ---------------------------------------------------------------------------
  // Reset time and countdown.

  /** `resetTimeMs`: four hours after the oldest counted message, or `now`. */
  function ResetInstant(t: Tally, now: int): int {
    if t.count > 0 && t.found then t.oldest + SessionWindowMs else now
  }

  /** Hours and minutes of a countdown. */
  datatype Countdown = Countdown(hours: nat, minutes: nat)

  /**
   * `diffHrs` and `diffMins`: the time to the reset, clamped at zero, in whole
   * hours and the whole minutes left over.
   */
  function CountdownOf(resetMs: int, now: int): (c: Countdown)
    ensures c.minutes < 60
    ensures var diff := if resetMs > now then resetMs - now else 0;
      c.hours * HourMs + c.minutes * MinuteMs <= diff < c.hours * HourMs + (c.minutes + 1) * MinuteMs
  {
    var diff := if resetMs - now < 0 then 0 else resetMs - now;
    var rest := diff % HourMs;
    assert diff == diff / HourMs * HourMs + rest;
    assert rest == rest / MinuteMs * MinuteMs + rest % MinuteMs;
    Countdown(diff / HourMs, rest / MinuteMs)
  }

  /** `resetTimeStr`: `Now` before any message, else the local `HH:MM` of the reset, which `clock` renders. */
  function ResetTimeText(t: Tally, now: int, clock: int -> string): string {
    if t.count == 0 then "Now" else clock(ResetInstant(t, now))
  }

  /** `countdownStr`: `Fully Charged` before any message, else `<h>h <m>m`. */
  function CountdownText(t: Tally, now: int): string {
    if t.count == 0 then "Fully Charged"
    else
      var c := CountdownOf(ResetInstant(t, now), now);
      NatToString(c.hours) + "h " + NatToString(c.minutes) + "m"
  }

  /** The countdown reads `Fully Charged` exactly when no message was counted. */
  lemma CountdownSentinel(t: Tally, now: int, clock: int -> string)
    ensures CountdownText(t, now) == "Fully Charged" <==> t.count == 0
    ensures t.count == 0 ==> ResetTimeText(t, now, clock) == "Now"
  {
    if t.count > 0 {
      var r := CountdownText(t, now);
      assert r[|r| - 1] == 'm';
      assert "Fully Charged"[12] == 'd';
    }
  }

  /**
   * After a scan, a session with messages resets within the coming four hours:
   * after `now`, and the countdown is at most four hours.
   */
  lemma ResetWithinWindow(lines: seq<string>, parse: string -> Option<HistoryEntry>, now: int)
    requires TallyFrom(lines, parse, now - SessionWindowMs, Start(now)).count > 0
    ensures var t := TallyFrom(lines, parse, now - SessionWindowMs, Start(now));
      var c := CountdownOf(ResetInstant(t, now), now);
      now < ResetInstant(t, now) <= now + SessionWindowMs &&
      c.hours * HourMs + c.minutes * MinuteMs <= SessionWindowMs && c.hours <= 4
  {
    var t := TallyFrom(lines, parse, now - SessionWindowMs, Start(now));
    SessionBounds(lines, parse, now);
    assert ResetInstant(t, now) == t.oldest + SessionWindowMs;
    ResetCountdownBound(ResetInstant(t, now), now);
  }

  lemma ResetCountdownBound(resetMs: int, now: int)
    requires now < resetMs <= now + SessionWindowMs
    ensures var c := CountdownOf(resetMs, now);
      c.hours * HourMs + c.minutes * MinuteMs <= SessionWindowMs && c.hours <= 4
  {
  }

  // ---------------------------------------------------------------------------
  // The weekly figure.

  /** One entry of `dailyActivity`. */
  datatype Day = Day(date: string, messageCount: int)

  /**
   * The cached statistics, as far as the estimate reads them: the keys of
   * `modelUsage` in their order, and `dailyActivity`, each `None` when missing.
   */
  datatype Stats = Stats(modelUsage: Option<seq<string>>, dailyActivity: Option<seq<Day>>)

  /**
   * JavaScript's `<` on strings: the first differing character decides, and a
   * proper prefix comes first. Characters here are Unicode scalar values, whose
   * order is JavaScript's UTF-16 code-unit order for every character below
   * U+10000, so on the ASCII dates compared the two agree.
   */
  predicate LexLess(a: string, b: string)
    decreases |a|
  {
    if a == [] then b != []
    else b != [] && (a[0] < b[0] || (a[0] == b[0] && LexLess(a[1..], b[1..])))
  }

  /** `day.date >= oneWeekAgoStr` */
  predicate OnOrAfter(date: string, cutoff: string) {
    !LexLess(date, cutoff)
  }

  lemma {:induction false} LexLessTransitive(a: string, b: string, c: string)
    requires LexLess(a, b) && LexLess(b, c)
    ensures LexLess(a, c)
    decreases |a|
  {
    if a != [] && a[0] == b[0] && b[0] == c[0] {
      LexLessTransitive(a[1..], b[1..], c[1..]);
    }
  }

  lemma {:induction false} LexLessTotal(a: string, b: string)
    ensures LexLess(a, b) || a == b || LexLess(b, a)
    decreases |a|
  {
    if a != [] && b != [] && a[0] == b[0] {
      LexLessTotal(a[1..], b[1..]);
      if a[1..] == b[1..] {
        assert a == [a[0]] + a[1..] && b == [b[0]] + b[1..];
      }
    }
  }

  /** What one day adds to the weekly count. */
  function DayCount(day: Day, cutoff: string): int {
    if OnOrAfter(day.date, cutoff) then day.messageCount else 0
  }

  /** `weeklyMessageCount` over `days`, taken in order. */
  function WeeklySum(days: seq<Day>, cutoff: string): int
    decreases |days|
  {
    if days == [] then 0
    else WeeklySum(days[..|days| - 1], cutoff) + DayCount(days[|days| - 1], cutoff)
  }

  /** Days before the cutoff count for nothing. */
  lemma {:induction false} EarlierDaysIgnored(days: seq<Day>, cutoff: string)
    requires forall k :: 0 <= k < |days| ==> LexLess(days[k].date, cutoff)
    ensures WeeklySum(days, cutoff) == 0
    decreases |days|
  {
    if days != [] {
      EarlierDaysIgnored(days[..|days| - 1], cutoff);
    }
  }

  /** With non-negative daily counts, an earlier cutoff never counts less. */
  lemma {:induction false} CutoffMonotone(days: seq<Day>, early: string, late: string)
    requires !LexLess(late, early)
    requires forall k :: 0 <= k < |days| ==> days[k].messageCount >= 0
    ensures 0 <= WeeklySum(days, late) <= WeeklySum(days, early)
    decreases |days|
  {
    if days != [] {
      var d := days[|days| - 1];
      CutoffMonotone(days[..|days| - 1], early, late);
      if OnOrAfter(d.date, late) && LexLess(d.date, early) {
        LexLessTotal(early, late);
        if LexLess(early, late) {
          LexLessTransitive(d.date, early, late);
        }
      }
    }
  }

  /** The weekly count of the statistics: 0 without them or without `dailyActivity`. */
  function WeeklyTotal(stats: Option<Stats>, cutoff: string): int {
    match stats
    case None => 0
    case Some(s) =>
      match s.dailyActivity
      case None => 0
      case Some(days) => WeeklySum(days, cutoff)
  }

  /** The `forEach` over `dailyActivity`. */
  method WeeklyMessageCount(stats: Option<Stats>, cutoff: string) returns (w: int)
    ensures w == WeeklyTotal(stats, cutoff)
  {
    w := 0;
    if stats.Some? && stats.value.dailyActivity.Some? {
      var days := stats.value.dailyActivity.value;
      for i := 0 to |days|
        invariant w == WeeklySum(days[..i], cutoff)
      {
        assert days[..i + 1][..i] == days[..i];
        if OnOrAfter(days[i].date, cutoff) {
          w := w + days[i].messageCount;
        }
      }
      assert days[..|days|] == days;
    }
  }

  /** `weeklyUsedPct`: at most 100, reached from 3980 messages on. */
  function WeeklyUsedPct(w: int): (p: int)
    ensures p <= 100
    ensures p == 100 <==> w >= 3980
    ensures w >= 0 ==> p >= 0
    ensures p < 100 ==> p == RoundPercent(w, WeeklyLimitEstimate)
  {
    var r := RoundPercent(w, WeeklyLimitEstimate);
    if r < 100 then r else 100
  }

  // ---------------------------------------------------------------------------
  // The models listed.

  predicate NoDuplicates(xs: seq<string>) {
    forall i, j :: 0 <= i < j < |xs| ==> xs[i] != xs[j]
  }

  /** `Array.from(new Set(xs))`: every value once, where it first occurs. */
  function Distinct(xs: seq<string>): (r: seq<string>)
    ensures NoDuplicates(r)
    ensures forall x :: x in r <==> x in xs
    decreases |xs|
  {
    if xs == [] then []
    else
      var front := Distinct(xs[..|xs| - 1]);
      var last := xs[|xs| - 1];
      assert forall x :: x in xs <==> x in xs[..|xs| - 1] || x == last by {
        assert xs == xs[..|xs| - 1] + [last];
      }
      if last in front then front else front + [last]
  }

  /** A list without duplicates keeps its order. */
  lemma {:induction false} DistinctKeeps(xs: seq<string>)
    requires NoDuplicates(xs)
    ensures Distinct(xs) == xs
    decreases |xs|
  {
    if xs != [] {
      var init := xs[..|xs| - 1];
      DistinctKeeps(init);
      assert xs[|xs| - 1] !in init;
      assert init + [xs[|xs| - 1]] == xs;
    }
  }

  /** What comes later never displaces what came first. */
  lemma {:induction false} DistinctPrefix(a: seq<string>, b: seq<string>)
    ensures |Distinct(a)| <= |Distinct(a + b)| && Distinct(a + b)[..|Distinct(a)|] == Distinct(a)
    decreases |b|
  {
    if b == [] {
      assert a + b == a;
    } else {
      var b' := b[..|b| - 1];
      DistinctPrefix(a, b');
      assert (a + b)[..|a + b| - 1] == a + b';
    }
  }

  /** The names the statistics' model ids read as. */
  function ReadableNames(stats: Option<Stats>): (r: seq<string>) {
    if stats.Some? && stats.value.modelUsage.Some? then
      var ids := stats.value.modelUsage.value;
      seq(|ids|, k requires 0 <= k < |ids| => QuotaModelName(ids[k]))
    else []
  }

  /**
   * `getIncludedModels`: the three defaults first, in their order, then every
   * other name the statistics' ids read as, each once.
   */
  function IncludedModels(stats: Option<Stats>): (r: seq<string>)
    ensures |r| >= 3 && r[..3] == DefaultModels
    ensures NoDuplicates(r)
    ensures forall x :: x in r <==> x in DefaultModels || x in ReadableNames(stats)
  {
    DefaultsDistinct();
    DistinctKeeps(DefaultModels);
    DistinctPrefix(DefaultModels, ReadableNames(stats));
    if stats.Some? && stats.value.modelUsage.Some? then Distinct(DefaultModels + ReadableNames(stats))
    else DefaultModels
  }

  lemma DefaultsDistinct()
    ensures NoDuplicates(DefaultModels)
  {
    assert DefaultModels[0][0] == 'S' && DefaultModels[1][0] == 'O' && DefaultModels[2][0] == 'H';
  }

  /** JavaScript truthiness of the resolved model: found, and not empty. */
  predicate Resolved(active: Option<string>) {
    active.Some? && active.value != []
  }

  /** The `push` of a resolved active model not yet listed. */
  function WithActive(models: seq<string>, active: Option<string>): (r: seq<string>)
    ensures |models| <= |r| && r[..|models|] == models
    ensures forall x :: x in r <==> x in models || (Resolved(active) && x == active.value)
    ensures NoDuplicates(models) ==> NoDuplicates(r)
    ensures Resolved(active) && active.value !in models ==> r == models + [active.value]
    ensures !(Resolved(active) && active.value !in models) ==> r == models
  {
    if Resolved(active) && active.value !in models then models + [active.value] else models
  }

  /** `activeModel || 'Sonnet 4.5'` */
  function ActiveOrDefault(active: Option<string>): (m: string)
    ensures Resolved(active) ==> m == active.value
    ensures !Resolved(active) ==> m == DefaultActiveModel
  {
    if Resolved(active) then active.value else DefaultActiveModel
  }

  // ---------------------------------------------------------------------------
  // The group.

  /** `details`; `labelText` is the field `label`. */
  datatype Details = Details(labelText: string, percentage: int, valueStr: string)

  datatype QuotaGroup = QuotaGroup(
    name: string,
    percentage: nat,
    resetTime: string,
    resetCountdown: string,
    status: Status,
    includedModels: seq<string>,
    activeModel: string,
    usedCount: nat,
    limitCount: nat,
    details: Details)

  /** The session tally: the scan of the history file, or nothing counted when there is none. */
  function SessionTally(history: Option<string>, parse: string -> Option<HistoryEntry>, now: int): Tally {
    match history
    case None => Start(now)
    case Some(file) => TallyFrom(Reverse(Split(file, '\n')), parse, now - SessionWindowMs, Start(now))
  }

  /** The one group `getRealtimeQuota` returns, from the session tally and the weekly count. */
  function Project(stats: Option<Stats>, active: Option<string>, t: Tally, weekly: int, now: int,
                   clock: int -> string): QuotaGroup
  {
    var remaining := SessionRemaining(t.count);
    var weeklyPct := WeeklyUsedPct(weekly);
    QuotaGroup(
      "Claude Code",
      remaining,
      ResetTimeText(t, now, clock),
      CountdownText(t, now),
      StatusOf(remaining),
      WithActive(IncludedModels(stats), active),
      ActiveOrDefault(active),
      t.count,
      EstimatedLimit,
      Details("Weekly Activity (Local)", weeklyPct, IntToString(weeklyPct) + "% Used"))
  }

  /**
   * What the group promises: a percentage in [0, 100] whose status follows the
   * thresholds, the defaults listed first and no model twice, the active model
   * among those listed, and the count against the limit of 55.
   */
  lemma GroupFacts(stats: Option<Stats>, active: Option<string>, t: Tally, weekly: int, now: int,
                   clock: int -> string)
    ensures var g := Project(stats, active, t, weekly, now, clock);
      g.percentage <= 100 && g.status == StatusOf(g.percentage) &&
      |g.includedModels| >= 3 && g.includedModels[..3] == DefaultModels && NoDuplicates(g.includedModels) &&
      g.activeModel in g.includedModels &&
      g.usedCount == t.count && g.limitCount == EstimatedLimit &&
      g.details.percentage <= 100 && (weekly >= 0 ==> g.details.percentage >= 0)
  {
    var g := Project(stats, active, t, weekly, now, clock);
    var listed := IncludedModels(stats);
    assert g.includedModels[..3] == listed[..|listed|][..3];
    if !Resolved(active) {
      assert DefaultActiveModel == listed[..3][0];
    }
  }

  /**
   * `getRealtimeQuota` from the inputs its reads produce: the statistics, the
   * newest project log if there is one, the history file if there is one,
   * and the clock.
   */
  method RealtimeQuota(stats: Option<Stats>, projectLog: Option<string>, logParse: string -> Option<ProjectEntry>,
                       strip: string -> string, history: Option<string>,
                       parse: string -> Option<HistoryEntry>, now: int, cutoff: string, clock: int -> string)
    returns (groups: seq<QuotaGroup>)
    ensures projectLog.Some? ==>
      groups == [Project(stats, ActiveModel.LatestModel(Split(projectLog.value, '\n'), logParse, strip),
                         SessionTally(history, parse, now), WeeklyTotal(stats, cutoff), now, clock)]
    ensures projectLog.None? ==>
      groups == [Project(stats, None, SessionTally(history, parse, now), WeeklyTotal(stats, cutoff), now, clock)]
  {
    var active: Option<string> := None;
    if projectLog.Some? {
      active := ActiveModel.ActiveModelFromLog(projectLog.value, logParse, strip);
    }
    var t := Start(now);
    if history.Some? {
      t := ScanHistory(history.value, parse, now);
    }
    assert t == SessionTally(history, parse, now);
    var weekly := WeeklyMessageCount(stats, cutoff);
    groups := [Project(stats, active, t, weekly, now, clock)];
  }
}
