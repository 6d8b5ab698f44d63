/**
 * `updateStatusBar`: the status-bar text chosen by the configured format, the
 * ten-cell progress bar of the tooltip, and the low-quota warning, which is
 * shown once when the quota falls below the threshold and re-armed when it
 * is no longer below it.
 */
module StatusBar {
  import opened Wrappers
  import opened Text
  import Projection
  import SessionScan

  /** The fields of `realtime[0]` the status bar reads; `usedCount` is optional. */
  datatype Session = Session(percentage: int, resetTime: string, resetCountdown: string, usedCount: Option<int>)

  /** `realtime[0]` as `getRealtimeQuota` builds it. */
  function SessionOf(g: Projection.QuotaGroup): Session {
    Session(g.percentage, g.resetTime, g.resetCountdown, Some(g.usedCount))
  }

  const Width: nat := 10
  const Icon := "$(circle-filled)"
  const FullCell := '█'
  const EmptyCell := '░'

  // ---------------------------------------------------------------------------
  // The progress bar.

  /** `Math.round((p / 100) * width)` on the exact value: `p / 10` rounded, a half up. */
  function Filled(p: int): (f: int)
    ensures 10 * f <= p + 5 < 10 * f + 10
  {
    (p + 5) / 10
  }

  /**
   * `'█'.repeat(filled) + '░'.repeat(empty)`; `repeat` throws on a negative
   * count, which abandons the update: `None`.
   */
  function ProgressBar(p: int): (r: Option<string>)
    ensures r.Some? <==> 0 <= Filled(p) <= Width
    ensures r.Some? ==>
      |r.value| == Width &&
      (forall k :: 0 <= k < Filled(p) ==> r.value[k] == FullCell) &&
      (forall k :: Filled(p) <= k < Width ==> r.value[k] == EmptyCell)
  {
    var filled := Filled(p);
    var empty := Width - filled;
    if filled < 0 || empty < 0 then None
    else Some(Repeat(FullCell, filled) + Repeat(EmptyCell, empty))
  }

  /** Every percentage the quota can show draws a bar: `filled` in [0, 10], `filled + empty == 10`. */
  lemma BarInRange(p: int)
    requires 0 <= p <= 100
    ensures 0 <= Filled(p) <= Width && Filled(p) + (Width - Filled(p)) == Width
    ensures ProgressBar(p).Some?
  {
  }

  /** The group `getRealtimeQuota` projects always draws a bar, so its update never falls through. */
  lemma ProjectedBarDraws(stats: Option<Projection.Stats>, active: Option<string>, t: SessionScan.Tally,
                          weekly: int, now: int, clock: int -> string)
    ensures ProgressBar(SessionOf(Projection.Project(stats, active, t, weekly, now, clock)).percentage).Some?
  {
    Projection.GroupFacts(stats, active, t, weekly, now, clock);
  }

  /** The bar fills with the percentage: a larger percentage never fills fewer cells. */
  lemma FilledMonotone(p: int, q: int)
    requires p <= q
    ensures Filled(p) <= Filled(q)
  {
  }

  // ---------------------------------------------------------------------------
  // The status-bar text.

  /** `${p}%` */
  function Percent(p: int): string {
    IntToString(p) + "%"
  }

  /** The `switch (displayFormat)`. */
  function StatusText(format: string, s: Session): (r: string)
    ensures format == "percentage" ==> r == IntToString(s.percentage) + "%"
  {
    if format == "percentage" then Percent(s.percentage)
    else if format == "percentage-with-icon" then Icon + " " + Percent(s.percentage)
    else if format == "countdown" then Icon + " " + s.resetCountdown
    else if format == "full" then Icon + " " + Percent(s.percentage) + " → " + s.resetCountdown
    else Icon + " Claude Code: " + Percent(s.percentage)
  }

  /** The formats the switch names. */
  predicate KnownFormat(format: string) {
    format == "percentage" || format == "percentage-with-icon" || format == "percentage-with-progress"
    || format == "countdown" || format == "full"
  }

  /** An unrecognised format shows what the default format does. */
  lemma UnknownFormatIsDefault(format: string, s: Session)
    requires !KnownFormat(format)
    ensures StatusText(format, s) == StatusText("percentage-with-progress", s)
  {
  }

  /** Every format but `countdown` shows the percentage, at the end or before the arrow. */
  lemma FormatShowsPercent(format: string, s: Session)
    requires format != "countdown"
    ensures exists pre, post :: StatusText(format, s) == pre + Percent(s.percentage) + post
  {
    var r := StatusText(format, s);
    var pct := Percent(s.percentage);
    if format == "percentage" {
      assert r == "" + pct + "";
    } else if format == "percentage-with-icon" {
      assert r == Icon + " " + pct + "";
    } else if format == "full" {
      assert r == Icon + " " + pct + (" → " + s.resetCountdown);
    } else {
      assert r == Icon + " Claude Code: " + pct + "";
    }
  }

  // ---------------------------------------------------------------------------
  // The tooltip.

  /** `Used: ${session.usedCount ?? 0} msgs` and its paragraph break. */
  function UsedLine(used: Option<int>): (r: string)
    ensures used.None? ==> r == "Used: 0 msgs\n\n"
  {
    var n := match used case Some(u) => u case None => 0;
    assert IntToString(0) == "0";
    "Used: " + IntToString(n) + " msgs\n\n"
  }

  /** The markdown the tooltip is built from. */
  function Tooltip(bar: string, s: Session): string {
    "**Claude Code Quota**\n\n"
    + bar + " " + Percent(s.percentage) + " → " + s.resetCountdown + " (" + s.resetTime + ")\n\n"
    + UsedLine(s.usedCount)
    + "---\n\n"
    + "$(dashboard) Click to open Quota Monitor"
  }

  /** Without a used count the tooltip reports none used. */
  lemma TooltipWithoutCount(bar: string, s: Session)
    requires s.usedCount.None?
    ensures Contains(Tooltip(bar, s), "Used: 0 msgs")
  {
    var head := "**Claude Code Quota**\n\n"
      + bar + " " + Percent(s.percentage) + " → " + s.resetCountdown + " (" + s.resetTime + ")\n\n";
    var tail := "\n\n" + "---\n\n" + "$(dashboard) Click to open Quota Monitor";
    assert Tooltip(bar, s) == head + ("Used: 0 msgs" + tail);
    ContainsAfter(head, "Used: 0 msgs", tail);
  }

  lemma {:induction false} ContainsAfter(head: string, pat: string, tail: string)
    ensures Contains(head + (pat + tail), pat)
    decreases |head|
  {
    var s := head + (pat + tail);
    if head == [] {
      assert s == pat + tail && s[..|pat|] == pat;
    } else {
      assert s[1..] == head[1..] + (pat + tail);
      ContainsAfter(head[1..], pat, tail);
    }
  }

  // ---------------------------------------------------------------------------
  // The low-quota warning.

  /** `notificationEnabled && session.percentage < notificationThreshold` */
  predicate Low(enabled: bool, p: int, threshold: int) {
    enabled && p < threshold
  }

  /** The warning decision: whether to warn now, and the flag afterwards. */
  datatype Decision = Decision(warn: bool, warned: bool)

  /**
   * A low quota warns only when the flag is down and raises it; anything else
   * warns not and lowers it.
   */
  function Notify(warned: bool, low: bool): (d: Decision)
    ensures d.warn <==> low && !warned
    ensures d.warned == low
  {
    if low then Decision(!warned, true) else Decision(false, false)
  }

  /** The warnings of a run of updates, given whether each found the quota low. */
  function Warnings(warned: bool, lows: seq<bool>): (ws: seq<bool>)
    ensures |ws| == |lows|
    decreases |lows|
  {
    if lows == [] then []
    else [Notify(warned, lows[0]).warn] + Warnings(Notify(warned, lows[0]).warned, lows[1..])
  }

  /**
   * Over any run of updates a warning is shown exactly when the quota is low
   * and was not low at the update before (or, at the first, the flag was down):
   * a stretch of low readings warns once, and a reading that is not low re-arms it.
   */
  lemma {:induction false} WarnOnEntry(warned: bool, lows: seq<bool>, i: nat)
    requires i < |lows|
    ensures Warnings(warned, lows)[i] <==> lows[i] && (if i == 0 then !warned else !lows[i - 1])
    decreases i
  {
    if i > 0 {
      WarnOnEntry(Notify(warned, lows[0]).warned, lows[1..], i - 1);
    }
  }

  /** Two updates in a row never both warn. */
  lemma NeverTwiceInARow(warned: bool, lows: seq<bool>, i: nat)
    requires i + 1 < |lows|
    ensures !(Warnings(warned, lows)[i] && Warnings(warned, lows)[i + 1])
  {
    WarnOnEntry(warned, lows, i);
    WarnOnEntry(warned, lows, i + 1);
  }

  /** `Claude Code quota is low (${p}%).` */
  function WarningText(p: int): string {
    "Claude Code quota is low (" + Percent(p) + ")."
  }

  // ---------------------------------------------------------------------------
  // The status-bar item and the module-level flag.

  /** The status-bar item's text and tooltip, whether it is shown, and `hasWarnedLowQuota`. */
  class StatusBarController {
    var text: string
    var tooltip: string
    var visible: bool
    var hasWarnedLowQuota: bool

    /** A fresh item, and the flag as the module starts it: down. */
    constructor ()
      ensures text == "" && tooltip == "" && !visible && !hasWarnedLowQuota
    {
      text := "";
      tooltip := "";
      visible := false;
      hasWarnedLowQuota := false;
    }

    /**
     * One `updateStatusBar` on the groups `getRealtimeQuota` returned and the
     * configured format, notification switch and threshold; it returns the
     * warning shown, if any. Without a group, or when the bar cannot be drawn,
     * nothing changes.
     */
    method Update(realtime: seq<Session>, format: string, enabled: bool, threshold: int)
      returns (warning: Option<string>)
      modifies this
      ensures realtime == [] || ProgressBar(realtime[0].percentage).None? ==>
        text == old(text) && tooltip == old(tooltip) && visible == old(visible) &&
        hasWarnedLowQuota == old(hasWarnedLowQuota) && warning.None?
      ensures realtime != [] && ProgressBar(realtime[0].percentage).Some? ==>
        var s := realtime[0];
        var d := Notify(old(hasWarnedLowQuota), Low(enabled, s.percentage, threshold));
        text == StatusText(format, s) &&
        tooltip == Tooltip(ProgressBar(s.percentage).value, s) &&
        visible &&
        hasWarnedLowQuota == d.warned &&
        warning == (if d.warn then Some(WarningText(s.percentage)) else None)
    {
      warning := None;
      if |realtime| == 0 {
        return;
      }
      var session := realtime[0];
      var filled := Filled(session.percentage);
      var empty := Width - filled;
      if filled < 0 || empty < 0 {
        return;
      }
      var progressBar := Repeat(FullCell, filled) + Repeat(EmptyCell, empty);
      assert progressBar == ProgressBar(session.percentage).value;
      text := StatusText(format, session);
      tooltip := Tooltip(progressBar, session);
      if enabled && session.percentage < threshold {
        if !hasWarnedLowQuota {
          warning := Some(WarningText(session.percentage));
          hasWarnedLowQuota := true;
        }
      } else {
        hasWarnedLowQuota := false;
      }
      visible := true;
    }
  }
}
