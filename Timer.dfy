/**
 * The countdown renderer (`Timer`): the remaining time until a deadline split into
 * days, hours, minutes and seconds, the urgency flags and colour chosen from the
 * remaining total, the two-digit display of each field, and the component state that
 * is recomputed when the deadline is set, on every tick and when it is cleared.
 *
 * Instants are `getTime()` values in whole milliseconds; the clock is a parameter.
 */
module Timer {
  import opened Options
  import opened JsText
  import opened JsDates

  /** Less than this many milliseconds left is urgent (one hour). */
  const URGENT_MS: int := 60 * 60 * 1000
  /** Less than this many milliseconds left is critical (ten minutes). */
  const CRITICAL_MS: int := 10 * 60 * 1000

  datatype TimeRemaining = TimeRemaining(days: int, hours: int, minutes: int, seconds: int, total: int)

  /** The milliseconds the four displayed fields account for. */
  function Shown(tr: TimeRemaining): int {
    tr.days * MS_PER_DAY + tr.hours * MS_PER_HOUR + tr.minutes * MS_PER_MINUTE + tr.seconds * MS_PER_SECOND
  }

  /** Field bounds of a positive remaining time. */
  predicate FieldsInRange(tr: TimeRemaining) {
    tr.days >= 0 && 0 <= tr.hours < 24 && 0 <= tr.minutes < 60 && 0 <= tr.seconds < 60
  }

  /**
   * `calculateTimeRemaining`: a deadline at or before `now` gives all zeros; otherwise
   * the difference is split by floor division, the fields stay within their units and
   * account for the difference up to the last unfinished second.
   */
  function CalculateTimeRemaining(deadline: int, now: int): (r: TimeRemaining)
    ensures deadline - now <= 0 ==> r == TimeRemaining(0, 0, 0, 0, 0)
    ensures deadline - now > 0 ==> r.total == deadline - now && FieldsInRange(r)
    ensures deadline - now > 0 ==> Shown(r) <= deadline - now < Shown(r) + MS_PER_SECOND
  {
    var difference := deadline - now;
    if difference <= 0 then TimeRemaining(0, 0, 0, 0, 0)
    else
      var days := difference / MS_PER_DAY;
      var hours := (difference % MS_PER_DAY) / MS_PER_HOUR;
      var minutes := (difference % MS_PER_HOUR) / MS_PER_MINUTE;
      var seconds := (difference % MS_PER_MINUTE) / MS_PER_SECOND;
      MatchesDateFields(difference);
      TimeRemaining(days, hours, minutes, seconds, difference)
  }

  /** The source's `%` on the whole difference agrees with the fields of a time value. */
  lemma MatchesDateFields(x: int)
    ensures var dt := Fields(x);
      && dt.day == x / MS_PER_DAY
      && dt.hour == (x % MS_PER_DAY) / MS_PER_HOUR
      && dt.minute == (x % MS_PER_HOUR) / MS_PER_MINUTE
      && dt.second == (x % MS_PER_MINUTE) / MS_PER_SECOND
  {
    ModOfMultiple(x, MS_PER_HOUR, 24);
    ModOfMultiple(x, MS_PER_MINUTE, 60);
  }

  /** For a positive difference, the fields are the only in-range ones that account for it. */
  lemma {:induction false} DecompositionUnique(deadline: int, now: int, tr: TimeRemaining)
    requires deadline - now > 0
    requires FieldsInRange(tr)
    requires Shown(tr) <= deadline - now < Shown(tr) + MS_PER_SECOND
    ensures CalculateTimeRemaining(deadline, now) == tr.(total := deadline - now)
  {
    var difference := deadline - now;
    var dt := DateTime(tr.days, tr.hours, tr.minutes, tr.seconds, difference - Shown(tr));
    assert Compose(dt) == difference;
    FieldsOfCompose(dt);
    MatchesDateFields(difference);
  }

  /** Once the deadline has passed the countdown stays at zero; before that it only runs down. */
  lemma CountdownRunsDown(deadline: int, now: int, later: int)
    requires now <= later
    ensures CalculateTimeRemaining(deadline, later).total <= CalculateTimeRemaining(deadline, now).total
    ensures CalculateTimeRemaining(deadline, now).total == 0 ==> CalculateTimeRemaining(deadline, later).total == 0
  {
  }

  /** `total` is positive exactly while the deadline is still ahead, and never negative. */
  lemma TotalPositiveIffAhead(deadline: int, now: int)
    ensures CalculateTimeRemaining(deadline, now).total >= 0
    ensures CalculateTimeRemaining(deadline, now).total > 0 <==> deadline > now
  {
  }

  /** The value `CalculateTimeRemaining` returns for a difference of `tr.total`. */
  predicate IsCalculated(tr: TimeRemaining) {
    tr == CalculateTimeRemaining(tr.total, 0)
  }

  /** Every computed value is self-consistent: recomputing it from its own total gives it back. */
  lemma CalculatedIsConsistent(deadline: int, now: int)
    ensures IsCalculated(CalculateTimeRemaining(deadline, now))
  {
  }

  /** The four urgency bands, defined independently of the flags by their boundaries. */
  datatype Urgency = Expired | Critical | Urgent | Normal

  function UrgencyOf(total: int): Urgency {
    if total <= 0 then Expired
    else if total < 600_000 then Critical
    else if total < 3_600_000 then Urgent
    else Normal
  }

  /** A higher rank is a calmer band. */
  function Rank(u: Urgency): nat {
    match u
    case Expired => 0
    case Critical => 1
    case Urgent => 2
    case Normal => 3
  }

  // The render-time flags of the source, each a threshold test on `total`.

  /** `isFinished`: the expired band; a finished total is also critical and urgent. */
  predicate IsFinished(total: int)
    ensures IsFinished(total) <==> UrgencyOf(total) == Expired
    ensures IsFinished(total) ==> IsCritical(total) && IsUrgent(total)
  {
    total <= 0
  }

  /** `isUrgent`: every band below the normal one. */
  predicate IsUrgent(total: int)
    ensures IsUrgent(total) <==> UrgencyOf(total) != Normal
  {
    total < URGENT_MS
  }

  /** `isCritical`: the critical band or an expired total; critical implies urgent. */
  predicate IsCritical(total: int)
    ensures IsCritical(total) <==> UrgencyOf(total) == Critical || UrgencyOf(total) == Expired
    ensures IsCritical(total) ==> IsUrgent(total)
  {
    total < CRITICAL_MS
  }

  /** The colour classes of the countdown digits: danger, warning and primary text. */
  datatype ColorClass = Danger | Warning | Primary

  /**
   * `getTimerColorClass`: critical first, then urgent, otherwise the normal colour, so
   * each colour is exactly one urgency band (the expired band, never shown, counts as danger).
   */
  function TimerColorClass(total: int): (c: ColorClass)
    ensures c == Danger <==> Rank(UrgencyOf(total)) <= 1
    ensures c == Warning <==> UrgencyOf(total) == Urgent
    ensures c == Primary <==> UrgencyOf(total) == Normal
  {
    if IsCritical(total) then Danger
    else if IsUrgent(total) then Warning
    else Primary
  }

  /** Critical implies urgent, and the colour follows the bands with critical taking precedence. */
  lemma FlagsAndColorMatchBands(total: int)
    ensures IsCritical(total) ==> IsUrgent(total)
    ensures IsFinished(total) <==> UrgencyOf(total) == Expired
    ensures UrgencyOf(total) == Critical ==> TimerColorClass(total) == Danger
    ensures UrgencyOf(total) == Urgent <==> TimerColorClass(total) == Warning
    ensures UrgencyOf(total) == Normal <==> TimerColorClass(total) == Primary
  {
  }

  /** The boundary values fall into the calmer band. */
  lemma ColorBoundaries()
    ensures TimerColorClass(600_000) == Warning && TimerColorClass(599_999) == Danger
    ensures TimerColorClass(3_600_000) == Primary && TimerColorClass(3_599_999) == Warning
  {
  }

  /** Less time left never gives a calmer band. */
  lemma UrgencyMonotone(t1: int, t2: int)
    requires t1 <= t2
    ensures Rank(UrgencyOf(t1)) <= Rank(UrgencyOf(t2))
  {
  }

  /**
   * `formatNumber`: `String(n)` padded on the left with '0' to two characters. Below
   * 100 it is exactly two digits that read back as n; from 100 on nothing is added.
   */
  function FormatNumber(n: nat): (s: string)
    ensures |s| >= 2 && AllDigits(s)
    ensures n < 100 ==> |s| == 2 && DigitsValue(s) == n
    ensures n >= 100 ==> s == NatToString(n)
  {
    PadTwoValue(n);
    PadStart(NatToString(n), 2, '0')
  }

  datatype Unit = Days | Hours | Minutes | Seconds

  /** One displayed field: the unit and the characters at positions 0 and 1 of its formatted value. */
  datatype Cell = Cell(unit: Unit, first: char, second: char)

  /**
   * `formatNumber(n).charAt(0)` and `.charAt(1)`: two digits that read back as n below 100;
   * from 100 on only the first two digits of `String(n)`.
   */
  function CellOf(unit: Unit, n: nat): (c: Cell)
    ensures c.unit == unit && IsDigit(c.first) && IsDigit(c.second)
    ensures n < 100 ==> DigitValue(c.first) * 10 + DigitValue(c.second) == n
    ensures n >= 100 ==> |NatToString(n)| > 2 && c.first == NatToString(n)[0] && c.second == NatToString(n)[1]
  {
    var s := FormatNumber(n);
    TwoDigitsValue(s);
    Cell(unit, s[0], s[1])
  }

  /** The value of a two-digit string. */
  lemma TwoDigitsValue(s: string)
    requires |s| >= 2 && AllDigits(s)
    ensures |s| == 2 ==> DigitsValue(s) == DigitValue(s[0]) * 10 + DigitValue(s[1])
  {
    if |s| == 2 {
      assert s[..1][..0] == [];
      assert DigitsValue(s[..1]) == DigitValue(s[0]);
    }
  }

  /** What the component renders. */
  datatype Screen =
    | SetDeadlinePrompt                                           // no deadline
    | Blank                                                       // no value computed yet
    | TimesUp                                                     // finished
    | Countdown(color: ColorClass, cells: seq<Cell>, finalCountdown: bool)

  /** The day field only when there are days left, then hours, minutes and seconds. */
  function Cells(tr: TimeRemaining): (cells: seq<Cell>)
    requires tr.days >= 0 && tr.hours >= 0 && tr.minutes >= 0 && tr.seconds >= 0
    ensures |cells| == if tr.days > 0 then 4 else 3
    ensures tr.days > 0 ==> cells[0].unit == Days
    ensures cells[|cells| - 3].unit == Hours && cells[|cells| - 2].unit == Minutes
    ensures cells[|cells| - 1].unit == Seconds
    ensures tr.days > 0 ==> cells[0] == CellOf(Days, tr.days)
    ensures cells[|cells| - 3] == CellOf(Hours, tr.hours) && cells[|cells| - 2] == CellOf(Minutes, tr.minutes)
    ensures cells[|cells| - 1] == CellOf(Seconds, tr.seconds)
  {
    (if tr.days > 0 then [CellOf(Days, tr.days)] else [])
      + [CellOf(Hours, tr.hours), CellOf(Minutes, tr.minutes), CellOf(Seconds, tr.seconds)]
  }

  /** The component's render function over its deadline prop and its remaining-time state. */
  function Render(deadline: Option<int>, tr: Option<TimeRemaining>): (screen: Screen)
    requires tr.Some? ==> IsCalculated(tr.value)
    ensures screen.SetDeadlinePrompt? <==> deadline.None?
    ensures screen.Blank? <==> deadline.Some? && tr.None?
    ensures screen.TimesUp? <==> deadline.Some? && tr.Some? && tr.value.total <= 0
    ensures screen.Countdown? ==>
      && (screen.color == Danger <==> UrgencyOf(tr.value.total) == Critical)
      && (screen.color == Warning <==> UrgencyOf(tr.value.total) == Urgent)
      && (screen.color == Primary <==> UrgencyOf(tr.value.total) == Normal)
      && (screen.finalCountdown <==> UrgencyOf(tr.value.total) == Critical)
      && (|screen.cells| == 4 <==> tr.value.days > 0)
      && screen.cells == Cells(tr.value)
  {
    if deadline.None? then SetDeadlinePrompt
    else if tr.None? then Blank
    else if IsFinished(tr.value.total) then TimesUp
    else
      CalculatedIsConsistent(tr.value.total, 0);
      Countdown(TimerColorClass(tr.value.total), Cells(tr.value), IsCritical(tr.value.total))
  }

  /**
   * What is shown for a deadline at time `now`: "time's up" exactly when the deadline is
   * not ahead; otherwise the colour of the urgency band, the final-countdown banner exactly
   * when critical, and the day field exactly when at least one whole day is left.
   */
  lemma RenderCountdown(deadline: int, now: int)
    ensures var tr := CalculateTimeRemaining(deadline, now);
      var screen := Render(Some(deadline), Some(tr));
      && (screen.TimesUp? <==> deadline <= now)
      && (screen.Countdown? <==> deadline > now)
      && (screen.Countdown? ==>
            && (screen.color == Danger <==> UrgencyOf(tr.total) == Critical)
            && (screen.color == Warning <==> UrgencyOf(tr.total) == Urgent)
            && (screen.color == Primary <==> UrgencyOf(tr.total) == Normal)
            && (screen.finalCountdown <==> UrgencyOf(tr.total) == Critical)
            && (|screen.cells| == 4 <==> tr.days > 0)
            && (|screen.cells| == 3 <==> tr.days == 0)
            && screen.cells[|screen.cells| - 3].unit == Hours
            && screen.cells[|screen.cells| - 2].unit == Minutes
            && screen.cells[|screen.cells| - 1].unit == Seconds
            && (tr.days > 0 ==> screen.cells[0].unit == Days))
  {
    CalculatedIsConsistent(deadline, now);
  }

  /** The three scenarios: a little over a day (normal), 500 s (critical) and 5 s past (time's up). */
  lemma Scenarios(now: int)
    ensures CalculateTimeRemaining(now + 90_061_000, now) == TimeRemaining(1, 1, 1, 1, 90_061_000)
    ensures UrgencyOf(90_061_000) == Normal
    ensures CalculateTimeRemaining(now + 500_000, now) == TimeRemaining(0, 0, 8, 20, 500_000)
    ensures UrgencyOf(500_000) == Critical
    ensures CalculateTimeRemaining(now - 5_000, now) == TimeRemaining(0, 0, 0, 0, 0)
    ensures Render(Some(now - 5_000), Some(CalculateTimeRemaining(now - 5_000, now))) == TimesUp
  {
  }

  /**
   * The component's state once its effect has run: the deadline prop and the remaining
   * time computed from it, which is set with the deadline, replaced on every tick and
   * reset when the deadline is cleared.
   */
  class TimerState {
    var deadline: Option<int>
    var timeRemaining: Option<TimeRemaining>

    ghost predicate Valid()
      reads this
    {
      && (deadline.Some? <==> timeRemaining.Some?)
      && (timeRemaining.Some? ==> IsCalculated(timeRemaining.value))
    }

    /** Mounting with a deadline prop: the effect computes the first value at once. */
    constructor (deadline: Option<int>, now: int)
      ensures Valid()
      ensures this.deadline == deadline
      ensures timeRemaining == if deadline.Some? then Some(CalculateTimeRemaining(deadline.value, now)) else None
    {
      this.deadline := deadline;
      if deadline.Some? {
        CalculatedIsConsistent(deadline.value, now);
        timeRemaining := Some(CalculateTimeRemaining(deadline.value, now));
      } else {
        timeRemaining := None;
      }
    }

    /** A new deadline replaces the old one and its value is computed immediately. */
    method SetDeadline(d: int, now: int)
      modifies this
      ensures Valid()
      ensures deadline == Some(d)
      ensures timeRemaining == Some(CalculateTimeRemaining(d, now))
    {
      deadline := Some(d);
      CalculatedIsConsistent(d, now);
      timeRemaining := Some(CalculateTimeRemaining(d, now));
    }

    /** Clearing the deadline resets the remaining time to null. */
    method Clear()
      modifies this
      ensures Valid()
      ensures deadline == None && timeRemaining == None
    {
      deadline := None;
      timeRemaining := None;
    }

    /** One interval tick: recompute from the current deadline; without a deadline no interval runs. */
    method Tick(now: int)
      requires Valid()
      modifies this
      ensures Valid()
      ensures deadline == old(deadline)
      ensures timeRemaining == if deadline.Some? then Some(CalculateTimeRemaining(deadline.value, now)) else None
    {
      if deadline.Some? {
        CalculatedIsConsistent(deadline.value, now);
        timeRemaining := Some(CalculateTimeRemaining(deadline.value, now));
      }
    }

    /** What the component shows: the prompt exactly when there is no deadline, never a blank. */
    function View(): (screen: Screen)
      requires Valid()
      reads this
      ensures screen.SetDeadlinePrompt? <==> deadline.None?
      ensures !screen.Blank?
      ensures screen.TimesUp? <==> deadline.Some? && timeRemaining.value.total <= 0
    {
      Render(deadline, timeRemaining)
    }
  }
}
