/**
 * The deadline selector (`DeadlineInput`): a selected calendar date and an "HH:mm" time
 * string, initialised from the current deadline, combined on confirmation into a fresh
 * `Date` on the selected day at hour:minute:00.000 that is handed to the page.
 */
module DeadlineInput {
  import opened Options
  import opened JsText
  import opened JsDates

  /** The time string used when there is no current deadline. */
  const DEFAULT_TIME: string := "23:59"

  /** The hour and minute read from a time string; a part that is missing or not a number is NaN. */
  datatype ParsedTime = ParsedTime(hours: JsNumber, minutes: JsNumber)

  /**
   * `const [hours, minutes] = timeValue.split(":").map(Number)`: the first two pieces
   * read as numbers; a missing second piece is `undefined`, which `setHours` reads as NaN.
   */
  function ParseTime(timeValue: string): (p: ParsedTime)
    ensures p.hours.Num? ==> p.hours.v >= 0
    ensures p.minutes.Num? ==> p.minutes.v >= 0 && ':' in timeValue
    ensures ':' !in timeValue ==> p == ParsedTime(ToNumber(timeValue), NaN)
  {
    var parts := Split(timeValue, ':');
    SplitPieces(timeValue, ':');
    CountNoSeparator(timeValue, ':');
    SplitNoSeparator(timeValue, ':');
    ParsedTime(ToNumber(parts[0]), if |parts| >= 2 then ToNumber(parts[1]) else NaN)
  }

  /** Two runs of digits around a colon parse to the numbers they denote; a third piece is ignored. */
  lemma {:induction false} ParseDigitParts(hh: string, mm: string, tail: string)
    requires AllDigits(hh) && AllDigits(mm)
    requires tail == [] || tail[0] == ':'
    ensures ParseTime(hh + ":" + mm + tail) == ParsedTime(Num(DigitsValue(hh)), Num(DigitsValue(mm)))
  {
    assert ':' !in hh && ':' !in mm;
    assert hh + ":" + mm + tail == hh + [':'] + (mm + tail);
    SplitAtFirst(hh, ':', mm + tail);
    if tail == [] {
      assert mm + tail == mm;
      SplitNoSeparator(mm, ':');
    } else {
      assert mm + tail == mm + [':'] + tail[1..];
      SplitAtFirst(mm, ':', tail[1..]);
    }
  }

  /** date-fns' "HH:mm": the hour and the minute, each zero-padded to two digits. */
  function FormatHHmm(hour: nat, minute: nat): (s: string)
    ensures hour < 100 && minute < 100 ==> |s| == 5 && s[2] == ':' && AllDigits(s[..2]) && AllDigits(s[3..])
  {
    PadStart(NatToString(hour), 2, '0') + ":" + PadStart(NatToString(minute), 2, '0')
  }

  /** Formatting a time of day as "HH:mm" and parsing it back gives the same hour and minute. */
  lemma FormatParseRoundTrip(hour: nat, minute: nat)
    ensures ParseTime(FormatHHmm(hour, minute)) == ParsedTime(Num(hour), Num(minute))
  {
    PadTwoValue(hour);
    PadTwoValue(minute);
    assert FormatHHmm(hour, minute) + [] == FormatHHmm(hour, minute);
    ParseDigitParts(PadStart(NatToString(hour), 2, '0'), PadStart(NatToString(minute), 2, '0'), []);
  }

  /** The initial time string: the current deadline's "HH:mm", or "23:59" without one. */
  function InitialTimeValue(currentDeadline: Option<int>): (s: string)
    ensures |s| == 5 && s[2] == ':' && AllDigits(s[..2]) && AllDigits(s[3..])
  {
    match currentDeadline
    case None => DEFAULT_TIME
    case Some(t) => FormatHHmm(Fields(t).hour, Fields(t).minute)
  }

  /** The initial time string parses back to the current deadline's hour and minute, or to 23:59. */
  lemma InitialTimeParsesBack(currentDeadline: Option<int>)
    ensures ParseTime(InitialTimeValue(currentDeadline)) ==
      match currentDeadline
      case None => ParsedTime(Num(23), Num(59))
      case Some(t) => ParsedTime(Num(Fields(t).hour), Num(Fields(t).minute))
  {
    match currentDeadline
    case None =>
      assert DEFAULT_TIME == "23" + ":" + "59" + [];
      assert DigitsValue("23") == 23 by { assert "23"[..1] == "2"; }
      assert DigitsValue("59") == 59 by { assert "59"[..1] == "5"; }
      ParseDigitParts("23", "59", []);
    case Some(t) =>
      FormatParseRoundTrip(Fields(t).hour, Fields(t).minute);
  }

  /**
   * The time value `handleSetDeadline` emits for a selected date as written: a copy of the
   * date with `setHours(hours, minutes, 0, 0)` applied, whatever the time string held.
   */
  function DeadlineAsWritten(selected: TimeValue, timeValue: string): (r: TimeValue)
    ensures r.At? <==> selected.At? && ParseTime(timeValue).hours.Num? && ParseTime(timeValue).minutes.Num?
    ensures r.At? ==> Fields(r.ms).second == 0 && Fields(r.ms).millisecond == 0
    ensures r.At? && ParseTime(timeValue).hours.v < 24 && ParseTime(timeValue).minutes.v < 60 ==>
      Fields(r.ms) == DateTime(Fields(selected.ms).day, ParseTime(timeValue).hours.v, ParseTime(timeValue).minutes.v, 0, 0)
  {
    var p := ParseTime(timeValue);
    var r := SetHoursValue(selected, p.hours, p.minutes, Num(0), Num(0));
    if r.At? then
      var k := Fields(selected.ms).day * 1440 + p.hours.v * 60 + p.minutes.v;
      assert r.ms == k * MS_PER_MINUTE;
      WholeMinutesFields(k);
      SetHoursFields(selected.ms, p.hours.v % 24, p.minutes.v % 60, 0, 0);
      r
    else r
  }

  /**
   * An emptied time field (the value "") is split into [""], read as hour 0 and no minute,
   * and the emitted deadline is an Invalid Date even though a valid date was selected.
   */
  lemma EmptyTimeEmitsInvalidDate(t: int)
    ensures ParseTime("") == ParsedTime(Num(0), NaN)
    ensures DeadlineAsWritten(At(t), "") == Invalid
  {
  }

  /**
   * The deadline emitted on confirmation: nothing without a selected date or when the
   * time string does not give both an hour and a minute; otherwise the selected date with
   * its time set to the parsed hour and minute, and zero seconds and milliseconds.
   */
  function ConfirmedDeadline(selected: Option<TimeValue>, timeValue: string): (r: Option<TimeValue>)
    ensures r.None? <==> selected.None? || ParseTime(timeValue).hours.NaN? || ParseTime(timeValue).minutes.NaN?
    ensures r.Some? ==> (r.value.At? <==> selected.value.At?)
    ensures r.Some? ==> r.value == DeadlineAsWritten(selected.value, timeValue)
  {
    var p := ParseTime(timeValue);
    if selected.None? || p.hours.NaN? || p.minutes.NaN? then None
    else Some(SetHoursValue(selected.value, p.hours, p.minutes, Num(0), Num(0)))
  }

  /**
   * For a time string "HH:mm" with an hour below 24 and a minute below 60, the emitted
   * deadline falls on the selected day at HH:mm:00.000.
   */
  lemma ConfirmedKeepsDayAndSetsTime(t: int, hh: string, mm: string)
    requires AllDigits(hh) && AllDigits(mm)
    requires DigitsValue(hh) < 24 && DigitsValue(mm) < 60
    ensures var r := ConfirmedDeadline(Some(At(t)), hh + ":" + mm);
      && r.Some? && r.value.At?
      && Fields(r.value.ms) == DateTime(Fields(t).day, DigitsValue(hh), DigitsValue(mm), 0, 0)
  {
    ParseDigitParts(hh, mm, []);
    assert hh + ":" + mm + [] == hh + ":" + mm;
    SetHoursFields(t, DigitsValue(hh), DigitsValue(mm), 0, 0);
  }

  /** Only the emptied or malformed time strings are refused; every "HH:mm" is confirmed as written. */
  lemma ConfirmedAgreesOnDigitParts(selected: TimeValue, hh: string, mm: string)
    requires AllDigits(hh) && AllDigits(mm)
    ensures ConfirmedDeadline(Some(selected), hh + ":" + mm) == Some(DeadlineAsWritten(selected, hh + ":" + mm))
  {
    ParseDigitParts(hh, mm, []);
    assert hh + ":" + mm + [] == hh + ":" + mm;
  }

  /** The selector's local state: the selected date and the time string. */
  class DeadlineSelector {
    var selectedDate: JsDate?
    var timeValue: string

    /**
     * Mounting with the page's current deadline: that same `Date` is selected and its
     * "HH:mm" is the time string; without one nothing is selected and the time is "23:59".
     * Formatting an Invalid Date throws, so the current deadline is a valid one.
     */
    constructor (currentDeadline: JsDate?)
      requires currentDeadline != null ==> currentDeadline.value.At?
      ensures selectedDate == currentDeadline
      ensures timeValue == InitialTimeValue(if currentDeadline == null then None else Some(currentDeadline.value.ms))
    {
      selectedDate := currentDeadline;
      timeValue := InitialTimeValue(if currentDeadline == null then None else Some(currentDeadline.value.ms));
    }

    /** The calendar's `onSelect`: a day, or none when the selected day is clicked again. */
    method SelectDate(d: JsDate?)
      modifies this
      ensures selectedDate == d && timeValue == old(timeValue)
    {
      selectedDate := d;
    }

    /** The time input's `onChange`. */
    method ChangeTime(value: string)
      modifies this
      ensures timeValue == value && selectedDate == old(selectedDate)
    {
      timeValue := value;
    }

    /** The time value of the selected date, if one is selected. */
    function Selected(): Option<TimeValue>
      reads this, selectedDate
    {
      if selectedDate == null then None else Some(selectedDate.value)
    }

    /** The confirm button is enabled exactly when a date is selected. */
    function ConfirmEnabled(): (enabled: bool)
      reads this, selectedDate
      ensures !enabled ==> ConfirmedDeadline(Selected(), timeValue).None?
      ensures enabled <==> Selected().Some?
    {
      selectedDate != null
    }

    /**
     * `handleSetDeadline`: without a selected date (the button is then disabled) or without
     * both an hour and a minute nothing is emitted; otherwise a fresh `Date` holding the
     * confirmed deadline. The selected `Date`, which may be the page's own deadline object,
     * is left as it was.
     */
    method HandleSetDeadline() returns (emitted: JsDate?)
      ensures !ConfirmEnabled() ==> emitted == null
      ensures emitted == null <==> ConfirmedDeadline(Selected(), timeValue).None?
      ensures emitted != null ==> fresh(emitted) && Some(emitted.value) == ConfirmedDeadline(Selected(), timeValue)
      ensures selectedDate != null ==> selectedDate.value == old(selectedDate.value)
    {
      if selectedDate == null {
        return null;
      }
      var p := ParseTime(timeValue);
      if p.hours.NaN? || p.minutes.NaN? {
        return null;
      }
      var deadline := new JsDate.Copy(selectedDate);
      deadline.SetHours(p.hours, p.minutes, Num(0), Num(0));
      emitted := deadline;
    }
  }
}
