/**
 * The reservation time-slot engine: half-hour slots from a start hour to the
 * last hour of the day, the slots offered for a selected date, and the date
 * helpers (today, today or the next day after the booking cutoff, is-today).
 *
 * "Now" on the Europe/Belgrade wall clock is an input (`BelgradeNow`): the
 * current hour and the current calendar date.
 */
module TimeManagement {
  import opened Decimal
  import opened Calendar

  /** The Belgrade wall clock at the moment of the call. */
  datatype BelgradeNow = BelgradeNow(hour: int, today: Date)

  /** What a real clock reading satisfies. */
  predicate ValidNow(now: BelgradeNow) {
    0 <= now.hour <= 23 && ValidDate(now.today)
  }

  /** First hour offered for a future date. */
  const OpeningHour: int := 8
  /** Last hour that gets slots; its slots are H:00 and H:30. */
  const LastHour: int := 23
  /** From this hour on, nothing more can be booked today. */
  const CutoffHour: int := 22

  /** The two slots of an hour. */
  datatype Half = OnTheHour | HalfPast

  function MinuteText(half: Half): string {
    if half == OnTheHour then "00" else "30"
  }

  /** The half of the `i`-th slot of a run: even positions are on the hour, odd ones half past. */
  function Minute(i: int): Half {
    if i % 2 == 0 then OnTheHour else HalfPast
  }

  /**
   * A bookable slot. `generateTimeSlots` builds each `{ value, label }` object from an
   * hour and a minute; a slot here is that hour and half-hour, and `Value()` and
   * `Label()` are the two strings stored in the object. `LabelDeterminesSlot` shows the
   * label alone already tells slots apart.
   */
  datatype TimeSlot = TimeSlot(hour: int, half: Half) {
    /** `value`: the hour zero-padded to two digits, then the minutes; for an hour
      * below 100 that is four characters whose first two read back as the hour. */
    function Value(): (r: string)
      ensures 0 <= hour <= 99 ==>
                |r| == 4 && AllDigits(r[..2]) && ParseDigits(r[..2]) == hour && r[2..] == MinuteText(half)
    {
      if 0 <= hour <= 99 then
        assert Pow10(2) == 100;
        NatToStringLength(hour, 2);
        ParsePadded(hour, 2);
        var p := PadStart(IntToString(hour), 2);
        assert (p + MinuteText(half))[..2] == p;
        p + MinuteText(half)
      else
        PadStart(IntToString(hour), 2) + MinuteText(half)
    }

    /** `label`: the hour as it is, ':', then the minutes; what stands before the ':'
      * reads back as the hour, behind a '-' when the hour is negative. */
    function Label(): (r: string)
      ensures 3 <= |r| && r[|r| - 3] == ':' && r[|r| - 2..] == MinuteText(half)
      ensures hour >= 0 ==> AllDigits(r[..|r| - 3]) && ParseDigits(r[..|r| - 3]) == hour
      ensures hour < 0 ==> r[0] == '-' && AllDigits(r[1..|r| - 3]) && ParseDigits(r[1..|r| - 3]) == -hour
    {
      LabelParts(IntToString(hour), MinuteText(half));
      IntToString(hour) + ":" + MinuteText(half)
    }
  }

  /** Where the hour and the minutes sit in `h:mm`. */
  lemma LabelParts(h: string, m: string)
    requires 1 <= |h| && |m| == 2
    ensures |h + ":" + m| == |h| + 3 && (h + ":" + m)[0] == h[0] && (h + ":" + m)[|h|] == ':'
    ensures (h + ":" + m)[..|h|] == h && (h + ":" + m)[1..|h|] == h[1..]
    ensures (h + ":" + m)[|h| + 1..] == m
  {
    var r := h + ":" + m;
    assert r[..|h|] == h;
    assert r[1..|h|] == h[1..];
    assert r[|h| + 1..] == m;
  }

  /** Minutes from midnight at which the slot starts. */
  function StartMinute(slot: TimeSlot): int {
    60 * slot.hour + (if slot.half == OnTheHour then 0 else 30)
  }

  function SlotCount(startHour: int): nat {
    if startHour > LastHour then 0 else 2 * (LastHour + 1 - startHour)
  }

  /** The slots `generateTimeSlots(startHour)` returns: the start hour's ":00" and ":30" slots, then the run from the next hour, up to `LastHour`. */
  function Slots(startHour: int): (r: seq<TimeSlot>)
    ensures |r| == SlotCount(startHour)
    decreases LastHour + 1 - startHour
  {
    if startHour > LastHour then []
    else [TimeSlot(startHour, OnTheHour), TimeSlot(startHour, HalfPast)] + Slots(startHour + 1)
  }

  /** Slot `i` of the run from `startHour` is hour `startHour + i / 2`, on the hour for even `i` and half past for odd `i`. */
  lemma {:induction false} SlotsAt(startHour: int, i: int)
    requires 0 <= i < SlotCount(startHour)
    ensures Slots(startHour)[i] == TimeSlot(startHour + i / 2, Minute(i))
    decreases LastHour + 1 - startHour
  {
    if i >= 2 {
      SlotsAt(startHour + 1, i - 2);
      assert startHour + 1 + (i - 2) / 2 == startHour + i / 2 && Minute(i - 2) == Minute(i);
    }
  }

  /** `generateTimeSlots(startHour)`: the loop that pushes two slots per hour. */
  method GenerateTimeSlots(startHour: int) returns (slots: seq<TimeSlot>)
    ensures slots == Slots(startHour)
    ensures |slots| == if startHour > LastHour then 0 else 2 * (24 - startHour)
  {
    slots := [];
    var hour := startHour;
    while hour <= LastHour
      invariant slots + Slots(hour) == Slots(startHour)
      decreases LastHour + 1 - hour
    {
      slots := slots + [TimeSlot(hour, OnTheHour)];
      slots := slots + [TimeSlot(hour, HalfPast)];
      hour := hour + 1;
    }
    assert Slots(hour) == [];
  }

  /** Each slot starts half an hour after the one before it: ":00" comes right before ":30" of the same hour, and the hours go up by one. */
  lemma SlotsConsecutive(startHour: int, i: int)
    requires 0 <= i && i + 1 < SlotCount(startHour)
    ensures StartMinute(Slots(startHour)[i + 1]) == StartMinute(Slots(startHour)[i]) + 30
    ensures Slots(startHour)[0].hour == startHour && Slots(startHour)[0].half == OnTheHour
  {
    SlotsAt(startHour, i);
    SlotsAt(startHour, i + 1);
    if i % 2 == 0 {
      assert (i + 1) / 2 == i / 2;
    } else {
      assert (i + 1) / 2 == i / 2 + 1;
    }
  }

  /** For an hour of the day, `value` is the two hour digits then the minutes, four characters, and `label` the unpadded hour, ':' and the minutes. */
  lemma SlotFormat(slot: TimeSlot)
    requires 0 <= slot.hour <= 23
    ensures slot.Value() == [DigitChar(slot.hour / 10), DigitChar(slot.hour % 10)] + MinuteText(slot.half)
    ensures slot.Label() ==
              (if slot.hour < 10 then [DigitChar(slot.hour)] else [DigitChar(slot.hour / 10), DigitChar(slot.hour % 10)])
              + ":" + MinuteText(slot.half)
    ensures |slot.Value()| == 4
  {
    if slot.hour >= 10 {
      assert NatToString(slot.hour) == NatToString(slot.hour / 10) + [DigitChar(slot.hour % 10)];
    }
  }

  /** Two slots with the same label are the same slot. */
  lemma LabelDeterminesSlot(a: TimeSlot, b: TimeSlot)
    requires a.Label() == b.Label()
    ensures a == b
  {
    var ha, hb := IntToString(a.hour), IntToString(b.hour);
    LabelParts(ha, MinuteText(a.half));
    LabelParts(hb, MinuteText(b.half));
    assert |ha| == |hb|;
    assert MinuteText(a.half) == MinuteText(b.half);
    assert ha == a.Label()[..|ha|] == hb;
    IntToStringInjective(a.hour, b.hour);
  }

  /** A non-empty run always ends with the slot `2330`, `23:30`. */
  lemma SlotsEnd(startHour: int)
    requires startHour <= LastHour
    ensures Slots(startHour)[|Slots(startHour)| - 1] == TimeSlot(LastHour, HalfPast)
    ensures TimeSlot(LastHour, HalfPast).Value() == "2330" && TimeSlot(LastHour, HalfPast).Label() == "23:30"
  {
    var n := SlotCount(startHour);
    SlotsAt(startHour, n - 1);
    assert startHour + (n - 1) / 2 == LastHour && Minute(n - 1) == HalfPast;
    assert NatToString(23) == "23";
  }

  /** The full day opens with the slot `0800`, `8:00`. */
  lemma OpeningSlotText()
    ensures TimeSlot(OpeningHour, OnTheHour).Value() == "0800" && TimeSlot(OpeningHour, OnTheHour).Label() == "8:00"
  {
    assert NatToString(8) == "8";
    assert PadStart("8", 2) == "08";
  }

  /** A later start hour gives a tail of an earlier start hour's run. */
  lemma {:induction false} SlotsSuffix(a: int, b: int)
    requires a <= b <= LastHour + 1
    ensures Slots(b) == Slots(a)[2 * (b - a)..]
    decreases b - a
  {
    if a < b {
      SlotsSuffix(a + 1, b);
      DropPastPrefix([TimeSlot(a, OnTheHour), TimeSlot(a, HalfPast)], Slots(a + 1), 2 * (b - a));
    }
  }

  /** Dropping past the whole of a prefix drops the rest from what follows it. */
  lemma DropPastPrefix<T>(p: seq<T>, r: seq<T>, k: int)
    requires |p| <= k <= |p| + |r|
    ensures (p + r)[k..] == r[k - |p|..]
  {
  }

  /** `generateAllTimeSlots()`: the full day from the opening hour, 32 slots from `0800`, `8:00` to `2330`, `23:30`. */
  function AllTimeSlots(): (r: seq<TimeSlot>)
    ensures r == Slots(OpeningHour)
    ensures |r| == 32
    ensures r[0] == TimeSlot(OpeningHour, OnTheHour) && r[31] == TimeSlot(LastHour, HalfPast)
  {
    SlotsEnd(OpeningHour);
    Slots(OpeningHour)
  }

  /** `getTodayDate()`: today's Belgrade date as `toISOString()` renders it. */
  function GetTodayDate(now: BelgradeNow): (r: string)
    requires ValidDate(now.today)
    ensures 0 <= now.today.year <= 9999 ==> ReadsAsDate(r, now.today)
  {
    if 0 <= now.today.year <= 9999 then IsoDateFormat(now.today); IsoDate(now.today)
    else IsoDate(now.today)
  }

  /** `isToday(date)`: the string equals today's rendered date, so for years 0..9999 it
    * accepts exactly the `YYYY-MM-DD` strings that read back as today. */
  predicate IsToday(now: BelgradeNow, date: string): (b: bool)
    requires ValidDate(now.today)
    ensures 0 <= now.today.year <= 9999 ==> (b <==> ReadsAsDate(date, now.today))
  {
    if 0 <= now.today.year <= 9999 && ReadsAsDate(date, now.today) then
      ReadsAsDateIsIso(date, now.today);
      date == GetTodayDate(now)
    else
      date == GetTodayDate(now)
  }

  /** The rendering of a valid date is "today" exactly when that date is today. */
  lemma IsTodayExactly(now: BelgradeNow, d: Date)
    requires ValidDate(now.today) && ValidDate(d)
    ensures IsToday(now, IsoDate(d)) <==> d == now.today
  {
    if IsToday(now, IsoDate(d)) {
      IsoDateInjective(d, now.today);
    }
  }

  /** The date `getTodayOrNextDay()` picks: today, or the calendar successor from the cutoff hour on. */
  function DefaultDate(now: BelgradeNow): (d: Date)
    requires ValidNow(now)
    ensures ValidDate(d)
    ensures DayNumber(d) == DayNumber(now.today) + (if now.hour >= CutoffHour then 1 else 0)
  {
    if now.hour >= CutoffHour then NextDay(now.today) else now.today
  }

  /** `getTodayOrNextDay()`: the default booking date, rendered. */
  function GetTodayOrNextDay(now: BelgradeNow): (r: string)
    requires ValidNow(now)
    ensures r == IsoDate(DefaultDate(now))
    ensures IsToday(now, r) <==> now.hour < CutoffHour
  {
    IsTodayExactly(now, DefaultDate(now));
    IsoDate(DefaultDate(now))
  }

  /** `getAvailableTimeSlots()` for `selectedDate`. */
  function AvailableTimeSlots(now: BelgradeNow, selectedDate: string): (r: seq<TimeSlot>)
    requires ValidNow(now)
    ensures !IsToday(now, selectedDate) ==> r == AllTimeSlots()
    ensures IsToday(now, selectedDate) && now.hour >= CutoffHour ==> r == []
    ensures IsToday(now, selectedDate) && now.hour < CutoffHour ==>
              r == Slots(now.hour + 1) && |r| == 2 * (23 - now.hour) &&
              r[0].Value() == [DigitChar((now.hour + 1) / 10), DigitChar((now.hour + 1) % 10)] + "00"
  {
    if !IsToday(now, selectedDate) then AllTimeSlots()
    else if now.hour >= CutoffHour then []
    else
      SlotFormat(TimeSlot(now.hour + 1, OnTheHour));
      Slots(now.hour + 1)
  }

  /** From 7:00 on, what is left of today is a tail of the full day. */
  lemma TodayIsTailOfFullDay(now: BelgradeNow)
    requires ValidNow(now) && OpeningHour - 1 <= now.hour < CutoffHour
    ensures AvailableTimeSlots(now, GetTodayDate(now)) ==
              AllTimeSlots()[2 * (now.hour + 1 - OpeningHour)..]
  {
    var h := now.hour + 1;
    assert IsToday(now, GetTodayDate(now));
    var today := AvailableTimeSlots(now, GetTodayDate(now));
    assert today == Slots(h);
    SlotsSuffix(OpeningHour, h);
    assert AllTimeSlots() == Slots(OpeningHour);
  }

  /** Before 7:00, today offers slots ahead of the opening hour that a future date does not. */
  lemma TodayBeforeOpeningStartsEarly(now: BelgradeNow)
    requires ValidNow(now) && now.hour < OpeningHour - 1
    ensures |AvailableTimeSlots(now, GetTodayDate(now))| > |AllTimeSlots()|
    ensures AvailableTimeSlots(now, GetTodayDate(now))[0] == TimeSlot(now.hour + 1, OnTheHour)
    ensures AvailableTimeSlots(now, GetTodayDate(now))[0].hour < OpeningHour
    ensures AvailableTimeSlots(now, GetTodayDate(now))[0].Value()[0] == '0'
  {
    SlotFormat(TimeSlot(now.hour + 1, OnTheHour));
  }

  /** The default date always has something to book. */
  lemma DefaultDateHasSlots(now: BelgradeNow)
    requires ValidNow(now)
    ensures |AvailableTimeSlots(now, GetTodayOrNextDay(now))| >= 2
  {
  }
}
