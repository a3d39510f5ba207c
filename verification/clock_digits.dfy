/**
 The digit formatter of the clock face: it turns the hour and minute of a
 minute tick into the four digit values that the four digit slots draw.

 A digit slot holds an integer in -1..9; -1 (`Blank`) means "draw nothing"
 and is only ever used for a suppressed leading zero of the hour.
 */
module ClockDigits {

  /** The value of a slot that paints nothing. */
  const Blank: int := -1

  /** The number of digit slots: hour tens, hour ones, minute tens, minute ones. */
  const SlotCount: nat := 4

  /** The C `unsigned short` the hour and minute are passed as. */
  type UShort = x: int | 0 <= x < 0x1_0000

  /** A value a slot may hold: a decimal digit or Blank. */
  predicate IsSlotValue(v: int) {
    v == Blank || 0 <= v <= 9
  }

  predicate IsDigit(v: int) {
    0 <= v <= 9
  }

  /**
   The hour as the user wants to read it. In 24-hour style it is passed
   through unchanged; in 12-hour style it is folded into 1..12, agreeing
   with the hour modulo 12 (so midnight and noon read 12).
   */
  function HourForClockStyle(hour: UShort, is24h: bool): (h: UShort)
    ensures is24h ==> h == hour
    ensures !is24h ==> 1 <= h <= 12 && h % 12 == hour % 12
  {
    if is24h then hour
    else
      var folded := hour % 12;
      if folded != 0 then folded else 12
  }

  /**
   Writes the last two decimal digits of `value` into slots `offset` (tens)
   and `offset + 1` (ones). The tens slot becomes Blank when its digit is 0
   and `leadingZero` is off; the ones slot is never Blank. Digits above the
   tens are dropped, as the C loop only runs for two columns.
   */
  function DisplayValue(slots: seq<int>, value: UShort, offset: UShort, leadingZero: bool): (r: seq<int>)
    requires |slots| == SlotCount && offset + 1 < SlotCount
    ensures |r| == SlotCount
    ensures forall i :: 0 <= i < SlotCount && i != offset && i != offset + 1 ==> r[i] == slots[i]
    ensures IsDigit(r[offset + 1]) && IsSlotValue(r[offset])
    ensures r[offset] == Blank <==> !leadingZero && value % 100 < 10
    ensures r[offset] != Blank ==> r[offset] * 10 + r[offset + 1] == value % 100
    ensures r[offset] == Blank ==> r[offset + 1] == value % 100
  {
    var ones := value % 10;
    var tens := (value / 10) % 10;
    slots[offset := if tens == 0 && !leadingZero then Blank else tens][offset + 1 := ones]
  }

  /**
   The C loop of display_value: columns 1 then 0, each taking `value % 10`
   and dividing `value` by ten, with the Blank substitution only in
   column 0. It computes exactly DisplayValue.
   */
  method DisplayValueLoop(slots: seq<int>, value: UShort, offset: UShort, leadingZero: bool) returns (r: seq<int>)
    requires |slots| == SlotCount && offset + 1 < SlotCount
    ensures r == DisplayValue(slots, value, offset, leadingZero)
  {
    r := slots;
    var v := value;
    var col := 1;
    while col >= 0
      invariant -1 <= col <= 1
      invariant |r| == SlotCount
      invariant col == 1 ==> r == slots && v == value
      invariant col == 0 ==> r == slots[offset + 1 := value % 10] && v == value / 10
      invariant col == -1 ==> r == DisplayValue(slots, value, offset, leadingZero)
    {
      var digit := v % 10;
      if digit == 0 && col == 0 && !leadingZero {
        digit := Blank;
      }
      r := r[offset + col := digit];
      v := v / 10;
      col := col - 1;
    }
  }

  /**
   The minute-tick handler: the hour (converted for the clock style) goes
   to slots 0-1 with the configured leading-zero rule, the minute to slots
   2-3 always with its leading zero. `hour` and `minute` come from the C
   library's broken-down time, whose fields lie in 0..23 and 0..59.
   */
  function TickDigits(slots: seq<int>, hour: UShort, minute: UShort, is24h: bool, hourLeadingZero: bool): (r: seq<int>)
    requires |slots| == SlotCount
    requires hour < 24 && minute < 60
    ensures |r| == SlotCount
    ensures IsSlotValue(r[0]) && IsDigit(r[1]) && IsDigit(r[2]) && IsDigit(r[3])
    ensures r[2] * 10 + r[3] == minute
    ensures r[0] == Blank <==> !hourLeadingZero && HourForClockStyle(hour, is24h) < 10
    ensures r[0] != Blank ==> r[0] * 10 + r[1] == HourForClockStyle(hour, is24h)
    ensures r[0] == Blank ==> r[1] == HourForClockStyle(hour, is24h)
  {
    var shown := HourForClockStyle(hour, is24h);
    assert shown % 100 == shown && minute % 100 == minute;
    var withHour := DisplayValue(slots, shown, 0, hourLeadingZero);
    var r := DisplayValue(withHour, minute, 2, true);
    assert r[0] == withHour[0] && r[1] == withHour[1];
    r
  }

  /** The hour digits, read back as a number (Blank reads as no tens digit). */
  function ShownHour(r: seq<int>): int
    requires |r| == SlotCount
  {
    (if r[0] == Blank then 0 else r[0] * 10) + r[1]
  }

  /**
   With both leading zeros shown and 24-hour style, the four slots are
   plain digits spelling the hour and the minute.
   */
  lemma TwentyFourHourRoundTrip(slots: seq<int>, hour: UShort, minute: UShort)
    requires |slots| == SlotCount && hour < 24 && minute < 60
    ensures var r := TickDigits(slots, hour, minute, true, true);
      && (forall i :: 0 <= i < SlotCount ==> IsDigit(r[i]))
      && r[0] * 10 + r[1] == hour
      && r[2] * 10 + r[3] == minute
  {}

  /**
   Whatever the style and leading-zero rule, the slots read back to the
   hour that the clock style shows, and only the hour tens can be Blank.
   */
  lemma ShownHourIsClockStyleHour(slots: seq<int>, hour: UShort, minute: UShort, is24h: bool, hourLeadingZero: bool)
    requires |slots| == SlotCount && hour < 24 && minute < 60
    ensures var r := TickDigits(slots, hour, minute, is24h, hourLeadingZero);
      && ShownHour(r) == HourForClockStyle(hour, is24h)
      && (forall i :: 1 <= i < SlotCount ==> r[i] != Blank)
  {}

  /**
   In 12-hour style the hour tens is 1 or, for hours 1..9, either 0 or
   Blank depending on the leading-zero rule.
   */
  lemma TwelveHourTens(slots: seq<int>, hour: UShort, minute: UShort, hourLeadingZero: bool)
    requires |slots| == SlotCount && hour < 24 && minute < 60
    ensures var r := TickDigits(slots, hour, minute, false, hourLeadingZero);
      && (r[0] == 1 <==> hour % 12 >= 10 || hour % 12 == 0)
      && (r[0] == 0 <==> hourLeadingZero && 1 <= hour % 12 <= 9)
      && (r[0] == Blank <==> !hourLeadingZero && 1 <= hour % 12 <= 9)
  {}

  /** A tick overwrites every slot: the previous slot values do not matter. */
  lemma TickForgetsPreviousSlots(s1: seq<int>, s2: seq<int>, hour: UShort, minute: UShort, is24h: bool, hourLeadingZero: bool)
    requires |s1| == SlotCount && |s2| == SlotCount && hour < 24 && minute < 60
    ensures TickDigits(s1, hour, minute, is24h, hourLeadingZero) == TickDigits(s2, hour, minute, is24h, hourLeadingZero)
  {}

  /** Worked examples of the formatter. */
  lemma TickExamples()
    ensures TickDigits([0, 0, 0, 0], 0, 30, false, false) == [1, 2, 3, 0]
    ensures TickDigits([0, 0, 0, 0], 13, 5, false, false) == [Blank, 1, 0, 5]
    ensures TickDigits([0, 0, 0, 0], 5, 5, true, false) == [Blank, 5, 0, 5]
    ensures TickDigits([0, 0, 0, 0], 0, 7, true, true) == [0, 0, 0, 7]
  {}
}
