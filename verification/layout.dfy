/**
 The window layout set up when the clock face is loaded: where the digit
 group sits vertically, where the four digit slots sit inside it, and the
 digits shown before the first minute tick.
 */
module Layout {
  import opened GlyphRender
  import ClockDigits

  /** Vertical placement of the digit group on the screen. */
  datatype Alignment = Top | Middle | Bottom

  /** The build-time `align` setting: -1 is top, 0 is middle, anything else bottom. */
  function AlignmentOf(align: int): (a: Alignment)
    ensures a == Top <==> align == -1
    ensures a == Middle <==> align == 0
    ensures a == Bottom <==> align != -1 && align != 0
  {
    if align == -1 then Top
    else if align == 0 then Middle
    else Bottom
  }

  /**
   The y position of the digit group of height `widgetH` on a screen of
   height `screenH`. Top leaves `borderOffset` above the group, Bottom
   leaves `borderOffset` below it, and Middle leaves gaps above and below
   that differ by at most one pixel (the C halves truncate): the gap below
   is one pixel larger exactly when only the screen height is odd, and one
   pixel smaller exactly when only the group height is odd.
   */
  function DigitsLayerPos(a: Alignment, screenH: int, widgetH: int, borderOffset: int): (pos: int)
    ensures a == Top ==> pos == borderOffset
    ensures a == Bottom ==> screenH - (pos + widgetH) == borderOffset
    ensures a == Middle && screenH >= 0 && widgetH >= 0 ==> -1 <= (screenH - (pos + widgetH)) - pos <= 1
    ensures a == Middle && screenH >= 0 && widgetH >= 0 ==>
              (screenH - (pos + widgetH)) - pos == screenH % 2 - widgetH % 2
  {
    match a
    case Top => borderOffset
    case Middle => CDiv(screenH, 2) - CDiv(widgetH, 2)
    case Bottom => screenH - borderOffset - widgetH
  }

  /**
   When the screen is tall enough for the group and both margins, the
   group lies on the screen for every alignment.
   */
  lemma DigitsLayerOnScreen(a: Alignment, screenH: int, widgetH: int, borderOffset: int)
    requires 0 <= borderOffset && 0 <= widgetH && widgetH + 2 * borderOffset <= screenH
    ensures var pos := DigitsLayerPos(a, screenH, widgetH, borderOffset);
      0 <= pos && pos + widgetH <= screenH
  {}

  /** The digit group's frame: full screen width, the slot height plus two border strips. */
  function DigitsLayerFrame(g: Geometry, screenW: int, pos: int): (r: Rect)
    ensures r.x == 0 && r.y == pos && r.w == screenW
    ensures forall i: nat :: i < ClockDigits.SlotCount ==>
              r.h == g.border + SlotFrame(g, i).h + g.border && SlotFrame(g, i).y == g.border
  {
    Rect(0, pos, screenW, g.slotH + 2 * g.border)
  }

  /**
   The frame of digit slot `i` inside the digit group, left to right: a
   digit-sized frame below the top border strip, `i` digit widths from the
   left edge (`SlotFramesTile` shows that consecutive slots abut).
   */
  function SlotFrame(g: Geometry, i: nat): (r: Rect)
    ensures r.w == g.slotW && r.h == g.slotH && r.y == g.border
    ensures r.x == i * r.w
  {
    Rect(i * g.slotW, g.border, g.slotW, g.slotH)
  }

  /**
   The four slot frames sit side by side: each starts where the previous
   one ends, so with a positive slot width no two overlap, and vertically
   each fills the group between its top and bottom border strips.
   */
  lemma SlotFramesTile(g: Geometry)
    requires g.slotW > 0 && g.border >= 0
    ensures forall i: nat :: i + 1 < ClockDigits.SlotCount ==> SlotFrame(g, i).x + SlotFrame(g, i).w == SlotFrame(g, i + 1).x
    ensures forall i: nat, j: nat :: i < j < ClockDigits.SlotCount ==> Disjoint(SlotFrame(g, i), SlotFrame(g, j))
    ensures forall i: nat :: i < ClockDigits.SlotCount ==>
              SlotFrame(g, i).y == g.border && SlotFrame(g, i).y + SlotFrame(g, i).h + g.border == DigitsLayerFrame(g, 0, 0).h
  {}

  /**
   The four slot frames in slot order, slot `i` at `i` digit widths from the
   left; with a positive slot width no two of them overlap.
   */
  function SlotFrames(g: Geometry): (slots: seq<Rect>)
    ensures |slots| == ClockDigits.SlotCount
    ensures forall i :: 0 <= i < |slots| ==> slots[i] == Rect(i * g.slotW, g.border, g.slotW, g.slotH)
    ensures g.slotW > 0 && g.border >= 0 ==>
              forall i, j :: 0 <= i < j < |slots| ==> Disjoint(slots[i], slots[j])
  {
    var slots := seq(ClockDigits.SlotCount, i requires 0 <= i < ClockDigits.SlotCount => SlotFrame(g, i));
    assert g.slotW > 0 && g.border >= 0 ==> forall i, j :: 0 <= i < j < |slots| ==> Disjoint(slots[i], slots[j]) by {
      if g.slotW > 0 && g.border >= 0 {
        SlotFramesTile(g);
      }
    }
    slots
  }

  /** What window_load sets up: the group frame, the four slot frames and the first digits. */
  datatype Face = Face(layer: Rect, slots: seq<Rect>, digits: seq<int>)

  /** Every slot holds 0 before the first tick fills in the time. */
  const InitialDigits: seq<int> := [0, 0, 0, 0]

  /**
   window_load: places the digit group by the alignment, lays out the four
   slots, and shows the current time as a tick would.
   */
  function WindowLoad(g: Geometry, align: int, borderOffset: int, widgetH: int, screenW: int, screenH: int,
                      hour: ClockDigits.UShort, minute: ClockDigits.UShort, is24h: bool, hourLeadingZero: bool): (f: Face)
    requires hour < 24 && minute < 60
    ensures |f.slots| == ClockDigits.SlotCount && |f.digits| == ClockDigits.SlotCount
    ensures f.layer.x == 0 && f.layer.w == screenW
    ensures f.layer.h == g.slotH + 2 * g.border
    ensures AlignmentOf(align) == Top ==> f.layer.y == borderOffset
    ensures AlignmentOf(align) == Bottom ==> screenH - (f.layer.y + widgetH) == borderOffset
    ensures AlignmentOf(align) == Middle && screenH >= 0 && widgetH >= 0 ==>
              (screenH - (f.layer.y + widgetH)) - f.layer.y == screenH % 2 - widgetH % 2
    ensures forall i :: 0 <= i < |f.slots| ==> f.slots[i] == Rect(i * g.slotW, g.border, g.slotW, g.slotH)
    ensures 0 <= borderOffset && 0 <= widgetH && widgetH + 2 * borderOffset <= screenH ==>
              0 <= f.layer.y && f.layer.y + widgetH <= screenH
    ensures widgetH == g.slotH + 2 * g.border && 0 <= borderOffset && 0 <= widgetH && widgetH + 2 * borderOffset <= screenH ==>
              0 <= f.layer.y && f.layer.y + f.layer.h <= screenH
    ensures g.slotW > 0 && g.border >= 0 ==>
              forall i, j :: 0 <= i < j < |f.slots| ==> Disjoint(f.slots[i], f.slots[j])
    ensures ClockDigits.ShownHour(f.digits) == ClockDigits.HourForClockStyle(hour, is24h)
    ensures f.digits[2] * 10 + f.digits[3] == minute
    ensures f.digits == ClockDigits.TickDigits(InitialDigits, hour, minute, is24h, hourLeadingZero)
    ensures forall i :: 1 <= i < ClockDigits.SlotCount ==> ClockDigits.IsDigit(f.digits[i])
    ensures ClockDigits.IsSlotValue(f.digits[0])
    ensures f.digits[0] == ClockDigits.Blank <==> !hourLeadingZero && ClockDigits.HourForClockStyle(hour, is24h) < 10
  {
    var pos := DigitsLayerPos(AlignmentOf(align), screenH, widgetH, borderOffset);
    var fits := 0 <= borderOffset && 0 <= widgetH && widgetH + 2 * borderOffset <= screenH;
    assert fits ==> 0 <= pos && pos + widgetH <= screenH by {
      if fits {
        DigitsLayerOnScreen(AlignmentOf(align), screenH, widgetH, borderOffset);
      }
    }
    ClockDigits.ShownHourIsClockStyleHour(InitialDigits, hour, minute, is24h, hourLeadingZero);
    Face(DigitsLayerFrame(g, screenW, pos), SlotFrames(g), ClockDigits.TickDigits(InitialDigits, hour, minute, is24h, hourLeadingZero))
  }
}
