/** The program's own measure of the calendar: working minutes between two instants. */
module WorkingMinutes {
  import opened WorkCalendar

  function Max(a: int, b: int): int { if a >= b then a else b }

  function Min(a: int, b: int): int { if a <= b then a else b }

  /** Minutes of [a, b) that a list of breaks takes away. */
  function BreakOverlap(bs: seq<Break>, a: int, b: int): int {
    if bs == [] then 0
    else BreakOverlap(bs[..|bs| - 1], a, b) +
         (var l := bs[|bs| - 1];
          if l.from >= b || l.to <= a then 0 else Max(0, Min(l.to, b) - Max(l.from, a)))
  }

  /** What day `d` contributes to the minutes from `start` to `end`. */
  function DayMinutes(k: Calendar, start: int, end: int, d: int): int {
    if AvailableHours(k, d) <= 0 || WindowEnd(k.cat, d) <= WindowStart(d) then 0
    else
      var a := if d == Day(start) then Max(start, WindowStart(d)) else WindowStart(d);
      var b := if d == Day(end) then Min(end, WindowEnd(k.cat, d)) else WindowEnd(k.cat, d);
      if b <= a then 0 else Max(0, b - a - BreakOverlap(DayBreaks(k.cat, d), a, b))
  }

  /** What the days before `d` contribute. */
  function MinutesUpTo(k: Calendar, start: int, end: int, d: int): int
    decreases d - Day(start)
  {
    if d <= Day(start) then 0
    else MinutesUpTo(k, start, end, d - 1) + DayMinutes(k, start, end, d - 1)
  }

  function WorkingMinutesBetween(k: Calendar, start: int, end: int): int {
    if end <= start then 0 else MinutesUpTo(k, start, end, Day(end) + 1)
  }

  method ComputeWorkingMinutesBetween(k: Calendar, start: int, end: int) returns (total: int)
    ensures total == WorkingMinutesBetween(k, start, end)
    ensures total == Count(k, Shifts, FromEight(start), FromEight(end))
  {
    hide Count, FromEight;
    MinutesAreCount(k, start, end);
    if end <= start { return 0; }
    total := 0;
    var date := Day(start);
    while date <= Day(end)
      invariant Day(start) <= date <= Day(end) + 1
      invariant total == MinutesUpTo(k, start, end, date)
    {
      if AvailableHours(k, date) <= 0 {
        date := date + 1;
        continue;
      }
      var dayStart, dayEnd := WindowStart(date), WindowEnd(k.cat, date);
      if dayEnd <= dayStart {
        date := date + 1;
        continue;
      }
      var a := dayStart;
      if date == Day(start) { a := Max(start, dayStart); }
      var b := dayEnd;
      if date == Day(end) { b := Min(end, dayEnd); }
      if b <= a {
        date := date + 1;
        continue;
      }
      var segment := WithoutBreaks(DayBreaks(k.cat, date), a, b);
      total := total + Max(0, segment);
      date := date + 1;
    }
  }

  method WithoutBreaks(breaks: seq<Break>, a: int, b: int) returns (segment: int)
    ensures segment == b - a - BreakOverlap(breaks, a, b)
  {
    segment := b - a;
    for i := 0 to |breaks|
      invariant segment == b - a - BreakOverlap(breaks[..i], a, b)
    {
      assert breaks[..i + 1][..i] == breaks[..i];
      if breaks[i].from >= b || breaks[i].to <= a { continue; }
      segment := segment - Max(0, Min(breaks[i].to, b) - Max(breaks[i].from, a));
    }
    assert breaks[..|breaks|] == breaks;
  }

  // ---------- the measure against the reference count

  /** An instant before 08:00 is moved to 08:00 of its date. */
  function FromEight(t: int): int { Max(t, WindowStart(Day(t))) }

  lemma OverlapOfThree(bs: seq<Break>, a: int, b: int)
    requires |bs| == 3 && a < b
    requires forall i :: 0 <= i < 3 ==> bs[i].from < bs[i].to
    ensures BreakOverlap(bs, a, b) ==
            Max(0, Min(bs[0].to, b) - Max(bs[0].from, a)) +
            Max(0, Min(bs[1].to, b) - Max(bs[1].from, a)) +
            Max(0, Min(bs[2].to, b) - Max(bs[2].from, a))
  {
    var two, one := [bs[0], bs[1]], [bs[0]];
    assert bs[..2] == two && two[..1] == one && one[..0] == [];
    assert BreakOverlap(one, a, b) == Max(0, Min(bs[0].to, b) - Max(bs[0].from, a));
    assert BreakOverlap(two, a, b) == BreakOverlap(one, a, b) + Max(0, Min(bs[1].to, b) - Max(bs[1].from, a));
  }

  lemma OverlapGrows(cat: Category, d: int, a: int, b: int)
    requires a + 1 < b
    ensures BreakOverlap(DayBreaks(cat, d), a, b) ==
            BreakOverlap(DayBreaks(cat, d), a, b - 1) + if InBreak(cat, d, b - 1) then 1 else 0
  {
    var bs := DayBreaks(cat, d);
    if bs != [] {
      OverlapOfThree(bs, a, b);
      OverlapOfThree(bs, a, b - 1);
    }
  }

  lemma OverlapOfMinute(cat: Category, d: int, a: int)
    ensures BreakOverlap(DayBreaks(cat, d), a, a + 1) == if InBreak(cat, d, a) then 1 else 0
  {
    var bs := DayBreaks(cat, d);
    if bs != [] { OverlapOfThree(bs, a, a + 1); }
  }

  lemma MinuteOfShift(k: Calendar, d: int, m: int)
    requires Open(k, d) && WindowStart(d) <= m < WindowEnd(k.cat, d)
    ensures Works(k, Shifts, m) <==> !InBreak(k.cat, d, m)
  {
    WindowShape(k.cat, d - 1);
    assert Day(m) == d || Day(m) == d + 1;
    if Day(m) == d {
      assert !InShift(k, d - 1, m);
    } else {
      assert !InShift(k, d + 1, m);
    }
  }

  lemma {:induction false} SegmentIsCount(k: Calendar, d: int, a: int, b: int)
    requires Open(k, d) && WindowStart(d) <= a < b <= WindowEnd(k.cat, d)
    ensures Count(k, Shifts, a, b) == b - a - BreakOverlap(DayBreaks(k.cat, d), a, b)
    decreases b - a
  {
    MinuteOfShift(k, d, b - 1);
    CountLast(k, Shifts, a, b);
    if a + 1 < b {
      SegmentIsCount(k, d, a, b - 1);
      OverlapGrows(k.cat, d, a, b);
    } else {
      OverlapOfMinute(k.cat, d, a);
      CountNone(k, Shifts, a, a);
    }
  }

  /** A shift belongs to the stretch from its 08:00 to the next. */
  lemma OutsideShift(k: Calendar, d: int, a: int, b: int)
    requires WindowStart(d) <= a && b <= WindowStart(d + 1)
    requires Open(k, d) ==> WindowEnd(k.cat, d) <= a
    ensures Count(k, Shifts, a, b) == 0
  {
    WindowShape(k.cat, d);
    WindowShape(k.cat, d - 1);
    CountNone(k, Shifts, a, b);
  }

  lemma DayIsCount(k: Calendar, start: int, end: int, d: int)
    requires start < end && Day(start) <= d <= Day(end)
    ensures DayMinutes(k, start, end, d) == Count(k, Shifts, Edge(start, end, d), Edge(start, end, d + 1))
  {
    var lo, hi := Edge(start, end, d), Edge(start, end, d + 1);
    WindowShape(k.cat, d);
    if !Open(k, d) {
      OutsideShift(k, d, lo, hi);
    } else {
      var close := Max(lo, Min(hi, WindowEnd(k.cat, d)));
      CountSplit(k, Shifts, lo, close, hi);
      if close < hi { OutsideShift(k, d, close, hi); }
      if lo < close {
        SegmentIsCount(k, d, lo, close);
      }
    }
  }

  /** 08:00 of day `d`, kept within the stretch that is measured. */
  function Edge(start: int, end: int, d: int): int {
    Max(FromEight(start), Min(FromEight(end), WindowStart(d)))
  }

  lemma {:induction false} UpToIsCount(k: Calendar, start: int, end: int, d: int)
    requires start < end && Day(start) <= d <= Day(end) + 1
    ensures MinutesUpTo(k, start, end, d) == Count(k, Shifts, FromEight(start), Edge(start, end, d))
    decreases d - Day(start)
  {
    if d > Day(start) {
      UpToIsCount(k, start, end, d - 1);
      DayIsCount(k, start, end, d - 1);
      CountSplit(k, Shifts, FromEight(start), Edge(start, end, d - 1), Edge(start, end, d));
    }
  }

  /** The measure for every pair of instants: it counts the shift minutes between them, after
      moving each instant that is before 08:00 to 08:00 of its date. */
  lemma MinutesAreCount(k: Calendar, start: int, end: int)
    ensures WorkingMinutesBetween(k, start, end) == Count(k, Shifts, FromEight(start), FromEight(end))
  {
    if start < end { UpToIsCount(k, start, end, Day(end) + 1); }
  }

  /** Nothing of the shift of the day before is left at `t`. */
  predicate NightOver(k: Calendar, t: int) {
    Clock(t) >= 480 || !Open(k, Day(t) - 1) || WindowEnd(k.cat, Day(t) - 1) <= t
  }

  lemma NightMinutes(k: Calendar, t: int)
    ensures Count(k, Shifts, t, FromEight(t)) ==
            if NightOver(k, t) then 0 else WindowEnd(k.cat, Day(t) - 1) - t
  {
    var d := Day(t) - 1;
    WindowShape(k.cat, d);
    if NightOver(k, t) {
      if t < FromEight(t) { OutsideShift(k, d, t, FromEight(t)); }
    } else {
      var close := WindowEnd(k.cat, d);
      forall m | t <= m < close ensures Works(k, Shifts, m) { assert InShift(k, d, m); }
      CountAll(k, Shifts, t, close);
      OutsideShift(k, d, close, FromEight(t));
      CountSplit(k, Shifts, t, close, FromEight(t));
    }
  }

  /** When the measure is the true count: exactly when as many night minutes are cut off at the
      start as are added at the end. */
  lemma MeasureIsExact(k: Calendar, start: int, end: int)
    requires start <= end
    ensures WorkingMinutesBetween(k, start, end) == Count(k, Shifts, start, end) <==>
            Count(k, Shifts, start, FromEight(start)) == Count(k, Shifts, end, FromEight(end))
  {
    MinutesAreCount(k, start, end);
    CountSplit(k, Shifts, start, end, FromEight(end));
    CountSplit(k, Shifts, start, FromEight(start), FromEight(end));
  }
}
