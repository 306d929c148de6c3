/** The nudges that the program wires into the cascade: none forward, the calendar's backward. */
module CalendarPulls {
  import opened Wrappers
  import opened WorkCalendar
  import opened BackwardWalk
  import opened RoundTrips
  import opened ForwardWalk
  import M = WorkingMinutes
  import P = Pull
  import PullSlack

  /** Going back by working time, the mirror of the forward walk. */
  function ReverseAdvance(k: Calendar): (int, int) -> int {
    (x: int, d: int) => if d <= 0 then x else StartDatetime(k, x, d)
  }

  ghost predicate AllWorked(k: Calendar, a: int, b: int) { forall m :: a <= m < b ==> Works(k, Shifts, m) }

  // ---------- going back loses nothing exactly over worked time

  lemma IdleMinute(k: Calendar, a: int, m: int, b: int)
    requires a <= m < b && !Works(k, Shifts, m)
    ensures Count(k, Shifts, a, b) < b - a
  {
    CountSplit(k, Shifts, a, m, b);
    CountFirst(k, Shifts, m, b);
    CountAtMost(k, Shifts, a, m);
    CountAtMost(k, Shifts, m + 1, b);
  }

  /** The true start is `d` minutes back or more, and just `d` exactly when all of them are worked. */
  lemma TrueStart(k: Calendar, x: int, d: int, s: int)
    requires 0 < d && IsStart(k, x, d, s)
    ensures s <= x - d && (s == x - d <==> AllWorked(k, x - d, x))
  {
    CountAtMost(k, Shifts, s, x);
    if AllWorked(k, x - d, x) {
      CountAll(k, Shifts, x - d, x);
      assert Works(k, Shifts, x - d);
      StartIsUnique(k, x, d, s, x - d);
    } else {
      var m :| x - d <= m < x && !Works(k, Shifts, m);
      IdleMinute(k, x - d, m, x);
    }
  }

  // ---------- the same where the walk misreads the end

  /** A late end takes all of its date from 08:00 on for worked. */
  ghost predicate ReadAsWorked(k: Calendar, x: int, m: int) {
    Works(k, Shifts, m) || (LateEnd(k, x) && WindowStart(ActiveDate(x)) <= m)
  }

  ghost predicate AllRead(k: Calendar, x: int, a: int) { forall m :: a <= m < x ==> ReadAsWorked(k, x, m) }

  lemma ReadBefore(k: Calendar, x: int, a: int)
    requires LateEnd(k, x) && WindowStart(ActiveDate(x)) < x
    ensures AllRead(k, x, a) <==> AllWorked(k, a, WindowStart(ActiveDate(x)))
  {
    hide Works, LateEnd, ActiveDate;
    var open := WindowStart(ActiveDate(x));
    if AllRead(k, x, a) {
      forall m | a <= m < open ensures Works(k, Shifts, m) { assert ReadAsWorked(k, x, m); }
    } else {
      var m :| a <= m < x && !ReadAsWorked(k, x, m);
      assert m < open && !Works(k, Shifts, m);
    }
  }

  lemma LateStart(k: Calendar, x: int, d: int, turns: nat)
    requires 0 < d && LateEnd(k, x) && BackWalk(k, x, d, turns).Some?
    ensures var s := BackWalk(k, x, d, turns).value; s <= x - d && (s == x - d <==> AllRead(k, x, x - d))
  {
    hide Works, Closing, Weekday, Day, Clock;
    var open := WindowStart(ActiveDate(x));
    LateDay(k, x);
    PlainStep(k, x, d);
    if x - open < d {
      var c, r := WindowEnd(k.cat, ActiveDate(x) - 1), d - (x - open);
      var s := BackWalk(k, c, r, turns - 1).value;
      BackWalkMeasure(k, c, r, turns - 1);
      TrueStart(k, c, r, s);
      if c < open {
        CountLast(k, Shifts, c, open);
        assert !ReadAsWorked(k, x, open - 1);
      } else {
        ReadBefore(k, x, x - d);
      }
    }
  }

  /** From a weekend after an open Friday the walk starts at Saturday 08:00. */
  lemma WeekendStart(k: Calendar, saturday: int, x: int, d: int, turns: nat)
    requires 0 < d && Weekday(saturday) == 5 && Open(k, saturday - 1) && WindowStart(saturday) < x
    requires BackWalk(k, WindowEnd(k.cat, saturday), d, turns).Some?
    ensures BackWalk(k, WindowEnd(k.cat, saturday), d, turns).value < x - d
  {
    SaturdayEight(k, saturday);
    LateStart(k, WindowStart(saturday), d, turns);
  }

  /** From a night the walk jumps to the close of the shift before, which may lie ahead. */
  lemma NightStart(k: Calendar, x: int, c: int, d: int, s: int)
    requires 0 < d && IsStart(k, c, d, s)
    ensures x - d <= s <= x <==> Count(k, Shifts, x + 1, c) < d <= Count(k, Shifts, x - d, c)
  {
    FromHereOn(k, x - d, c, d, s);
    FromHereOn(k, x + 1, c, d, s);
  }

  /** A stretch up to `c` holds `d` minutes exactly when it begins at the true start or before. */
  lemma FromHereOn(k: Calendar, a: int, c: int, d: int, s: int)
    requires 0 < d && IsStart(k, c, d, s)
    ensures d <= Count(k, Shifts, a, c) <==> a <= s
  {
    if a <= s {
      CountSplit(k, Shifts, a, s, c);
    } else if a <= c {
      CountSplit(k, Shifts, s, a, c);
      CountFirst(k, Shifts, s, a);
    } else {
      CountAtMost(k, Shifts, a, c);
    }
  }

  // ---------- exactly when the slack is kept

  /** What a caller can check: at or after 08:00, that all minutes of the slack are worked, or taken
      for worked because the shift of the date is over; before 08:00, that the slack and the night
      that is left hold the minutes, and the night alone does not. */
  ghost predicate SlackHolds(k: Calendar, x: int, d: int) {
    if Clock(x) >= 480 then AllRead(k, x, x - d)
    else
      var c := WindowEnd(k.cat, Day(x) - 1);
      Aligned(k, c) && Count(k, Shifts, x + 1, c) < d <= Count(k, Shifts, x - d, c)
  }

  lemma AlignedRead(k: Calendar, x: int, a: int)
    requires Aligned(k, x)
    ensures AllRead(k, x, a) <==> AllWorked(k, a, x)
  {
    assert !LateEnd(k, x);
    if AllRead(k, x, a) {
      forall m | a <= m < x ensures Works(k, Shifts, m) { assert ReadAsWorked(k, x, m); }
    } else {
      var m :| a <= m < x && !ReadAsWorked(k, x, m);
      assert !Works(k, Shifts, m);
    }
  }

  lemma DaySlack(k: Calendar, x: int, d: int)
    requires 0 < d && Clock(x) >= 480 && Returns(k, x, d)
    ensures P.StaysWithin(ReverseAdvance(k), x, d) <==> AllRead(k, x, x - d)
  {
    if Aligned(k, x) {
      ReturnIsStart(k, x, d);
      TrueStart(k, x, d, StartDatetime(k, x, d));
      AlignedRead(k, x, x - d);
    } else if Open(k, ActiveDate(x)) {
      LateStart(k, x, d, TURNS);
    } else {
      SundaySlack(k, x, d);
    }
  }

  lemma AfterTheDayBefore(x: int)
    ensures WindowStart(Day(x) - 1) < x
  {
  }

  lemma NightSlack(k: Calendar, x: int, d: int)
    requires 0 < d && Clock(x) < 480 && Returns(k, x, d)
    ensures P.StaysWithin(ReverseAdvance(k), x, d) <==> SlackHolds(k, x, d)
  {
    hide Day, Clock, Weekday, Closing, Count, Works, BackStep, Aligned, ShortMondayClose;
    var c := WindowEnd(k.cat, Day(x) - 1);
    AfterTheDayBefore(x);
    NightJumps(k, x, d, TURNS);
    if ShortMondayClose(k, c) {
      StuckAtShortMonday(k, c, d, TURNS - 1);
    } else if Aligned(k, c) {
      BackWalkMeasure(k, c, d, TURNS - 1);
      NightStart(k, x, c, d, StartDatetime(k, x, d));
    } else {
      UnalignedClose(k, Day(x) - 1);
      WeekendStart(k, Day(x) - 1, x, d, TURNS - 1);
    }
  }

  lemma SundaySlack(k: Calendar, x: int, d: int)
    requires 0 < d && Clock(x) >= 480 && Returns(k, x, d) && !Aligned(k, x) && !Open(k, ActiveDate(x))
    ensures StartDatetime(k, x, d) < x - d && !AllRead(k, x, x - d)
  {
    hide Day, Clock, Weekday, Closing, Count, BackStep, ActiveDate;
    var sunday := ActiveDate(x);
    SundayEnd(k, x, d);
    WeekendStart(k, sunday - 1, x, d, TURNS - 1);
    IdleSunday(k, sunday, x);
    assert !ReadAsWorked(k, x, x - 1);
  }

  lemma SundayEnd(k: Calendar, x: int, d: int)
    requires 0 < d && Clock(x) >= 480 && !Aligned(k, x) && !Open(k, ActiveDate(x))
    ensures var sunday := ActiveDate(x);
            && Weekday(sunday - 1) == 5 && Open(k, sunday - 2)
            && WindowStart(sunday - 1) < WindowStart(sunday) < x <= WindowStart(sunday + 1)
            && BackStep(k, x, d) == Move(WindowEnd(k.cat, sunday - 1), d)
  {
    hide Closing;
  }

  lemma IdleSunday(k: Calendar, sunday: int, x: int)
    requires !Open(k, sunday) && WindowStart(sunday) < x <= WindowStart(sunday + 1)
    ensures !Works(k, Shifts, x - 1)
  {
    hide Works, Closing, Count;
    M.OutsideShift(k, sunday, x - 1, x);
    CountOne(k, Shifts, x - 1);
  }

  /** For every calendar, instant and positive distance: the calendar's way of going back stays
      within the slack exactly when it falls back or the slack holds. */
  lemma SlackKeptExactly(k: Calendar, x: int, d: int)
    requires 0 < d
    ensures P.StaysWithin(ReverseAdvance(k), x, d) <==> !Returns(k, x, d) || SlackHolds(k, x, d)
  {
    if Returns(k, x, d) {
      if Clock(x) >= 480 { DaySlack(k, x, d); } else { NightSlack(k, x, d); }
    }
  }

  // ---------- no calendar keeps the slack everywhere

  lemma {:induction false} SomeBound(days: set<int>) returns (b: int)
    ensures forall d :: d in days ==> d <= b
    decreases |days|
  {
    b := 0;
    if d :| d in days {
      b := SomeBound(days - {d});
      if b < d { b := d; }
      forall e | e in days ensures e <= b { assert e == d || e in days - {d}; }
    }
  }

  /** Some Monday is a working day, and so is the Friday before it. */
  lemma SomeMonday(k: Calendar) returns (monday: int)
    ensures Weekday(monday) == 0 && Open(k, monday) && Open(k, monday - 3)
  {
    var b := SomeBound(k.holidays);
    monday := 7 * (if b < 0 then 1 else b + 1);
  }

  /** Two hours back from a Monday 09:00 lead to the Friday before. */
  lemma BackOverTheWeekend(k: Calendar, monday: int)
    requires Weekday(monday) == 0 && Open(k, monday) && Open(k, monday - 3)
    ensures Returns(k, WindowStart(monday) + 60, 120) && Aligned(k, WindowStart(monday) + 60)
  {
    hide BackStep, Closing, Day, Clock, Aligned;
    var friday := monday - 3;
    var close := WindowEnd(k.cat, friday);
    assert Weekday(friday) == 4;
    FirstHour(k, monday);
    OverSaturday(k, monday);
    FridayHour(k, friday);
    assert BackWalk(k, close, 60, TURNS - 2) == Some(close - 60);
    assert BackWalk(k, WindowStart(monday - 1), 60, TURNS - 1) == Some(close - 60);
  }

  lemma FirstHour(k: Calendar, monday: int)
    requires Weekday(monday) == 0 && Open(k, monday)
    ensures var x := WindowStart(monday) + 60;
            Aligned(k, x) && BackStep(k, x, 120) == Move(WindowStart(monday - 1), 60)
  {
    var x, bs := WindowStart(monday) + 60, DayBreaks(k.cat, monday);
    assert ActiveDate(x) == monday;
    assert Weekday(monday - 1) == 6;
    if bs == [] { PlainStep(k, x, 120); } else { BackUnfold3(bs, x); }
  }

  lemma OverSaturday(k: Calendar, monday: int)
    requires Weekday(monday) == 0
    ensures BackStep(k, WindowStart(monday - 1), 60) == Move(WindowEnd(k.cat, monday - 3), 60)
  {
    assert ActiveDate(WindowStart(monday - 1)) == monday - 2;
    assert Weekday(monday - 2) == 5;
  }

  lemma FridayHour(k: Calendar, friday: int)
    requires Weekday(friday) == 4 && Open(k, friday)
    ensures var close := WindowEnd(k.cat, friday); BackStep(k, close, 60) == Arrive(close - 60)
  {
    var close := WindowEnd(k.cat, friday);
    assert ActiveDate(close) == friday;
    PlainStep(k, close, 60);
  }

  /** The calendar's way of going back leaves the slack of some instant, whatever its category and
      holidays; so its proposals make a clash in some schedule that had none. */
  lemma CalendarLeavesTheSlack(k: Calendar)
    ensures !P.WithinSlack(ReverseAdvance(k)) && !PullSlack.NeverClashes(ReverseAdvance(k))
  {
    hide Count, BackWalk, Closing, AllRead;
    var monday := SomeMonday(k);
    var eight := WindowStart(monday);
    BackOverTheWeekend(k, monday);
    M.OutsideShift(k, monday - 1, eight - 1, eight);
    CountOne(k, Shifts, eight - 1);
    AlignedRead(k, eight + 60, eight - 60);
    DaySlack(k, eight + 60, 120);
    assert !P.StaysWithin(ReverseAdvance(k), eight + 60, 120);
    PullSlack.NeverClashesExactly(ReverseAdvance(k));
  }
}
