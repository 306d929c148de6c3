/** Is the backward walk the inverse of the forward walk?  Exactly when. */
module RoundTrips {
  import opened Wrappers
  import opened WorkCalendar
  import opened ForwardWalk
  import opened BackwardWalk
  import opened WorkingMinutes
  import opened CalendarLaws

  // ---------- where the backward walk goes

  lemma {:induction false} GoesBack(k: Calendar, cur: int, rem: int, turns: nat)
    requires rem > 0 && BackWalk(k, cur, rem, turns).Some?
    ensures BackWalk(k, cur, rem, turns).value < FromEight(cur)
    decreases turns
  {
    var d := ActiveDate(cur);
    WindowShape(k.cat, d - 1);
    StepGoesBack(k, cur, rem);
    var step := BackStep(k, cur, rem);
    if step.Move? {
      if ShortMondayClose(k, step.to) { StuckAtShortMonday(k, step.to, step.left, turns - 1); }
      GoesBack(k, step.to, step.left, turns - 1);
    }
  }

  lemma StepGoesBack(k: Calendar, cur: int, rem: int)
    requires rem > 0
    ensures match BackStep(k, cur, rem)
            case Arrive(s) => s < FromEight(cur)
            case Move(c, r) => FromEight(c) <= FromEight(cur) && 0 < r
  {
    hide Closing, Weekday, DayBreaks;
    var d := ActiveDate(cur);
    WindowShape(k.cat, d - 1);
    if Open(k, d) && WindowStart(d) < cur {
      BackOutMeans(k.cat, d, cur);
      PrevBreakMeans(k.cat, d, BackOutOfBreak(DayBreaks(k.cat, d), cur));
    }
  }

  /** A turn on a day without breaks. */
  lemma PlainStep(k: Calendar, cur: int, rem: int)
    requires Open(k, ActiveDate(cur)) && DayBreaks(k.cat, ActiveDate(cur)) == [] && WindowStart(ActiveDate(cur)) < cur
    ensures var d := ActiveDate(cur);
            BackStep(k, cur, rem) == if rem <= cur - WindowStart(d) then Arrive(cur - rem)
                                     else Move(WindowEnd(k.cat, d - 1), rem - (cur - WindowStart(d)))
  {
    assert BackOutOfBreak([], cur) == cur && PrevBreak([], cur) == None;
  }

  /** A Tuesday to Monday 08:00 of high-voltage insulation: what the turns from there can reach. */
  lemma HvStep(k: Calendar, cur: int, rem: int, tue: int)
    requires k.cat.HvInsulation? && Weekday(tue) == 1 && WindowStart(tue) < cur && rem > 0
    ensures tue <= ActiveDate(cur)
    ensures match BackStep(k, cur, rem)
            case Arrive(s) => WindowStart(tue) <= s
            case Move(c, r) => 0 < r && (if Weekday(ActiveDate(cur)) == 1 then ShortMondayClose(k, c)
                                         else WindowStart(tue) < c && ActiveDate(c) < ActiveDate(cur))
  {
    hide Closing;
    var d := ActiveDate(cur);
    if Open(k, d) && WindowStart(d) < cur { PlainStep(k, cur, rem); }
    HvWindow(k.cat, d - 1, tue);
  }

  lemma HvWindow(cat: Category, d: int, tue: int)
    requires cat.HvInsulation? && Weekday(tue) == 1 && tue - 1 <= d
    ensures if Weekday(d) == 0 then Day(WindowEnd(cat, d)) == d + 1 && Clock(WindowEnd(cat, d)) == 120
            else WindowStart(tue) < WindowEnd(cat, d) && ActiveDate(WindowEnd(cat, d)) <= d
  {
    var c := Closing(cat, Weekday(d));
    if Weekday(d) == 0 {
      assert c == 1560;
    } else {
      assert tue <= d;
      assert c == 1920 || (c <= 1200 && (c == 480 ==> tue < d));
      if c == 1920 { assert ActiveDate(d * 1440 + c) == d; } else { assert Day(d * 1440 + c) == d; }
    }
  }

  /** High-voltage insulation never gets back past a Tuesday 08:00. */
  lemma {:induction false} TuesdayFloor(k: Calendar, cur: int, rem: int, turns: nat, tue: int)
    requires k.cat.HvInsulation? && Weekday(tue) == 1 && WindowStart(tue) < cur
    requires rem > 0 && BackWalk(k, cur, rem, turns).Some?
    ensures WindowStart(tue) <= BackWalk(k, cur, rem, turns).value
    decreases turns
  {
    HvStep(k, cur, rem, tue);
    var step := BackStep(k, cur, rem);
    if step.Move? {
      if Weekday(ActiveDate(cur)) == 1 {
        StuckAtShortMonday(k, step.to, step.left, turns - 1);
      } else {
        TuesdayFloor(k, step.to, step.left, turns - 1, tue);
      }
    }
  }

  // ---------- ends the walk misreads

  /** Past the closing time of its open shift, the walk takes idle minutes for worked ones. */
  lemma LateEndIsMisread(k: Calendar, cur: int, rem: int, turns: nat)
    requires LateEnd(k, cur)
    requires rem > 0 && BackWalk(k, cur, rem, turns).Some?
    ensures var s := BackWalk(k, cur, rem, turns).value;
            s < cur && Count(k, Shifts, s, cur) < rem
  {
    hide Works, Count, Closing, Weekday, Day, Clock;
    var d := ActiveDate(cur);
    var s, open := BackWalk(k, cur, rem, turns).value, WindowStart(d);
    LateDay(k, cur);
    PlainStep(k, cur, rem);
    if rem <= cur - open {
      LateIsIdle(k, s, cur);
    } else {
      var c := WindowEnd(k.cat, d - 1);
      BackWalkMeasure(k, c, rem - (cur - open), turns - 1);
      LateIsIdle(k, open, cur);
      CountSplit(k, Shifts, c, open, cur);
      CountSplit(k, Shifts, s, c, cur);
    }
  }

  /** The last minute before a late end is idle, so fewer minutes are worked than pass. */
  lemma LateIsIdle(k: Calendar, a: int, cur: int)
    requires LateEnd(k, cur) && a < cur
    ensures Count(k, Shifts, a, cur) < cur - a
  {
    LateDay(k, cur);
    OutsideShift(k, ActiveDate(cur), cur - 1, cur);
    CountSplit(k, Shifts, a, cur - 1, cur);
    CountAtMost(k, Shifts, a, cur - 1);
  }

  predicate LateEnd(k: Calendar, e: int) {
    Open(k, ActiveDate(e)) && WindowEnd(k.cat, ActiveDate(e)) < e && Clock(e) >= 480
  }

  /** Only a Friday and a short Monday close before the next 08:00. */
  lemma LateDay(k: Calendar, e: int)
    requires LateEnd(k, e)
    ensures var d := ActiveDate(e);
            && DayBreaks(k.cat, d) == [] && WindowStart(d) <= WindowEnd(k.cat, d) < e <= WindowStart(d + 1)
            && Aligned(k, WindowEnd(k.cat, d - 1)) && WindowEnd(k.cat, d - 1) <= WindowStart(d)
            && Count(k, Shifts, WindowEnd(k.cat, d - 1), WindowStart(d)) == 0
  {
    var d := ActiveDate(e);
    WindowShape(k.cat, d);
    WindowShape(k.cat, d - 1);
    WindowEndAligned(k, d - 1);
    IdleBefore(k, d, WindowStart(d));
  }

  /** The ends from which the backward walk tells the truth, as a caller can check them. */
  predicate GoodEnd(k: Calendar, e: int) {
    var d := Day(e);
    if Clock(e) >= 480 then Aligned(k, e)
    else Aligned(k, WindowEnd(k.cat, d - 1)) && (WindowEnd(k.cat, d - 1) <= e || !Open(k, d - 1))
  }

  /** For every calendar, end and duration: the instant the walk comes back to really is the one
      from which the shifts hold `dur` minutes, exactly when the end is good. */
  lemma StartIsTrueExactly(k: Calendar, e: int, dur: int)
    requires dur > 0 && Returns(k, e, dur)
    ensures IsStart(k, e, dur, StartDatetime(k, e, dur)) <==> GoodEnd(k, e)
  {
    hide Count, Closing;
    var d := Day(e);
    if Clock(e) < 480 {
      NightEnd(k, e, dur);
    } else if Aligned(k, e) {
      ReturnIsStart(k, e, dur);
    } else if Open(k, ActiveDate(e)) {
      LateEndIsMisread(k, e, dur, TURNS);
    } else {
      WeekendIsMisread(k, ActiveDate(e) - 1, e, dur, TURNS - 1);
    }
  }

  lemma WeekendIsMisread(k: Calendar, saturday: int, e: int, dur: int, turns: nat)
    requires Weekday(saturday) == 5 && Open(k, saturday - 1) && WindowStart(saturday) <= e <= WindowStart(saturday + 2)
    requires dur > 0 && BackWalk(k, WindowEnd(k.cat, saturday), dur, turns).Some?
    ensures var s := BackWalk(k, WindowEnd(k.cat, saturday), dur, turns).value;
            s < e && Count(k, Shifts, s, e) < dur
  {
    var eight := WindowStart(saturday);
    SaturdayEight(k, saturday);
    LateEndIsMisread(k, eight, dur, turns);
    WeekendIdle(k, saturday, eight, e);
    CountSplit(k, Shifts, BackWalk(k, eight, dur, turns).value, eight, e);
  }

  lemma SaturdayEight(k: Calendar, saturday: int)
    requires Weekday(saturday) == 5 && Open(k, saturday - 1)
    ensures WindowEnd(k.cat, saturday) == WindowStart(saturday) && LateEnd(k, WindowStart(saturday))
  {
    assert Weekday(saturday - 1) == 4;
    assert Day(WindowStart(saturday)) == saturday && Clock(WindowStart(saturday)) == 480;
  }

  lemma WeekendIdle(k: Calendar, saturday: int, a: int, b: int)
    requires Weekday(saturday) == 5 && WindowStart(saturday) <= a <= b <= WindowStart(saturday + 2)
    ensures Count(k, Shifts, a, b) == 0
  {
    assert Weekday(saturday + 1) == 6;
    var mid := Max(a, Min(b, WindowStart(saturday + 1)));
    if a < mid { OutsideShift(k, saturday, a, mid); }
    if mid < b { OutsideShift(k, saturday + 1, mid, b); }
    CountSplit(k, Shifts, a, mid, b);
  }

  lemma NightEnd(k: Calendar, e: int, dur: int)
    requires dur > 0 && Returns(k, e, dur) && Clock(e) < 480
    ensures IsStart(k, e, dur, StartDatetime(k, e, dur)) <==> GoodEnd(k, e)
  {
    hide Day, Clock, Closing, Weekday, Count, BackWalk, IsStart;
    var d := Day(e);
    var c := WindowEnd(k.cat, d - 1);
    NightJumps(k, e, dur, TURNS);
    if ShortMondayClose(k, c) {
      StuckAtShortMonday(k, c, dur, TURNS - 1);
    } else if Aligned(k, c) {
      NightEndFrom(k, e, dur, c, StartDatetime(k, e, dur));
    } else {
      NightEndUnaligned(k, e, dur);
    }
  }

  lemma NightEndUnaligned(k: Calendar, e: int, dur: int)
    requires dur > 0 && Returns(k, e, dur) && Clock(e) < 480
    requires !Aligned(k, WindowEnd(k.cat, Day(e) - 1)) && !ShortMondayClose(k, WindowEnd(k.cat, Day(e) - 1))
    ensures !IsStart(k, e, dur, StartDatetime(k, e, dur))
  {
    hide Closing, Weekday, Works, Count;
    var d := Day(e);
    NightJumps(k, e, dur, TURNS);
    UnalignedClose(k, d - 1);
    WeekendIsMisread(k, d - 1, e, dur, TURNS - 1);
  }

  lemma UnalignedClose(k: Calendar, d: int)
    requires !Aligned(k, WindowEnd(k.cat, d)) && !ShortMondayClose(k, WindowEnd(k.cat, d))
    ensures Weekday(d) == 5 && Open(k, d - 1)
  {
    if Weekday(d) != 5 || !Open(k, d - 1) { WindowEndAligned(k, d); }
  }

  lemma NightEndFrom(k: Calendar, e: int, dur: int, c: int, s: int)
    requires dur > 0 && Clock(e) < 480 && c == WindowEnd(k.cat, Day(e) - 1) && Aligned(k, c)
    requires BackWalk(k, c, dur, TURNS - 1) == Some(s)
    ensures IsStart(k, e, dur, s) <==> c <= e || !Open(k, Day(e) - 1)
  {
    BackWalkMeasure(k, c, dur, TURNS - 1);
    if c <= e {
      IdleBefore(k, Day(e), e);
      CountSplit(k, Shifts, s, c, e);
    } else {
      NightStretch(k, Day(e), e, c);
      if s < e { CountSplit(k, Shifts, s, e, c); }
    }
  }

  lemma NightJumps(k: Calendar, e: int, dur: int, turns: nat)
    requires Clock(e) < 480 && dur > 0 && turns > 0
    ensures BackWalk(k, e, dur, turns) == BackWalk(k, WindowEnd(k.cat, Day(e) - 1), dur, turns - 1)
  {
    assert ActiveDate(e) == Day(e);
  }

  /** The night part of a shift has no breaks. */
  lemma NightMinute(k: Calendar, d: int, m: int)
    requires d * 1440 <= m < WindowEnd(k.cat, d - 1)
    ensures Works(k, Shifts, m) == Open(k, d - 1)
  {
    WindowShape(k.cat, d - 1);
    assert Day(m) == d;
    assert InShift(k, d - 1, m) == Open(k, d - 1);
  }

  lemma NightStretch(k: Calendar, d: int, a: int, close: int)
    requires close == WindowEnd(k.cat, d - 1) && d * 1440 <= a <= close
    ensures forall m :: a <= m < close ==> Works(k, Shifts, m) == Open(k, d - 1)
    ensures Count(k, Shifts, a, close) == if Open(k, d - 1) then close - a else 0
  {
    forall m | a <= m < close ensures Works(k, Shifts, m) == Open(k, d - 1) { NightMinute(k, d, m); }
    if Open(k, d - 1) { CountAll(k, Shifts, a, close); } else { CountNone(k, Shifts, a, close); }
  }

  // ---------- the two views when a start is not seamless

  /** A walk entering at a worked but unseamless instant counts other minutes than the shifts hold:
      more if its date is open (the gap after a short Monday), fewer if it is off. */
  lemma UnseamlessCounts(k: Calendar, s: int, e: int)
    requires !Seamless(k, s) && Works(k, Shifts, s) && s < e
    requires Open(k, Day(s)) ==> WindowStart(Day(s)) <= e
    ensures if Open(k, Day(s)) then Count(k, Shifts, s, e) < Count(k, EnteredAt(s), s, e)
            else Count(k, EnteredAt(s), s, e) < Count(k, Shifts, s, e)
    ensures Open(k, Day(s)) ==> k.cat.HvInsulation? && Weekday(Day(s)) == 1
  {
    hide Count;
    var d := Day(s);
    WindowShape(k.cat, d);
    WindowShape(k.cat, d - 1);
    assert InShift(k, d - 1, s);
    forall m | s <= m < e
      ensures if Open(k, d) then Works(k, Shifts, m) ==> Works(k, EnteredAt(s), m)
              else Works(k, EnteredAt(s), m) ==> Works(k, Shifts, m)
    {
      if d < Day(m) || Clock(m) >= 480 { ViewsAgree(k, s, m); }
    }
    if Open(k, d) {
      CountLess(k, Shifts, EnteredAt(s), s, e, WindowEnd(k.cat, d - 1));
    } else {
      CountLess(k, EnteredAt(s), Shifts, s, e, s);
    }
  }

  // ---------- round trips

  /** Tuesday 08:00 after a short Monday, and a duration that fits the night: both walks take
      the idle hours from 02:00 to 08:00, and what precedes them, for working time. */
  predicate ShortMondayGap(k: Calendar, e: int, dur: int) {
    && k.cat.HvInsulation? && Weekday(Day(e)) == 1 && Clock(e) == 480
    && Open(k, Day(e) - 1) && Open(k, Day(e)) && dur <= 480
  }

  lemma GapRoundTrip(k: Calendar, e: int, dur: int)
    requires 0 < dur && ShortMondayGap(k, e, dur)
    ensures BackWalk(k, e, dur, TURNS) == Some(e - dur) && IsEnd(k, e - dur, dur, e)
  {
    assert BackOutOfBreak([], e) == e && PrevBreak([], e) == None;
    assert BackStep(k, e, dur) == Arrive(e - dur);
    CountAll(k, EnteredAt(e - dur), e - dur, e);
  }

  lemma WorkedEndIsAligned(k: Calendar, e: int)
    requires Clock(e) >= 480 && Works(k, Shifts, e - 1)
    ensures Aligned(k, e)
  {
    WindowShape(k.cat, Day(e) - 1);
    assert InShift(k, ActiveDate(e), e - 1);
  }

  /** An end before 08:00 is never reached from where the backward walk went. */
  lemma NightEndNeverMatches(k: Calendar, e: int, dur: int, s: int)
    requires Clock(e) < 480 && dur > 0 && BackWalk(k, e, dur, TURNS) == Some(s)
    ensures !IsEnd(k, s, dur, e)
  {
    var c := WindowEnd(k.cat, Day(e) - 1);
    NightJumps(k, e, dur, TURNS);
    if ShortMondayClose(k, c) {
      StuckAtShortMonday(k, c, dur, TURNS - 1);
    } else if Open(k, Day(e) - 1) {
      if IsEnd(k, s, dur, e) { FromOpenNight(k, s, e, c, dur); }
    } else {
      FromClosedNight(k, s, e, c, dur);
    }
  }

  /** After a day off, the walk goes back over that day, and no walk from there works up to `e`. */
  lemma FromClosedNight(k: Calendar, s: int, e: int, c: int, dur: int)
    requires Clock(e) < 480 && dur > 0 && !Open(k, Day(e) - 1)
    requires c == WindowEnd(k.cat, Day(e) - 1) && BackWalk(k, c, dur, TURNS - 1) == Some(s) && !ShortMondayClose(k, c)
    ensures !IsEnd(k, s, dur, e)
  {
    BeforeNight(k, Day(e), c, dur, s);
    if s < e { ClosedNightIdle(k, s, e); }
  }

  lemma ClosedNightIdle(k: Calendar, s: int, e: int)
    requires Clock(e) < 480 && !Open(k, Day(e) - 1) && s < Day(e) * 1440 <= e
    ensures !Works(k, EnteredAt(s), e - 1)
  {
    var d := Day(e);
    if Day(e - 1) == d {
      assert !InShift(k, d, e - 1) && !InShift(k, d - 1, e - 1);
    } else {
      assert Day(e - 1) == d - 1 && Clock(e - 1) == 1439;
      assert !InShift(k, d - 2, e - 1) && !InShift(k, d - 1, e - 1);
    }
  }

  lemma BeforeNight(k: Calendar, d: int, c: int, dur: int, s: int)
    requires dur > 0 && !Open(k, d - 1) && c == WindowEnd(k.cat, d - 1) && BackWalk(k, c, dur, TURNS - 1) == Some(s)
    requires !ShortMondayClose(k, c)
    ensures s < d * 1440
  {
    CloseOf(k.cat, d - 1);
    if c == WindowStart(d) {
      var b := WindowEnd(k.cat, d - 2);
      assert BackStep(k, c, dur) == Move(b, dur);
      CloseOf(k.cat, d - 2);
      GoesBack(k, b, dur, TURNS - 2);
    } else {
      GoesBack(k, c, dur, TURNS - 1);
    }
  }

  lemma CloseOf(cat: Category, d: int)
    ensures var e := WindowEnd(cat, d);
            && FromEight(e) <= WindowStart(d + 1)
            && (e == WindowStart(d + 1) ==> ActiveDate(e) == d)
            && (e != WindowStart(d + 1) && !(cat.HvInsulation? && Weekday(d) == 0) ==> FromEight(e) < (d + 1) * 1440)
            && (cat.HvInsulation? && Weekday(d) == 0 ==> Clock(e) == 120 && Day(e) == d + 1)
  {
    var c := Closing(cat, Weekday(d));
    if c == 1920 {
      assert Day(d * 1440 + c) == d + 1;
    } else if c == 1560 {
      assert Day(d * 1440 + c) == d + 1;
    } else {
      assert Day(d * 1440 + c) == d;
    }
  }

  lemma FromOpenNight(k: Calendar, s: int, e: int, c: int, dur: int)
    requires Clock(e) < 480 && dur > 0 && Open(k, Day(e) - 1)
    requires c == WindowEnd(k.cat, Day(e) - 1) && !ShortMondayClose(k, c)
    requires BackWalk(k, c, dur, TURNS - 1) == Some(s)
    ensures !IsEnd(k, s, dur, e)
  {
    hide Works, Count, BackWalk, Closing, Weekday;
    NightClose(k, Day(e), c);
    if e <= c {
      BackWalkMeasure(k, c, dur, TURNS - 1);
      NightStretch(k, Day(e), e, c);
      if s < e {
        CountSplit(k, Shifts, s, e, c);
        if Day(s) == Day(e) {
          NightStretch(k, Day(e), s, c);
          CountAtMost(k, EnteredAt(s), s, e);
        } else {
          NoMoreThanShifts(k, s, e, c, dur);
        }
      }
    } else {
      GoesBack(k, c, dur, TURNS - 1);
      LastMinuteIdle(k, s, e, c);
    }
  }

  /** Past the close of an open night nothing works until 08:00, seen from an earlier day. */
  lemma LastMinuteIdle(k: Calendar, s: int, e: int, c: int)
    requires c == WindowEnd(k.cat, Day(e) - 1) && c < e && Clock(e) < 480 && s < Day(e) * 1440
    ensures !Works(k, EnteredAt(s), e - 1)
  {
    var d := Day(e);
    if Day(e - 1) == d {
      assert !InShift(k, d, e - 1) && !InShift(k, d - 1, e - 1);
    } else {
      assert Day(e - 1) == d - 1 && Clock(e - 1) == 1439;
      assert !InShift(k, d - 2, e - 1) && !InShift(k, d - 1, e - 1);
    }
  }

  lemma NoMoreThanShifts(k: Calendar, s: int, e: int, c: int, dur: int)
    requires dur > 0 && BackWalk(k, c, dur, TURNS - 1) == Some(s) && Works(k, Shifts, s)
    requires Clock(e) < 480 && Day(s) < Day(e) && c == WindowStart(Day(e))
    ensures Count(k, EnteredAt(s), s, e) <= Count(k, Shifts, s, e)
  {
    if Open(k, Day(s)) && !Seamless(k, s) {
      UnseamlessCounts(k, s, e);
      TuesdayFloor(k, c, dur, TURNS - 1, Day(s));
      UnseamlessIsEarly(k, s);
    } else {
      NotMoreThanShifts(k, s, e);
    }
  }

  lemma UnseamlessIsEarly(k: Calendar, s: int)
    requires !Seamless(k, s)
    ensures s < WindowStart(Day(s))
  {
  }

  lemma NotMoreThanShifts(k: Calendar, s: int, e: int)
    requires Seamless(k, s) || !Open(k, Day(s))
    ensures Count(k, EnteredAt(s), s, e) <= Count(k, Shifts, s, e)
  {
    if Seamless(k, s) {
      SeamlessCount(k, s, e);
    } else {
      CountLe(k, EnteredAt(s), Shifts, s, e);
    }
  }

  lemma NightClose(k: Calendar, d: int, c: int)
    requires c == WindowEnd(k.cat, d - 1) && Open(k, d - 1) && !ShortMondayClose(k, c)
    ensures c == WindowStart(d) || c < d * 1440
    ensures c == WindowStart(d) ==> ActiveDate(c) == d - 1 && Aligned(k, c)
  {
    WindowShape(k.cat, d - 1);
  }

  /** Ends whose last minute is in no shift are matched only across the short Monday's gap. */
  lemma IdleEnd(k: Calendar, s: int, e: int, dur: int)
    requires dur > 0 && Clock(e) >= 480 && !Works(k, Shifts, e - 1) && IsEnd(k, s, dur, e)
    ensures Day(s) == Day(e) && Clock(e) == 480 && Open(k, Day(e)) && dur == e - s && !Seamless(k, s)
    ensures ShortMondayGap(k, e, dur) || !Open(k, Day(e) - 1)
  {
    if Day(s) < Day(e - 1) || Clock(e - 1) >= 480 { ViewsAgree(k, s, e - 1); }
    var d := Day(e);
    WindowShape(k.cat, d);
    WindowShape(k.cat, d - 1);
    CountAll(k, EnteredAt(s), s, e);
    assert !InShift(k, d - 1, e - 1);
  }

  lemma IdleEndAfterDayOff(k: Calendar, s: int, e: int, dur: int)
    requires dur > 0 && Clock(e) == 480 && !Open(k, Day(e) - 1) && Day(s) == Day(e)
    ensures BackWalk(k, e, dur, TURNS) != Some(s)
  {
    var d := Day(e);
    var c := WindowEnd(k.cat, d - 2);
    WindowShape(k.cat, d - 2);
    assert BackStep(k, e, dur) == Move(c, dur);
    var w := BackWalk(k, c, dur, TURNS - 1);
    if w.Some? {
      if ShortMondayClose(k, c) { StuckAtShortMonday(k, c, dur, TURNS - 1); }
      GoesBack(k, c, dur, TURNS - 1);
    }
  }

  /** Going back and then forward: for every calendar, end and duration on which both walks
      arrive, the forward walk undoes the backward walk exactly under this condition. */
  lemma ForwardUndoesBackward(k: Calendar, e: int, dur: int)
    requires dur > 0 && Returns(k, e, dur) && Arrives(k, StartDatetime(k, e, dur), dur)
    ensures EndDatetime(k, StartDatetime(k, e, dur), dur) == e <==>
            || (Clock(e) >= 480 && Works(k, Shifts, e - 1) && Seamless(k, StartDatetime(k, e, dur)))
            || ShortMondayGap(k, e, dur)
  {
    var s := StartDatetime(k, e, dur);
    EndCharacterised(k, s, dur, e);
    if Clock(e) < 480 {
      NightEndNeverMatches(k, e, dur, s);
    } else if Works(k, Shifts, e - 1) {
      WorkedEndMatches(k, s, e, dur);
      WorkedEndIsAligned(k, e);
      ReturnIsStart(k, e, dur);
    } else {
      if ShortMondayGap(k, e, dur) { GapRoundTrip(k, e, dur); }
      if IsEnd(k, s, dur, e) {
        IdleEnd(k, s, e, dur);
        if !ShortMondayGap(k, e, dur) { IdleEndAfterDayOff(k, s, e, dur); }
      }
    }
  }

  /** For an aligned end this can be said of the instant from which the shifts hold the duration,
      without walking. */
  lemma ForwardFromTheStart(k: Calendar, e: int, dur: int, s: int)
    requires dur > 0 && Aligned(k, e) && IsStart(k, e, dur, s) && Returns(k, e, dur) && Arrives(k, s, dur)
    ensures StartDatetime(k, e, dur) == s
    ensures EndDatetime(k, s, dur) == e <==>
            || (Clock(e) >= 480 && Works(k, Shifts, e - 1) && Seamless(k, s))
            || ShortMondayGap(k, e, dur)
  {
    StartCharacterised(k, e, dur, s);
    ForwardUndoesBackward(k, e, dur);
  }

  /** For an end that closes a worked minute: both descriptions hold of the pair just when the
      start is worked and seamless. */
  lemma WorkedEndMatches(k: Calendar, s: int, e: int, dur: int)
    requires dur > 0 && Clock(e) >= 480 && Works(k, Shifts, e - 1)
    ensures !ShortMondayGap(k, e, dur)
    ensures IsEnd(k, s, dur, e) && IsStart(k, e, dur, s) ==> Seamless(k, s)
    ensures Seamless(k, s) && IsStart(k, e, dur, s) ==> IsEnd(k, s, dur, e)
    ensures Seamless(k, s) && Works(k, Shifts, s) && IsEnd(k, s, dur, e) ==> IsStart(k, e, dur, s)
  {
    hide Seamless, Works, ShortMondayGap, IsEnd, IsStart;
    NoGapAfterWork(k, e, dur);
    if Seamless(k, s) { SeamlessMatches(k, s, e, dur); } else { UnseamlessPartsWays(k, s, e, dur); }
  }

  lemma NoGapAfterWork(k: Calendar, e: int, dur: int)
    requires Works(k, Shifts, e - 1)
    ensures !ShortMondayGap(k, e, dur)
  {
    if ShortMondayGap(k, e, dur) { GapIsIdle(k, e, dur); }
  }

  lemma GapIsIdle(k: Calendar, e: int, dur: int)
    requires ShortMondayGap(k, e, dur)
    ensures !Works(k, Shifts, e - 1)
  {
    var d := Day(e);
    assert Day(e - 1) == d && e - 1 < WindowStart(d) && WindowEnd(k.cat, d - 1) <= e - 1;
  }

  lemma SeamlessMatches(k: Calendar, s: int, e: int, dur: int)
    requires dur > 0 && Works(k, Shifts, e - 1) && Seamless(k, s)
    ensures IsStart(k, e, dur, s) ==> IsEnd(k, s, dur, e)
    ensures Works(k, Shifts, s) && IsEnd(k, s, dur, e) ==> IsStart(k, e, dur, s)
  {
    hide Works, Count, Seamless;
    if s < e {
      SeamlessCount(k, s, e);
      SeamlessMeans(k, s);
    }
  }

  lemma UnseamlessPartsWays(k: Calendar, s: int, e: int, dur: int)
    requires dur > 0 && Clock(e) >= 480 && !Seamless(k, s)
    ensures !(IsEnd(k, s, dur, e) && IsStart(k, e, dur, s))
  {
    hide Works, Count, Seamless;
    if s < e && Works(k, Shifts, s) { UnseamlessCounts(k, s, e); }
  }

  /** Going forward and then back, likewise. */
  lemma BackwardUndoesForward(k: Calendar, s: int, dur: int)
    requires dur > 0 && Arrives(k, s, dur) && Returns(k, EndDatetime(k, s, dur), dur)
    ensures var e := EndDatetime(k, s, dur);
            StartDatetime(k, e, dur) == s <==>
            || (Clock(e) >= 480 && Works(k, Shifts, s) && Seamless(k, s))
            || ShortMondayGap(k, e, dur)
  {
    var e := EndDatetime(k, s, dur);
    ArrivalIsEnd(k, s, dur);
    if Clock(e) < 480 {
      if StartDatetime(k, e, dur) == s { NightEndNeverMatches(k, e, dur, s); }
    } else if Works(k, Shifts, e - 1) {
      WorkedEndIsAligned(k, e);
      StartCharacterised(k, e, dur, s);
      WorkedEndMatches(k, s, e, dur);
    } else {
      IdleEnd(k, s, e, dur);
      if ShortMondayGap(k, e, dur) { GapRoundTrip(k, e, dur); } else { IdleEndAfterDayOff(k, s, e, dur); }
    }
  }

  /** Likewise said of the instant at which the duration has passed, without walking. */
  lemma BackwardFromTheEnd(k: Calendar, s: int, dur: int, e: int)
    requires dur > 0 && IsEnd(k, s, dur, e) && Arrives(k, s, dur) && Returns(k, e, dur)
    ensures EndDatetime(k, s, dur) == e
    ensures StartDatetime(k, e, dur) == s <==>
            || (Clock(e) >= 480 && Works(k, Shifts, s) && Seamless(k, s))
            || ShortMondayGap(k, e, dur)
  {
    EndCharacterised(k, s, dur, e);
    BackwardUndoesForward(k, s, dur);
  }

  // ---------- when the backward walk of high-voltage insulation arrives

  lemma {:induction false} ReachesTuesday(k: Calendar, cur: int, rem: int, turns: nat, tue: int)
    requires WeekOfTuesday(k, cur, rem, tue) && ActiveDate(cur) - tue < turns
    ensures BackWalk(k, cur, rem, turns).Some?
    decreases turns
  {
    var step := BackStep(k, cur, rem);
    HvMove(k, cur, rem, tue);
    if step.Move? { ReachesTuesday(k, step.to, step.left, turns - 1, tue); }
  }

  /** The walk stands in the week after Tuesday `tue`, 08:00, and that much of the week suffices. */
  predicate WeekOfTuesday(k: Calendar, cur: int, rem: int, tue: int) {
    && k.cat.HvInsulation? && Weekday(tue) == 1 && WindowStart(tue) < cur <= WindowStart(tue + 7)
    && Aligned(k, cur) && 0 < rem <= Count(k, Shifts, WindowStart(tue), cur)
  }

  lemma HvMove(k: Calendar, cur: int, rem: int, tue: int)
    requires WeekOfTuesday(k, cur, rem, tue)
    ensures tue <= ActiveDate(cur)
    ensures match BackStep(k, cur, rem)
            case Arrive(_) => true
            case Move(c, r) => WeekOfTuesday(k, c, r, tue) && ActiveDate(c) < ActiveDate(cur)
  {
    hide Count, Works, Closing;
    BackStepMeasure(k, cur, rem);
    HvStep(k, cur, rem, tue);
    var step := BackStep(k, cur, rem);
    if step.Move? {
      if Weekday(ActiveDate(cur)) == 1 {
        TuesdayHoldsAll(k, tue, cur, rem);
      } else {
        CountSplit(k, Shifts, WindowStart(tue), step.to, cur);
      }
    }
  }

  lemma TuesdayHoldsAll(k: Calendar, tue: int, cur: int, rem: int)
    requires k.cat.HvInsulation? && Weekday(tue) == 1 && WindowStart(tue) < cur && ActiveDate(cur) == tue
    requires 0 < rem <= Count(k, Shifts, WindowStart(tue), cur)
    ensures BackStep(k, cur, rem).Arrive?
  {
    CountAtMost(k, Shifts, WindowStart(tue), cur);
    if Open(k, tue) { PlainStep(k, cur, rem); } else { OutsideShift(k, tue, WindowStart(tue), cur); }
  }

  /** High-voltage insulation: the walk arrives exactly when the time since the last Tuesday
      08:00 holds the duration; otherwise it is caught at Tuesday 02:00 and falls back. */
  lemma HvReturnsExactly(k: Calendar, e: int, dur: int, tue: int)
    requires k.cat.HvInsulation? && Aligned(k, e) && dur > 0
    requires Weekday(tue) == 1 && WindowStart(tue) < e <= WindowStart(tue + 7)
    ensures Returns(k, e, dur) <==> dur <= Count(k, Shifts, WindowStart(tue), e)
  {
    if dur <= Count(k, Shifts, WindowStart(tue), e) {
      ReachesTuesday(k, e, dur, TURNS, tue);
    } else if Returns(k, e, dur) {
      TuesdayFloor(k, e, dur, TURNS, tue);
      ReturnIsStart(k, e, dur);
      CountSplit(k, Shifts, WindowStart(tue), StartDatetime(k, e, dur), e);
    }
  }
}
