/** When the walks arrive within their thousand turns. */
module TurnBound {
  import opened Wrappers
  import opened WorkCalendar
  import opened ForwardWalk
  import opened BackwardWalk
  import opened WorkingMinutes
  import opened CalendarLaws
  import opened RoundTrips

  // ---------- turns of the forward walk

  /** Breaks of the date of `t` that start after `t`. */
  function BreaksAhead(cat: Category, t: int): nat {
    var c := Clock(t);
    if DayBreaks(cat, Day(t)) == [] then 0
    else (if c < 720 then 1 else 0) + (if c < 1080 then 1 else 0) + (if c < 1320 then 1 else 0)
  }

  /** Turns until the walk is on the next date. */
  function TurnsLeft(k: Calendar, t: int): int {
    if Open(k, Day(t)) && t < WindowEnd(k.cat, Day(t)) then 1 + BreaksAhead(k.cat, t) else 1
  }

  /** Turns for the days from `d` up to `g`. */
  function TurnsOver(k: Calendar, d: int, g: int): (n: int)
    ensures d <= g ==> g - d <= n <= 4 * (g - d)
    decreases g - d
  {
    if g <= d then 0 else TurnsLeft(k, WindowStart(d)) + TurnsOver(k, d + 1, g)
  }

  lemma StepTurns(k: Calendar, cur: int, rem: int)
    requires rem > 0
    ensures match ForwardStep(k, cur, rem)
            case Arrive(e) => e <= WindowStart(Day(cur) + 1)
            case Move(c, r) => || c == WindowStart(Day(cur) + 1)
                               || (Day(c) == Day(cur) && TurnsLeft(k, c) < TurnsLeft(k, cur))
  {
    var d := Day(cur);
    WindowShape(k.cat, d);
    if Open(k, d) && cur < WindowEnd(k.cat, d) && DayBreaks(k.cat, d) != [] {
      Unfold3(DayBreaks(k.cat, d), cur);
      Unfold3(DayBreaks(k.cat, d), SkipBreak(DayBreaks(k.cat, d), cur));
    }
  }

  /** The days before `g` hold what is left, and the turns left lead there. */
  predicate Enough(k: Calendar, s: int, cur: int, rem: int, turns: int, g: int) {
    && OnTrack(s, cur) && Day(cur) < g
    && 0 < rem <= Count(k, EnteredAt(s), cur, WindowStart(g))
    && TurnsLeft(k, cur) + TurnsOver(k, Day(cur) + 1, g) <= turns
  }

  lemma EnoughStep(k: Calendar, s: int, cur: int, rem: int, turns: int, g: int)
    requires Enough(k, s, cur, rem, turns, g)
    ensures var step := ForwardStep(k, cur, rem);
            step.Move? ==> Enough(k, s, step.to, step.left, turns - 1, g)
  {
    StepMeasure(k, s, cur, rem);
    StepTurns(k, cur, rem);
    var step := ForwardStep(k, cur, rem);
    if step.Move? { EnoughMove(k, s, cur, rem, turns, g, step.to, step.left); }
  }

  lemma EnoughMove(k: Calendar, s: int, cur: int, rem: int, turns: int, g: int, c: int, r: int)
    requires Enough(k, s, cur, rem, turns, g) && Accounted(k, s, cur, rem, Move(c, r))
    requires c == WindowStart(Day(cur) + 1) || (Day(c) == Day(cur) && TurnsLeft(k, c) < TurnsLeft(k, cur))
    ensures Enough(k, s, c, r, turns - 1, g)
  {
    hide Count, Works, TurnsLeft, Day, Clock;
    var d := Day(cur);
    WithinDate(c, g);
    WithinDate(WindowStart(d + 1), d + 1);
    TurnsLeftPositive(k, cur);
    CountSplit(k, EnteredAt(s), cur, c, WindowStart(g));
    if c == WindowStart(d + 1) && d + 1 < g {
      assert TurnsOver(k, d + 1, g) == TurnsLeft(k, WindowStart(d + 1)) + TurnsOver(k, d + 2, g);
    }
  }

  lemma WithinDate(t: int, g: int)
    ensures Day(t) < g ==> t < WindowStart(g)
    ensures Day(WindowStart(g)) == g
  {
  }

  lemma TurnsLeftPositive(k: Calendar, t: int)
    ensures 1 <= TurnsLeft(k, t)
  {
  }

  lemma {:induction false} EnoughTurns(k: Calendar, s: int, cur: int, rem: int, turns: nat, g: int)
    requires Enough(k, s, cur, rem, turns, g)
    ensures Walk(k, cur, rem, turns).Some?
    decreases turns
  {
    EnoughStep(k, s, cur, rem, turns, g);
    var step := ForwardStep(k, cur, rem);
    if step.Move? { EnoughTurns(k, s, step.to, step.left, turns - 1, g); }
  }

  lemma {:induction false} TooFewTurns(k: Calendar, s: int, cur: int, rem: int, turns: nat)
    requires OnTrack(s, cur)
    requires rem > Count(k, EnteredAt(s), cur, WindowStart(Day(cur) + turns))
    ensures Walk(k, cur, rem, turns) == None
    decreases turns
  {
    if turns > 0 {
      TooFewStep(k, s, cur, rem, turns);
      var step := ForwardStep(k, cur, rem);
      if turns > 1 { TooFewTurns(k, s, step.to, step.left, turns - 1); }
    }
  }

  lemma TooFewStep(k: Calendar, s: int, cur: int, rem: int, turns: nat)
    requires OnTrack(s, cur) && turns > 0
    requires rem > Count(k, EnteredAt(s), cur, WindowStart(Day(cur) + turns))
    ensures match ForwardStep(k, cur, rem)
            case Arrive(_) => false
            case Move(c, r) =>
              OnTrack(s, c) && (turns > 1 ==> r > Count(k, EnteredAt(s), c, WindowStart(Day(c) + turns - 1)))
  {
    StepMeasure(k, s, cur, rem);
    StepTurns(k, cur, rem);
    var goal := WindowStart(Day(cur) + turns);
    var step := ForwardStep(k, cur, rem);
    if step.Arrive? {
      CountSplit(k, EnteredAt(s), cur, step.at, goal);
    } else if turns > 1 {
      var near := WindowStart(Day(step.to) + turns - 1);
      CountSplit(k, EnteredAt(s), cur, near, goal);
      CountSplit(k, EnteredAt(s), cur, step.to, near);
    }
  }

  /** In any calendar, from any start: what the next 249 days hold can be placed, and what the
      next 999 days do not hold cannot. */
  lemma ArrivesWithinDays(k: Calendar, s: int, dur: int)
    ensures dur <= Count(k, EnteredAt(s), s, WindowStart(Day(s) + 250)) ==> Arrives(k, s, dur)
    ensures Arrives(k, s, dur) && dur > 0 ==> dur <= Count(k, EnteredAt(s), s, WindowStart(Day(s) + TURNS))
  {
    if 0 < dur <= Count(k, EnteredAt(s), s, WindowStart(Day(s) + 250)) {
      EnoughTurns(k, s, s, dur, TURNS, Day(s) + 250);
    }
    if dur > Count(k, EnteredAt(s), s, WindowStart(Day(s) + TURNS)) {
      TooFewTurns(k, s, s, dur, TURNS);
    }
  }

  // ---------- weeks without a holiday

  function WeekMinutes(cat: Category): int {
    if cat.LvInsulation? || cat.Sheath? then 6480 else 6120
  }

  function WeekTurns(cat: Category): int {
    if cat.Strand? || cat.Default? then 19 else 7
  }

  function PlainDay(cat: Category, weekday: int): int {
    if weekday >= 5 then 0
    else if cat.Strand? || cat.Default? then (if weekday == 4 then 840 else 1320)
    else if weekday == 4 then 720
    else if cat.HvInsulation? && weekday == 0 then 1080
    else 1440
  }

  lemma DayHolds(k: Calendar, d: int)
    requires k.holidays == {}
    ensures Count(k, Shifts, WindowStart(d), WindowStart(d + 1)) == PlainDay(k.cat, Weekday(d))
  {
    if Open(k, d) {
      OpenDayHolds(k, d);
    } else {
      OutsideShift(k, d, WindowStart(d), WindowStart(d + 1));
    }
  }

  lemma DayTakes(k: Calendar, d: int)
    requires k.holidays == {}
    ensures TurnsLeft(k, WindowStart(d)) == PlainTurns(k.cat, Weekday(d))
  {
    assert Day(WindowStart(d)) == d && Clock(WindowStart(d)) == 480;
  }

  lemma OpenDayHolds(k: Calendar, d: int)
    requires Open(k, d)
    ensures Count(k, Shifts, WindowStart(d), WindowStart(d + 1)) == PlainDay(k.cat, Weekday(d))
  {
    var a, close, b := WindowStart(d), WindowEnd(k.cat, d), WindowStart(d + 1);
    WindowShape(k.cat, d);
    SegmentIsCount(k, d, a, close);
    OutsideShift(k, d, close, b);
    CountSplit(k, Shifts, a, close, b);
    OpenDayLength(k.cat, d);
  }

  lemma OpenDayLength(cat: Category, d: int)
    requires Weekday(d) < 5
    ensures WindowEnd(cat, d) - WindowStart(d) - BreakOverlap(DayBreaks(cat, d), WindowStart(d), WindowEnd(cat, d))
            == PlainDay(cat, Weekday(d))
  {
    if DayBreaks(cat, d) != [] { OverlapOfThree(DayBreaks(cat, d), WindowStart(d), WindowEnd(cat, d)); }
  }

  lemma NextWeekday(d: int)
    ensures 0 <= Weekday(d) < 7 && Weekday(d + 1) == if Weekday(d) < 6 then Weekday(d) + 1 else 0
  {
  }

  lemma NextWeekdays(d: int)
    ensures Weekday(d + 1) == if Weekday(d) < 6 then Weekday(d) + 1 else 0
    ensures Weekday(d + 2) == if Weekday(d) < 5 then Weekday(d) + 2 else Weekday(d) - 5
    ensures Weekday(d + 3) == if Weekday(d) < 4 then Weekday(d) + 3 else Weekday(d) - 4
    ensures Weekday(d + 4) == if Weekday(d) < 3 then Weekday(d) + 4 else Weekday(d) - 3
    ensures Weekday(d + 5) == if Weekday(d) < 2 then Weekday(d) + 5 else Weekday(d) - 2
    ensures Weekday(d + 6) == if Weekday(d) < 1 then Weekday(d) + 6 else Weekday(d) - 1
  {
    hide Weekday;
    NextWeekday(d);
    NextWeekday(d + 1);
    NextWeekday(d + 2);
    NextWeekday(d + 3);
    NextWeekday(d + 4);
    NextWeekday(d + 5);
  }

  lemma WeekdaysAddUp(cat: Category, d: int)
    ensures PlainDay(cat, Weekday(d)) + PlainDay(cat, Weekday(d + 1)) + PlainDay(cat, Weekday(d + 2)) +
            PlainDay(cat, Weekday(d + 3)) + PlainDay(cat, Weekday(d + 4)) + PlainDay(cat, Weekday(d + 5)) +
            PlainDay(cat, Weekday(d + 6)) == WeekMinutes(cat)
  {
    NextWeekdays(d);
  }

  /** Seven days in a row, from any day on, hold one week's minutes and take one week's turns. */
  lemma WeekHolds(k: Calendar, d: int)
    requires k.holidays == {}
    ensures Count(k, Shifts, WindowStart(d), WindowStart(d + 7)) == WeekMinutes(k.cat)
    ensures TurnsOver(k, d, d + 7) == WeekTurns(k.cat)
  {
    forall i | d <= i < d + 7
      ensures Count(k, Shifts, WindowStart(i), WindowStart(i + 1)) == PlainDay(k.cat, Weekday(i))
      ensures TurnsLeft(k, WindowStart(i)) == PlainTurns(k.cat, Weekday(i))
    {
      DayHolds(k, i);
      DayTakes(k, i);
    }
    CountWeek(k, d);
    WeekdaysAddUp(k.cat, d);
    TurnsWeek(k, d);
    TurnsAddUp(k.cat, d);
  }

  function PlainTurns(cat: Category, weekday: int): int {
    if weekday < 4 && (cat.Strand? || cat.Default?) then 4 else 1
  }

  lemma TurnsAddUp(cat: Category, d: int)
    ensures PlainTurns(cat, Weekday(d)) + PlainTurns(cat, Weekday(d + 1)) + PlainTurns(cat, Weekday(d + 2)) +
            PlainTurns(cat, Weekday(d + 3)) + PlainTurns(cat, Weekday(d + 4)) + PlainTurns(cat, Weekday(d + 5)) +
            PlainTurns(cat, Weekday(d + 6)) == WeekTurns(cat)
  {
    NextWeekdays(d);
  }

  lemma CountWeek(k: Calendar, d: int)
    ensures Count(k, Shifts, WindowStart(d), WindowStart(d + 7)) ==
            Count(k, Shifts, WindowStart(d), WindowStart(d + 1)) +
            Count(k, Shifts, WindowStart(d + 1), WindowStart(d + 2)) +
            Count(k, Shifts, WindowStart(d + 2), WindowStart(d + 3)) +
            Count(k, Shifts, WindowStart(d + 3), WindowStart(d + 4)) +
            Count(k, Shifts, WindowStart(d + 4), WindowStart(d + 5)) +
            Count(k, Shifts, WindowStart(d + 5), WindowStart(d + 6)) +
            Count(k, Shifts, WindowStart(d + 6), WindowStart(d + 7))
  {
    CountSplit(k, Shifts, WindowStart(d), WindowStart(d + 1), WindowStart(d + 7));
    CountSplit(k, Shifts, WindowStart(d + 1), WindowStart(d + 2), WindowStart(d + 7));
    CountSplit(k, Shifts, WindowStart(d + 2), WindowStart(d + 3), WindowStart(d + 7));
    CountSplit(k, Shifts, WindowStart(d + 3), WindowStart(d + 4), WindowStart(d + 7));
    CountSplit(k, Shifts, WindowStart(d + 4), WindowStart(d + 5), WindowStart(d + 7));
    CountSplit(k, Shifts, WindowStart(d + 5), WindowStart(d + 6), WindowStart(d + 7));
  }

  lemma TurnsWeek(k: Calendar, d: int)
    ensures TurnsOver(k, d, d + 7) ==
            TurnsLeft(k, WindowStart(d)) + TurnsLeft(k, WindowStart(d + 1)) + TurnsLeft(k, WindowStart(d + 2)) +
            TurnsLeft(k, WindowStart(d + 3)) + TurnsLeft(k, WindowStart(d + 4)) + TurnsLeft(k, WindowStart(d + 5)) +
            TurnsLeft(k, WindowStart(d + 6))
  {
    assert TurnsOver(k, d + 6, d + 7) == TurnsLeft(k, WindowStart(d + 6));
    assert TurnsOver(k, d + 5, d + 7) == TurnsLeft(k, WindowStart(d + 5)) + TurnsOver(k, d + 6, d + 7);
    assert TurnsOver(k, d + 4, d + 7) == TurnsLeft(k, WindowStart(d + 4)) + TurnsOver(k, d + 5, d + 7);
    assert TurnsOver(k, d + 3, d + 7) == TurnsLeft(k, WindowStart(d + 3)) + TurnsOver(k, d + 4, d + 7);
    assert TurnsOver(k, d + 2, d + 7) == TurnsLeft(k, WindowStart(d + 2)) + TurnsOver(k, d + 3, d + 7);
    assert TurnsOver(k, d + 1, d + 7) == TurnsLeft(k, WindowStart(d + 1)) + TurnsOver(k, d + 2, d + 7);
  }

  lemma {:induction false} TurnsSplit(k: Calendar, d: int, e: int, g: int)
    requires d <= e <= g
    ensures TurnsOver(k, d, g) == TurnsOver(k, d, e) + TurnsOver(k, e, g)
    decreases e - d
  {
    if d < e { TurnsSplit(k, d + 1, e, g); }
  }

  lemma {:induction false} WeeksHold(k: Calendar, d: int, weeks: nat)
    requires k.holidays == {}
    ensures Count(k, Shifts, WindowStart(d), WindowStart(d + 7 * weeks)) == weeks * WeekMinutes(k.cat)
    decreases weeks
  {
    if weeks > 0 {
      var last := d + 7 * weeks;
      assert d + 7 + 7 * (weeks - 1) == last;
      WeekHolds(k, d);
      WeeksHold(k, d + 7, weeks - 1);
      OneMore(weeks, WeekMinutes(k.cat));
      CountSplit(k, Shifts, WindowStart(d), WindowStart(d + 7), WindowStart(last));
    }
  }

  lemma {:induction false} WeeksTake(k: Calendar, d: int, weeks: nat)
    requires k.holidays == {}
    ensures TurnsOver(k, d, d + 7 * weeks) == weeks * WeekTurns(k.cat)
    decreases weeks
  {
    if weeks > 0 {
      var last := d + 7 * weeks;
      assert d + 7 + 7 * (weeks - 1) == last;
      WeekHolds(k, d);
      WeeksTake(k, d + 7, weeks - 1);
      OneMore(weeks, WeekTurns(k.cat));
      TurnsSplit(k, d, d + 7, last);
    }
  }

  lemma SameFromNextDay(k: Calendar, s: int, b: int)
    ensures Count(k, EnteredAt(s), WindowStart(Day(s) + 1), b) == Count(k, Shifts, WindowStart(Day(s) + 1), b)
  {
    var a := WindowStart(Day(s) + 1);
    forall m | a <= m < b ensures Works(k, EnteredAt(s), m) == Works(k, Shifts, m) { ViewsAgree(k, s, m); }
    CountSame(k, EnteredAt(s), Shifts, a, b);
  }

  lemma OneMore(weeks: nat, each: int)
    requires weeks > 0
    ensures each + (weeks - 1) * each == weeks * each
  {
  }

  /** The whole weeks whose turns fit the cap: 52 of stranding, 142 of any other work. */
  function CappedWeeks(cat: Category): nat { if WeekTurns(cat) == 19 then 52 else 142 }

  /** Without holidays, from any start, so many weeks of work are placed without the fallback. */
  lemma WeeksArrive(k: Calendar, s: int, dur: int)
    requires k.holidays == {}
    requires dur <= CappedWeeks(k.cat) * WeekMinutes(k.cat)
    ensures Arrives(k, s, dur)
  {
    hide Count;
    if dur > 0 {
      var weeks := CappedWeeks(k.cat);
      var first := Day(s) + 1;
      var last := first + 7 * weeks;
      WeeksHold(k, first, weeks);
      WeeksTake(k, first, weeks);
      SameFromNextDay(k, s, WindowStart(last));
      CountSplit(k, EnteredAt(s), s, WindowStart(first), WindowStart(last));
      EnoughTurns(k, s, s, dur, TURNS, last);
    }
  }

  // ---------- turns of the backward walk

  /** Breaks of the active date of `t` that end before `t`. */
  function BreaksBehind(cat: Category, t: int): int {
    var d := ActiveDate(t);
    var c := t - d * 1440;
    if DayBreaks(cat, d) == [] then 0
    else (if c > 780 then 1 else 0) + (if c > 1110 then 1 else 0) + (if c > 1350 then 1 else 0)
  }

  lemma BackStepTurns(k: Calendar, cur: int, rem: int)
    requires rem > 0 && Clock(cur) >= 480
    ensures match BackStep(k, cur, rem)
            case Arrive(_) => true
            case Move(c, r) => || (c == WindowEnd(k.cat, ActiveDate(cur) - 1))
                               || (ActiveDate(c) == ActiveDate(cur)
                                 && BreaksBehind(k.cat, c) < BreaksBehind(k.cat, cur))
  {
    var d := ActiveDate(cur);
    var bs := DayBreaks(k.cat, d);
    if Open(k, d) && WindowStart(d) < cur && bs != [] {
      BackUnfold3(bs, cur);
      BackUnfold3(bs, BackOutOfBreak(bs, cur));
    }
  }

  /** Turns until the walk is on an earlier date. */
  function TurnsBehind(k: Calendar, t: int): int {
    if Open(k, ActiveDate(t)) then 1 + BreaksBehind(k.cat, t) else 1
  }

  predicate EnoughBehind(k: Calendar, cur: int, rem: int, turns: int, f: int) {
    && !k.cat.HvInsulation? && Aligned(k, cur)
    && 0 < rem <= Count(k, Shifts, WindowStart(f), cur)
    && TurnsBehind(k, cur) + TurnsOver(k, f, ActiveDate(cur)) <= turns
  }

  /** A date takes no more turns backward from anywhere than forward from its start. */
  lemma BehindIsAhead(k: Calendar, t: int)
    ensures 1 <= TurnsBehind(k, t) <= TurnsLeft(k, WindowStart(ActiveDate(t)))
  {
    var d := ActiveDate(t);
    WindowShape(k.cat, d);
    assert Day(WindowStart(d)) == d && Clock(WindowStart(d)) == 480;
  }

  /** Turns over fewer days: those of date `a` are still to come. */
  lemma FewerDays(k: Calendar, f: int, a: int, d: int)
    requires f <= a < d
    ensures TurnsOver(k, f, a) + TurnsLeft(k, WindowStart(a)) <= TurnsOver(k, f, d)
  {
    TurnsSplit(k, f, a, d);
    assert TurnsOver(k, a, d) == TurnsLeft(k, WindowStart(a)) + TurnsOver(k, a + 1, d);
  }

  /** A step back within the date takes a turn off it; one to an earlier date leaves the turns of
      that date and those before it. */
  lemma BackStepTakes(k: Calendar, cur: int, rem: int, c: int, r: int, f: int)
    requires rem > 0 && Clock(cur) >= 480 && !k.cat.HvInsulation?
    requires BackStep(k, cur, rem) == Move(c, r) && f <= ActiveDate(c)
    ensures TurnsBehind(k, c) + TurnsOver(k, f, ActiveDate(c)) < TurnsBehind(k, cur) + TurnsOver(k, f, ActiveDate(cur))
  {
    BackStepTurns(k, cur, rem);
    BehindIsAhead(k, c);
    BehindIsAhead(k, cur);
    EarlierDate(k.cat, ActiveDate(cur) - 1);
    if ActiveDate(c) < ActiveDate(cur) {
      FewerDays(k, f, ActiveDate(c), ActiveDate(cur));
    }
  }

  lemma EnoughBackStep(k: Calendar, cur: int, rem: int, turns: int, f: int)
    requires EnoughBehind(k, cur, rem, turns, f)
    ensures var step := BackStep(k, cur, rem);
            && f <= ActiveDate(cur)
            && (step.Move? ==> EnoughBehind(k, step.to, step.left, turns - 1, f))
  {
    BackStepMeasure(k, cur, rem);
    var step := BackStep(k, cur, rem);
    if step.Move? {
      var c := step.to;
      if c <= WindowStart(f) {
        CountSplit(k, Shifts, c, WindowStart(f), cur);
      } else {
        CountSplit(k, Shifts, WindowStart(f), c, cur);
        BackStepTakes(k, cur, rem, c, step.left, f);
      }
    }
  }

  lemma EarlierDate(cat: Category, d: int)
    ensures ActiveDate(WindowEnd(cat, d)) <= d || cat.HvInsulation?
  {
    WindowShape(cat, d);
    var e := WindowEnd(cat, d);
    assert e == WindowStart(d + 1) || Day(e) == d || cat.HvInsulation?;
  }

  lemma {:induction false} EnoughBackTurns(k: Calendar, cur: int, rem: int, turns: nat, f: int)
    requires EnoughBehind(k, cur, rem, turns, f)
    ensures BackWalk(k, cur, rem, turns).Some?
    decreases turns
  {
    EnoughBackStep(k, cur, rem, turns, f);
    var step := BackStep(k, cur, rem);
    if step.Move? { EnoughBackTurns(k, step.to, step.left, turns - 1, f); }
  }

  /** In any calendar, for every category but high-voltage insulation: what the 249 days before
      an aligned end hold can be placed backwards. */
  lemma ReturnsWithinDays(k: Calendar, e: int, dur: int)
    requires !k.cat.HvInsulation? && Aligned(k, e)
    requires dur <= Count(k, Shifts, WindowStart(ActiveDate(e) - 249), e)
    ensures Returns(k, e, dur)
  {
    if dur > 0 {
      BehindIsAhead(k, e);
      EnoughBackTurns(k, e, dur, TURNS, ActiveDate(e) - 249);
    }
  }

  /** The inverse the backward walk is documented to be: without holidays, for every category but
      high-voltage insulation, any end at or after 08:00 that closes a worked minute, and any
      duration up to the weeks that fit the cap, nothing falls back and forward undoes backward. */
  lemma InverseWithoutHolidays(k: Calendar, e: int, dur: int)
    requires k.holidays == {} && !k.cat.HvInsulation?
    requires Clock(e) >= 480 && Works(k, Shifts, e - 1) && dur <= CappedWeeks(k.cat) * WeekMinutes(k.cat)
    ensures Returns(k, e, dur) && Arrives(k, StartDatetime(k, e, dur), dur)
    ensures EndDatetime(k, StartDatetime(k, e, dur), dur) == e
  {
    var s := StartDatetime(k, e, dur);
    if dur > 0 {
      WeeksReturn(k, e, dur);
      WeeksArrive(k, s, dur);
      ReturnIsStart(k, e, dur);
      WorkedIsSeamless(k, s);
      ForwardUndoesBackward(k, e, dur);
    }
  }

  /** The other way round: any start of a worked minute whose end is at or after 08:00. */
  lemma ReturnWithoutHolidays(k: Calendar, s: int, dur: int)
    requires k.holidays == {} && !k.cat.HvInsulation?
    requires Works(k, Shifts, s) && Clock(EndDatetime(k, s, dur)) >= 480
    requires dur <= CappedWeeks(k.cat) * WeekMinutes(k.cat)
    ensures Arrives(k, s, dur) && Returns(k, EndDatetime(k, s, dur), dur)
    ensures StartDatetime(k, EndDatetime(k, s, dur), dur) == s
  {
    var e := EndDatetime(k, s, dur);
    WeeksArrive(k, s, dur);
    if dur > 0 {
      ArrivalIsEnd(k, s, dur);
      WorkedIsSeamless(k, s);
      SeamlessMeans(k, s);
      WeeksReturn(k, e, dur);
      BackwardUndoesForward(k, s, dur);
    }
  }

  /** Without holidays, as many weeks of work are placed backwards from the end of any worked minute. */
  lemma WeeksReturn(k: Calendar, e: int, dur: int)
    requires k.holidays == {} && !k.cat.HvInsulation?
    requires Clock(e) >= 480 && Works(k, Shifts, e - 1) && dur <= CappedWeeks(k.cat) * WeekMinutes(k.cat)
    ensures Aligned(k, e) && Returns(k, e, dur)
  {
    hide Count, Aligned;
    WorkedEndIsAligned(k, e);
    if dur > 0 {
      var weeks, d := CappedWeeks(k.cat), ActiveDate(e);
      var f := d - 7 * weeks;
      WeeksHold(k, f, weeks);
      WeeksTake(k, f, weeks);
      CountSplit(k, Shifts, WindowStart(f), WindowStart(d), e);
      BehindIsAhead(k, e);
      DayTakes(k, d);
      EnoughBackTurns(k, e, dur, TURNS, f);
    }
  }

  lemma WorkedIsSeamless(k: Calendar, s: int)
    requires k.holidays == {} && !k.cat.HvInsulation? && Works(k, Shifts, s)
    ensures Seamless(k, s)
  {
    WindowShape(k.cat, Day(s) - 1);
  }

  /** Likewise composition: without holidays, for every category but high-voltage insulation, two
      legs are one walk from every start, even when the first ends in a night or on a break. */
  lemma CompositionWithoutHolidays(k: Calendar, s: int, a: int, b: int)
    requires k.holidays == {} && !k.cat.HvInsulation?
    requires a >= 0 && b >= 0 && a + b <= CappedWeeks(k.cat) * WeekMinutes(k.cat)
    ensures EndDatetime(k, EndDatetime(k, s, a), b) == EndDatetime(k, s, a + b)
  {
    var e := EndDatetime(k, s, a);
    WeeksArrive(k, s, a);
    WeeksArrive(k, e, b);
    WeeksArrive(k, s, a + b);
    ArrivalIsEnd(k, s, a);
    if Day(e) != Day(s) { ReachedIsSeamless(k, s, a, e); }
    Composition(k, s, a, b);
  }

  lemma ReachedIsSeamless(k: Calendar, s: int, a: int, e: int)
    requires k.holidays == {} && !k.cat.HvInsulation? && IsEnd(k, s, a, e) && Day(s) != Day(e)
    ensures Seamless(k, e)
  {
    hide Count;
    if Clock(e) < 480 {
      WindowShape(k.cat, Day(e) - 1);
      assert Works(k, EnteredAt(s), e - 1);
    }
  }
}
