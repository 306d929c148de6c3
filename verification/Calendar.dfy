/** The operating calendar: which minutes of which day a process category works.

    Time is a whole number of minutes.  Day 0 is a Monday, so the weekday of
    day `d` is `d % 7`, with 0 for Monday and 6 for Sunday. */
module WorkCalendar {
  datatype Category = Strand | LvInsulation | HvInsulation | Sheath | Default

  /** `safetyDays` are the days with a safety lesson; `holidays` the days off. */
  datatype Calendar = Calendar(cat: Category, holidays: set<int>, safetyDays: set<int>)

  /** A stretch [from, to) of a day in which nothing is produced. */
  datatype Break = Break(from: int, to: int)

  function Day(t: int): int { t / 1440 }

  function Clock(t: int): int { t % 1440 }

  function Weekday(d: int): int { d % 7 }

  function BaseHours(cat: Category, weekday: int): int {
    if weekday >= 5 then 0
    else match cat
      case Strand => if weekday == 4 then 14 else 22
      case Default => if weekday == 4 then 14 else 22
      case LvInsulation => if weekday == 4 then 12 else 24
      case Sheath => if weekday == 4 then 12 else 24
      case HvInsulation => if weekday == 4 then 12 else if weekday == 0 then 18 else 24
  }

  /** A day is open unless it is a holiday or on the weekend. */
  predicate Open(k: Calendar, d: int) { d !in k.holidays && Weekday(d) < 5 }

  /** The walks only ask whether these are positive; a safety lesson never makes them zero. */
  function AvailableHours(k: Calendar, d: int): (h: int)
    ensures 0 < h <==> Open(k, d)
  {
    if d in k.holidays then 0
    else
      var base := BaseHours(k.cat, Weekday(d));
      if base <= 0 then 0
      else if Weekday(d) == 0 && d in k.safetyDays then (if base >= 2 then base - 2 else 0)
      else base
  }

  /** The shift of day `d` opens at 08:00. */
  function WindowStart(d: int): int { d * 1440 + 480 }

  /** Minutes from midnight of an opening day to the close of its shift. */
  function Closing(cat: Category, weekday: int): (c: int)
    ensures 480 <= c <= 1920 && (weekday < 5 <==> 480 < c)
  {
    if weekday >= 5 then 480
    else if weekday == 4 then (if cat.Strand? || cat.Default? then 1320 else 1200)
    else if weekday == 0 && cat.HvInsulation? then 1560
    else 1920
  }

  function WindowEnd(cat: Category, d: int): int { d * 1440 + Closing(cat, Weekday(d)) }

  /** The window as the program derives it from the table of hours. */
  method GetWorkingWindow(cat: Category, d: int) returns (start: int, end: int)
    ensures start == WindowStart(d) && end == WindowEnd(cat, d)
  {
    start := d * 1440 + 8 * 60;
    if Weekday(d) >= 5 { return start, start; }
    if Weekday(d) == 4 {
      var endHour := if cat.Strand? || cat.Default? then 22 else 20;
      return start, d * 1440 + endHour * 60;
    }
    var hours := BaseHours(cat, Weekday(d));
    if hours <= 0 { return start, start; }
    if hours == 24 {
      end := start + 24 * 60;
    } else if cat.Strand? || cat.Default? {
      end := start + 24 * 60;
    } else {
      end := start + hours * 60;
    }
  }

  function DayBreaks(cat: Category, d: int): seq<Break> {
    if Weekday(d) >= 4 || !(cat.Strand? || cat.Default?) then []
    else [Break(d * 1440 + 720, d * 1440 + 780),
          Break(d * 1440 + 1080, d * 1440 + 1110),
          Break(d * 1440 + 1320, d * 1440 + 1350)]
  }

  /** The break time of day `d`, read off the clock rather than off the list of breaks. */
  predicate InBreak(cat: Category, d: int, m: int) {
    && (cat.Strand? || cat.Default?) && Weekday(d) < 4
    && var c := m - d * 1440;
       720 <= c < 780 || 1080 <= c < 1110 || 1320 <= c < 1350
  }

  /** Minute [m, m+1) is produced in the shift that opens on day `d`. */
  predicate InShift(k: Calendar, d: int, m: int) {
    Open(k, d) && WindowStart(d) <= m < WindowEnd(k.cat, d) && !InBreak(k.cat, d, m)
  }

  /** Minute [m, m+1) is produced in some shift: its own day's, or the night part of the day before's. */
  predicate InSomeShift(k: Calendar, m: int) { InShift(k, Day(m), m) || InShift(k, Day(m) - 1, m) }

  /** From which viewpoint minutes are judged: the shifts as they are, or as a
      forward walk that enters the calendar at instant `s` sees them. */
  datatype View = Shifts | EnteredAt(s: int)

  /** Minute [m, m+1) is worked.  A walk entering at `s` takes the whole of the entry date
      up to that date's closing time as working time, and ignores what is left of the shift
      of the day before; from the next day on it follows the shifts. */
  predicate Works(k: Calendar, v: View, m: int) {
    match v
    case Shifts => InSomeShift(k, m)
    case EnteredAt(s) =>
      if Day(m) == Day(s)
      then s <= m && Open(k, Day(m)) && m < WindowEnd(k.cat, Day(m)) && !InBreak(k.cat, Day(m), m)
      else Day(s) < Day(m) && InSomeShift(k, m)
  }

  function Minutes(k: Calendar, v: View, a: int, b: int): set<int> {
    set m | a <= m < b && Works(k, v, m)
  }

  /** The number of worked minutes in [a, b): the reference measure of the calendar. */
  function Count(k: Calendar, v: View, a: int, b: int): nat { |Minutes(k, v, a, b)| }

  // ---------- laws of the measure

  lemma {:induction false} SmallerSet(x: set<int>, y: set<int>)
    requires x <= y
    ensures |x| <= |y|
    ensures x != y ==> |x| < |y|
  {
    assert y == x + (y - x);
    assert |y| == |x| + |y - x|;
  }

  function Range(a: int, b: int): (s: set<int>)
    ensures forall m :: m in s <==> a <= m < b
    ensures |s| == if a <= b then b - a else 0
    decreases b - a
  {
    if b <= a then {} else Range(a, b - 1) + {b - 1}
  }

  lemma CountSplit(k: Calendar, v: View, a: int, b: int, c: int)
    requires a <= b <= c
    ensures Count(k, v, a, c) == Count(k, v, a, b) + Count(k, v, b, c)
  {
    assert Minutes(k, v, a, c) == Minutes(k, v, a, b) + Minutes(k, v, b, c);
    assert Minutes(k, v, a, b) !! Minutes(k, v, b, c);
  }

  lemma CountAll(k: Calendar, v: View, a: int, b: int)
    requires a <= b
    requires forall m :: a <= m < b ==> Works(k, v, m)
    ensures Count(k, v, a, b) == b - a
  {
    assert Minutes(k, v, a, b) == Range(a, b);
  }

  lemma CountNone(k: Calendar, v: View, a: int, b: int)
    requires forall m :: a <= m < b ==> !Works(k, v, m)
    ensures Count(k, v, a, b) == 0
  {
    assert Minutes(k, v, a, b) == {};
  }

  lemma CountOne(k: Calendar, v: View, m: int)
    ensures Count(k, v, m, m + 1) == if Works(k, v, m) then 1 else 0
  {
    if Works(k, v, m) { CountAll(k, v, m, m + 1); } else { CountNone(k, v, m, m + 1); }
  }

  /** The first and the last minute of a stretch, counted apart. */
  lemma CountFirst(k: Calendar, v: View, a: int, b: int)
    requires a < b
    ensures Count(k, v, a, b) == (if Works(k, v, a) then 1 else 0) + Count(k, v, a + 1, b)
  {
    CountSplit(k, v, a, a + 1, b);
    CountOne(k, v, a);
  }

  lemma CountLast(k: Calendar, v: View, a: int, b: int)
    requires a < b
    ensures Count(k, v, a, b) == Count(k, v, a, b - 1) + if Works(k, v, b - 1) then 1 else 0
  {
    CountSplit(k, v, a, b - 1, b);
    CountOne(k, v, b - 1);
  }

  lemma CountAtMost(k: Calendar, v: View, a: int, b: int)
    ensures Count(k, v, a, b) <= if a <= b then b - a else 0
  {
    SmallerSet(Minutes(k, v, a, b), Range(a, b));
  }

  lemma CountLe(k: Calendar, v: View, w: View, a: int, b: int)
    requires forall m :: a <= m < b && Works(k, v, m) ==> Works(k, w, m)
    ensures Count(k, v, a, b) <= Count(k, w, a, b)
  {
    SmallerSet(Minutes(k, v, a, b), Minutes(k, w, a, b));
  }

  lemma CountLess(k: Calendar, v: View, w: View, a: int, b: int, x: int)
    requires forall m :: a <= m < b && Works(k, v, m) ==> Works(k, w, m)
    requires a <= x < b && !Works(k, v, x) && Works(k, w, x)
    ensures Count(k, v, a, b) < Count(k, w, a, b)
  {
    assert x in Minutes(k, w, a, b) && x !in Minutes(k, v, a, b);
    SmallerSet(Minutes(k, v, a, b), Minutes(k, w, a, b));
  }

  lemma CountSame(k: Calendar, v: View, w: View, a: int, b: int)
    requires forall m :: a <= m < b ==> Works(k, v, m) == Works(k, w, m)
    ensures Count(k, v, a, b) == Count(k, w, a, b)
  {
    assert Minutes(k, v, a, b) == Minutes(k, w, a, b);
  }

  // ---------- the two views

  /** What a caller can check about an instant: entering the calendar at `s` agrees with the
      shifts.  Only an instant before 08:00 can fail it: its date must continue the shift of
      the day before without a gap, or, if its date is off, that shift must be over. */
  predicate Seamless(k: Calendar, s: int) {
    var d := Day(s);
    || Clock(s) >= 480
    || if Open(k, d)
       then Open(k, d - 1) && WindowEnd(k.cat, d - 1) == WindowStart(d)
       else !Open(k, d - 1) || WindowEnd(k.cat, d - 1) <= s
  }

  /** No shift runs past 08:00 of the next day, and only 24-hour days reach it. */
  lemma WindowShape(cat: Category, d: int)
    ensures WindowStart(d) <= WindowEnd(cat, d) <= WindowStart(d + 1)
    ensures Weekday(d) < 5 <==> WindowStart(d) < WindowEnd(cat, d)
  {
  }

  lemma SeamlessMeans(k: Calendar, s: int)
    ensures Seamless(k, s) <==> forall m :: s <= m ==> Works(k, EnteredAt(s), m) == Works(k, Shifts, m)
  {
    var d := Day(s);
    WindowShape(k.cat, d);
    WindowShape(k.cat, d - 1);
    if Seamless(k, s) {
      forall m | s <= m ensures Works(k, EnteredAt(s), m) == Works(k, Shifts, m) {
        if Day(m) == d && Clock(m) < 480 {
          assert InShift(k, d - 1, m) == Open(k, d);
        }
      }
    } else if Open(k, d) {
      var m := WindowStart(d) - 1;
      assert Works(k, EnteredAt(s), m) && !Works(k, Shifts, m);
    } else {
      assert InShift(k, d - 1, s);
      assert !Works(k, EnteredAt(s), s) && Works(k, Shifts, s);
    }
  }

  // ---------- the hours, minute by minute

  /** Minute `c` after midnight of a working day is worked: from eight on, without lunch, supper and the night
      break where strands are made; until eight of the next day, but on Fridays until ten or eight in the
      evening, and on Mondays of insulation for high voltage until two at night. */
  ghost predicate WorkedAt(cat: Category, weekday: int, c: int) {
    match cat
    case Strand => StrandHours(weekday, c)
    case Default => StrandHours(weekday, c)
    case LvInsulation => 480 <= c < if weekday == 4 then 1200 else 1920
    case Sheath => 480 <= c < if weekday == 4 then 1200 else 1920
    case HvInsulation => 480 <= c < if weekday == 4 then 1200 else if weekday == 0 then 1560 else 1920
  }

  ghost predicate StrandHours(weekday: int, c: int) {
    if weekday == 4 then 480 <= c < 1320
    else 480 <= c < 720 || 780 <= c < 1080 || 1110 <= c < 1320 || 1350 <= c < 1920
  }

  /** A minute is worked if and only if the hours of its day, or of the day before, say so, and that day is
      neither a holiday nor of a weekend. */
  lemma WorkedExactly(k: Calendar, m: int)
    ensures Works(k, Shifts, m) <==>
            exists d :: Day(m) - 1 <= d <= Day(m) && d !in k.holidays && d % 7 < 5
                        && WorkedAt(k.cat, d % 7, m - d * 1440)
  {
    var d := Day(m);
    forall e | d - 1 <= e <= d
      ensures InShift(k, e, m) <==> e !in k.holidays && e % 7 < 5 && WorkedAt(k.cat, e % 7, m - e * 1440)
    {
      ShiftExactly(k, e, m);
    }
  }

  lemma ShiftExactly(k: Calendar, d: int, m: int)
    ensures InShift(k, d, m) <==> d !in k.holidays && d % 7 < 5 && WorkedAt(k.cat, d % 7, m - d * 1440)
  {
  }
}
