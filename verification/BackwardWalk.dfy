/** The backward walk: end - working minutes -> start. */
module BackwardWalk {
  import opened Wrappers
  import opened WorkCalendar
  import opened ForwardWalk

  // ---------- looking up the breaks of a day, backwards

  /** `t`, or the start of the first break that holds it; here a break holds its end, not its start. */
  function BackOutOfBreak(bs: seq<Break>, t: int): int {
    if bs == [] then t
    else if bs[0].from < t <= bs[0].to then bs[0].from
    else BackOutOfBreak(bs[1..], t)
  }

  /** The last break of the list that ends before `t`. */
  function PrevBreak(bs: seq<Break>, t: int): Option<Break> {
    if bs == [] then None
    else if bs[|bs| - 1].to < t then Some(bs[|bs| - 1])
    else PrevBreak(bs[..|bs| - 1], t)
  }

  lemma BackUnfold3(bs: seq<Break>, t: int)
    requires |bs| == 3
    ensures BackOutOfBreak(bs, t) ==
            if bs[0].from < t <= bs[0].to then bs[0].from
            else if bs[1].from < t <= bs[1].to then bs[1].from
            else if bs[2].from < t <= bs[2].to then bs[2].from
            else t
    ensures PrevBreak(bs, t) ==
            if bs[2].to < t then Some(bs[2])
            else if bs[1].to < t then Some(bs[1])
            else if bs[0].to < t then Some(bs[0])
            else None
  {
    var last, tail := [bs[2]], [bs[1], bs[2]];
    assert bs[1..] == tail && tail[1..] == last && last[1..] == [];
    assert BackOutOfBreak(last, t) == if bs[2].from < t <= bs[2].to then bs[2].from else t;
    var first, init := [bs[0]], [bs[0], bs[1]];
    assert bs[..2] == init && init[..1] == first && first[..0] == [];
    assert PrevBreak(first, t) == if bs[0].to < t then Some(bs[0]) else None;
  }

  lemma BackOutMeans(cat: Category, d: int, t: int)
    requires WindowStart(d) < t <= WindowStart(d + 1)
    ensures var c := BackOutOfBreak(DayBreaks(cat, d), t);
            && WindowStart(d) < c <= t
            && !InBreak(cat, d, c - 1)
            && (c != t ==> Clock(c) >= 480)
            && (forall m :: c <= m < t ==> InBreak(cat, d, m))
            && BackOutOfBreak(DayBreaks(cat, d), c) == c
  {
    hide Weekday, PrevBreak;
    var bs := DayBreaks(cat, d);
    if bs != [] {
      BackUnfold3(bs, t);
      BackUnfold3(bs, BackOutOfBreak(bs, t));
    }
  }

  lemma PrevBreakMeans(cat: Category, d: int, t: int)
    requires WindowStart(d) < t <= WindowStart(d + 1) && !InBreak(cat, d, t - 1)
    ensures var pb := PrevBreak(DayBreaks(cat, d), t);
            if pb.None? then forall m :: m < t ==> !InBreak(cat, d, m)
            else var b := pb.value;
              && WindowStart(d) < b.from < b.to < t && Day(b.from) == d && Clock(b.from) > 480
              && (forall m :: b.to <= m < t ==> !InBreak(cat, d, m))
              && (forall m :: b.from <= m < b.to ==> InBreak(cat, d, m))
  {
    hide Weekday, BackOutOfBreak;
    if DayBreaks(cat, d) != [] { BackUnfold3(DayBreaks(cat, d), t); }
  }

  // ---------- the walk as a function

  /** The day whose shift the walk takes `cur` to close: 08:00 sharp belongs to the day before. */
  function ActiveDate(cur: int): int {
    if cur == WindowStart(Day(cur)) then Day(cur) - 1 else Day(cur)
  }

  function BackStep(k: Calendar, cur: int, rem: int): Step {
    var d := ActiveDate(cur);
    if AvailableHours(k, d) <= 0 || cur <= WindowStart(d) then Move(WindowEnd(k.cat, d - 1), rem)
    else
      var c := BackOutOfBreak(DayBreaks(k.cat, d), cur);
      if c <= WindowStart(d) then Move(WindowEnd(k.cat, d - 1), rem)
      else
        var pb := PrevBreak(DayBreaks(k.cat, d), c);
        var backUntil := if pb.Some? && pb.value.to > WindowStart(d) then pb.value.to else WindowStart(d);
        if rem <= c - backUntil then Arrive(c - rem)
        else if pb.Some? && backUntil == pb.value.to then Move(pb.value.from, rem - (c - backUntil))
        else Move(WindowEnd(k.cat, d - 1), rem - (c - backUntil))
  }

  function BackWalk(k: Calendar, cur: int, rem: int, turns: nat): Option<int>
    decreases turns, cur, rem
  {
    if turns == 0 then None
    else if rem <= 0 then Some(cur)
    else match BackStep(k, cur, rem)
      case Arrive(s) => Some(s)
      case Move(c, r) => BackWalk(k, c, r, turns - 1)
  }

  predicate Returns(k: Calendar, e: int, dur: int) { BackWalk(k, e, dur, TURNS).Some? }

  function StartDatetime(k: Calendar, e: int, dur: int): int {
    match BackWalk(k, e, dur, TURNS)
    case Some(s) => s
    case None => e - dur
  }

  // ---------- the walk as the program runs it

  method CalculateStartDatetime(k: Calendar, end: int, durationMin: int) returns (start: int)
    ensures start == StartDatetime(k, end, durationMin)
    ensures Returns(k, end, durationMin) && Aligned(k, end) ==> IsStart(k, end, durationMin, start)
    ensures !Returns(k, end, durationMin) ==> start == end - durationMin
  {
    hide IsStart, Aligned, Closing, DayBreaks, AvailableHours, PrevBreak, BackOutOfBreak;
    if Returns(k, end, durationMin) && Aligned(k, end) { ReturnIsStart(k, end, durationMin); }
    if durationMin <= 0 { return end; }
    var remaining := durationMin;
    var current := end;
    for turn := 0 to TURNS
      invariant BackWalk(k, end, durationMin, TURNS) == BackWalk(k, current, remaining, TURNS - turn)
    {
      if remaining <= 0 { return current; }
      ghost var was := current;
      var d := ActiveDate(current);
      if AvailableHours(k, d) <= 0 {
        current := WindowEnd(k.cat, d - 1);
        assert BackStep(k, was, remaining) == Move(current, remaining);
        continue;
      }
      var dayStart := WindowStart(d);
      if current <= dayStart {
        current := WindowEnd(k.cat, d - 1);
        assert BackStep(k, was, remaining) == Move(current, remaining);
        continue;
      }
      var breaks := DayBreaks(k.cat, d);
      current := LeaveBreakBack(breaks, current);
      if current <= dayStart {
        current := WindowEnd(k.cat, d - 1);
        assert BackStep(k, was, remaining) == Move(current, remaining);
        continue;
      }
      var prev := FindPrevBreak(breaks, current);
      var backUntil := dayStart;
      if prev.Some? && prev.value.to > dayStart {
        backUntil := prev.value.to;
      }
      var avail := current - backUntil;
      if remaining <= avail {
        assert BackStep(k, was, remaining) == Arrive(current - remaining);
        return current - remaining;
      }
      var next := WindowEnd(k.cat, d - 1);
      if prev.Some? && backUntil == prev.value.to {
        next := prev.value.from;
      }
      assert BackStep(k, was, remaining) == Move(next, remaining - avail);
      current, remaining := next, remaining - avail;
    }
    return end - durationMin;
  }

  method LeaveBreakBack(breaks: seq<Break>, t: int) returns (c: int)
    ensures c == BackOutOfBreak(breaks, t)
  {
    for i := 0 to |breaks|
      invariant BackOutOfBreak(breaks, t) == BackOutOfBreak(breaks[i..], t)
    {
      if breaks[i].from < t <= breaks[i].to { return breaks[i].from; }
    }
    return t;
  }

  method FindPrevBreak(breaks: seq<Break>, t: int) returns (b: Option<Break>)
    ensures b == PrevBreak(breaks, t)
  {
    assert breaks[..|breaks|] == breaks;
    for i := |breaks| downto 0
      invariant PrevBreak(breaks, t) == PrevBreak(breaks[..i], t)
    {
      assert breaks[..i + 1][..i] == breaks[..i];
      if breaks[i].to < t { return Some(breaks[i]); }
    }
    return None;
  }

  // ---------- what the walk computes

  /** `s` is the instant from which exactly `dur` shift minutes lead up to `e`, and it starts
      with a worked minute: the greatest such instant. */
  predicate IsStart(k: Calendar, e: int, dur: int, s: int) {
    if dur <= 0 then s == e
    else s < e && Count(k, Shifts, s, e) == dur && Works(k, Shifts, s)
  }

  /** What a caller can check about an end at or after 08:00: it is not past the closing time of
      the shift it is taken to close, and it is not in the night before a Monday, from which the
      walk goes to Saturday 08:00 and takes that for the close of an open Friday. */
  predicate Aligned(k: Calendar, e: int) {
    var d := ActiveDate(e);
    && Clock(e) >= 480
    && (Open(k, d) ==> e <= WindowEnd(k.cat, d))
    && (Weekday(d) == 6 ==> !Open(k, d - 2))
  }

  /** The close of the short Monday of high-voltage insulation, Tuesday 02:00. */
  predicate ShortMondayClose(k: Calendar, c: int) {
    k.cat.HvInsulation? && Weekday(Day(c)) == 1 && Clock(c) == 120
  }

  predicate BackAccounted(k: Calendar, cur: int, rem: int, step: Step) {
    match step
    case Arrive(s) => s < cur && Count(k, Shifts, s, cur) == rem && Works(k, Shifts, s)
    case Move(c, r) => && c < cur && 0 < r && Count(k, Shifts, c, cur) == rem - r
                       && (Aligned(k, c) || ShortMondayClose(k, c))
  }

  lemma WindowEndAligned(k: Calendar, d: int)
    requires Weekday(d) == 5 ==> !Open(k, d - 1)
    ensures Aligned(k, WindowEnd(k.cat, d)) || ShortMondayClose(k, WindowEnd(k.cat, d))
  {
    hide Day, Clock;
    WindowShape(k.cat, d);
    OnDate(d, Closing(k.cat, Weekday(d)));
  }

  lemma OnDate(d: int, x: int)
    requires 0 <= x < 2880
    ensures Day(d * 1440 + x) == if x < 1440 then d else d + 1
    ensures Clock(d * 1440 + x) == if x < 1440 then x else x - 1440
  {
  }

  lemma IdleBefore(k: Calendar, d: int, c: int)
    requires WindowEnd(k.cat, d - 1) <= c <= WindowStart(d + 1)
    requires c <= WindowStart(d) || !Open(k, d)
    ensures Count(k, Shifts, WindowEnd(k.cat, d - 1), c) == 0
  {
    hide Closing, Weekday;
    WindowShape(k.cat, d);
    WindowShape(k.cat, d - 1);
    WindowShape(k.cat, d - 2);
    CountNone(k, Shifts, WindowEnd(k.cat, d - 1), c);
  }

  lemma BackStepMeasure(k: Calendar, cur: int, rem: int)
    requires rem > 0 && Aligned(k, cur)
    ensures BackAccounted(k, cur, rem, BackStep(k, cur, rem))
  {
    hide BackStep, BackAccounted, Count, Day, Clock, Weekday, Closing;
    AlignedMeans(k, cur);
    if Open(k, ActiveDate(cur)) { BackStretch(k, ActiveDate(cur), cur, rem); } else { ClosedStep(k, cur, rem); }
  }

  lemma AlignedMeans(k: Calendar, cur: int)
    requires Aligned(k, cur)
    ensures var d := ActiveDate(cur);
            WindowStart(d) < cur <= WindowStart(d + 1) && (Weekday(d - 1) == 5 ==> !Open(k, d - 2))
  {
  }

  lemma ClosedStep(k: Calendar, cur: int, rem: int)
    requires rem > 0 && Aligned(k, cur) && !Open(k, ActiveDate(cur))
    ensures BackAccounted(k, cur, rem, BackStep(k, cur, rem))
  {
    hide Count, Day, Clock, Weekday, Closing, Aligned, ShortMondayClose, ActiveDate;
    var d := ActiveDate(cur);
    AlignedMeans(k, cur);
    WindowShape(k.cat, d - 1);
    WindowEndAligned(k, d - 1);
    IdleBefore(k, d, cur);
  }

  /** A turn from inside an open shift. */
  lemma BackStretch(k: Calendar, d: int, cur: int, rem: int)
    requires d == ActiveDate(cur) && Open(k, d) && WindowStart(d) < cur <= WindowEnd(k.cat, d) && rem > 0
    ensures BackAccounted(k, cur, rem, BackStep(k, cur, rem))
  {
    var c, backUntil, to := PrevStop(k, d, cur, rem);
    WindowShape(k.cat, d);
    BreakIdle(k, d, c, cur);
    ShiftWorked(k, d, backUntil, c);
    if rem <= c - backUntil {
      CountAll(k, Shifts, c - rem, c);
      CountSplit(k, Shifts, c - rem, c, cur);
    } else {
      CountAll(k, Shifts, backUntil, c);
      CountSplit(k, Shifts, backUntil, c, cur);
      IdleStretch(k, d, to, backUntil);
      CountSplit(k, Shifts, to, backUntil, cur);
    }
  }

  lemma BreakIdle(k: Calendar, d: int, a: int, b: int)
    requires WindowStart(d) <= a && b <= WindowStart(d + 1)
    requires forall m :: a <= m < b ==> InBreak(k.cat, d, m)
    ensures Count(k, Shifts, a, b) == 0
  {
    WindowShape(k.cat, d - 1);
    forall m | a <= m < b ensures !Works(k, Shifts, m) {
      assert InBreak(k.cat, d, m) && Day(m) == d;
    }
    CountNone(k, Shifts, a, b);
  }

  lemma ShiftWorked(k: Calendar, d: int, a: int, c: int)
    requires Open(k, d) && WindowStart(d) <= a && c <= WindowEnd(k.cat, d)
    requires forall m :: a <= m < c ==> !InBreak(k.cat, d, m)
    ensures forall m :: a <= m < c ==> Works(k, Shifts, m)
  {
    WindowShape(k.cat, d);
    forall m | a <= m < c ensures Works(k, Shifts, m) {
      assert InShift(k, d, m);
    }
  }

  lemma IdleStretch(k: Calendar, d: int, to: int, until: int)
    requires to <= until
    requires || ((forall m :: to <= m < until ==> InBreak(k.cat, d, m))
                 && WindowStart(d) < to && until <= WindowStart(d + 1))
             || (to == WindowEnd(k.cat, d - 1) && until == WindowStart(d))
    ensures Count(k, Shifts, to, until) == 0
  {
    if to == WindowEnd(k.cat, d - 1) && until == WindowStart(d) {
      IdleBefore(k, d, until);
    } else {
      BreakIdle(k, d, to, until);
    }
  }

  lemma PrevStop(k: Calendar, d: int, cur: int, rem: int) returns (c: int, backUntil: int, to: int)
    requires d == ActiveDate(cur) && Open(k, d) && WindowStart(d) < cur <= WindowEnd(k.cat, d) && rem > 0
    ensures WindowStart(d) <= backUntil < c <= cur && to <= backUntil
    ensures BackStep(k, cur, rem) == if rem <= c - backUntil then Arrive(c - rem) else Move(to, rem - (c - backUntil))
    ensures forall m :: backUntil <= m < c ==> !InBreak(k.cat, d, m)
    ensures forall m :: c <= m < cur ==> InBreak(k.cat, d, m)
    ensures Aligned(k, to) || ShortMondayClose(k, to)
    ensures || ((forall m :: to <= m < backUntil ==> InBreak(k.cat, d, m)) && WindowStart(d) < to)
            || (to == WindowEnd(k.cat, d - 1) && backUntil == WindowStart(d))
  {
    hide Closing;
    WindowShape(k.cat, d);
    WindowShape(k.cat, d - 1);
    WindowEndAligned(k, d - 1);
    BackOutMeans(k.cat, d, cur);
    c := BackOutOfBreak(DayBreaks(k.cat, d), cur);
    PrevBreakMeans(k.cat, d, c);
    var pb := PrevBreak(DayBreaks(k.cat, d), c);
    backUntil := if pb.Some? then pb.value.to else WindowStart(d);
    to := if pb.Some? then pb.value.from else WindowEnd(k.cat, d - 1);
  }

  lemma BackWhereItStands(k: Calendar, c: int, rem: int)
    requires ShortMondayClose(k, c) && rem > 0
    ensures BackStep(k, c, rem) == Move(c, rem)
  {
    assert ActiveDate(c) == Day(c) && WindowEnd(k.cat, Day(c) - 1) == c;
  }

  /** From Tuesday 02:00 the walk of a short Monday jumps to Tuesday 02:00. */
  lemma {:induction false} StuckAtShortMonday(k: Calendar, c: int, rem: int, turns: nat)
    requires ShortMondayClose(k, c) && rem > 0
    ensures BackWalk(k, c, rem, turns) == None
    decreases turns
  {
    hide ShortMondayClose, BackStep;
    if turns > 0 {
      BackWhereItStands(k, c, rem);
      StuckAtShortMonday(k, c, rem, turns - 1);
    }
  }

  lemma {:induction false} BackWalkMeasure(k: Calendar, cur: int, rem: int, turns: nat)
    requires rem > 0 && Aligned(k, cur)
    ensures var w := BackWalk(k, cur, rem, turns);
            w.Some? ==> BackAccounted(k, cur, rem, Arrive(w.value))
    decreases turns
  {
    if turns > 0 {
      BackStepMeasure(k, cur, rem);
      match BackStep(k, cur, rem) {
        case Arrive(_) =>
        case Move(c, r) =>
          if ShortMondayClose(k, c) {
            StuckAtShortMonday(k, c, r, turns - 1);
          } else {
            BackWalkMeasure(k, c, r, turns - 1);
            var w := BackWalk(k, c, r, turns - 1);
            if w.Some? { CountSplit(k, Shifts, w.value, c, cur); }
          }
      }
    }
  }

  lemma ReturnIsStart(k: Calendar, e: int, dur: int)
    requires Returns(k, e, dur) && Aligned(k, e)
    ensures IsStart(k, e, dur, StartDatetime(k, e, dur))
  {
    if dur > 0 { BackWalkMeasure(k, e, dur, TURNS); }
  }

  lemma StartIsUnique(k: Calendar, e: int, dur: int, s: int, t: int)
    requires IsStart(k, e, dur, s) && IsStart(k, e, dur, t)
    ensures s == t
  {
    if dur > 0 && s != t {
      var lo, hi := if s < t then s else t, if s < t then t else s;
      CountFirst(k, Shifts, lo, e);
      CountSplit(k, Shifts, lo + 1, hi, e);
    }
  }

  /** The backward walk, from any proper end in any calendar: it comes back to `s` just when
      the shifts hold exactly the asked minutes from `s` on. */
  lemma StartCharacterised(k: Calendar, e: int, dur: int, s: int)
    requires Returns(k, e, dur) && Aligned(k, e)
    ensures StartDatetime(k, e, dur) == s <==> IsStart(k, e, dur, s)
  {
    ReturnIsStart(k, e, dur);
    if IsStart(k, e, dur, s) { StartIsUnique(k, e, dur, s, StartDatetime(k, e, dur)); }
  }
}
