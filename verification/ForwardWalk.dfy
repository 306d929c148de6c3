/** The forward walk: start + working minutes -> end. */
module ForwardWalk {
  import opened Wrappers
  import opened WorkCalendar

  /** How many turns the walk takes before it gives up. */
  const TURNS := 1000

  /** One turn of a walk: it has arrived, or it moves on with `left` minutes to place. */
  datatype Step = Arrive(at: int) | Move(to: int, left: int)

  // ---------- looking up the breaks of a day

  /** The instant at which work can go on: `t`, or the end of the first break that holds it. */
  function SkipBreak(bs: seq<Break>, t: int): int {
    if bs == [] then t
    else if bs[0].from <= t < bs[0].to then bs[0].to
    else SkipBreak(bs[1..], t)
  }

  function NextBreak(bs: seq<Break>, t: int): Option<Break> {
    if bs == [] then None
    else if bs[0].from > t then Some(bs[0])
    else NextBreak(bs[1..], t)
  }

  /** The list searches on a list of three, without the recursion. */
  lemma Unfold3(bs: seq<Break>, t: int)
    requires |bs| == 3
    ensures SkipBreak(bs, t) ==
            if bs[0].from <= t < bs[0].to then bs[0].to
            else if bs[1].from <= t < bs[1].to then bs[1].to
            else if bs[2].from <= t < bs[2].to then bs[2].to
            else t
    ensures NextBreak(bs, t) ==
            if bs[0].from > t then Some(bs[0])
            else if bs[1].from > t then Some(bs[1])
            else if bs[2].from > t then Some(bs[2])
            else None
  {
    var two, one := [bs[1], bs[2]], [bs[2]];
    assert bs[1..] == two && two[1..] == one && one[1..] == [];
    assert SkipBreak(one, t) == if bs[2].from <= t < bs[2].to then bs[2].to else t;
    assert NextBreak(one, t) == if bs[2].from > t then Some(bs[2]) else None;
  }

  lemma SkipBreakMeans(cat: Category, d: int, t: int)
    requires Day(t) == d
    ensures var c := SkipBreak(DayBreaks(cat, d), t);
            && t <= c && Day(c) == d && (c != t ==> Clock(c) >= 480)
            && !InBreak(cat, d, c)
            && forall m :: t <= m < c ==> InBreak(cat, d, m)
  {
    if DayBreaks(cat, d) != [] { Unfold3(DayBreaks(cat, d), t); }
  }

  lemma NextBreakMeans(cat: Category, d: int, t: int)
    requires Day(t) == d && !InBreak(cat, d, t)
    ensures var nb := NextBreak(DayBreaks(cat, d), t);
            if nb.None? then forall m :: t <= m ==> !InBreak(cat, d, m)
            else var b := nb.value;
              && t < b.from < b.to && Day(b.to) == d && Clock(b.to) >= 480
              && b.to < WindowEnd(cat, d)
              && (forall m :: t <= m < b.from ==> !InBreak(cat, d, m))
              && (forall m :: b.from <= m < b.to ==> InBreak(cat, d, m))
  {
    if DayBreaks(cat, d) != [] { Unfold3(DayBreaks(cat, d), t); }
  }

  // ---------- the walk as a function

  function ForwardStep(k: Calendar, cur: int, rem: int): Step {
    var d := Day(cur);
    if AvailableHours(k, d) <= 0 || cur >= WindowEnd(k.cat, d) then Move(WindowStart(d + 1), rem)
    else
      var c := SkipBreak(DayBreaks(k.cat, d), cur);
      if c >= WindowEnd(k.cat, d) then Move(WindowStart(d + 1), rem)
      else
        var nb := NextBreak(DayBreaks(k.cat, d), c);
        var until := if nb.Some? && nb.value.from < WindowEnd(k.cat, d) then nb.value.from
                     else WindowEnd(k.cat, d);
        if rem <= until - c then Arrive(c + rem)
        else if nb.Some? && until == nb.value.from then Move(nb.value.to, rem - (until - c))
        else Move(WindowStart(d + 1), rem - (until - c))
  }

  /** `turns` turns of the walk; None when they are used up. */
  function Walk(k: Calendar, cur: int, rem: int, turns: nat): Option<int>
    decreases turns, cur, rem
  {
    if turns == 0 then None
    else if rem <= 0 then Some(cur)
    else match ForwardStep(k, cur, rem)
      case Arrive(e) => Some(e)
      case Move(c, r) => Walk(k, c, r, turns - 1)
  }

  /** The walk ends by itself, not by running out of turns. */
  predicate Arrives(k: Calendar, s: int, dur: int) { Walk(k, s, dur, TURNS).Some? }

  function EndDatetime(k: Calendar, s: int, dur: int): int {
    match Walk(k, s, dur, TURNS)
    case Some(e) => e
    case None => s + dur
  }

  // ---------- the walk as the program runs it

  method CalculateEndDatetime(k: Calendar, start: int, durationMin: int) returns (end: int)
    ensures end == EndDatetime(k, start, durationMin)
    ensures Arrives(k, start, durationMin) ==> IsEnd(k, start, durationMin, end)
    ensures !Arrives(k, start, durationMin) ==> end == start + durationMin
  {
    if Arrives(k, start, durationMin) { ArrivalIsEnd(k, start, durationMin); }
    var remaining := durationMin;
    var current := start;
    for turn := 0 to TURNS
      invariant Walk(k, start, durationMin, TURNS) == Walk(k, current, remaining, TURNS - turn)
    {
      if remaining <= 0 { return current; }
      var d := Day(current);
      if AvailableHours(k, d) <= 0 {
        current := WindowStart(d + 1);
        continue;
      }
      var dayEnd := WindowEnd(k.cat, d);
      if current >= dayEnd {
        current := WindowStart(d + 1);
        continue;
      }
      var breaks := DayBreaks(k.cat, d);
      current := LeaveBreak(breaks, current);
      if current >= dayEnd {
        current := WindowStart(d + 1);
        continue;
      }
      var next := FindNextBreak(breaks, current);
      var workUntil := dayEnd;
      if next.Some? && next.value.from < dayEnd {
        workUntil := next.value.from;
      }
      var avail := workUntil - current;
      if remaining <= avail { return current + remaining; }
      remaining := remaining - avail;
      if next.Some? && workUntil == next.value.from {
        current := next.value.to;
      } else {
        current := WindowStart(d + 1);
      }
    }
    return start + durationMin;
  }

  method LeaveBreak(breaks: seq<Break>, t: int) returns (c: int)
    ensures c == SkipBreak(breaks, t)
  {
    for i := 0 to |breaks|
      invariant SkipBreak(breaks, t) == SkipBreak(breaks[i..], t)
    {
      if breaks[i].from <= t < breaks[i].to { return breaks[i].to; }
    }
    return t;
  }

  method FindNextBreak(breaks: seq<Break>, t: int) returns (b: Option<Break>)
    ensures b == NextBreak(breaks, t)
  {
    for i := 0 to |breaks|
      invariant NextBreak(breaks, t) == NextBreak(breaks[i..], t)
    {
      if breaks[i].from > t { return Some(breaks[i]); }
    }
    return None;
  }

  // ---------- what the walk computes

  /** `e` is the instant at which `dur` worked minutes have passed since `s`, and the last
      of them has just passed: the least such instant. */
  predicate IsEnd(k: Calendar, s: int, dur: int, e: int) {
    if dur <= 0 then e == s
    else s < e && Count(k, EnteredAt(s), s, e) == dur && Works(k, EnteredAt(s), e - 1)
  }

  /** Where a walk that entered at `s` can stand at the head of a turn. */
  predicate OnTrack(s: int, cur: int) { cur == s || (s < cur && Clock(cur) >= 480) }

  /** A step from `cur` takes off exactly the minutes worked in the stretch it passes. */
  predicate Accounted(k: Calendar, s: int, cur: int, rem: int, step: Step) {
    match step
    case Arrive(e) => cur < e && Count(k, EnteredAt(s), cur, e) == rem && Works(k, EnteredAt(s), e - 1)
    case Move(c, r) => cur < c && 0 < r && Clock(c) >= 480 && Count(k, EnteredAt(s), cur, c) == rem - r
  }

  /** A turn takes off exactly the minutes worked in the stretch it moves over. */
  lemma StepMeasure(k: Calendar, s: int, cur: int, rem: int)
    requires rem > 0 && OnTrack(s, cur)
    ensures Accounted(k, s, cur, rem, ForwardStep(k, cur, rem))
  {
    if !Open(k, Day(cur)) || cur >= WindowEnd(k.cat, Day(cur)) {
      NothingLeft(k, s, cur);
    } else {
      var c := AfterBreak(k, s, cur, rem);
      WorkStretch(k, s, c, rem);
      var step := ForwardStep(k, c, rem);
      CountSplit(k, EnteredAt(s), cur, c, if step.Arrive? then step.at else step.to);
    }
  }

  lemma AfterBreak(k: Calendar, s: int, cur: int, rem: int) returns (c: int)
    requires rem > 0 && OnTrack(s, cur) && Open(k, Day(cur)) && cur < WindowEnd(k.cat, Day(cur))
    ensures OnTrack(s, c) && cur <= c && Open(k, Day(c)) && c < WindowEnd(k.cat, Day(c)) && !InBreak(k.cat, Day(c), c)
    ensures ForwardStep(k, cur, rem) == ForwardStep(k, c, rem)
    ensures Count(k, EnteredAt(s), cur, c) == 0
  {
    var d := Day(cur);
    c := SkipBreak(DayBreaks(k.cat, d), cur);
    SkipBreakMeans(k.cat, d, cur);
    BreaksInside(k.cat, d, cur);
    StepFromAfterBreak(k, cur, rem, c);
    BreakIsIdle(k, s, cur, c);
  }

  lemma StepFromAfterBreak(k: Calendar, cur: int, rem: int, c: int)
    requires Open(k, Day(cur)) && cur < WindowEnd(k.cat, Day(cur))
    requires c == SkipBreak(DayBreaks(k.cat, Day(cur)), cur) && Day(c) == Day(cur)
    requires !InBreak(k.cat, Day(c), c) && c < WindowEnd(k.cat, Day(c))
    ensures ForwardStep(k, cur, rem) == ForwardStep(k, c, rem)
  {
    SkipBreakMeans(k.cat, Day(c), c);
  }

  lemma BreakIsIdle(k: Calendar, s: int, cur: int, c: int)
    requires cur <= c && Day(cur) == Day(c) && forall m :: cur <= m < c ==> InBreak(k.cat, Day(cur), m)
    ensures Count(k, EnteredAt(s), cur, c) == 0
  {
    forall m | cur <= m < c ensures !Works(k, EnteredAt(s), m) {
      assert InBreak(k.cat, Day(cur), m) && Day(m) == Day(cur);
    }
    CountNone(k, EnteredAt(s), cur, c);
  }

  lemma BreaksInside(cat: Category, d: int, t: int)
    requires Day(t) == d && t < WindowEnd(cat, d)
    ensures SkipBreak(DayBreaks(cat, d), t) < WindowEnd(cat, d)
  {
    SkipBreakMeans(cat, d, t);
  }

  lemma NothingLeft(k: Calendar, s: int, cur: int)
    requires OnTrack(s, cur)
    requires !Open(k, Day(cur)) || cur >= WindowEnd(k.cat, Day(cur))
    ensures cur < WindowStart(Day(cur) + 1) && Clock(WindowStart(Day(cur) + 1)) >= 480
    ensures Count(k, EnteredAt(s), cur, WindowStart(Day(cur) + 1)) == 0
  {
    var d := Day(cur);
    forall m | cur <= m < WindowStart(d + 1) ensures !Works(k, EnteredAt(s), m) { IdleMinute(k, s, cur, m); }
    CountNone(k, EnteredAt(s), cur, WindowStart(d + 1));
  }

  lemma IdleMinute(k: Calendar, s: int, cur: int, m: int)
    requires OnTrack(s, cur) && cur <= m < WindowStart(Day(cur) + 1)
    requires !Open(k, Day(cur)) || cur >= WindowEnd(k.cat, Day(cur))
    ensures !Works(k, EnteredAt(s), m)
  {
    var d := Day(cur);
    if Day(m) == d {
      assert WindowEnd(k.cat, d - 1) <= WindowStart(d);
    } else {
      assert Day(m) == d + 1;
    }
  }

  /** The part of a turn that works: from `c`, in the open part of its day and outside breaks. */
  lemma WorkStretch(k: Calendar, s: int, c: int, rem: int)
    requires rem > 0 && OnTrack(s, c) && Open(k, Day(c)) && c < WindowEnd(k.cat, Day(c)) && !InBreak(k.cat, Day(c), c)
    ensures Accounted(k, s, c, rem, ForwardStep(k, c, rem))
  {
    var until, to := NextStop(k, c, rem);
    WorkedUntil(k, s, c, until);
    if rem <= until - c {
      CountAll(k, EnteredAt(s), c, c + rem);
    } else {
      CountAll(k, EnteredAt(s), c, until);
      IdleUntil(k, s, c, until, to);
      CountNone(k, EnteredAt(s), until, to);
      CountSplit(k, EnteredAt(s), c, until, to);
    }
  }

  lemma NextStop(k: Calendar, c: int, rem: int) returns (until: int, to: int)
    requires Open(k, Day(c)) && c < WindowEnd(k.cat, Day(c)) && !InBreak(k.cat, Day(c), c)
    ensures c < until <= to && until <= WindowEnd(k.cat, Day(c)) && Clock(to) >= 480
    ensures ForwardStep(k, c, rem) == if rem <= until - c then Arrive(c + rem) else Move(to, rem - (until - c))
    ensures forall m :: c <= m < until ==> !InBreak(k.cat, Day(c), m)
    ensures || ((forall m :: until <= m < to ==> InBreak(k.cat, Day(c), m)) && Day(to) == Day(c))
            || (until == WindowEnd(k.cat, Day(c)) && to == WindowStart(Day(c) + 1))
  {
    var d := Day(c);
    SkipBreakMeans(k.cat, d, c);
    assert SkipBreak(DayBreaks(k.cat, d), c) == c;
    NextBreakMeans(k.cat, d, c);
    WindowShape(k.cat, d);
    var nb := NextBreak(DayBreaks(k.cat, d), c);
    until := if nb.Some? then nb.value.from else WindowEnd(k.cat, d);
    to := if nb.Some? then nb.value.to else WindowStart(d + 1);
  }

  lemma WorkedUntil(k: Calendar, s: int, c: int, until: int)
    requires OnTrack(s, c) && Open(k, Day(c)) && until <= WindowEnd(k.cat, Day(c))
    requires forall m :: c <= m < until ==> !InBreak(k.cat, Day(c), m)
    ensures forall m :: c <= m < until ==> Works(k, EnteredAt(s), m)
  {
    var d := Day(c);
    WindowShape(k.cat, d);
    forall m | c <= m < until ensures Works(k, EnteredAt(s), m) {
      if Day(m) == d {
        if d != Day(s) { assert InShift(k, d, m); }
      } else {
        assert Day(m) == d + 1;
        assert InShift(k, d, m);
      }
    }
  }

  lemma IdleUntil(k: Calendar, s: int, c: int, until: int, to: int)
    requires OnTrack(s, c) && s <= c < until <= to
    requires || ((forall m :: until <= m < to ==> InBreak(k.cat, Day(c), m)) && Day(to) == Day(c))
             || (until == WindowEnd(k.cat, Day(c)) && to == WindowStart(Day(c) + 1))
    ensures forall m :: until <= m < to ==> !Works(k, EnteredAt(s), m)
  {
    WindowShape(k.cat, Day(c));
    WindowShape(k.cat, Day(c) - 1);
  }

  lemma {:induction false} WalkMeasure(k: Calendar, s: int, cur: int, rem: int, turns: nat)
    requires rem > 0 && OnTrack(s, cur)
    ensures Walk(k, cur, rem, turns).Some? ==> Accounted(k, s, cur, rem, Arrive(Walk(k, cur, rem, turns).value))
    decreases turns
  {
    if turns > 0 {
      StepMeasure(k, s, cur, rem);
      match ForwardStep(k, cur, rem) {
        case Arrive(_) =>
        case Move(c, r) =>
          WalkMeasure(k, s, c, r, turns - 1);
          var w := Walk(k, c, r, turns - 1);
          if w.Some? {
            CountSplit(k, EnteredAt(s), cur, c, w.value);
          }
      }
    }
  }

  lemma ArrivalIsEnd(k: Calendar, s: int, dur: int)
    requires Arrives(k, s, dur)
    ensures IsEnd(k, s, dur, EndDatetime(k, s, dur))
  {
    if dur > 0 { WalkMeasure(k, s, s, dur, TURNS); }
  }

  /** Instants that fit the description are unique. */
  lemma EndIsUnique(k: Calendar, s: int, dur: int, e: int, f: int)
    requires IsEnd(k, s, dur, e) && IsEnd(k, s, dur, f)
    ensures e == f
  {
    if dur > 0 && e != f {
      var lo, hi := if e < f then e else f, if e < f then f else e;
      CountSplit(k, EnteredAt(s), s, lo, hi - 1);
      CountLast(k, EnteredAt(s), s, hi);
    }
  }

  /** The walk, from any start in any calendar: it arrives at `e` just when `e` is the
      instant at which the asked minutes have been worked. */
  lemma EndCharacterised(k: Calendar, s: int, dur: int, e: int)
    requires Arrives(k, s, dur)
    ensures EndDatetime(k, s, dur) == e <==> IsEnd(k, s, dur, e)
  {
    ArrivalIsEnd(k, s, dur);
    if IsEnd(k, s, dur, e) { EndIsUnique(k, s, dur, e, EndDatetime(k, s, dur)); }
  }
}
