/** Laws that tie the two walks and the measure to each other. */
module CalendarLaws {
  import opened WorkCalendar
  import opened ForwardWalk
  import opened BackwardWalk
  import opened WorkingMinutes

  // ---------- views

  /** Past 08:00 of the entry date, a walk sees the shifts. */
  lemma ViewsAgree(k: Calendar, s: int, m: int)
    requires s <= m && (Day(s) < Day(m) || Clock(m) >= 480)
    ensures Works(k, EnteredAt(s), m) == Works(k, Shifts, m)
  {
    WindowShape(k.cat, Day(m) - 1);
  }

  lemma SeamlessCount(k: Calendar, s: int, e: int)
    requires Seamless(k, s)
    ensures Count(k, EnteredAt(s), s, e) == Count(k, Shifts, s, e)
  {
    SeamlessMeans(k, s);
    CountSame(k, EnteredAt(s), Shifts, s, e);
  }

  // ---------- the walk against the measure

  /** Minutes a walk works before 08:00 of its entry date. */
  function EarlyMinutes(k: Calendar, s: int, e: int): int {
    if Open(k, Day(s)) then Min(e, FromEight(s)) - s else 0
  }

  lemma EarlyIsCount(k: Calendar, s: int, e: int)
    requires s <= e
    ensures Count(k, EnteredAt(s), s, Min(e, FromEight(s))) == EarlyMinutes(k, s, e)
  {
    WindowShape(k.cat, Day(s));
    if Open(k, Day(s)) {
      CountAll(k, EnteredAt(s), s, Min(e, FromEight(s)));
    } else {
      CountNone(k, EnteredAt(s), s, Min(e, FromEight(s)));
    }
  }

  /** What the measure says about a walk from `s` to `e`, for every start, calendar and duration:
      it misses the minutes worked before 08:00 of the entry date, and adds what is left of the
      night shift at the end. */
  lemma WalkAgainstMeasure(k: Calendar, s: int, dur: int)
    requires dur > 0 && Arrives(k, s, dur)
    ensures var e := EndDatetime(k, s, dur);
            WorkingMinutesBetween(k, s, e) ==
            dur - EarlyMinutes(k, s, e) +
            if FromEight(s) <= e && !NightOver(k, e) then WindowEnd(k.cat, Day(e) - 1) - e else 0
  {
    hide Closing;
    var e, v := EndDatetime(k, s, dur), EnteredAt(s);
    ArrivalIsEnd(k, s, dur);
    MinutesAreCount(k, s, e);
    EarlyIsCount(k, s, e);
    NightMinutes(k, e);
    var eight := FromEight(s);
    if eight <= e {
      CountSplit(k, v, s, eight, e);
      forall m | eight <= m < e ensures Works(k, v, m) == Works(k, Shifts, m) { ViewsAgree(k, s, m); }
      CountSame(k, v, Shifts, eight, e);
      CountSplit(k, Shifts, eight, e, FromEight(e));
    }
  }

  /** The walk refines the measure: from a start at or after 08:00, the minutes between start
      and computed end are the duration, exactly when the end is not inside a night shift. */
  lemma WalkRefinesMeasure(k: Calendar, s: int, dur: int)
    requires dur > 0 && Arrives(k, s, dur) && Clock(s) >= 480
    ensures WorkingMinutesBetween(k, s, EndDatetime(k, s, dur)) == dur <==> NightOver(k, EndDatetime(k, s, dur))
  {
    WalkAgainstMeasure(k, s, dur);
    ArrivalIsEnd(k, s, dur);
    WindowShape(k.cat, Day(EndDatetime(k, s, dur)) - 1);
  }

  // ---------- composition

  /** Two legs are one walk. */
  lemma Composition(k: Calendar, s: int, a: int, b: int)
    requires a >= 0 && b >= 0
    requires Arrives(k, s, a) && Arrives(k, EndDatetime(k, s, a), b) && Arrives(k, s, a + b)
    requires Day(EndDatetime(k, s, a)) == Day(s) || Seamless(k, EndDatetime(k, s, a))
    ensures EndDatetime(k, EndDatetime(k, s, a), b) == EndDatetime(k, s, a + b)
  {
    var e := EndDatetime(k, s, a);
    ArrivalIsEnd(k, s, a);
    ArrivalIsEnd(k, e, b);
    LegsCompose(k, s, a, e, b, EndDatetime(k, e, b));
    EndCharacterised(k, s, a + b, EndDatetime(k, e, b));
  }

  lemma LegsCompose(k: Calendar, s: int, a: int, e: int, b: int, f: int)
    requires a >= 0 && b >= 0 && IsEnd(k, s, a, e)
    requires Day(e) == Day(s) || Seamless(k, e)
    ensures IsEnd(k, e, b, f) <==> IsEnd(k, s, a + b, f)
  {
    if a > 0 && b > 0 {
      SeamlessMeans(k, e);
      forall m | e <= m ensures Works(k, EnteredAt(e), m) == Works(k, EnteredAt(s), m) {
        if Day(e) != Day(s) { ViewsAgree(k, s, m); }
      }
      CountSame(k, EnteredAt(e), EnteredAt(s), e, f);
      if e < f {
        CountSplit(k, EnteredAt(s), s, e, f);
      } else if s < f {
        CountSplit(k, EnteredAt(s), s, f, e);
      }
    } else if b == 0 && IsEnd(k, s, a, f) {
      EndIsUnique(k, s, a, e, f);
    }
  }

  /** Exactly which intermediate instants let every second leg compose. */
  lemma CompositionExactly(k: Calendar, s: int, a: int, e: int)
    requires a > 0 && IsEnd(k, s, a, e)
    ensures (forall b: nat, f :: IsEnd(k, e, b, f) <==> IsEnd(k, s, a + b, f)) <==>
            Day(e) == Day(s) || Seamless(k, e)
  {
    if Day(e) == Day(s) || Seamless(k, e) {
      forall b: nat, f ensures IsEnd(k, e, b, f) <==> IsEnd(k, s, a + b, f) {
        LegsCompose(k, s, a, e, b, f);
      }
    } else {
      var b, f := LegsPartWays(k, s, a, e);
      var n: nat := b;
      assert !(IsEnd(k, e, n, f) <==> IsEnd(k, s, a + n, f));
    }
  }

  lemma LegsPartWays(k: Calendar, s: int, a: int, e: int) returns (b: int, f: int)
    requires a > 0 && IsEnd(k, s, a, e) && Day(e) != Day(s) && !Seamless(k, e)
    ensures b > 0 && IsEnd(k, e, b, f) != IsEnd(k, s, a + b, f)
  {
    hide Count, Closing, Weekday;
    var d := Day(e);
    WindowShape(k.cat, d);
    WindowShape(k.cat, d - 1);
    assert Open(k, d - 1) && e <= WindowEnd(k.cat, d - 1);
    if Open(k, d) {
      var gap := WindowEnd(k.cat, d - 1);
      b, f := gap + 1 - e, gap + 1;
      CountAll(k, EnteredAt(e), e, f);
      ViewsAgree(k, s, gap);
      assert !Works(k, EnteredAt(s), f - 1);
    } else {
      b, f := 1, e + 1;
      ViewsAgree(k, s, e);
      assert InShift(k, d - 1, e);
      CountSplit(k, EnteredAt(s), s, e, f);
      CountAll(k, EnteredAt(s), e, f);
      assert !Works(k, EnteredAt(e), e);
    }
  }

  // ---------- monotonicity

  lemma LongerEndsLater(k: Calendar, s: int, d1: int, d2: int)
    requires d1 <= d2 && Arrives(k, s, d1) && Arrives(k, s, d2)
    ensures EndDatetime(k, s, d1) <= EndDatetime(k, s, d2)
    ensures EndDatetime(k, s, d2) >= s + d2
  {
    ArrivalIsEnd(k, s, d1);
    ArrivalIsEnd(k, s, d2);
    var e1, e2 := EndDatetime(k, s, d1), EndDatetime(k, s, d2);
    if d1 > 0 && e2 < e1 {
      CountSplit(k, EnteredAt(s), s, e2, e1 - 1);
      CountLast(k, EnteredAt(s), s, e1);
    }
    CountAtMost(k, EnteredAt(s), s, e2);
  }

  /** A walk entered at `s2` works minutes of the night before 08:00 that one entered at `s1`, on an
      earlier date, passes over: only where the night is idle and its date is not. */
  predicate Extra(k: Calendar, s1: int, s2: int) {
    Day(s1) < Day(s2) && Open(k, Day(s2)) && !Seamless(k, s2)
  }

  /** By 08:00 the earlier walk has worked as long as the later one. */
  predicate KeepsUp(k: Calendar, s1: int, s2: int) {
    var eight := WindowStart(Day(s2));
    Extra(k, s1, s2) ==> eight - s2 <= Count(k, EnteredAt(s1), s1, eight)
  }

  /** Whatever the later walk works by its end, the earlier one has worked by then. */
  ghost predicate EndsNoLater(k: Calendar, s1: int, s2: int) {
    forall d, e :: d > 0 && IsEnd(k, s2, d, e) ==> d <= Count(k, EnteredAt(s1), s1, e)
  }

  /** What that means for two ends. */
  lemma EndsCompared(k: Calendar, s1: int, d: int, e1: int, e2: int)
    requires d > 0 && IsEnd(k, s1, d, e1) && s1 <= e2
    ensures e1 <= e2 <==> d <= Count(k, EnteredAt(s1), s1, e2)
  {
    var v := EnteredAt(s1);
    if e1 <= e2 {
      CountSplit(k, v, s1, e1, e2);
    } else {
      CountSplit(k, v, s1, e2, e1 - 1);
      CountLast(k, v, s1, e1);
    }
  }

  /** Without extra minutes, what the later walk works the earlier one works too. */
  lemma WorksNoLess(k: Calendar, s1: int, s2: int, m: int)
    requires s1 <= s2 <= m && Works(k, EnteredAt(s2), m)
    requires !Extra(k, s1, s2) || Day(s2) < Day(m) || Clock(m) >= 480
    ensures Works(k, EnteredAt(s1), m)
  {
    if Day(s1) < Day(s2) {
      ViewsAgree(k, s1, m);
      if Seamless(k, s2) { SeamlessMeans(k, s2); } else if Day(s2) < Day(m) || Clock(m) >= 480 { ViewsAgree(k, s2, m); }
    }
  }

  lemma NoExtraNoLater(k: Calendar, s1: int, s2: int, d: int, e: int)
    requires s1 <= s2 && !Extra(k, s1, s2) && d > 0 && IsEnd(k, s2, d, e)
    ensures d <= Count(k, EnteredAt(s1), s1, e)
  {
    forall m | s2 <= m < e && Works(k, EnteredAt(s2), m) ensures Works(k, EnteredAt(s1), m) {
      WorksNoLess(k, s1, s2, m);
    }
    CountLe(k, EnteredAt(s2), EnteredAt(s1), s2, e);
    CountSplit(k, EnteredAt(s1), s1, s2, e);
  }

  /** The whole of the night is worked by a walk that enters it on an open date. */
  lemma NightIsWorked(k: Calendar, s: int, e: int)
    requires Open(k, Day(s)) && s <= e <= WindowStart(Day(s))
    ensures Count(k, EnteredAt(s), s, e) == e - s
  {
    WindowShape(k.cat, Day(s));
    forall m | s <= m < e ensures Works(k, EnteredAt(s), m) { assert Day(m) == Day(s); }
    CountAll(k, EnteredAt(s), s, e);
  }

  lemma KeepsUpInTheNight(k: Calendar, s1: int, s2: int, e: int)
    requires s1 <= s2 < e <= WindowStart(Day(s2)) && Extra(k, s1, s2) && KeepsUp(k, s1, s2)
    ensures e - s2 <= Count(k, EnteredAt(s1), s1, e)
  {
    var eight := WindowStart(Day(s2));
    CountSplit(k, EnteredAt(s1), s1, e, eight);
    CountAtMost(k, EnteredAt(s1), e, eight);
  }

  lemma KeepsUpAfterwards(k: Calendar, s1: int, s2: int, e: int)
    requires s1 <= s2 && WindowStart(Day(s2)) < e && Extra(k, s1, s2) && KeepsUp(k, s1, s2)
    ensures Count(k, EnteredAt(s2), s2, e) <= Count(k, EnteredAt(s1), s1, e)
  {
    var eight := WindowStart(Day(s2));
    assert s2 < eight;
    NightIsWorked(k, s2, eight);
    forall m | eight <= m < e && Works(k, EnteredAt(s2), m) ensures Works(k, EnteredAt(s1), m) {
      WorksNoLess(k, s1, s2, m);
    }
    CountLe(k, EnteredAt(s2), EnteredAt(s1), eight, e);
    CountSplit(k, EnteredAt(s1), s1, eight, e);
    CountSplit(k, EnteredAt(s2), s2, eight, e);
  }

  lemma KeepingUpNoLater(k: Calendar, s1: int, s2: int, d: int, e: int)
    requires s1 <= s2 && KeepsUp(k, s1, s2) && d > 0 && IsEnd(k, s2, d, e)
    ensures d <= Count(k, EnteredAt(s1), s1, e)
  {
    if !Extra(k, s1, s2) {
      NoExtraNoLater(k, s1, s2, d, e);
    } else if e <= WindowStart(Day(s2)) {
      NightIsWorked(k, s2, e);
      KeepsUpInTheNight(k, s1, s2, e);
    } else {
      KeepsUpAfterwards(k, s1, s2, e);
    }
  }

  /** For any calendar and any two starts: the later never ends earlier, exactly when the earlier
      keeps up over the night of the later. */
  lemma EndsNoLaterExactly(k: Calendar, s1: int, s2: int)
    requires s1 <= s2
    ensures EndsNoLater(k, s1, s2) <==> KeepsUp(k, s1, s2)
  {
    if KeepsUp(k, s1, s2) {
      forall d, e | d > 0 && IsEnd(k, s2, d, e) ensures d <= Count(k, EnteredAt(s1), s1, e) {
        KeepingUpNoLater(k, s1, s2, d, e);
      }
    } else {
      var eight := WindowStart(Day(s2));
      NightIsWorked(k, s2, eight);
      WindowShape(k.cat, Day(s2));
      assert Day(eight - 1) == Day(s2) && IsEnd(k, s2, eight - s2, eight);
    }
  }

  /** Of two starts the later never ends earlier, unless it gains over the night. */
  lemma LaterStartsEndLater(k: Calendar, s1: int, s2: int, dur: int)
    requires s1 <= s2 && KeepsUp(k, s1, s2)
    requires Arrives(k, s1, dur) && Arrives(k, s2, dur)
    ensures EndDatetime(k, s1, dur) <= EndDatetime(k, s2, dur)
  {
    ArrivalIsEnd(k, s1, dur);
    ArrivalIsEnd(k, s2, dur);
    if dur > 0 {
      KeepingUpNoLater(k, s1, s2, dur, EndDatetime(k, s2, dur));
      EndsCompared(k, s1, dur, EndDatetime(k, s1, dur), EndDatetime(k, s2, dur));
    }
  }

  /** Where it gains, a later start ends earlier: with the duration up to 08:00. */
  lemma GainsOverTheNight(k: Calendar, s1: int, s2: int)
    requires s1 <= s2 && !KeepsUp(k, s1, s2)
    requires var d := WindowStart(Day(s2)) - s2; Arrives(k, s1, d) && Arrives(k, s2, d)
    ensures var d := WindowStart(Day(s2)) - s2; EndDatetime(k, s2, d) < EndDatetime(k, s1, d)
  {
    var eight := WindowStart(Day(s2));
    var d := eight - s2;
    NightIsWorked(k, s2, eight);
    WindowShape(k.cat, Day(s2));
    assert Day(eight - 1) == Day(s2) && IsEnd(k, s2, d, eight);
    EndCharacterised(k, s2, d, eight);
    ArrivalIsEnd(k, s1, d);
    EndsCompared(k, s1, d, EndDatetime(k, s1, d), eight);
  }

  /** A walk entering on Sunday ends after one entering on Monday 03:00, since the latter works the
      night although Sunday is off. */
  lemma MondayNightOvertakes(k: Calendar)
    requires k.holidays == {}
    ensures var sunday, monday := WindowStart(-1), 180;
            && sunday < monday && !Seamless(k, monday)
            && IsEnd(k, sunday, 60, WindowStart(0) + 60)
            && IsEnd(k, monday, 60, monday + 60)
  {
    HourInTheNight(k);
    HourFromSunday(k);
  }

  lemma HourInTheNight(k: Calendar)
    requires k.holidays == {}
    ensures !Seamless(k, 180) && IsEnd(k, 180, 60, 240)
  {
    hide Count;
    assert Weekday(0) == 0 && Weekday(-1) == 6 && Day(180) == 0;
    CountAll(k, EnteredAt(180), 180, 240);
  }

  lemma HourFromSunday(k: Calendar)
    requires k.holidays == {}
    ensures var sunday := WindowStart(-1); IsEnd(k, sunday, 60, WindowStart(0) + 60)
  {
    hide Count;
    var sunday := WindowStart(-1);
    assert Weekday(0) == 0 && Weekday(-1) == 6 && Day(sunday) == -1;
    NothingLeft(k, sunday, sunday);
    CountAll(k, EnteredAt(sunday), 480, 540);
    CountSplit(k, EnteredAt(sunday), sunday, 480, 540);
  }

  // ---------- safety lessons

  lemma SafetyDaysForward(k: Calendar, cur: int, rem: int, safety: set<int>)
    ensures ForwardStep(k, cur, rem) == ForwardStep(k.(safetyDays := safety), cur, rem)
  {
    assert Open(k, Day(cur)) == Open(k.(safetyDays := safety), Day(cur));
  }

  lemma SafetyDaysBackward(k: Calendar, cur: int, rem: int, safety: set<int>)
    ensures BackStep(k, cur, rem) == BackStep(k.(safetyDays := safety), cur, rem)
  {
    assert Open(k, ActiveDate(cur)) == Open(k.(safetyDays := safety), ActiveDate(cur));
  }

  /** Although a safety lesson takes two hours off a Monday in the table of hours, the walks do
      not see it. */
  lemma {:induction false} SafetyDaysDoNotMatterForward(k: Calendar, cur: int, rem: int, turns: nat, safety: set<int>)
    ensures Walk(k, cur, rem, turns) == Walk(k.(safetyDays := safety), cur, rem, turns)
    decreases turns
  {
    if turns > 0 && rem > 0 {
      SafetyDaysForward(k, cur, rem, safety);
      var f := ForwardStep(k, cur, rem);
      if f.Move? { SafetyDaysDoNotMatterForward(k, f.to, f.left, turns - 1, safety); }
    }
  }

  lemma {:induction false} SafetyDaysDoNotMatterBackward(k: Calendar, cur: int, rem: int, turns: nat, safety: set<int>)
    ensures BackWalk(k, cur, rem, turns) == BackWalk(k.(safetyDays := safety), cur, rem, turns)
    decreases turns
  {
    if turns > 0 && rem > 0 {
      SafetyDaysBackward(k, cur, rem, safety);
      var b := BackStep(k, cur, rem);
      if b.Move? { SafetyDaysDoNotMatterBackward(k, b.to, b.left, turns - 1, safety); }
    }
  }
}
