/** The cascade preview with the nudges that the program gives it. */
module WiredPreview {
  import opened Snapshot
  import opened Cascade
  import opened CascadeInvariant
  import opened CascadeLaws
  import opened CascadePlan
  import opened Pull
  import opened CalendarPulls
  import BackwardWalk
  import WorkCalendar

  /** No nudge forward. */
  function Wired(ids: seq<string>): Setup { Setup(ids, x => x) }

  // ---------- the slacks of a chain

  /** Every slack that the chain asks for holds, or is more than the walk can go back. */
  ghost predicate SlacksHold(k: WorkCalendar.Calendar, ids: seq<string>, m: Schedule, chain: seq<string>, prevEnd: int)
    requires Known(m, chain)
  {
    chain == []
    || (var s := m[chain[0]];
        var d := SlackOf(ids, m, s, prevEnd);
        && (0 < d ==> !BackwardWalk.Returns(k, s.start, d) || SlackHolds(k, s.start, d))
        && SlacksHold(k, ids, m, chain[1..], EndAfter(s, Proposal(ids, m, ReverseAdvance(k), s, prevEnd))))
  }

  ghost predicate SlacksHoldFor(k: WorkCalendar.Calendar, ids: seq<string>, m: Schedule, changed: string)
    requires WellFormed(ids, m) && changed in m
  {
    var t := m[changed];
    t.origin.None? || t.end >= t.origin.value.end
    || (SuccessorTasksMeans(ids, m, t); SlacksHold(k, ids, m, SuccessorTasks(ids, m, t), t.end))
  }

  lemma {:induction false} ChainKeptExactly(k: WorkCalendar.Calendar, ids: seq<string>, m: Schedule,
                                            chain: seq<string>, prevEnd: int)
    requires Known(m, chain)
    ensures WithinAlong(ids, m, ReverseAdvance(k), chain, prevEnd) <==> SlacksHold(k, ids, m, chain, prevEnd)
    decreases |chain|
  {
    hide SlackHolds, StaysWithin, ReverseAdvance;
    if chain != [] {
      var s := m[chain[0]];
      var d := SlackOf(ids, m, s, prevEnd);
      if 0 < d { SlackKeptExactly(k, s.start, d); }
      ChainKeptExactly(k, ids, m, chain[1..], EndAfter(s, Proposal(ids, m, ReverseAdvance(k), s, prevEnd)));
    }
  }

  /** The calendar's way of going back stays within the slacks that a changed task opens exactly when
      these hold. */
  lemma KeptForExactly(k: WorkCalendar.Calendar, ids: seq<string>, m: Schedule, changed: string)
    requires WellFormed(ids, m) && changed in m
    ensures WithinFor(ids, m, ReverseAdvance(k), changed) <==> SlacksHoldFor(k, ids, m, changed)
  {
    hide WithinAlong, SlacksHold, ReverseAdvance, SuccessorTasks;
    var t := m[changed];
    SuccessorTasksMeans(ids, m, t);
    ChainKeptExactly(k, ids, m, SuccessorTasks(ids, m, t), t.end);
  }

  /** The preview of the program never fails on a push, and if it reports no cycle and the slacks
      hold, it leads to a schedule without overlaps, pulls included. */
  lemma WiredPreviewIsClear(k: WorkCalendar.Calendar, ids: seq<string>, m0: Schedule, changed: string, horizon: int)
    requires WellFormed(ids, m0) && changed in m0 && UntouchedBut(m0, changed)
    requires forall x, y :: x in m0 && y in m0 && x != y && Clash(m0[x], m0[y]) ==> x == changed || y == changed
    ensures var z := Cascaded(Wired(ids), m0, changed);
            && !z.run.raised && WellFormed(ids, z.run.m) && changed in z.run.m
            && (&& !Complains(UnresolvedOf(Wired(ids), z, changed, horizon))
                && SlacksHoldFor(k, ids, z.run.m, changed)
                ==> Clear(ApplyAll(z.run.m, PullsOf(Wired(ids), z.run.m, changed, ReverseAdvance(k)))))
  {
    hide SlacksHoldFor, WithinFor, ReverseAdvance, Cascaded, UnresolvedOf, ApplyAll, PullsOf;
    var f := Frame(Wired(ids), m0, changed);
    CascadeKeeps(f);
    var z := Cascaded(Wired(ids), m0, changed);
    KeptForExactly(k, ids, z.run.m, changed);
    if !Complains(UnresolvedOf(Wired(ids), z, changed, horizon)) && SlacksHoldFor(k, ids, z.run.m, changed) {
      PreviewIsClear(f, ReverseAdvance(k), horizon);
    }
  }
}
