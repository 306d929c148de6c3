/** What caused each push of a cascade, and where it left the task. */
module CascadeCauses {
  import opened Wrappers
  import opened Snapshot
  import opened Cascade
  import opened CascadeInvariant
  import opened CascadeTurns
  import opened CascadeWaves

  /** Task `t`, the changed one or one pushed earlier, was not over when the task of the entry
      started; the entry puts that task behind it, and says why. */
  ghost predicate CausedBy(f: Frame, before: Schedule, earlier: seq<Push>, e: Push, t: string) {
    && e.id in before && t in before && t != e.id
    && (t == f.changed || exists k :: 0 <= k < |earlier| && earlier[k].id == t)
    && var x := before[e.id];
    && x.start < before[t].end
    && (Clash(x, before[t]) || Follows(before[t], x))
    && var a := f.c.advance(before[t].end);
    && a != x.start
    && e == Push(e.id, x.equipment, x.batch, x.start, x.end, a, a + (x.end - x.start),
                 if Clash(x, before[t]) then SameEquipmentConflict else SuccessorChain)
  }

  ghost predicate Caused(f: Frame, p: seq<Push>, i: nat)
    requires i < |p|
  {
    exists t :: CausedBy(f, Replay(f.m0, p[..i]), p[..i], p[i], t)
  }

  /** The journal so far is explained, and leads to where the tasks stand. */
  ghost predicate Explained(f: Frame, r: Run) {
    && WellFormed(f.c.ids, r.m) && Replay(f.m0, r.pushes) == r.m
    && forall i :: 0 <= i < |r.pushes| ==> Caused(f, r.pushes, i)
  }

  ghost predicate Known(f: Frame, p: seq<Push>, t: string) {
    t == f.changed || exists k :: 0 <= k < |p| && p[k].id == t
  }

  // ---------- one turn

  lemma ReplayOne(m0: Schedule, p: seq<Push>, r: Run, t: string, x: string, a: int)
    requires p != [] && t in r.m && x in r.m && r.m[x].id == x && p[|p| - 1] == EntryFor(r, t, x, a)
    requires var before := Replay(m0, p[..|p| - 1]); x in before && before[x] == r.m[x]
    ensures Replay(m0, p) == Replay(m0, p[..|p| - 1])[x := At(r.m[x], a)]
  {
  }

  /** The tasks after the first `j` moves of a turn. */
  ghost predicate Moved(m: Schedule, list: seq<string>, j: nat, a: int, after: Schedule)
    requires j <= |list|
  {
    after.Keys == m.Keys && forall x :: x in m ==> after[x] == if x in list[..j] then At(m[x], a) else m[x]
  }

  lemma OneMore(m: Schedule, list: seq<string>, j: nat, a: int, before: Schedule)
    requires 0 < j <= |list| && NoDuplicates(list) && list[j - 1] in m && Moved(m, list, j - 1, a, before)
    ensures var x := list[j - 1];
            x in before && before[x] == m[x] && Moved(m, list, j, a, before[x := At(m[x], a)])
  {
    hide At;
    assert list[..j] == list[..j - 1] + [list[j - 1]];
    assert list[j - 1] !in list[..j - 1];
  }

  /** The journal replayed up to entry `j` of a turn. */
  lemma {:induction false} ReplayTurn(f: Frame, r: Run, t: string, list: seq<string>, a: int, q: Run, j: nat)
    requires WellFormed(f.c.ids, r.m) && Replay(f.m0, r.pushes) == r.m && NoDuplicates(list) && j <= |list|
    requires MovesTold(r, t, list, a, q)
    ensures Moved(r.m, list, j, a, Replay(f.m0, q.pushes[..|r.pushes| + j]))
  {
    hide Replay, At, EntryFor, NoDuplicates, Moved;
    var n := |r.pushes|;
    if j == 0 {
      assert q.pushes[..n + 0] == r.pushes;
      assert Moved(r.m, list, 0, a, r.m) by { NoneMoved(r.m, list, a); }
    } else {
      ReplayTurn(f, r, t, list, a, q, j - 1);
      var p, x := q.pushes[..n + j], list[j - 1];
      assert p[..|p| - 1] == q.pushes[..n + (j - 1)] && p[|p| - 1] == EntryFor(r, t, x, a);
      OneMore(r.m, list, j, a, Replay(f.m0, p[..|p| - 1]));
      ReplayOne(f.m0, p, r, t, x, a);
    }
  }

  lemma NoneMoved(m: Schedule, list: seq<string>, a: int)
    ensures Moved(m, list, 0, a, m)
  {
  }

  /** When the task of entry `j` is moved, it and `t` still stand as when the turn began. */
  lemma EntryFinds(f: Frame, r: Run, t: string, list: seq<string>, q: Run, j: nat)
    requires WellFormed(f.c.ids, r.m) && Replay(f.m0, r.pushes) == r.m && j < |list|
    requires Queue(f.c.ids, r, t, list) && AllMoved(f.c, r, t, list, q)
    ensures var before, x := Replay(f.m0, q.pushes[..|r.pushes| + j]), list[j];
            && InTheWay(r, t, x) && x in before && before[x] == r.m[x] && t in before && before[t] == r.m[t]
    ensures q.pushes[|r.pushes| + j] == EntryFor(r, t, list[j], f.c.advance(r.m[t].end))
  {
    hide ComesFirst, Replay, EntryFor, TasksMoved, MovesCounted, At, WellFormed, Clash, Follows;
    var x := list[j];
    ReplayTurn(f, r, t, list, f.c.advance(r.m[t].end), q, j);
    assert x in list && x !in list[..j] && InTheWay(r, t, x);
    assert t !in list[..j] by { assert !InTheWay(r, t, t) && forall y :: y in list[..j] ==> y in list; }
  }

  lemma EntryCaused(f: Frame, r: Run, t: string, list: seq<string>, q: Run, j: nat)
    requires Explained(f, r) && Known(f, r.pushes, t) && j < |list|
    requires Queue(f.c.ids, r, t, list) && AllMoved(f.c, r, t, list, q) && !Refused(f.c, r, t, list)
    ensures Caused(f, q.pushes, |r.pushes| + j)
  {
    hide Queue, Caused, Replay, TasksMoved, MovesCounted, Clash, Follows;
    var n, x := |r.pushes|, list[j];
    EntryFinds(f, r, t, list, q, j);
    var p := q.pushes[..n + j];
    assert r.pushes <= p by { assert p[..n] == q.pushes[..n]; }
    StillKnown(f, r.pushes, p, t);
    assert x in list;
    InWayStarts(r, t, x);
    Blames(f, r, t, x, Replay(f.m0, p), p, q.pushes[n + j]);
    IsCaused(f, q.pushes, n + j, t);
  }

  lemma Blames(f: Frame, r: Run, t: string, x: string, before: Schedule, p: seq<Push>, e: Push)
    requires t in r.m && InTheWay(r, t, x) && r.m[x].start < r.m[t].end && r.m[x].id == x && Known(f, p, t)
    requires x in before && before[x] == r.m[x] && t in before && before[t] == r.m[t]
    requires var a := f.c.advance(r.m[t].end); a != r.m[x].start && e == EntryFor(r, t, x, a)
    ensures CausedBy(f, before, p, e, t)
  {
    hide Clash, Follows;
  }

  lemma IsCaused(f: Frame, p: seq<Push>, i: nat, t: string)
    requires i < |p| && CausedBy(f, Replay(f.m0, p[..i]), p[..i], p[i], t)
    ensures Caused(f, p, i)
  {
  }

  lemma InWayStarts(r: Run, t: string, x: string)
    requires InTheWay(r, t, x)
    ensures r.m[x].start < r.m[t].end
  {
  }

  lemma TurnReplayed(f: Frame, r: Run, t: string, list: seq<string>, q: Run)
    requires WellFormed(f.c.ids, r.m) && Replay(f.m0, r.pushes) == r.m
    requires Queue(f.c.ids, r, t, list) && AllMoved(f.c, r, t, list, q)
    ensures Replay(f.m0, q.pushes) == q.m && r.pushes <= q.pushes
  {
    hide ComesFirst, InTheWay, Replay, EntryFor, TasksMoved, MovesCounted, Moved, NoDuplicates;
    var a, n := f.c.advance(r.m[t].end), |r.pushes|;
    ReplayTurn(f, r, t, list, a, q, |list|);
    assert q.pushes[..n + |list|] == q.pushes;
    MovedOneWay(r, list, a, q, Replay(f.m0, q.pushes));
  }

  lemma MovedOneWay(r: Run, list: seq<string>, a: int, q: Run, after: Schedule)
    requires TasksMoved(r, list, a, q) && Moved(r.m, list, |list|, a, after)
    ensures after == q.m
  {
    hide At;
    assert list[..|list|] == list;
    assert forall x :: x in r.m ==> after[x] == q.m[x];
  }

  lemma TurnWellFormed(f: Frame, r: Run, t: string, list: seq<string>, q: Run)
    requires WellFormed(f.c.ids, r.m) && AllMoved(f.c, r, t, list, q)
    ensures WellFormed(f.c.ids, q.m)
  {
    hide MovesTold, MovesCounted;
  }

  lemma TurnKnown(f: Frame, r: Run, t: string, list: seq<string>, q: Run, x: string)
    requires AllMoved(f.c, r, t, list, q) && WellFormed(f.c.ids, r.m) && x in list
    ensures Known(f, q.pushes, x)
  {
    hide MovesCounted, Clash;
    var j :| 0 <= j < |list| && list[j] == x;
    assert q.pushes[|r.pushes| + j] == EntryFor(r, t, x, f.c.advance(r.m[t].end));
    assert q.pushes[|r.pushes| + j].id == x;
  }

  lemma TurnExplained(f: Frame, r: Run, t: string, q: Run)
    requires Explained(f, r) && Known(f, r.pushes, t) && Turn(f.c, r, t, q) && !q.raised
    ensures Explained(f, q) && r.pushes <= q.pushes
    ensures forall x :: x in q.next ==> x in r.next || Known(f, q.pushes, x)
  {
    hide Queue, MovesTold, TasksMoved, Replay, Caused, Refused, WellFormed, Known;
    var list :| Queue(f.c.ids, r, t, list) && TurnOver(f.c, r, t, list, q);
    var n := |r.pushes|;
    TurnReplayed(f, r, t, list, q);
    TurnWellFormed(f, r, t, list, q);
    Lengths(f.c, r, t, list, q);
    forall i | 0 <= i < |q.pushes| ensures Caused(f, q.pushes, i) {
      if i < n { StillCaused(f, r.pushes, q.pushes, i); } else { EntryCaused(f, r, t, list, q, i - n); }
    }
    forall x | x in list ensures Known(f, q.pushes, x) { TurnKnown(f, r, t, list, q, x); }
  }

  lemma Lengths(c: Setup, r: Run, t: string, list: seq<string>, q: Run)
    requires AllMoved(c, r, t, list, q)
    ensures |q.pushes| == |r.pushes| + |list|
  {
  }

  lemma StillCaused(f: Frame, p: seq<Push>, q: seq<Push>, i: nat)
    requires p <= q && i < |p| && Caused(f, p, i)
    ensures Caused(f, q, i)
  {
    assert q[..i] == p[..i];
  }

  lemma StillKnown(f: Frame, p: seq<Push>, q: seq<Push>, t: string)
    requires p <= q && Known(f, p, t)
    ensures Known(f, q, t)
  {
  }

  // ---------- a wave and a run

  ghost predicate AllKnown(f: Frame, p: seq<Push>, list: seq<string>) { forall x :: x in list ==> Known(f, p, x) }

  lemma {:induction false} RowExplained(f: Frame, frontier: seq<string>, steps: seq<Run>, j: nat)
    requires RowOfTurns(f.c, frontier, steps) && j < |steps| && !steps[j].raised
    requires Explained(f, steps[0]) && AllKnown(f, steps[0].pushes, frontier) && steps[0].next == []
    ensures Explained(f, steps[j]) && steps[0].pushes <= steps[j].pushes
    ensures AllKnown(f, steps[j].pushes, steps[j].next)
  {
    hide Explained, Known, Turn;
    if j > 0 {
      assert TurnAt(f.c, frontier, steps, j - 1);
      RowExplained(f, frontier, steps, j - 1);
      var r, q, t := steps[j - 1], steps[j], frontier[j - 1];
      assert t in frontier;
      StillKnown(f, steps[0].pushes, r.pushes, t);
      TurnExplained(f, r, t, q);
      forall x | x in q.next ensures Known(f, q.pushes, x) {
        if x in r.next { StillKnown(f, r.pushes, q.pushes, x); }
      }
    }
  }

  lemma RestedExplained(f: Frame, r: Run)
    requires Explained(f, r)
    ensures Explained(f, r.(processed := {}, next := []))
  {
  }

  lemma {:induction false} RunExplained(f: Frame, runs: seq<Run>, z: Final, k: nat)
    requires RowOfWaves(f.c, [f.changed], 0, runs, z) && k < |runs| && !runs[k].raised
    requires runs[0] == Start(f.m0) && WellFormed(f.c.ids, f.m0)
    ensures Explained(f, runs[k]) && AllKnown(f, runs[k].pushes, FrontierOf([f.changed], runs, k))
  {
    hide Caused, RowOfTurns, Turn;
    if k == 0 {
      assert Replay(f.m0, []) == f.m0;
    } else {
      assert WaveAt(f.c, [f.changed], 0, runs, k - 1);
      RunExplained(f, runs, z, k - 1);
      var frontier := FrontierOf([f.changed], runs, k - 1);
      WaveExplained(f, runs[k - 1], frontier, runs[k]);
    }
  }

  lemma WaveExplained(f: Frame, r: Run, frontier: seq<string>, w: Run)
    requires exists steps ::
               RowOfTurns(f.c, frontier, steps) && steps[0] == r.(processed := {}, next := [])
               && steps[|steps| - 1] == w
    requires Explained(f, r) && AllKnown(f, r.pushes, frontier) && !w.raised
    ensures Explained(f, w) && AllKnown(f, w.pushes, w.next)
  {
    hide Explained, Known;
    var steps :| RowOfTurns(f.c, frontier, steps) && steps[0] == r.(processed := {}, next := [])
                 && steps[|steps| - 1] == w;
    RestedExplained(f, r);
    RowExplained(f, frontier, steps, |steps| - 1);
  }

  /** Every push of a run has a cause: when it came, a task that was the changed one or had been pushed
      before was not over when the pushed task started, and overlapped it or comes before it on its
      order line.  The push goes to where that task ends, or working time begins after that, and its
      reason says which of the two it was. */
  lemma PushesAreCaused(f: Frame, i: nat)
    requires WellFormed(f.c.ids, f.m0) && f.changed in f.m0
    requires var r := Cascaded(f.c, f.m0, f.changed).run; !r.raised && i < |r.pushes|
    ensures var p := Cascaded(f.c, f.m0, f.changed).run.pushes;
            exists t :: CausedBy(f, Replay(f.m0, p[..i]), p[..i], p[i], t)
  {
    hide RowOfTurns, Waves, CausedBy;
    RunIsWaves(f);
    var z := Cascaded(f.c, f.m0, f.changed);
    var runs :| runs != [] && runs[0] == Start(f.m0) && RowOfWaves(f.c, [f.changed], 0, runs, z);
    RunExplained(f, runs, z, |runs| - 1);
    assert Caused(f, z.run.pushes, i);
  }

  // ---------- where the pushes leave a task

  /** A task stands where its last push put it, and remembers where it first stood; nothing else about
      it changes, and a task that was never pushed does not change at all. */
  lemma {:induction false} ReplayMeans(m: Schedule, p: seq<Push>, x: string)
    requires x in m
    ensures x in Replay(m, p)
    ensures var n, t := LastPush(p, x), m[x];
            Replay(m, p)[x] ==
            if n < 0 then t
            else t.(start := p[n].newStart, end := p[n].newEnd,
                    origin := if t.origin.Some? then t.origin else Some(Original(t.start, t.end, t.equipment)))
    decreases |p|
  {
    if p != [] { ReplayMeans(m, p[..|p| - 1], x); }
  }
}
