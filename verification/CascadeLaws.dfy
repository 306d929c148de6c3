/** What a whole cascade run guarantees. */
module CascadeLaws {
  import opened Wrappers
  import opened Snapshot
  import opened Cascade
  import opened CascadeInvariant

  function Rested(r: Run): Run { r.(processed := {}, next := []) }

  /** The invariant between two waves. */
  ghost predicate AtWave(f: Frame, r: Run, frontier: seq<string>, wave: int) {
    Inv(f, Rested(r), frontier, |r.pushes|, wave)
  }

  lemma AtWaveStart(f: Frame)
    requires WellFormed(f.c.ids, f.m0) && f.changed in f.m0 && UntouchedBut(f.m0, f.changed)
    ensures AtWave(f, Start(f.m0), [f.changed], 0)
  {
    var r := Start(f.m0);
    assert Replay(f.m0, r.pushes) == f.m0;
    assert forall x :: Moved(r.m, f.changed, x) ==> Pending(Rested(r), [f.changed], x);
  }

  /** Only the changed task may have been moved before the run. */
  ghost predicate UntouchedBut(m: Schedule, changed: string) {
    forall x :: x in m && x != changed ==> m[x].origin.None?
  }

  lemma WaveEnds(f: Frame, q: Run, ws: int, wave: int)
    requires Inv(f, q, [], ws, wave) && ws >= 0
    ensures AtWave(f, q, Distinct(q.next), wave + 1)
    ensures forall x :: x in Distinct(q.next) ==> LastPush(q.pushes, x) >= 0
  {
    hide Safe, Ordered, Anchored, Distinct, WellFormed, Replay, Journal;
    DistinctMeans(q.next);
    WaveEndMarks(q, ws, wave);
    WaveEndPending(f, q);
  }

  lemma WaveEndMarks(q: Run, ws: int, wave: int)
    requires Marked(q, ws, wave) && ws >= 0
    ensures Marked(Rested(q), |q.pushes|, wave + 1)
    ensures forall x :: x in q.next ==> LastPush(q.pushes, x) >= 0
  {
  }

  lemma WaveEndPending(f: Frame, q: Run)
    requires Safe(q, f.changed, []) && Ordered(q, f.changed, []) && Anchored(f.c, f.m0, f.changed, q, [])
    ensures var r, todo := Rested(q), Distinct(q.next);
            Safe(r, f.changed, todo) && Ordered(r, f.changed, todo) && Anchored(f.c, f.m0, f.changed, r, todo)
  {
    DistinctMeans(q.next);
    assert forall x :: Pending(q, [], x) <==> Pending(Rested(q), Distinct(q.next), x);
  }

  /** What a run from a wave on ends with. */
  ghost predicate EndsWell(f: Frame, z: Final) {
    && (!z.run.raised ==> AtWave(f, z.run, z.frontier, MAX_WAVES))
    && (Forward(f.c) ==> !z.run.raised)
    && (z.truncated ==> z.frontier != [])
    && (!z.run.raised ==> AllPushed(z.run, z.frontier))
  }

  ghost predicate AllPushed(r: Run, frontier: seq<string>) {
    forall x :: x in frontier ==> LastPush(r.pushes, x) >= 0
  }

  lemma AtWaveGrows(f: Frame, r: Run, frontier: seq<string>, wave: int)
    requires AtWave(f, r, frontier, wave) && wave <= MAX_WAVES
    ensures AtWave(f, r, frontier, MAX_WAVES)
  {
  }

  lemma OneWave(f: Frame, r: Run, frontier: seq<string>, wave: nat)
    requires AtWave(f, r, frontier, wave) && !r.raised
    ensures var w := Wave(f.c, r, frontier);
            && (!w.raised ==> AtWave(f, w, Distinct(w.next), wave + 1) && AllPushed(w, Distinct(w.next)))
            && (Forward(f.c) ==> !w.raised)
  {
    FrontierKeeps(f, Rested(r), frontier, |r.pushes|, wave);
    var w := Wave(f.c, r, frontier);
    if !w.raised { WaveEnds(f, w, |r.pushes|, wave); }
  }

  predicate Stops(r: Run, frontier: seq<string>, wave: nat) {
    wave >= MAX_WAVES || frontier == [] || r.raised || |r.pushes| > HARD_TASK_LIMIT
  }

  lemma WavesUnfold(c: Setup, r: Run, frontier: seq<string>, wave: nat, used: int)
    ensures var z := Waves(c, r, frontier, wave, used);
            var w := Wave(c, r, frontier);
            if Stops(r, frontier, wave) then z.run == r && z.frontier == frontier && (z.truncated ==> frontier != [])
            else if w.raised then z.run == w && !z.truncated
            else z == Waves(c, w, Distinct(w.next), wave + 1, wave + 1)
  {
  }

  /** The whole run keeps the invariant, and under a forward nudge no push is ever refused. */
  lemma {:induction false} RunKeeps(f: Frame, r: Run, frontier: seq<string>, wave: nat, used: int)
    requires Going(f, r, frontier, wave)
    ensures EndsWell(f, Waves(f.c, r, frontier, wave, used))
    decreases MAX_WAVES - wave
  {
    hide Inv, Waves;
    WavesUnfold(f.c, r, frontier, wave, used);
    if Stops(r, frontier, wave) {
      AtWaveGrows(f, r, frontier, wave);
    } else {
      OneWave(f, r, frontier, wave);
      var w := Wave(f.c, r, frontier);
      if !w.raised {
        assert Going(f, w, Distinct(w.next), wave + 1);
        RunKeeps(f, w, Distinct(w.next), wave + 1, wave + 1);
      }
    }
  }

  /** A run before wave `wave`, the first or a later one. */
  ghost predicate Going(f: Frame, r: Run, frontier: seq<string>, wave: int) {
    && AtWave(f, r, frontier, wave) && !r.raised && wave <= MAX_WAVES
    && (AllPushed(r, frontier) || (wave == 0 && frontier != [] && r.pushes == []))
  }

  lemma CascadeKeeps(f: Frame)
    requires WellFormed(f.c.ids, f.m0) && f.changed in f.m0 && UntouchedBut(f.m0, f.changed)
    ensures EndsWell(f, Cascaded(f.c, f.m0, f.changed))
  {
    AtWaveStart(f);
    RunKeeps(f, Start(f.m0), [f.changed], 0, 0);
  }

  // ---------- the theorems

  /** Safety: when a run converges, no task that was changed or pushed clashes with any task, so
      the check for overlaps finds none.  This holds for any nudge. */
  lemma ConvergedIsSafe(f: Frame)
    requires WellFormed(f.c.ids, f.m0) && f.changed in f.m0 && UntouchedBut(f.m0, f.changed)
    requires var z := Cascaded(f.c, f.m0, f.changed); !z.run.raised && z.frontier == []
    ensures var m := Cascaded(f.c, f.m0, f.changed).run.m;
            && (forall x, y :: Moved(m, f.changed, x) && y in m && x != y ==> !Clash(m[x], m[y]))
            && FindSameEqOverlap(f.c.ids, m) == None
  {
    hide Cascaded, WellFormed, FindSameEqOverlap, Marked, Recorded, Ordered, Anchored, Clash;
    CascadeKeeps(f);
    var z := Cascaded(f.c, f.m0, f.changed);
    NothingPending(f, z.run);
    FindOverlapMeans(f.c.ids, z.run.m);
  }

  lemma NothingPending(f: Frame, r: Run)
    requires Safe(Rested(r), f.changed, [])
    ensures forall x, y :: Moved(r.m, f.changed, x) && y in r.m && x != y ==> !Clash(r.m[x], r.m[y])
  {
    forall x, y | Moved(r.m, f.changed, x) && y in r.m && x != y ensures !Clash(r.m[x], r.m[y]) {
      assert !Pending(Rested(r), [], x) && !Pending(Rested(r), [], y);
    }
  }

  /** If all clashes of the input involve the changed task, a converged run leaves none at all. */
  lemma ConvergedIsClear(f: Frame)
    requires WellFormed(f.c.ids, f.m0) && f.changed in f.m0 && UntouchedBut(f.m0, f.changed)
    requires var z := Cascaded(f.c, f.m0, f.changed); !z.run.raised && z.frontier == []
    requires forall x, y :: x in f.m0 && y in f.m0 && x != y && Clash(f.m0[x], f.m0[y])
               ==> x == f.changed || y == f.changed
    ensures var m := Cascaded(f.c, f.m0, f.changed).run.m;
            forall x, y :: x in m && y in m && x != y ==> !Clash(m[x], m[y])
  {
    CascadeKeeps(f);
    ConvergedIsSafe(f);
    var r := Cascaded(f.c, f.m0, f.changed).run;
    var m := r.m;
    forall x, y | x in m && y in m && x != y ensures !Clash(m[x], m[y]) {
      if Moved(m, f.changed, x) {
      } else if Moved(m, f.changed, y) {
        assert !Clash(m[y], m[x]);
      } else {
        assert LastPush(r.pushes, x) < 0 && LastPush(r.pushes, y) < 0;
        assert m[x] == f.m0[x] && m[y] == f.m0[y];
      }
    }
  }

  /** Order: when a run converges, a successor of a changed or pushed task that starts before
      that task is over was pushed after that task's own last push.  In particular a successor
      that was never pushed starts late enough. */
  lemma ConvergedOrder(f: Frame, x: string, y: string)
    requires WellFormed(f.c.ids, f.m0) && f.changed in f.m0 && UntouchedBut(f.m0, f.changed)
    requires var z := Cascaded(f.c, f.m0, f.changed); !z.run.raised && z.frontier == []
    requires var m := Cascaded(f.c, f.m0, f.changed).run.m;
             Moved(m, f.changed, x) && y in m && x != y && Follows(m[x], m[y])
    ensures var r := Cascaded(f.c, f.m0, f.changed).run;
            r.m[x].end <= r.m[y].start || LastPush(r.pushes, x) < LastPush(r.pushes, y)
  {
    hide Cascaded, Told, Marked, Recorded, Safe, Anchored, Follows;
    CascadeKeeps(f);
    assert !Pending(Rested(Cascaded(f.c, f.m0, f.changed).run), [], x);
  }

  /** Anchoring: if nobody on its order line was over before the changed task began, that task
      is never moved; every pushed task starts at or after its end, and so does every successor. */
  lemma ChangedTaskStays(f: Frame)
    requires WellFormed(f.c.ids, f.m0) && UntouchedBut(f.m0, f.changed) && Anchor(f.c, f.m0, f.changed)
    ensures var r := Cascaded(f.c, f.m0, f.changed).run;
            && !r.raised && f.changed in r.m && r.m[f.changed] == f.m0[f.changed]
            && (forall x :: x in r.m && LastPush(r.pushes, x) >= 0 ==> f.m0[f.changed].end <= r.m[x].start)
            && (forall y :: y in f.m0 && y in r.m && y != f.changed && Follows(f.m0[f.changed], f.m0[y]) ==>
                  f.m0[f.changed].end <= r.m[y].start)
  {
    CascadeKeeps(f);
    var z := Cascaded(f.c, f.m0, f.changed);
    ChangedNotPending(f, Rested(z.run), z.frontier);
    forall y | y in z.run.m && y != f.changed && Follows(f.m0[f.changed], f.m0[y])
      ensures f.m0[f.changed].end <= z.run.m[y].start
    {
      SuccessorStaysBehind(f, Rested(z.run), z.frontier, y);
    }
  }

  lemma ChangedNotPending(f: Frame, r: Run, todo: seq<string>)
    requires Anchored(f.c, f.m0, f.changed, r, todo) && Anchor(f.c, f.m0, f.changed)
    requires r.next == [] && AllPushed(r, todo)
    ensures !Pending(r, todo, f.changed)
  {
  }

  lemma SuccessorStaysBehind(f: Frame, r: Run, todo: seq<string>, y: string)
    requires Recorded(f.m0, r) && Ordered(r, f.changed, todo) && Anchored(f.c, f.m0, f.changed, r, todo)
    requires Anchor(f.c, f.m0, f.changed) && !Pending(r, todo, f.changed)
    requires y in r.m && y != f.changed && Follows(f.m0[f.changed], f.m0[y])
    ensures f.m0[f.changed].end <= r.m[y].start
  {
    assert Moved(r.m, f.changed, f.changed) && Follows(r.m[f.changed], r.m[y]);
  }

  /** Book-keeping: the journal replayed on the input is the result, every entry is true of the
      schedule it met, and no task is pushed more often than there are waves. */
  lemma JournalIsExact(f: Frame)
    requires WellFormed(f.c.ids, f.m0) && f.changed in f.m0 && UntouchedBut(f.m0, f.changed)
    requires !Cascaded(f.c, f.m0, f.changed).run.raised
    ensures var r := Cascaded(f.c, f.m0, f.changed).run;
            && Replay(f.m0, r.pushes) == r.m && Journal(f.c, f.m0, r.pushes)
            && Recorded(f.m0, r)
            && (forall x :: CountOf(r.count, x) == TimesPushed(r.pushes, x) <= MAX_WAVES)
  {
    CascadeKeeps(f);
  }

  /** Entry by entry. */
  lemma {:induction false} EntryIsTrue(c: Setup, m: Schedule, p: seq<Push>, i: nat)
    requires Journal(c, m, p) && i < |p|
    ensures Truthful(c, Replay(m, p[..i]), p[i])
    decreases |p|
  {
    if i < |p| - 1 {
      EntryIsTrue(c, m, p[..|p| - 1], i);
      assert p[..|p| - 1][..i] == p[..i];
    }
  }
}
