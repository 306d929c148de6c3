/** A whole run of a cascade as waves of turns, what ends it, and what caused each of its pushes. */
module CascadeWaves {
  import opened Snapshot
  import opened Cascade
  import opened CascadeInvariant
  import opened CascadeLaws
  import opened CascadeTurns

  // ---------- a wave is a row of turns

  /** The tasks of a frontier have their turns one after the other, up to one that fails. */
  ghost predicate RowOfTurns(c: Setup, frontier: seq<string>, steps: seq<Run>) {
    && 1 <= |steps| <= |frontier| + 1
    && (forall j :: 0 <= j < |steps| - 1 ==> TurnAt(c, frontier, steps, j))
    && (steps[|steps| - 1].raised || |steps| == |frontier| + 1)
  }

  ghost predicate TurnAt(c: Setup, frontier: seq<string>, steps: seq<Run>, j: nat) {
    && j + 1 < |steps| && j < |frontier|
    && !steps[j].raised && Turn(c, steps[j], frontier[j], steps[j + 1])
  }

  /** Within a wave: what was pushed is what comes next, each once. */
  ghost predicate InWave(c: Setup, r: Run) {
    && WellFormed(c.ids, r.m) && NoDuplicates(r.next)
    && (forall x :: x in r.processed <==> x in r.next) && (forall x :: x in r.next ==> x in r.m)
  }

  lemma TurnKeepsWave(c: Setup, r: Run, t: string, q: Run)
    requires InWave(c, r) && Turn(c, r, t, q) && !q.raised
    ensures InWave(c, q) && q.m.Keys == r.m.Keys
  {
    hide ComesFirst, MovesTold, Refused, Clash, Follows;
    var list :| Queue(c.ids, r, t, list) && TurnOver(c, r, t, list, q);
    forall x | x in list ensures x in r.m && x !in r.processed { assert InTheWay(r, t, x); }
    NextDistinct(r.next, list);
  }

  lemma NextDistinct(a: seq<string>, b: seq<string>)
    requires NoDuplicates(a) && NoDuplicates(b) && forall x :: x in b ==> x !in a
    ensures NoDuplicates(a + b)
  {
    forall i, j | 0 <= i < j < |a + b| ensures (a + b)[i] != (a + b)[j] {
      if i < |a| <= j { assert b[j - |a|] in b; }
    }
  }

  lemma {:induction false} FrontierIsRow(c: Setup, r: Run, frontier: seq<string>)
    requires InWave(c, r) && !r.raised && forall x :: x in frontier ==> x in r.m
    ensures exists steps ::
              steps != [] && RowOfTurns(c, frontier, steps) && steps[0] == r
              && steps[|steps| - 1] == ProcessAll(c, r, frontier)
    ensures var q := ProcessAll(c, r, frontier); !q.raised ==> InWave(c, q) && q.m.Keys == r.m.Keys
    decreases |frontier|
  {
    hide InWave, Turn, ProcessTask, WellFormed, RowOfTurns;
    var end := ProcessAll(c, r, frontier);
    if frontier == [] {
      RowIsOver(c, frontier, r);
    } else {
      var t, q := frontier[0], ProcessTask(c, r, frontier[0]);
      assert t in frontier;
      StartOfTurn(c, r);
      TurnIsOneMove(c, r, t);
      if q.raised {
        assert ProcessAll(c, q, frontier[1..]) == q;
        RowFails(c, r, frontier, q);
      } else {
        TurnKeepsWave(c, r, t, q);
        FrontierIsRow(c, q, frontier[1..]);
        var rest :| rest != [] && RowOfTurns(c, frontier[1..], rest) && rest[0] == q && rest[|rest| - 1] == end;
        RowGrows(c, r, frontier, rest);
      }
    }
  }

  lemma StartOfTurn(c: Setup, r: Run)
    requires InWave(c, r)
    ensures WellFormed(c.ids, r.m)
  {
  }

  lemma RowIsOver(c: Setup, frontier: seq<string>, r: Run)
    requires frontier == []
    ensures RowOfTurns(c, frontier, [r])
  {
  }

  lemma RowFails(c: Setup, r: Run, frontier: seq<string>, q: Run)
    requires frontier != [] && !r.raised && q.raised && Turn(c, r, frontier[0], q)
    ensures RowOfTurns(c, frontier, [r, q])
  {
    hide Turn;
    assert TurnAt(c, frontier, [r, q], 0);
  }

  lemma RowGrows(c: Setup, r: Run, frontier: seq<string>, rest: seq<Run>)
    requires frontier != [] && RowOfTurns(c, frontier[1..], rest) && !r.raised && Turn(c, r, frontier[0], rest[0])
    ensures RowOfTurns(c, frontier, [r] + rest)
  {
    hide Turn;
    var steps := [r] + rest;
    forall j | 0 <= j < |steps| - 1 ensures TurnAt(c, frontier, steps, j) {
      if j > 0 { assert TurnAt(c, frontier[1..], rest, j - 1) && steps[j] == rest[j - 1] && steps[j + 1] == rest[j]; }
    }
  }

  // ---------- a run is a row of waves

  /** The frontier of wave `k`: the changed task, then whatever the wave before pushed. */
  ghost function FrontierOf(first: seq<string>, runs: seq<Run>, k: nat): seq<string>
    requires k < |runs|
  {
    if k == 0 then first else runs[k].next
  }

  /** Wave number `wave + k` leads from one run to the next. */
  ghost predicate WaveAt(c: Setup, first: seq<string>, wave: nat, runs: seq<Run>, k: nat) {
    && k + 1 < |runs|
    && wave + k < 4 && FrontierOf(first, runs, k) != [] && |runs[k].pushes| <= 500 && !runs[k].raised
    && exists steps ::
         RowOfTurns(c, FrontierOf(first, runs, k), steps)
         && steps[0] == runs[k].(processed := {}, next := []) && steps[|steps| - 1] == runs[k + 1]
  }

  /** The waves of a run, and how it ends: with a refused push, nothing left to look at, four waves,
      or more than 500 pushes.  It counts as cut off if something is left after fewer than four. */
  ghost predicate RowOfWaves(c: Setup, first: seq<string>, wave: nat, runs: seq<Run>, z: Final) {
    && 1 <= |runs| && (forall k :: 0 <= k < |runs| - 1 ==> WaveAt(c, first, wave, runs, k))
    && var n := |runs| - 1;
    && z.run == runs[n] && z.wavesUsed == wave + n <= 4
    && if z.run.raised then !z.truncated
       else
         && z.frontier == FrontierOf(first, runs, n)
         && (z.frontier == [] || z.wavesUsed == 4 || |z.run.pushes| > 500)
         && (z.truncated <==> z.frontier != [] && z.wavesUsed < 4)
  }

  lemma WaveStarts(c: Setup, r: Run)
    requires WellFormed(c.ids, r.m)
    ensures InWave(c, Rested(r))
  {
  }

  lemma WaveLeaves(c: Setup, q: Run)
    requires InWave(c, q)
    ensures WellFormed(c.ids, q.m) && Distinct(q.next) == q.next && forall x :: x in q.next ==> x in q.m
  {
    DistinctMeans(q.next);
  }

  lemma RunStops(c: Setup, r: Run, frontier: seq<string>, wave: nat)
    requires Stops(r, frontier, wave) && !r.raised && wave <= 4
    ensures RowOfWaves(c, frontier, wave, [r], Waves(c, r, frontier, wave, wave))
  {
  }

  lemma RunGrows(c: Setup, r: Run, frontier: seq<string>, wave: nat, rest: seq<Run>, z: Final)
    requires !Stops(r, frontier, wave) && rest != []
    requires exists steps ::
               RowOfTurns(c, frontier, steps) && steps[0] == Rested(r) && steps[|steps| - 1] == rest[0]
    requires RowOfWaves(c, rest[0].next, wave + 1, rest, z)
    ensures RowOfWaves(c, frontier, wave, [r] + rest, z)
  {
    hide RowOfTurns;
    var runs := [r] + rest;
    forall k | 0 <= k < |runs| - 1 ensures WaveAt(c, frontier, wave, runs, k) {
      if k > 0 {
        assert WaveAt(c, rest[0].next, wave + 1, rest, k - 1);
        assert runs[k] == rest[k - 1] && runs[k + 1] == rest[k];
        assert FrontierOf(frontier, runs, k) == FrontierOf(rest[0].next, rest, k - 1);
      }
    }
  }

  lemma {:induction false} WavesAreRow(c: Setup, r: Run, frontier: seq<string>, wave: nat)
    requires WellFormed(c.ids, r.m) && !r.raised && wave <= 4 && forall x :: x in frontier ==> x in r.m
    ensures exists runs ::
              runs != [] && runs[0] == r && RowOfWaves(c, frontier, wave, runs, Waves(c, r, frontier, wave, wave))
    decreases 4 - wave
  {
    hide InWave, RowOfTurns, Waves, RowOfWaves, WellFormed, ProcessAll, Distinct;
    WavesUnfold(c, r, frontier, wave, wave);
    var z := Waves(c, r, frontier, wave, wave);
    if Stops(r, frontier, wave) {
      RunStops(c, r, frontier, wave);
    } else {
      WaveStarts(c, r);
      FrontierIsRow(c, Rested(r), frontier);
      var w := Wave(c, r, frontier);
      if w.raised {
        RunFails(c, r, frontier, wave);
        RunGrows(c, r, frontier, wave, [w], z);
        assert ([r] + [w])[0] == r;
      } else {
        WaveLeaves(c, w);
        assert z == Waves(c, w, w.next, wave + 1, wave + 1);
        WavesAreRow(c, w, w.next, wave + 1);
        var rest :| rest != [] && rest[0] == w && RowOfWaves(c, w.next, wave + 1, rest, z);
        RunGrows(c, r, frontier, wave, rest, z);
        assert ([r] + rest)[0] == r;
      }
    }
  }

  lemma RunFails(c: Setup, r: Run, frontier: seq<string>, wave: nat)
    requires !Stops(r, frontier, wave) && Wave(c, r, frontier).raised
    ensures var w := Wave(c, r, frontier);
            RowOfWaves(c, w.next, wave + 1, [w], Waves(c, r, frontier, wave, wave))
  {
  }

  /** A run is a row of waves, a wave a row of turns, a turn one move: no more waves than four, none
      after 500 pushes, and none when the wave before pushed nothing. */
  lemma RunIsWaves(f: Frame)
    requires WellFormed(f.c.ids, f.m0) && f.changed in f.m0
    ensures exists runs ::
              runs != [] && runs[0] == Start(f.m0)
              && RowOfWaves(f.c, [f.changed], 0, runs, Cascaded(f.c, f.m0, f.changed))
  {
    WavesAreRow(f.c, Start(f.m0), [f.changed], 0);
  }
}
