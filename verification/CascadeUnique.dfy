/** The description of a cascade as waves of turns leaves nothing open. */
module CascadeUnique {
  import opened Orderings
  import opened Snapshot
  import opened SnapshotOrder
  import opened Cascade
  import opened CascadeTurns
  import opened CascadeWaves

  /** Equal but for the counters, which no step reads, or both failed. */
  ghost predicate Alike(a: Run, b: Run) {
    && a.raised == b.raised
    && (!a.raised ==> a.m == b.m && a.pushes == b.pushes && a.processed == b.processed && a.next == b.next)
  }

  lemma NotBothFirst(ids: seq<string>, r: Run, t: string, x: string, y: string)
    requires NoDuplicates(ids) && ComesFirst(ids, r, t, x, y)
    ensures !ComesFirst(ids, r, t, y, x)
  {
  }

  lemma QueueIsUnique(ids: seq<string>, r: Run, t: string, a: seq<string>, b: seq<string>)
    requires NoDuplicates(ids) && Queue(ids, r, t, a) && Queue(ids, r, t, b)
    ensures a == b
  {
    hide InTheWay, ComesFirst;
    var first := (x: string, y: string) => ComesFirst(ids, r, t, x, y);
    forall x, y | first(x, y) ensures !first(y, x) { NotBothFirst(ids, r, t, x, y); }
    SameAscending(a, b, first);
  }

  lemma MovesAreUnique(c: Setup, r1: Run, r2: Run, t: string, list: seq<string>, q1: Run, q2: Run)
    requires !r1.raised && Alike(r1, r2) && AllMoved(c, r1, t, list, q1) && AllMoved(c, r2, t, list, q2)
    ensures Alike(q1, q2)
  {
    hide At, CountOf;
    var n, a := |r1.pushes|, c.advance(r1.m[t].end);
    forall i | 0 <= i < |q1.pushes| ensures q1.pushes[i] == q2.pushes[i] {
      if i < n {
        assert q1.pushes[i] == q1.pushes[..n][i] && q2.pushes[i] == q2.pushes[..n][i];
      } else {
        var x := list[i - n];
        assert q1.pushes[n + (i - n)] == EntryFor(r1, t, x, a) && q2.pushes[n + (i - n)] == EntryFor(r2, t, x, a);
      }
    }
    assert forall x :: x in q1.processed <==> x in q2.processed;
  }

  lemma SameQueue(ids: seq<string>, r1: Run, r2: Run, t: string, list: seq<string>)
    requires !r1.raised && Alike(r1, r2) && Queue(ids, r2, t, list)
    ensures Queue(ids, r1, t, list)
  {
    hide Precedes, Clash, Follows;
    forall x ensures InTheWay(r1, t, x) <==> InTheWay(r2, t, x) {}
    forall i, j | 0 <= i < j < |list| ensures ComesFirst(ids, r1, t, list[i], list[j]) {
      assert ComesFirst(ids, r2, t, list[i], list[j]);
    }
  }

  /** From the same tasks, a turn can go one way only. */
  lemma TurnIsUnique(c: Setup, r1: Run, r2: Run, t: string, q1: Run, q2: Run)
    requires NoDuplicates(c.ids) && !r1.raised && Alike(r1, r2)
    requires Turn(c, r1, t, q1) && Turn(c, r2, t, q2)
    ensures Alike(q1, q2)
  {
    hide Queue, AllMoved;
    var a :| Queue(c.ids, r1, t, a) && TurnOver(c, r1, t, a, q1);
    var b :| Queue(c.ids, r2, t, b) && TurnOver(c, r2, t, b, q2);
    SameQueue(c.ids, r1, r2, t, b);
    QueueIsUnique(c.ids, r1, t, a, b);
    assert Refused(c, r1, t, a) <==> Refused(c, r2, t, a);
    if !q2.raised { MovesAreUnique(c, r1, r2, t, a, q1, q2); }
  }

  lemma {:induction false} RowsAgree(c: Setup, frontier: seq<string>, s1: seq<Run>, s2: seq<Run>, j: nat)
    requires NoDuplicates(c.ids) && RowOfTurns(c, frontier, s1) && RowOfTurns(c, frontier, s2) && Alike(s1[0], s2[0])
    requires j < |s1|
    ensures j < |s2| && Alike(s1[j], s2[j])
  {
    hide Turn;
    if j > 0 {
      assert TurnAt(c, frontier, s1, j - 1);
      RowsAgree(c, frontier, s1, s2, j - 1);
      assert TurnAt(c, frontier, s2, j - 1);
      TurnIsUnique(c, s1[j - 1], s2[j - 1], frontier[j - 1], s1[j], s2[j]);
    }
  }

  lemma RowIsUnique(c: Setup, frontier: seq<string>, s1: seq<Run>, s2: seq<Run>)
    requires NoDuplicates(c.ids) && RowOfTurns(c, frontier, s1) && RowOfTurns(c, frontier, s2) && Alike(s1[0], s2[0])
    ensures |s1| == |s2| && Alike(s1[|s1| - 1], s2[|s2| - 1])
  {
    hide TurnAt, Alike;
    assert Alike(s2[0], s1[0]) by { AlikeBack(s1[0], s2[0]); }
    RowsAgree(c, frontier, s1, s2, |s1| - 1);
    RowsAgree(c, frontier, s2, s1, |s2| - 1);
  }

  lemma AlikeBack(a: Run, b: Run)
    requires Alike(a, b)
    ensures Alike(b, a)
  {
  }

  lemma WavesAgree(c: Setup, first: seq<string>, wave: nat, a: seq<Run>, b: seq<Run>, k: nat)
    requires NoDuplicates(c.ids) && WaveAt(c, first, wave, a, k) && WaveAt(c, first, wave, b, k) && Alike(a[k], b[k])
    ensures Alike(a[k + 1], b[k + 1])
  {
    hide TurnAt;
    var front := FrontierOf(first, a, k);
    var s1 :| RowOfTurns(c, front, s1) && s1[0] == a[k].(processed := {}, next := []) && s1[|s1| - 1] == a[k + 1];
    var s2 :| RowOfTurns(c, front, s2) && s2[0] == b[k].(processed := {}, next := []) && s2[|s2| - 1] == b[k + 1];
    RowIsUnique(c, front, s1, s2);
  }

  /** A run that goes on with a wave cannot be over for another that is alike. */
  lemma GoesOn(c: Setup, first: seq<string>, a: seq<Run>, y: Final, b: seq<Run>, z: Final, k: nat)
    requires RowOfWaves(c, first, 0, a, y) && RowOfWaves(c, first, 0, b, z) && a[0] == b[0]
    requires k + 1 < |a| && k < |b| && Alike(a[k], b[k])
    ensures WaveAt(c, first, 0, a, k) && WaveAt(c, first, 0, b, k)
  {
    hide RowOfTurns;
    assert WaveAt(c, first, 0, a, k);
    assert FrontierOf(first, a, k) == FrontierOf(first, b, k);
  }

  lemma {:induction false} RunsAgree(c: Setup, first: seq<string>, a: seq<Run>, y: Final, b: seq<Run>, z: Final, k: nat)
    requires NoDuplicates(c.ids) && RowOfWaves(c, first, 0, a, y) && RowOfWaves(c, first, 0, b, z) && a[0] == b[0]
    requires k < |a|
    ensures k < |b| && Alike(a[k], b[k])
  {
    hide NoDuplicates, Alike;
    if k > 0 {
      RunsAgree(c, first, a, y, b, z, k - 1);
      GoesOn(c, first, a, y, b, z, k - 1);
      WavesAgree(c, first, 0, a, b, k - 1);
      AtWave(c, first, b, k - 1);
    } else {
      assert Alike(a[0], b[0]) by { AlikeSelf(a[0]); }
    }
  }

  lemma AtWave(c: Setup, first: seq<string>, b: seq<Run>, k: nat)
    requires WaveAt(c, first, 0, b, k)
    ensures k + 1 < |b|
  {
  }

  lemma AlikeSelf(a: Run)
    ensures Alike(a, a)
  {
  }

  /** Two runs that are rows of waves of turns from the same tasks agree in everything: the tasks, the
      journal, what is left to look at, the number of waves, and whether they were cut off or failed. */
  lemma RunIsUnique(c: Setup, first: seq<string>, a: seq<Run>, y: Final, b: seq<Run>, z: Final)
    requires NoDuplicates(c.ids) && RowOfWaves(c, first, 0, a, y) && RowOfWaves(c, first, 0, b, z) && a[0] == b[0]
    ensures Alike(y.run, z.run) && y.wavesUsed == z.wavesUsed && y.truncated == z.truncated
    ensures !y.run.raised ==> y.frontier == z.frontier
  {
    hide WaveAt;
    RunsAgree(c, first, a, y, b, z, |a| - 1);
    RunsAgree(c, first, b, z, a, y, |b| - 1);
  }
}
