/** Which successors of a moved task a converged cascade may leave too early. */
module CascadeOrder {
  import opened Snapshot
  import opened Cascade
  import opened CascadeInvariant
  import opened CascadeLaws

  // ---------- what each task of a frontier finds

  /** For each task that had a turn: the tasks already pushed in that wave when its last turn came. */
  type Turns = map<string, set<string>>

  ghost function TurnsOfWave(c: Setup, r: Run, frontier: seq<string>, turns: Turns): Turns
    decreases |frontier|
  {
    if frontier == [] || r.raised then turns
    else TurnsOfWave(c, ProcessTask(c, r, frontier[0]), frontier[1..], turns[frontier[0] := r.processed])
  }

  ghost function TurnsFrom(c: Setup, r: Run, frontier: seq<string>, wave: nat, turns: Turns): Turns
    decreases MAX_WAVES - wave, frontier, r
  {
    if Stops(r, frontier, wave) then turns
    else
      var w, t := Wave(c, r, frontier), TurnsOfWave(c, Rested(r), frontier, turns);
      if w.raised then t else TurnsFrom(c, w, Distinct(w.next), wave + 1, t)
  }

  /** The last turns of a whole run. */
  ghost function LastTurns(c: Setup, m0: Schedule, changed: string): Turns {
    TurnsFrom(c, Start(m0), [changed], 0, map[])
  }

  ghost predicate Found(turns: Turns, x: string, y: string) { x in turns && y in turns[x] }

  /** A successor that starts before a moved task is over was found pushed already at that task's
      last turn, or the task is still to be looked at. */
  ghost predicate OrderKept(r: Run, changed: string, todo: seq<string>, turns: Turns) {
    forall x, y :: Moved(r.m, changed, x) && y in r.m && x != y && Follows(r.m[x], r.m[y])
      ==> r.m[x].end <= r.m[y].start || Pending(r, todo, x) || Found(turns, x, y)
  }

  // ---------- the turn of one task

  /** Tasks pushed since the turn of `t` began start once it is over; `found` were pushed before. */
  ghost predicate InTurn(r: Run, t: string, found: set<string>) {
    && t in r.m && (forall s :: s in r.next ==> s in r.m)
    && forall s :: s in r.processed && s !in found ==> s in r.m && r.m[t].end <= r.m[s].start
  }

  /** A push of `n` from before the end of `t` to that end or later. */
  ghost predicate Delays(r: Run, q: Run, t: string, n: string) {
    && t in r.m && n != t && n !in r.processed && IsPush(r, q, n)
    && r.m[n].start < r.m[t].end <= q.m[n].start
  }

  lemma DelayKeepsOrder(r: Run, q: Run, t: string, n: string, changed: string, todo: seq<string>, turns: Turns)
    requires Delays(r, q, t, n) && OrderKept(r, changed, todo, turns)
    ensures OrderKept(q, changed, todo, turns)
  {
    hide LastPush, TimesPushed;
    forall x, y | Moved(q.m, changed, x) && y in q.m && x != y && Follows(q.m[x], q.m[y])
      ensures q.m[x].end <= q.m[y].start || Pending(q, todo, x) || Found(turns, x, y)
    {
      if x != n { assert Moved(r.m, changed, x) && Follows(r.m[x], r.m[y]); }
    }
  }

  lemma DelayKeepsTurn(r: Run, q: Run, t: string, n: string, found: set<string>)
    requires Delays(r, q, t, n) && InTurn(r, t, found)
    ensures InTurn(q, t, found) && q.m[t] == r.m[t]
  {
    hide LastPush, TimesPushed;
  }

  lemma PushDelays(c: Setup, r: Run, t: string, n: string, reason: PushReason)
    requires Forward(c) && WellFormed(c.ids, r.m) && t in r.m && n in r.m && n != t && n !in r.processed
    requires r.m[n].start < r.m[t].end
    ensures var q := PushTo(c, r, n, r.m[t].end, reason);
            !q.raised && Delays(r, q, t, n) && WellFormed(c.ids, q.m)
  {
    hide LastPush, TimesPushed;
    var q := PushTo(c, r, n, r.m[t].end, reason);
    assert r.m[t].end <= c.advance(r.m[t].end);
    PushIs(c, r, n, r.m[t].end, reason);
    UpdateWellFormed(c.ids, r.m, n, q.m[n]);
  }

  /** The loop over what overlaps `t`. */
  lemma {:induction false} OverlapsKeepOrder(c: Setup, r: Run, t: string, list: seq<string>, changed: string,
                                             todo: seq<string>, turns: Turns, found: set<string>)
    requires Forward(c) && WellFormed(c.ids, r.m) && !r.raised
    requires OrderKept(r, changed, todo, turns) && InTurn(r, t, found)
    requires NoDuplicates(list) && t !in list
    requires forall x :: x in list ==> x in r.m && (x !in r.processed ==> r.m[x].start < r.m[t].end)
    ensures var q := PushOverlapping(c, r, t, list);
            && !q.raised && WellFormed(c.ids, q.m) && OrderKept(q, changed, todo, turns) && InTurn(q, t, found)
            && q.m.Keys == r.m.Keys
    decreases |list|
  {
    hide OrderKept, InTurn, Delays, IsPush, PushTo, WellFormed;
    if list != [] {
      var n, q := list[0], OverlapStep(c, r, t, list[0]);
      OneOverlap(c, r, t, list, changed, todo, turns, found);
      OverlapsKeepOrder(c, q, t, list[1..], changed, todo, turns, found);
    }
  }

  lemma OneOverlap(c: Setup, r: Run, t: string, list: seq<string>, changed: string, todo: seq<string>, turns: Turns,
                   found: set<string>)
    requires Forward(c) && WellFormed(c.ids, r.m) && !r.raised && list != []
    requires OrderKept(r, changed, todo, turns) && InTurn(r, t, found)
    requires NoDuplicates(list) && t !in list
    requires forall x :: x in list ==> x in r.m && (x !in r.processed ==> r.m[x].start < r.m[t].end)
    ensures var q := OverlapStep(c, r, t, list[0]);
            && !q.raised && WellFormed(c.ids, q.m) && OrderKept(q, changed, todo, turns) && InTurn(q, t, found)
            && q.m.Keys == r.m.Keys && NoDuplicates(list[1..]) && t !in list[1..]
            && forall x :: x in list[1..] ==> x in q.m && (x !in q.processed ==> q.m[x].start < q.m[t].end)
  {
    hide OrderKept, LastPush, TimesPushed, WellFormed;
    var n, q := list[0], OverlapStep(c, r, t, list[0]);
    assert n in list && forall x :: x in list[1..] ==> x in list && x != n;
    if n !in r.processed {
      PrevNeverWins(c.ids, r.m, r.m[n], r.m[t].end);
      PushDelays(c, r, t, n, SameEquipmentConflict);
      DelayKeepsOrder(r, q, t, n, changed, todo, turns);
      DelayKeepsTurn(r, q, t, n, found);
    }
  }

  /** The successors of `t` are on the list, late enough, or were found pushed already. */
  ghost predicate Cared(r: Run, t: string, list: seq<string>, found: set<string>) {
    && t in r.m
    && forall y :: y in r.m && y != t && Follows(r.m[t], r.m[y]) ==>
         y in list || r.m[t].end <= r.m[y].start || y in found
  }

  lemma OneSuccessor(c: Setup, r: Run, t: string, list: seq<string>, changed: string, todo: seq<string>, turns: Turns,
                     found: set<string>)
    requires Forward(c) && WellFormed(c.ids, r.m) && !r.raised && list != []
    requires OrderKept(r, changed, todo, turns) && InTurn(r, t, found) && Cared(r, t, list, found)
    requires NoDuplicates(list) && t !in list && forall x :: x in list ==> x in r.m
    ensures var q := SuccessorStep(c, r, t, list[0]);
            && !q.raised && WellFormed(c.ids, q.m) && OrderKept(q, changed, todo, turns) && InTurn(q, t, found)
            && Cared(q, t, list[1..], found)
            && NoDuplicates(list[1..]) && t !in list[1..] && forall x :: x in list[1..] ==> x in q.m
  {
    hide OrderKept, LastPush, TimesPushed, WellFormed;
    var n, q := list[0], SuccessorStep(c, r, t, list[0]);
    assert n in list && forall x :: x in list[1..] ==> x in list;
    assert forall x :: x in list && x != n ==> x in list[1..];
    PrevNeverWins(c.ids, r.m, r.m[n], r.m[t].end);
    if n !in r.processed && r.m[n].start < r.m[t].end {
      PushDelays(c, r, t, n, SuccessorChain);
      DelayKeepsOrder(r, q, t, n, changed, todo, turns);
      DelayKeepsTurn(r, q, t, n, found);
      DelayCares(r, q, t, n, list, found);
    }
  }

  lemma DelayCares(r: Run, q: Run, t: string, n: string, list: seq<string>, found: set<string>)
    requires Delays(r, q, t, n) && Cared(r, t, list, found) && list != [] && n == list[0]
    ensures Cared(q, t, list[1..], found)
  {
    hide LastPush, TimesPushed;
    forall y | y in q.m && y != t && Follows(q.m[t], q.m[y])
      ensures y in list[1..] || q.m[t].end <= q.m[y].start || y in found
    {
      if y != n { assert Follows(r.m[t], r.m[y]) && (y in list ==> y in list[1..]); }
    }
  }

  /** The loop over the successors of `t`. */
  lemma {:induction false} SuccessorsKeepOrder(c: Setup, r: Run, t: string, list: seq<string>, changed: string,
                                               todo: seq<string>, turns: Turns, found: set<string>)
    requires Forward(c) && WellFormed(c.ids, r.m) && !r.raised
    requires OrderKept(r, changed, todo, turns) && InTurn(r, t, found) && Cared(r, t, list, found)
    requires NoDuplicates(list) && t !in list && forall x :: x in list ==> x in r.m
    ensures var q := PushSuccessors(c, r, t, list);
            && !q.raised && WellFormed(c.ids, q.m) && OrderKept(q, changed, todo, turns) && InTurn(q, t, found)
            && Cared(q, t, [], found)
    decreases |list|
  {
    hide OrderKept, InTurn, Cared, IsPush, PushTo, WellFormed;
    if list != [] {
      OneSuccessor(c, r, t, list, changed, todo, turns, found);
      SuccessorsKeepOrder(c, SuccessorStep(c, r, t, list[0]), t, list[1..], changed, todo, turns, found);
    }
  }

  lemma AtTurn(r: Run, changed: string, todo: seq<string>, turns: Turns)
    requires todo != [] && OrderKept(r, changed, todo, turns)
    ensures OrderKept(r, changed, todo, turns[todo[0] := r.processed])
  {
    var more := turns[todo[0] := r.processed];
    forall x, y | Moved(r.m, changed, x) && y in r.m && x != y && Follows(r.m[x], r.m[y])
      ensures r.m[x].end <= r.m[y].start || Pending(r, todo, x) || Found(more, x, y)
    {
      if x == todo[0] { assert Pending(r, todo, x); } else { assert Found(more, x, y) <==> Found(turns, x, y); }
    }
  }

  lemma AfterTurn(r: Run, changed: string, todo: seq<string>, turns: Turns, found: set<string>)
    requires todo != [] && OrderKept(r, changed, todo, turns) && Cared(r, todo[0], [], found)
    requires todo[0] in turns && turns[todo[0]] == found
    ensures OrderKept(r, changed, todo[1..], turns)
  {
    forall x, y | Moved(r.m, changed, x) && y in r.m && x != y && Follows(r.m[x], r.m[y])
      ensures r.m[x].end <= r.m[y].start || Pending(r, todo[1..], x) || Found(turns, x, y)
    {
      if x != todo[0] { assert Pending(r, todo, x) ==> Pending(r, todo[1..], x); }
    }
  }

  /** Where a wave stands. */
  ghost predicate MidWave(c: Setup, r: Run, changed: string, todo: seq<string>, turns: Turns) {
    && WellFormed(c.ids, r.m) && !r.raised && OrderKept(r, changed, todo, turns)
    && (forall x :: x in todo ==> x in r.m) && (forall x :: x in r.next ==> x in r.m)
  }

  lemma OneTurn(c: Setup, r: Run, changed: string, todo: seq<string>, turns: Turns)
    requires Forward(c) && MidWave(c, r, changed, todo, turns) && todo != []
    ensures MidWave(c, ProcessTask(c, r, todo[0]), changed, todo[1..], turns[todo[0] := r.processed])
  {
    hide OrderKept, Cared, Follows, Clash;
    var t, found := todo[0], r.processed;
    var turn := turns[t := found];
    AtTurn(r, changed, todo, turns);
    ListsOfTask(c.ids, r.m, t);
    ClashesAreEarly(c, r, t);
    OverlapsKeepOrder(c, r, t, SameEquipmentOverlapping(c.ids, r.m, r.m[t]), changed, todo, turn, found);
    var r1 := AfterOverlaps(c, r, t);
    ListsOfTask(c.ids, r1.m, t);
    AllCared(c, r1, t, found);
    SuccessorsKeepOrder(c, r1, t, SuccessorsByOriginalOrder(c.ids, r1.m, r1.m[t]), changed, todo, turn, found);
    AfterTurn(ProcessTask(c, r, t), changed, todo, turn, found);
  }

  lemma ClashesAreEarly(c: Setup, r: Run, t: string)
    requires WellFormed(c.ids, r.m) && t in r.m
    ensures forall x :: x in SameEquipmentOverlapping(c.ids, r.m, r.m[t]) ==> x in r.m && r.m[x].start < r.m[t].end
  {
    ListsOfTask(c.ids, r.m, t);
  }

  lemma AllCared(c: Setup, r: Run, t: string, found: set<string>)
    requires WellFormed(c.ids, r.m) && t in r.m
    ensures Cared(r, t, SuccessorsByOriginalOrder(c.ids, r.m, r.m[t]), found)
  {
    ListsOfTask(c.ids, r.m, t);
  }

  lemma {:induction false} WaveKeepsOrder(c: Setup, r: Run, changed: string, frontier: seq<string>, turns: Turns)
    requires Forward(c) && MidWave(c, r, changed, frontier, turns)
    ensures MidWave(c, ProcessAll(c, r, frontier), changed, [], TurnsOfWave(c, r, frontier, turns))
    decreases |frontier|
  {
    hide MidWave, ProcessTask;
    if frontier != [] {
      NotRaised(c, r, changed, frontier, turns);
      OneTurn(c, r, changed, frontier, turns);
      WaveKeepsOrder(c, ProcessTask(c, r, frontier[0]), changed, frontier[1..], turns[frontier[0] := r.processed]);
    } else {
      assert frontier == [];
    }
  }

  lemma NotRaised(c: Setup, r: Run, changed: string, todo: seq<string>, turns: Turns)
    requires MidWave(c, r, changed, todo, turns)
    ensures !r.raised
  {
  }

  /** What was pushed in a wave is looked at in the next. */
  lemma NextWave(c: Setup, r: Run, changed: string, turns: Turns)
    requires MidWave(c, r, changed, [], turns)
    ensures MidWave(c, Rested(r), changed, Distinct(r.next), turns)
  {
    hide Follows;
    DistinctMeans(r.next);
    var q, todo := Rested(r), Distinct(r.next);
    forall x, y | Moved(q.m, changed, x) && y in q.m && x != y && Follows(q.m[x], q.m[y])
      ensures q.m[x].end <= q.m[y].start || Pending(q, todo, x) || Found(turns, x, y)
    {
      assert Moved(r.m, changed, x) && (Pending(r, [], x) ==> Pending(q, todo, x));
    }
  }

  lemma {:induction false} RunKeepsOrder(c: Setup, r: Run, changed: string, frontier: seq<string>, wave: nat,
                                         used: int, turns: Turns)
    requires Forward(c) && MidWave(c, Rested(r), changed, frontier, turns) && wave <= MAX_WAVES
    ensures var z := Waves(c, r, frontier, wave, used);
            MidWave(c, Rested(z.run), changed, z.frontier, TurnsFrom(c, r, frontier, wave, turns))
    decreases MAX_WAVES - wave
  {
    hide MidWave, Waves, ProcessAll, TurnsOfWave;
    WavesUnfold(c, r, frontier, wave, used);
    if !Stops(r, frontier, wave) {
      var w, t := Wave(c, r, frontier), TurnsOfWave(c, Rested(r), frontier, turns);
      WaveKeepsOrder(c, Rested(r), changed, frontier, turns);
      NotRaised(c, w, changed, [], t);
      NextWave(c, w, changed, t);
      RestedAgain(w);
      RunKeepsOrder(c, w, changed, Distinct(w.next), wave + 1, wave + 1, t);
    }
  }

  lemma RestedAgain(r: Run)
    ensures Rested(Rested(r)) == Rested(r)
  {
  }

  lemma RunBegins(f: Frame)
    requires WellFormed(f.c.ids, f.m0) && f.changed in f.m0 && UntouchedBut(f.m0, f.changed)
    ensures MidWave(f.c, Rested(Start(f.m0)), f.changed, [f.changed], map[])
  {
    assert forall x :: Moved(f.m0, f.changed, x) ==> x in [f.changed];
  }

  /** Precedence, for a nudge that never goes back: in a converged run a moved task is over before its
      successors start, except for those that had already been pushed, in the wave of the task's last
      turn, when that turn came.  Only the guard against a second push in one wave breaks precedence. */
  lemma OnlyTheGuardBreaksOrder(f: Frame, x: string, y: string)
    requires WellFormed(f.c.ids, f.m0) && f.changed in f.m0 && UntouchedBut(f.m0, f.changed) && Forward(f.c)
    requires Cascaded(f.c, f.m0, f.changed).frontier == []
    requires var m := Cascaded(f.c, f.m0, f.changed).run.m;
             Moved(m, f.changed, x) && y in m && x != y && Follows(m[x], m[y])
    ensures var m := Cascaded(f.c, f.m0, f.changed).run.m;
            m[x].end <= m[y].start || Found(LastTurns(f.c, f.m0, f.changed), x, y)
  {
    hide Waves, Follows, TurnsFrom;
    RunBegins(f);
    RunKeepsOrder(f.c, Start(f.m0), f.changed, [f.changed], 0, 0, map[]);
    var r := Cascaded(f.c, f.m0, f.changed).run;
    assert Moved(Rested(r).m, f.changed, x) && !Pending(Rested(r), [], x);
  }
}
