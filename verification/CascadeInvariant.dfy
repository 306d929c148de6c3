/** What every push of a cascade run keeps. */
module CascadeInvariant {
  import opened Wrappers
  import opened Snapshot
  import opened Cascade

  // ---------- the journal of pushes

  /** The position of the last push of a task, -1 if it was never pushed. */
  function LastPush(p: seq<Push>, id: string): (n: int)
    ensures -1 <= n < |p|
  {
    if p == [] then -1
    else if p[|p| - 1].id == id then |p| - 1
    else LastPush(p[..|p| - 1], id)
  }

  function TimesPushed(p: seq<Push>, id: string): nat {
    if p == [] then 0
    else TimesPushed(p[..|p| - 1], id) + if p[|p| - 1].id == id then 1 else 0
  }

  /** The schedule after carrying out the pushes one after the other. */
  function Replay(m: Schedule, p: seq<Push>): Schedule {
    if p == [] then m
    else
      var before := Replay(m, p[..|p| - 1]);
      var e := p[|p| - 1];
      if e.id in before then before[e.id := before[e.id].MovedTo(e.newStart, e.newEnd, None)] else before
  }

  /** The nudge never goes back in time. */
  ghost predicate Forward(c: Setup) { forall x :: x <= c.advance(x) }

  /** An entry tells the truth about the task it found, and what it did to it. */
  ghost predicate Truthful(c: Setup, before: Schedule, e: Push) {
    && e.id in before
    && e == PushEntry(before[e.id], e.reason, e.newStart, e.newEnd)
    && e.newEnd - e.newStart == e.oldEnd - e.oldStart
    && (e.newStart != e.oldStart || e.newEnd != e.oldEnd)
    && (Forward(c) ==> e.oldStart < e.newStart)
    && e.reason != CrossEquipmentConflict
  }

  ghost predicate Journal(c: Setup, m: Schedule, p: seq<Push>) {
    p == [] ||
    (Journal(c, m, p[..|p| - 1]) && Truthful(c, Replay(m, p[..|p| - 1]), p[|p| - 1]))
  }

  lemma Append(c: Setup, m: Schedule, p: seq<Push>, e: Push)
    ensures (p + [e])[..|p|] == p
    ensures forall x :: LastPush(p + [e], x) == if x == e.id then |p| else LastPush(p, x)
    ensures forall x :: TimesPushed(p + [e], x) == TimesPushed(p, x) + if x == e.id then 1 else 0
    ensures Replay(m, p + [e]) ==
            (var before := Replay(m, p);
             if e.id in before then before[e.id := before[e.id].MovedTo(e.newStart, e.newEnd, None)] else before)
    ensures Journal(c, m, p + [e]) <==> Journal(c, m, p) && Truthful(c, Replay(m, p), e)
  {
    assert (p + [e])[..|p|] == p;
  }

  // ---------- the invariant

  /** `x` is the changed task or has been moved. */
  ghost predicate Moved(m: Schedule, changed: string, x: string) {
    x in m && (x == changed || m[x].origin.Some?)
  }

  ghost predicate Pending(r: Run, todo: seq<string>, x: string) { x in r.next || x in todo }

  /** The journal tells the whole story of the run. */
  ghost predicate Told(c: Setup, m0: Schedule, r: Run) {
    WellFormed(c.ids, r.m) && r.m.Keys == m0.Keys && Replay(m0, r.pushes) == r.m && Journal(c, m0, r.pushes)
  }

  /** The counters, and the marks of the current wave, which began when the journal held `ws`
      entries, after `wave` waves. */
  ghost predicate Marked(r: Run, ws: int, wave: int) {
    && (forall x :: CountOf(r.count, x) == TimesPushed(r.pushes, x))
    && (forall x :: TimesPushed(r.pushes, x) <= wave + if x in r.processed then 1 else 0)
    && (forall x :: x in r.processed <==> ws <= LastPush(r.pushes, x))
    && (forall x :: x in r.processed <==> x in r.next)
    && NoDuplicates(r.next) && ws <= |r.pushes|
    && (forall x :: x in r.next ==> x in r.m)
  }

  /** Nothing but place, time and the record of the first place ever changes. */
  ghost predicate Recorded(m0: Schedule, r: Run) {
    && r.m.Keys == m0.Keys
    && (forall x :: x in m0 ==>
          && r.m[x].OriginalStart() == m0[x].OriginalStart() && r.m[x].OriginalEnd() == m0[x].OriginalEnd()
          && r.m[x].order == m0[x].order && r.m[x].line == m0[x].line
          && r.m[x].equipment == m0[x].equipment && r.m[x].Duration() == m0[x].Duration())
    && (forall x :: x in m0 && LastPush(r.pushes, x) < 0 ==> r.m[x] == m0[x])
    && (forall x :: x in m0 && LastPush(r.pushes, x) >= 0 ==> r.m[x].origin.Some?)
  }

  /** Every clash that involves a moved task has a side that is still to be looked at. */
  ghost predicate Safe(r: Run, changed: string, todo: seq<string>) {
    forall x, y :: Moved(r.m, changed, x) && y in r.m && x != y && Clash(r.m[x], r.m[y])
      ==> Pending(r, todo, x) || Pending(r, todo, y)
  }

  /** A successor that starts before a moved task is over has been pushed since that task was,
      or that task is still to be looked at. */
  ghost predicate Ordered(r: Run, changed: string, todo: seq<string>) {
    forall x, y :: Moved(r.m, changed, x) && y in r.m && x != y && Follows(r.m[x], r.m[y])
      ==> r.m[x].end <= r.m[y].start || LastPush(r.pushes, x) < LastPush(r.pushes, y) || Pending(r, todo, x)
  }

  /** What anchors the changed task: nobody on its order line was over before it began. */
  ghost predicate Anchor(c: Setup, m0: Schedule, changed: string) {
    && Forward(c) && changed in m0
    && (forall x :: x in m0 ==> m0[x].start <= m0[x].end)
    && (forall x :: x in m0 && x != changed ==> !Follows(m0[x], m0[changed]))
  }

  ghost predicate Anchored(c: Setup, m0: Schedule, changed: string, r: Run, todo: seq<string>) {
    Anchor(c, m0, changed) ==>
      && changed in r.m && r.m[changed] == m0[changed] && LastPush(r.pushes, changed) < 0
      && (forall x :: x in r.m && LastPush(r.pushes, x) >= 0 ==> m0[changed].end <= r.m[x].start)
      && (forall x :: Pending(r, todo, x) ==> x == changed || LastPush(r.pushes, x) >= 0)
  }

  /** The frame of a run: what it works on. */
  datatype Frame = Frame(c: Setup, m0: Schedule, changed: string)

  ghost predicate Inv(f: Frame, r: Run, todo: seq<string>, ws: int, wave: int) {
    && f.changed in f.m0
    && Told(f.c, f.m0, r) && Marked(r, ws, wave) && Recorded(f.m0, r)
    && Safe(r, f.changed, todo) && Ordered(r, f.changed, todo)
    && Anchored(f.c, f.m0, f.changed, r, todo)
    && (forall x :: x in todo ==> x in r.m)
  }

  // ---------- one push

  /** Task `n` may be pushed behind `t`. */
  ghost predicate Pushable(r: Run, t: string, n: string) {
    && t in r.m && n in r.m && n != t && n !in r.processed
    && r.m[n].start < r.m[t].end
    && (Clash(r.m[n], r.m[t]) || Follows(r.m[t], r.m[n]))
  }

  lemma PushEntryTrue(f: Frame, r: Run, t: string, n: string, reason: PushReason)
    requires Pushable(r, t, n) && reason != CrossEquipmentConflict && r.m[n].id == n
    ensures var q := PushTo(f.c, r, n, r.m[t].end, reason);
            && (Forward(f.c) ==> !q.raised)
            && (!q.raised ==>
                  && |q.pushes| == |r.pushes| + 1 && q.pushes[..|r.pushes|] == r.pushes
                  && var e := q.pushes[|r.pushes|];
                     && Truthful(f.c, r.m, e)
                     && q.m == r.m[n := r.m[n].MovedTo(e.newStart, e.newEnd, None)] && e.id == n)
  {
    if Forward(f.c) { assert r.m[t].end <= f.c.advance(r.m[t].end); }
  }

  lemma PushTold(f: Frame, r: Run, t: string, n: string, reason: PushReason)
    requires Told(f.c, f.m0, r) && Pushable(r, t, n) && reason != CrossEquipmentConflict
    ensures var q := PushTo(f.c, r, n, r.m[t].end, reason);
            && (!q.raised ==> Told(f.c, f.m0, q))
            && (Forward(f.c) ==> !q.raised)
  {
    PushEntryTrue(f, r, t, n, reason);
    var q := PushTo(f.c, r, n, r.m[t].end, reason);
    if !q.raised {
      var e := q.pushes[|r.pushes|];
      assert q.pushes == r.pushes + [e];
      Append(f.c, f.m0, r.pushes, e);
      UpdateWellFormed(f.c.ids, r.m, n, q.m[n]);
    }
  }

  lemma UpdateWellFormed(ids: seq<string>, m: Schedule, n: string, t: Task)
    requires WellFormed(ids, m) && n in m && t.id == n
    ensures WellFormed(ids, m[n := t])
  {
  }

  /** `q` is `r` after one push of `n`, wherever to. */
  ghost predicate IsPush(r: Run, q: Run, n: string) {
    && n in r.m && n in q.m && q.m == r.m[n := q.m[n]]
    && q.m[n].origin.Some? && q.m[n].id == r.m[n].id
    && q.m[n].OriginalStart() == r.m[n].OriginalStart() && q.m[n].OriginalEnd() == r.m[n].OriginalEnd()
    && q.m[n].order == r.m[n].order && q.m[n].line == r.m[n].line
    && q.m[n].equipment == r.m[n].equipment && q.m[n].Duration() == r.m[n].Duration()
    && q.next == r.next + [n] && q.processed == r.processed + {n}
    && q.count == r.count[n := CountOf(r.count, n) + 1]
    && (forall x :: LastPush(q.pushes, x) == if x == n then |r.pushes| else LastPush(r.pushes, x))
    && (forall x :: TimesPushed(q.pushes, x) == TimesPushed(r.pushes, x) + if x == n then 1 else 0)
    && |q.pushes| == |r.pushes| + 1
  }

  lemma PushIs(c: Setup, r: Run, n: string, base: int, reason: PushReason)
    requires n in r.m && r.m[n].id == n
    ensures var q := PushTo(c, r, n, base, reason);
            !q.raised ==> IsPush(r, q, n)
  {
    var q := PushTo(c, r, n, base, reason);
    if !q.raised {
      var e := q.pushes[|r.pushes|];
      assert q.pushes == r.pushes + [e];
      Append(c, r.m, r.pushes, e);
    }
  }

  lemma PushMarked(r: Run, q: Run, n: string, ws: int, wave: int)
    requires IsPush(r, q, n) && Marked(r, ws, wave) && n !in r.processed
    ensures Marked(q, ws, wave)
  {
  }

  lemma PushRecorded(m0: Schedule, r: Run, q: Run, n: string)
    requires IsPush(r, q, n) && Recorded(m0, r)
    ensures Recorded(m0, q)
  {
    hide LastPush, TimesPushed;
  }

  lemma PushSafe(r: Run, q: Run, n: string, changed: string, todo: seq<string>)
    requires IsPush(r, q, n) && Safe(r, changed, todo)
    ensures Safe(q, changed, todo)
  {
    forall x, y | Moved(q.m, changed, x) && y in q.m && x != y && Clash(q.m[x], q.m[y])
      ensures Pending(q, todo, x) || Pending(q, todo, y)
    {
      if x != n && y != n { assert Moved(r.m, changed, x) && Clash(r.m[x], r.m[y]); }
    }
  }

  lemma PushOrdered(r: Run, q: Run, n: string, changed: string, todo: seq<string>)
    requires IsPush(r, q, n) && Ordered(r, changed, todo)
    ensures Ordered(q, changed, todo)
  {
    forall x, y | Moved(q.m, changed, x) && y in q.m && x != y && Follows(q.m[x], q.m[y])
      ensures q.m[x].end <= q.m[y].start || LastPush(q.pushes, x) < LastPush(q.pushes, y) || Pending(q, todo, x)
    {
      if x != n && y != n { assert Moved(r.m, changed, x) && Follows(r.m[x], r.m[y]); }
    }
  }

  lemma PushAnchored(f: Frame, r: Run, q: Run, t: string, n: string, todo: seq<string>)
    requires IsPush(r, q, n) && t in r.m && (Forward(f.c) ==> r.m[t].end <= q.m[n].start)
    requires Anchored(f.c, f.m0, f.changed, r, todo) && Recorded(f.m0, r) && Pushable(r, t, n)
    requires f.changed in f.m0 && t in todo
    ensures Anchored(f.c, f.m0, f.changed, q, todo)
  {
    hide LastPush, TimesPushed;
    if Anchor(f.c, f.m0, f.changed) {
      assert Pending(r, todo, t);
      assert r.m[t].Duration() == f.m0[t].Duration() >= 0;
      assert f.m0[f.changed].end <= r.m[t].end;
      assert t != f.changed ==> !Follows(f.m0[t], f.m0[f.changed]);
      assert n != f.changed;
      assert forall x :: Pending(q, todo, x) ==> Pending(r, todo, x) || x == n;
    }
  }

  /** A push keeps everything, and under a forward nudge it is never refused. */
  lemma PushKeeps(f: Frame, r: Run, t: string, n: string, reason: PushReason, todo: seq<string>, ws: int, wave: int)
    requires Inv(f, r, todo, ws, wave) && t in todo && Pushable(r, t, n) && reason != CrossEquipmentConflict
    ensures var q := PushTo(f.c, r, n, r.m[t].end, reason);
            && (!q.raised ==> Inv(f, q, todo, ws, wave) && IsPush(r, q, n))
            && (Forward(f.c) ==> !q.raised)
  {
    var q := PushTo(f.c, r, n, r.m[t].end, reason);
    PushTold(f, r, t, n, reason);
    if !q.raised {
      if Forward(f.c) { assert r.m[t].end <= f.c.advance(r.m[t].end); }
      PushIs(f.c, r, n, r.m[t].end, reason);
      PushMarked(r, q, n, ws, wave);
      PushRecorded(f.m0, r, q, n);
      PushSafe(r, q, n, f.changed, todo);
      PushOrdered(r, q, n, f.changed, todo);
      PushAnchored(f, r, q, t, n, todo);
    }
  }

  // ---------- one task of the frontier

  /** The candidate from the pushed task's own equipment never wins over the pushing task's end. */
  lemma PrevNeverWins(ids: seq<string>, m: Schedule, n: Task, end: int)
    requires WellFormed(ids, m)
    ensures n.start < Later(end, PrevCandidate(ids, m, n)) ==> Later(end, PrevCandidate(ids, m, n)) == end
    ensures n.start < end ==> Later(end, PrevCandidate(ids, m, n)) == end
    ensures end <= Later(end, PrevCandidate(ids, m, n))
  {
    PrevEndMeans(ids, m, n);
  }

  /** All clashes of `t` are on the list or dealt with in this wave. */
  ghost predicate ClashesListed(r: Run, t: string, list: seq<string>) {
    t in r.m && forall y :: y in r.m && y != t && Clash(r.m[y], r.m[t]) ==> y in r.processed || y in list
  }

  /** Where the loop over the clashes of `t` stands. */
  ghost predicate AtClashes(f: Frame, r: Run, t: string, list: seq<string>, todo: seq<string>, ws: int, wave: int) {
    && Inv(f, r, todo, ws, wave) && t in todo && !r.raised
    && NoDuplicates(list) && t !in list && (forall x :: x in list ==> x in r.m)
    && (forall x :: x in list && x !in r.processed ==> Clash(r.m[x], r.m[t]))
    && ClashesListed(r, t, list)
  }

  lemma PushOneClash(f: Frame, r: Run, t: string, list: seq<string>, todo: seq<string>, ws: int, wave: int)
    requires AtClashes(f, r, t, list, todo, ws, wave) && list != []
    ensures var q := OverlapStep(f.c, r, t, list[0]);
            && (!q.raised ==> Inv(f, q, todo, ws, wave))
            && (Forward(f.c) ==> !q.raised)
  {
    var n := list[0];
    if n !in r.processed {
      PrevNeverWins(f.c.ids, r.m, r.m[n], r.m[t].end);
      PushKeeps(f, r, t, n, SameEquipmentConflict, todo, ws, wave);
    }
  }

  lemma NextClash(f: Frame, r: Run, t: string, list: seq<string>)
    requires t in r.m && list != [] && NoDuplicates(list) && t !in list && (forall x :: x in list ==> x in r.m)
    requires (forall x :: x in list && x !in r.processed ==> Clash(r.m[x], r.m[t])) && ClashesListed(r, t, list)
    ensures var q := OverlapStep(f.c, r, t, list[0]);
            !q.raised ==>
              && NoDuplicates(list[1..]) && (forall x :: x in list[1..] ==> x in q.m)
              && (forall x :: x in list[1..] && x !in q.processed ==> Clash(q.m[x], q.m[t]))
              && ClashesListed(q, t, list[1..])
  {
    var n := list[0];
    var q := OverlapStep(f.c, r, t, n);
    if !q.raised {
      assert forall x :: x in list[1..] ==> x in list && x != n;
      forall y | y in q.m && y != t && Clash(q.m[y], q.m[t]) ensures y in q.processed || y in list[1..] {
        if y != n { assert q.m[y] == r.m[y] && (y in list ==> y in list[1..]); }
      }
    }
  }

  lemma {:induction false} OverlappingKeeps(f: Frame, r: Run, t: string, list: seq<string>, todo: seq<string>,
                                            ws: int, wave: int)
    requires AtClashes(f, r, t, list, todo, ws, wave)
    ensures var q := PushOverlapping(f.c, r, t, list);
            && (!q.raised ==> Inv(f, q, todo, ws, wave) && ClashesListed(q, t, []))
            && (Forward(f.c) ==> !q.raised)
    decreases |list|
  {
    if list != [] {
      PushOneClash(f, r, t, list, todo, ws, wave);
      NextClash(f, r, t, list);
      var q := OverlapStep(f.c, r, t, list[0]);
      if !q.raised { OverlappingKeeps(f, q, t, list[1..], todo, ws, wave); }
    }
  }

  ghost predicate Settled(r: Run, t: string, s: string) {
    && t in r.m && s in r.m
    && (r.m[t].end <= r.m[s].start || LastPush(r.pushes, t) < LastPush(r.pushes, s) || t in r.next)
  }

  /** All successors of `t` are on the list or settled. */
  ghost predicate SuccessorsListed(r: Run, t: string, list: seq<string>) {
    t in r.m && forall y :: y in r.m && y != t && Follows(r.m[t], r.m[y]) ==> y in list || Settled(r, t, y)
  }

  lemma PushOneSuccessor(f: Frame, r: Run, t: string, s: string, todo: seq<string>, ws: int, wave: int)
    requires Inv(f, r, todo, ws, wave) && t in todo && s in r.m && s != t && Follows(r.m[t], r.m[s])
    ensures var q := SuccessorStep(f.c, r, t, s);
            && (!q.raised ==> Inv(f, q, todo, ws, wave))
            && (!r.raised && Forward(f.c) ==> !q.raised)
            && (!q.raised ==> IsPush(r, q, s) || (q == r && (s in r.processed || r.m[t].end <= r.m[s].start)))
  {
    PrevNeverWins(f.c.ids, r.m, r.m[s], r.m[t].end);
    if s !in r.processed && r.m[s].start < Later(r.m[t].end, PrevCandidate(f.c.ids, r.m, r.m[s])) {
      PushKeeps(f, r, t, s, SuccessorChain, todo, ws, wave);
    }
  }

  lemma SuccessorSettles(r: Run, q: Run, t: string, s: string, list: seq<string>, ws: int, wave: int)
    requires Marked(r, ws, wave) && t in r.m && s in r.m && s != t
    requires IsPush(r, q, s) || (q == r && (s in r.processed || r.m[t].end <= r.m[s].start))
    requires list != [] && list[0] == s && SuccessorsListed(r, t, list)
    ensures SuccessorsListed(q, t, list[1..])
    ensures forall x :: x in r.m ==> x in q.m && (Follows(q.m[t], q.m[x]) <==> Follows(r.m[t], r.m[x]))
  {
    assert Settled(q, t, s);
    forall y | y in q.m && y != t && Follows(q.m[t], q.m[y]) ensures y in list[1..] || Settled(q, t, y) {
      if y != s {
        assert Follows(r.m[t], r.m[y]);
        assert y in list ==> y in list[1..];
      }
    }
  }

  /** Where the loop over the successors of `t` stands. */
  ghost predicate AtSuccessors(r: Run, t: string, list: seq<string>) {
    && t in r.m && NoDuplicates(list) && t !in list
    && (forall x :: x in list ==> x in r.m && Follows(r.m[t], r.m[x]))
    && SuccessorsListed(r, t, list)
  }

  lemma NextSuccessor(r: Run, q: Run, t: string, list: seq<string>, ws: int, wave: int)
    requires AtSuccessors(r, t, list) && list != [] && Marked(r, ws, wave)
    requires var s := list[0];
             IsPush(r, q, s) || (q == r && (s in r.processed || r.m[t].end <= r.m[s].start))
    ensures AtSuccessors(q, t, list[1..])
  {
    assert list[0] in list && forall x :: x in list[1..] ==> x in list;
    SuccessorSettles(r, q, t, list[0], list, ws, wave);
  }

  lemma {:induction false} SuccessorsKeep(f: Frame, r: Run, t: string, list: seq<string>, todo: seq<string>, ws: int,
                                          wave: int)
    requires Inv(f, r, todo, ws, wave) && t in todo && !r.raised && AtSuccessors(r, t, list)
    ensures var q := PushSuccessors(f.c, r, t, list);
            && (!q.raised ==> Inv(f, q, todo, ws, wave) && SuccessorsListed(q, t, []))
            && (Forward(f.c) ==> !q.raised)
    decreases |list|
  {
    if list != [] {
      assert list[0] in list;
      PushOneSuccessor(f, r, t, list[0], todo, ws, wave);
      var q := SuccessorStep(f.c, r, t, list[0]);
      if !q.raised {
        NextSuccessor(r, q, t, list, ws, wave);
        SuccessorsKeep(f, q, t, list[1..], todo, ws, wave);
      }
    }
  }

  lemma ListsOfTask(ids: seq<string>, m: Schedule, t: string)
    requires WellFormed(ids, m) && t in m
    ensures var list := SameEquipmentOverlapping(ids, m, m[t]);
            && NoDuplicates(list) && t !in list
            && (forall x :: x in list <==> x in m && x != t && Clash(m[x], m[t]))
    ensures var list := SuccessorsByOriginalOrder(ids, m, m[t]);
            && NoDuplicates(list) && t !in list
            && (forall x :: x in list <==> x in m && x != t && Follows(m[t], m[x]))
  {
    OverlappingMeans(ids, m, m[t]);
    SuccessorsMean(ids, m, m[t]);
  }

  /** Looking at one task of the frontier takes it off what is still to be looked at. */
  lemma ProcessKeeps(f: Frame, r: Run, todo: seq<string>, ws: int, wave: int)
    requires todo != [] && Inv(f, r, todo, ws, wave) && !r.raised
    ensures var q := ProcessTask(f.c, r, todo[0]);
            && (!q.raised ==> Inv(f, q, todo[1..], ws, wave))
            && (Forward(f.c) ==> !q.raised)
  {
    var t, rest := todo[0], todo[1..];
    ListsOfTask(f.c.ids, r.m, t);
    OverlappingKeeps(f, r, t, SameEquipmentOverlapping(f.c.ids, r.m, r.m[t]), todo, ws, wave);
    var r1 := AfterOverlaps(f.c, r, t);
    if !r1.raised {
      ListsOfTask(f.c.ids, r1.m, t);
      AfterClashes(f, r1, todo, ws, wave);
      SuccessorsKeep(f, r1, t, SuccessorsByOriginalOrder(f.c.ids, r1.m, r1.m[t]), todo, ws, wave);
      SuccessorsKeepSafe(f, r1, t, SuccessorsByOriginalOrder(f.c.ids, r1.m, r1.m[t]), rest);
      var q := ProcessTask(f.c, r, t);
      if !q.raised { Done(f, q, todo, ws, wave); }
    }
  }

  lemma AfterClashes(f: Frame, r: Run, todo: seq<string>, ws: int, wave: int)
    requires todo != [] && Safe(r, f.changed, todo) && ClashesListed(r, todo[0], [])
    requires forall x :: x in r.processed <==> x in r.next
    ensures Safe(r, f.changed, todo[1..])
  {
    var t, rest := todo[0], todo[1..];
    forall x, y | Moved(r.m, f.changed, x) && y in r.m && x != y && Clash(r.m[x], r.m[y])
      ensures Pending(r, rest, x) || Pending(r, rest, y)
    {
      if x == t {
        assert Clash(r.m[y], r.m[t]);
      } else if y != t {
        assert Pending(r, todo, x) || Pending(r, todo, y);
      }
    }
  }

  lemma {:induction false} SuccessorsKeepSafe(f: Frame, r: Run, t: string, list: seq<string>, rest: seq<string>)
    requires Safe(r, f.changed, rest) && WellFormed(f.c.ids, r.m)
    ensures var q := PushSuccessors(f.c, r, t, list);
            !q.raised ==> Safe(q, f.changed, rest)
    decreases |list|
  {
    if list != [] && !r.raised {
      var q := SuccessorStep(f.c, r, t, list[0]);
      StepKeepsSafe(f, r, t, list[0], rest);
      if !q.raised { SuccessorsKeepSafe(f, q, t, list[1..], rest); }
    }
  }

  lemma StepKeepsSafe(f: Frame, r: Run, t: string, s: string, rest: seq<string>)
    requires Safe(r, f.changed, rest) && WellFormed(f.c.ids, r.m) && !r.raised
    ensures var q := SuccessorStep(f.c, r, t, s);
            !q.raised ==> Safe(q, f.changed, rest) && WellFormed(f.c.ids, q.m)
  {
    var q := SuccessorStep(f.c, r, t, s);
    if q != r && !q.raised {
      var base := Later(r.m[t].end, PrevCandidate(f.c.ids, r.m, r.m[s]));
      PushIs(f.c, r, s, base, SuccessorChain);
      PushIs(f.c, r, s, base, CrossEquipmentConflict);
      PushSafe(r, q, s, f.changed, rest);
      UpdateWellFormed(f.c.ids, r.m, s, q.m[s]);
    }
  }

  lemma Done(f: Frame, r: Run, todo: seq<string>, ws: int, wave: int)
    requires todo != [] && Inv(f, r, todo, ws, wave) && Safe(r, f.changed, todo[1..])
             && SuccessorsListed(r, todo[0], [])
    ensures Inv(f, r, todo[1..], ws, wave)
  {
    hide Told, Marked, Recorded, Follows, Clash, Anchor, LastPush;
    var t, rest := todo[0], todo[1..];
    forall x, y | Moved(r.m, f.changed, x) && y in r.m && x != y && Follows(r.m[x], r.m[y])
      ensures r.m[x].end <= r.m[y].start || LastPush(r.pushes, x) < LastPush(r.pushes, y) || Pending(r, rest, x)
    {
      if x == t { assert Settled(r, t, y); }
      assert Pending(r, todo, x) ==> x == t || Pending(r, rest, x);
    }
    assert forall x :: Pending(r, rest, x) ==> Pending(r, todo, x);
  }

  lemma {:induction false} FrontierKeeps(f: Frame, r: Run, frontier: seq<string>, ws: int, wave: int)
    requires Inv(f, r, frontier, ws, wave) && !r.raised
    ensures var q := ProcessAll(f.c, r, frontier);
            && (!q.raised ==> Inv(f, q, [], ws, wave))
            && (Forward(f.c) ==> !q.raised)
    decreases |frontier|
  {
    if frontier != [] {
      ProcessKeeps(f, r, frontier, ws, wave);
      var q := ProcessTask(f.c, r, frontier[0]);
      if !q.raised { FrontierKeeps(f, q, frontier[1..], ws, wave); }
    }
  }
}
