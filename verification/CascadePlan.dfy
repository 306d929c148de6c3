/** The preview as the program computes it, on a snapshot that it changes in place. */
module CascadePlan {
  import opened Wrappers
  import opened Snapshot
  import opened Cascade
  import opened CascadeInvariant
  import opened CascadeLaws
  import opened Pull
  import opened PullSlack

  datatype UnresolvedReason = DueDateViolation | NoSpaceForward | CycleDetected

  datatype Unresolved = Unresolved(id: string, equipment: string, batch: string, reason: UnresolvedReason)

  datatype Preview = Preview(pushes: seq<Push>, pulls: seq<PullEntry>, unresolved: seq<Unresolved>,
                             canAutoResolve: bool, iterCount: int, truncated: bool)

  datatype Plan = NoSuchTask | PushRefused | Planned(preview: Preview)

  // ---------- the verdicts

  function Entries(list: seq<string>, m: Schedule, reason: UnresolvedReason): seq<Unresolved> {
    if list == [] then []
    else
      (if list[0] in m then [Unresolved(list[0], m[list[0]].equipment, m[list[0]].batch, reason)] else [])
        + Entries(list[1..], m, reason)
  }

  function BareEntries(list: seq<string>): seq<Unresolved> {
    if list == [] then [] else [Unresolved(list[0], "", "", CycleDetected)] + BareEntries(list[1..])
  }

  function ValidateDueDate(ids: seq<string>, m: Schedule): seq<Unresolved> {
    var late := set i | i in m && m[i].due.Some? && m[i].end > m[i].due.value;
    Entries(Select(ChangedTasks(ids, m), late), m, DueDateViolation)
  }

  function ValidateHorizon(ids: seq<string>, m: Schedule, horizon: int): seq<Unresolved> {
    Entries(Select(ChangedTasks(ids, m), set i | i in m && m[i].end > horizon), m, NoSpaceForward)
  }

  /** The pushed tasks, by first push: the order in which the counters were created. */
  function PushedIds(p: seq<Push>): seq<string> {
    if p == [] then []
    else
      var r := PushedIds(p[..|p| - 1]);
      if p[|p| - 1].id in r then r else r + [p[|p| - 1].id]
  }

  function ValidateCycles(pushed: seq<string>, count: map<string, int>, max: int): seq<Unresolved> {
    BareEntries(Select(pushed, set i | i in count && count[i] > max))
  }

  function UnresolvedOf(c: Setup, z: Final, changed: string, horizon: int): seq<Unresolved> {
    (if z.truncated then BareEntries([changed]) else [])
      + Entries(z.frontier, z.run.m, CycleDetected)
      + ValidateDueDate(c.ids, z.run.m)
      + ValidateHorizon(c.ids, z.run.m, horizon)
      + ValidateCycles(PushedIds(z.run.pushes), z.run.count, MAX_WAVES)
  }

  function PullsOf(c: Setup, m: Schedule, changed: string, reverse: (int, int) -> int): seq<PullEntry>
    requires WellFormed(c.ids, m) && changed in m
  {
    if m[changed].origin.Some? && m[changed].end < m[changed].origin.value.end
    then ProposalsFor(c.ids, m, reverse, changed) else []
  }

  function PreviewOf(c: Setup, z: Final, changed: string, reverse: (int, int) -> int, horizon: int): Preview
    requires WellFormed(c.ids, z.run.m) && changed in z.run.m
  {
    var unresolved := UnresolvedOf(c, z, changed, horizon);
    Preview(z.run.pushes, PullsOf(c, z.run.m, changed, reverse), unresolved, unresolved == [], z.wavesUsed, z.truncated)
  }

  // ---------- the run on the snapshot

  /** What a run keeps beside the snapshot. */
  datatype Log = Log(pushes: seq<Push>, count: map<string, int>, processed: set<string>, next: seq<string>)

  function RunOf(m: Schedule, l: Log, raised: bool): Run { Run(m, l.pushes, l.count, l.processed, l.next, raised) }

  /** Writes the push down and moves the task; None when the snapshot refuses the move. */
  method PushTask(c: Setup, snap: Snap, l: Log, n: string, base: int, reason: PushReason)
    returns (l': Log, raised: bool)
    requires snap.Valid() && n in snap.byId
    modifies snap`byId
    ensures snap.Valid()
    ensures var q := PushTo(c, RunOf(old(snap.byId), l, false), n, base, reason);
            raised == q.raised && snap.byId == q.m && (!raised ==> RunOf(snap.byId, l', false) == q)
  {
    var t := snap.byId[n];
    var newStart := c.advance(base);
    var newEnd := newStart + (t.end - t.start);
    l' := l.(pushes := l.pushes + [PushEntry(t, reason, newStart, newEnd)]);
    var o := snap.Apply(n, newStart, newEnd, None);
    if o.NoChange? { return l', true; }
    l' := l'.(count := l.count[n := CountOf(l.count, n) + 1], processed := l.processed + {n}, next := l.next + [n]);
    return l', false;
  }

  /** The later of an end and the end of the task before `n` on its own equipment. */
  method Earliest(ids: seq<string>, m: Schedule, end: int, n: Task) returns (base: int)
    ensures base == Later(end, PrevCandidate(ids, m, n))
  {
    base := end;
    var prevEnd := SameEqPrevEnd(ids, m, n);
    if prevEnd.Some? && prevEnd.value != n.start && prevEnd.value > base { base := prevEnd.value; }
  }

  method PushOverlappingTask(c: Setup, snap: Snap, l: Log, t: string, n: string) returns (l': Log, raised: bool)
    requires snap.Valid() && t in snap.byId && n in snap.byId
    modifies snap`byId
    ensures snap.Valid() && snap.byId.Keys == old(snap.byId.Keys)
    ensures var q := OverlapStep(c, RunOf(old(snap.byId), l, false), t, n);
            raised == q.raised && snap.byId == q.m && (!raised ==> RunOf(snap.byId, l', false) == q)
  {
    if n in l.processed { return l, false; }
    var base := Earliest(c.ids, snap.byId, snap.byId[t].end, snap.byId[n]);
    l', raised := PushTask(c, snap, l, n, base, SameEquipmentConflict);
  }

  method PushSuccessorTask(c: Setup, snap: Snap, l: Log, t: string, s: string) returns (l': Log, raised: bool)
    requires snap.Valid() && t in snap.byId && s in snap.byId
    modifies snap`byId
    ensures snap.Valid() && snap.byId.Keys == old(snap.byId.Keys)
    ensures var q := SuccessorStep(c, RunOf(old(snap.byId), l, false), t, s);
            raised == q.raised && snap.byId == q.m && (!raised ==> RunOf(snap.byId, l', false) == q)
  {
    if s in l.processed { return l, false; }
    var earliest := Earliest(c.ids, snap.byId, snap.byId[t].end, snap.byId[s]);
    if snap.byId[s].start >= earliest { return l, false; }
    var reason := if earliest == snap.byId[t].end then SuccessorChain else CrossEquipmentConflict;
    l', raised := PushTask(c, snap, l, s, earliest, reason);
  }

  /** Pushes away what overlaps `t` on its equipment. */
  method PushOverlappingTasks(c: Setup, snap: Snap, l0: Log, t: string) returns (l: Log, raised: bool)
    requires snap.Valid() && snap.ids == c.ids && t in snap.byId
    modifies snap`byId
    ensures snap.Valid() && snap.byId.Keys == old(snap.byId.Keys)
    ensures var q := AfterOverlaps(c, RunOf(old(snap.byId), l0, false), t);
            raised == q.raised && snap.byId == q.m && (!raised ==> RunOf(snap.byId, l, false) == q)
  {
    l, raised := l0, false;
    var list := SameEquipmentOverlapping(c.ids, snap.byId, snap.byId[t]);
    OverlappingMeans(c.ids, snap.byId, snap.byId[t]);
    for i := 0 to |list|
      invariant snap.Valid() && snap.byId.Keys == old(snap.byId.Keys)
      invariant AfterOverlaps(c, RunOf(old(snap.byId), l0, false), t) ==
                PushOverlapping(c, RunOf(snap.byId, l, false), t, list[i..])
    {
      assert list[i] in list && list[i..][0] == list[i] && list[i..][1..] == list[i + 1..];
      l, raised := PushOverlappingTask(c, snap, l, t, list[i]);
      if raised { return; }
    }
  }

  /** Pushes away the successors of `t` that start before it is over. */
  method PushSuccessorTasks(c: Setup, snap: Snap, l0: Log, t: string) returns (l: Log, raised: bool)
    requires snap.Valid() && snap.ids == c.ids && t in snap.byId
    modifies snap`byId
    ensures snap.Valid() && snap.byId.Keys == old(snap.byId.Keys)
    ensures var q := AfterSuccessors(c, RunOf(old(snap.byId), l0, false), t);
            raised == q.raised && snap.byId == q.m && (!raised ==> RunOf(snap.byId, l, false) == q)
  {
    l, raised := l0, false;
    var list := SuccessorsByOriginalOrder(c.ids, snap.byId, snap.byId[t]);
    SuccessorsMean(c.ids, snap.byId, snap.byId[t]);
    for i := 0 to |list|
      invariant snap.Valid() && snap.byId.Keys == old(snap.byId.Keys)
      invariant AfterSuccessors(c, RunOf(old(snap.byId), l0, false), t) ==
                PushSuccessors(c, RunOf(snap.byId, l, false), t, list[i..])
    {
      assert list[i] in list && list[i..][0] == list[i] && list[i..][1..] == list[i + 1..];
      l, raised := PushSuccessorTask(c, snap, l, t, list[i]);
      if raised { return; }
    }
  }

  method RunWave(c: Setup, snap: Snap, l0: Log, frontier: seq<string>) returns (l: Log, raised: bool)
    requires snap.Valid() && snap.ids == c.ids && forall x :: x in frontier ==> x in snap.byId
    modifies snap`byId
    ensures snap.Valid() && snap.byId.Keys == old(snap.byId.Keys)
    ensures var q := Wave(c, RunOf(old(snap.byId), l0, false), frontier);
            raised == q.raised && snap.byId == q.m && (!raised ==> RunOf(snap.byId, l, false) == q)
  {
    l, raised := l0.(processed := {}, next := []), false;
    for i := 0 to |frontier|
      invariant snap.Valid() && snap.byId.Keys == old(snap.byId.Keys)
      invariant Wave(c, RunOf(old(snap.byId), l0, false), frontier) ==
                ProcessAll(c, RunOf(snap.byId, l, false), frontier[i..])
    {
      var t := frontier[i];
      assert t in frontier && frontier[i..][0] == t && frontier[i..][1..] == frontier[i + 1..];
      l, raised := PushOverlappingTasks(c, snap, l, t);
      if raised { return; }
      l, raised := PushSuccessorTasks(c, snap, l, t);
      if raised { return; }
    }
  }

  /** The waves: at most four, none once the frontier is empty, and none after the journal has
      grown past the limit. */
  method RunWaves(c: Setup, snap: Snap, changed: string)
    returns (l: Log, frontier: seq<string>, used: int, truncated: bool, raised: bool)
    requires snap.Valid() && snap.ids == c.ids && changed in snap.byId
    modifies snap`byId
    ensures snap.Valid() && snap.byId.Keys == old(snap.byId.Keys)
    ensures var z := Cascaded(c, old(snap.byId), changed);
            && raised == z.run.raised && snap.byId == z.run.m
            && (!raised ==> z == Final(RunOf(snap.byId, l, false), frontier, used, truncated))
  {
    l, frontier, used, truncated, raised := Log([], map[], {}, []), [changed], 0, false, false;
    var wave := 0;
    while wave < MAX_WAVES && frontier != [] && |l.pushes| <= HARD_TASK_LIMIT
      invariant 0 <= wave <= MAX_WAVES && snap.Valid() && snap.byId.Keys == old(snap.byId.Keys)
      invariant forall x :: x in frontier ==> x in snap.byId
      invariant Cascaded(c, old(snap.byId), changed) == Waves(c, RunOf(snap.byId, l, false), frontier, wave, used)
      decreases MAX_WAVES - wave
    {
      ghost var r := RunOf(snap.byId, l, false);
      WavesUnfold(c, r, frontier, wave, used);
      NextInTasks(c, r, frontier);
      l, raised := RunWave(c, snap, l, frontier);
      used := wave + 1;
      if raised { return; }
      frontier := DistinctTasks(l.next);
      wave := wave + 1;
    }
    truncated := wave < MAX_WAVES && frontier != [];
  }

  /** Everything in a next frontier is a task of the snapshot. */
  lemma {:induction false} NextInTasks(c: Setup, r: Run, frontier: seq<string>)
    requires forall x :: x in frontier ==> x in r.m
    ensures var w := Wave(c, r, frontier);
            w.m.Keys == r.m.Keys && forall x :: x in Distinct(w.next) ==> x in w.m
  {
    ProcessAllInTasks(c, Rested(r), frontier);
    DistinctMeans(Wave(c, r, frontier).next);
  }

  ghost predicate InTasks(r: Run) { forall x :: x in r.next ==> x in r.m }

  lemma {:induction false} ProcessAllInTasks(c: Setup, r: Run, frontier: seq<string>)
    requires InTasks(r)
    ensures var q := ProcessAll(c, r, frontier); q.m.Keys == r.m.Keys && InTasks(q)
    decreases |frontier|
  {
    if frontier != [] && !r.raised {
      var t := frontier[0];
      if t in r.m { OverlappingInTasks(c, r, t, SameEquipmentOverlapping(c.ids, r.m, r.m[t])); }
      var r1 := AfterOverlaps(c, r, t);
      if t in r1.m { SuccessorsInTasks(c, r1, t, SuccessorsByOriginalOrder(c.ids, r1.m, r1.m[t])); }
      ProcessAllInTasks(c, ProcessTask(c, r, t), frontier[1..]);
    }
  }

  lemma {:induction false} OverlappingInTasks(c: Setup, r: Run, t: string, list: seq<string>)
    requires InTasks(r)
    ensures var q := PushOverlapping(c, r, t, list); q.m.Keys == r.m.Keys && InTasks(q)
    decreases |list|
  {
    if list != [] && !r.raised { OverlappingInTasks(c, OverlapStep(c, r, t, list[0]), t, list[1..]); }
  }

  lemma {:induction false} SuccessorsInTasks(c: Setup, r: Run, t: string, list: seq<string>)
    requires InTasks(r)
    ensures var q := PushSuccessors(c, r, t, list); q.m.Keys == r.m.Keys && InTasks(q)
    decreases |list|
  {
    if list != [] && !r.raised { SuccessorsInTasks(c, SuccessorStep(c, r, t, list[0]), t, list[1..]); }
  }

  method DistinctTasks(next: seq<string>) returns (r: seq<string>)
    ensures r == Distinct(next)
  {
    r := [];
    for i := 0 to |next|
      invariant r == Distinct(next[..i])
    {
      assert next[..i + 1][..i] == next[..i];
      if next[i] !in r { r := r + [next[i]]; }
    }
    assert next[..|next|] == next;
  }

  /** The preview of a changed task.  The snapshot is left in the state the pushes lead to. */
  method PlanCascadePreviewOnSnap(snap: Snap, changed: string, advance: int -> int, reverse: (int, int) -> int,
                                  horizon: int)
    returns (plan: Plan)
    requires snap.Valid()
    modifies snap`byId
    ensures snap.Valid()
    ensures changed !in old(snap.byId) ==> plan == NoSuchTask && snap.byId == old(snap.byId)
    ensures changed in old(snap.byId) ==>
              var c := Setup(snap.ids, advance);
              var z := Cascaded(c, old(snap.byId), changed);
              && snap.byId == z.run.m && changed in snap.byId
              && plan == if z.run.raised then PushRefused else Planned(PreviewOf(c, z, changed, reverse, horizon))
  {
    if changed !in snap.byId { return NoSuchTask; }
    var c := Setup(snap.ids, advance);
    var l, frontier, used, truncated, raised := RunWaves(c, snap, changed);
    if raised { return PushRefused; }
    var z := Final(RunOf(snap.byId, l, false), frontier, used, truncated);
    var unresolved := UnresolvedOf(c, z, changed, horizon);
    var pulls := [];
    var t := snap.byId[changed];
    if t.origin.Some? && t.end < t.origin.value.end {
      pulls := ProposeForSuccessors(changed, snap, reverse);
    }
    return Planned(Preview(l.pushes, pulls, unresolved, unresolved == [], used, truncated));
  }

  // ---------- what the verdict means

  lemma {:induction false} EntriesMean(list: seq<string>, m: Schedule, reason: UnresolvedReason)
    requires forall x :: x in list ==> x in m
    ensures |Entries(list, m, reason)| == |list|
    ensures forall e :: e in Entries(list, m, reason) ==> e.reason == reason
  {
    if list != [] {
      assert list[0] in list && forall x :: x in list[1..] ==> x in list;
      EntriesMean(list[1..], m, reason);
    }
  }

  ghost predicate Complains(u: seq<Unresolved>) { exists e :: e in u && e.reason == CycleDetected }

  /** A preview complains of a cycle exactly when the run did not converge: the check of the push
      counters never finds anything. */
  lemma ComplainsExactly(f: Frame, horizon: int)
    requires WellFormed(f.c.ids, f.m0) && f.changed in f.m0 && UntouchedBut(f.m0, f.changed)
    requires !Cascaded(f.c, f.m0, f.changed).run.raised
    ensures var z := Cascaded(f.c, f.m0, f.changed);
            && ValidateCycles(PushedIds(z.run.pushes), z.run.count, MAX_WAVES) == []
            && (Complains(UnresolvedOf(f.c, z, f.changed, horizon)) <==> z.frontier != [])
  {
    CascadeKeeps(f);
    JournalIsExact(f);
    var z := Cascaded(f.c, f.m0, f.changed);
    NoCycleEntries(z.run);
    FrontierComplains(f.c, z, f.changed, horizon);
  }

  lemma NoCycleEntries(r: Run)
    requires forall x :: CountOf(r.count, x) <= MAX_WAVES
    ensures ValidateCycles(PushedIds(r.pushes), r.count, MAX_WAVES) == []
  {
    var over := set i | i in r.count && r.count[i] > MAX_WAVES;
    forall i | i in r.count ensures r.count[i] <= MAX_WAVES { assert CountOf(r.count, i) <= MAX_WAVES; }
    assert over == {};
    SelectMeans(PushedIds(r.pushes), over);
    var list := Select(PushedIds(r.pushes), over);
    if list != [] { InList(list); }
  }

  lemma InList(list: seq<string>)
    requires list != []
    ensures list[0] in list
  {
  }

  ghost predicate Only(u: seq<Unresolved>, reason: UnresolvedReason) { forall e :: e in u ==> e.reason == reason }

  lemma OtherChecks(ids: seq<string>, m: Schedule, horizon: int)
    requires WellFormed(ids, m)
    ensures Only(ValidateDueDate(ids, m), DueDateViolation) && Only(ValidateHorizon(ids, m, horizon), NoSpaceForward)
  {
    var moved := ChangedTasks(ids, m);
    SelectMeans(ids, set i | i in m && m[i].origin.Some?);
    var late := set i | i in m && m[i].due.Some? && m[i].end > m[i].due.value;
    SelectMeans(moved, late);
    EntriesMean(Select(moved, late), m, DueDateViolation);
    var far := set i | i in m && m[i].end > horizon;
    SelectMeans(moved, far);
    EntriesMean(Select(moved, far), m, NoSpaceForward);
  }

  lemma FrontierComplains(c: Setup, z: Final, changed: string, horizon: int)
    requires WellFormed(c.ids, z.run.m) && (forall x :: x in z.frontier ==> x in z.run.m)
    requires z.truncated ==> z.frontier != []
    requires ValidateCycles(PushedIds(z.run.pushes), z.run.count, MAX_WAVES) == []
    ensures Complains(UnresolvedOf(c, z, changed, horizon)) <==> z.frontier != []
  {
    var m := z.run.m;
    var front := Entries(z.frontier, m, CycleDetected);
    EntriesMean(z.frontier, m, CycleDetected);
    OtherChecks(c.ids, m, horizon);
    Together(if z.truncated then BareEntries([changed]) else [], front, ValidateDueDate(c.ids, m),
             ValidateHorizon(c.ids, m, horizon), []);
  }

  lemma Together(a: seq<Unresolved>, front: seq<Unresolved>, due: seq<Unresolved>, far: seq<Unresolved>,
                 none: seq<Unresolved>)
    requires Only(front, CycleDetected) && Only(due, DueDateViolation) && Only(far, NoSpaceForward) && none == []
    requires front == [] ==> a == []
    ensures Complains(a + front + due + far + none) <==> front != []
  {
    var u := a + front + due + far + none;
    if front != [] {
      assert front[0] in front;
      assert front[0] in u;
    } else {
      forall e | e in u ensures e.reason != CycleDetected { assert e in due || e in far; }
    }
  }

  /** A preview without a complaint, end to end: the schedule it leads to, with all its proposals
      to pull successors forward carried out as well, has no clash anywhere, provided all clashes
      of the input involved the changed task. */
  lemma PreviewIsClear(f: Frame, reverse: (int, int) -> int, horizon: int)
    requires WellFormed(f.c.ids, f.m0) && f.changed in f.m0 && UntouchedBut(f.m0, f.changed)
    requires forall x, y :: x in f.m0 && y in f.m0 && x != y && Clash(f.m0[x], f.m0[y])
               ==> x == f.changed || y == f.changed
    requires var z := Cascaded(f.c, f.m0, f.changed);
             !z.run.raised && !Complains(UnresolvedOf(f.c, z, f.changed, horizon))
    requires var m := Cascaded(f.c, f.m0, f.changed).run.m;
             WellFormed(f.c.ids, m) && f.changed in m ==> WithinFor(f.c.ids, m, reverse, f.changed)
    ensures var m := Cascaded(f.c, f.m0, f.changed).run.m;
            && WellFormed(f.c.ids, m) && f.changed in m
            && Clear(ApplyAll(m, PullsOf(f.c, m, f.changed, reverse)))
  {
    CascadeKeeps(f);
    ComplainsExactly(f, horizon);
    ConvergedIsClear(f);
    PulledIsClear(f.c.ids, Cascaded(f.c, f.m0, f.changed).run.m, f.changed, reverse);
  }
}
