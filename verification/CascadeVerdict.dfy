/** What the verdict of a preview says of the tasks. */
module CascadeVerdict {
  import opened Snapshot
  import opened Cascade
  import opened CascadeInvariant
  import opened CascadeLaws
  import opened Pull
  import opened CascadePlan

  /** The task was moved and ends after its due date. */
  ghost predicate EndsLate(t: Task) { t.origin.Some? && t.due.Some? && t.end > t.due.value }

  /** The task was moved and ends after the last instant planned for. */
  ghost predicate EndsBeyond(t: Task, horizon: int) { t.origin.Some? && t.end > horizon }

  ghost predicate About(e: Unresolved, m: Schedule) {
    e.id in m && e.equipment == m[e.id].equipment && e.batch == m[e.id].batch
  }

  /** Why an entry is in the verdict of a run that left the tasks as in `m`. */
  ghost predicate Deserved(z: Final, changed: string, horizon: int, e: Unresolved) {
    var m := z.run.m;
    match e.reason
    case DueDateViolation => About(e, m) && EndsLate(m[e.id])
    case NoSpaceForward => About(e, m) && EndsBeyond(m[e.id], horizon)
    case CycleDetected => || (About(e, m) && e.id in z.frontier)
                          || (z.truncated && e == Unresolved(changed, "", "", CycleDetected))
  }

  lemma {:induction false} EntriesAre(list: seq<string>, m: Schedule, reason: UnresolvedReason)
    ensures forall e :: e in Entries(list, m, reason) <==> e.id in list && About(e, m) && e.reason == reason
    ensures NoDuplicates(list) ==> NoDuplicates(Entries(list, m, reason))
  {
    if list != [] {
      EntriesAre(list[1..], m, reason);
      assert list == [list[0]] + list[1..];
    }
  }

  lemma MovedTasks(ids: seq<string>, m: Schedule, keep: set<string>)
    requires WellFormed(ids, m)
    ensures forall x :: x in Select(ChangedTasks(ids, m), keep) <==> x in m && m[x].origin.Some? && x in keep
    ensures NoDuplicates(Select(ChangedTasks(ids, m), keep))
  {
    SelectMeans(ids, set i | i in m && m[i].origin.Some?);
    SelectMeans(ChangedTasks(ids, m), keep);
  }

  lemma DueDateMeans(ids: seq<string>, m: Schedule)
    requires WellFormed(ids, m)
    ensures forall e :: e in ValidateDueDate(ids, m) <==>
                        e.reason == DueDateViolation && About(e, m) && EndsLate(m[e.id])
    ensures NoDuplicates(ValidateDueDate(ids, m))
  {
    var late := set i | i in m && m[i].due.Some? && m[i].end > m[i].due.value;
    MovedTasks(ids, m, late);
    EntriesAre(Select(ChangedTasks(ids, m), late), m, DueDateViolation);
  }

  lemma HorizonMeans(ids: seq<string>, m: Schedule, horizon: int)
    requires WellFormed(ids, m)
    ensures forall e :: e in ValidateHorizon(ids, m, horizon) <==>
                        e.reason == NoSpaceForward && About(e, m) && EndsBeyond(m[e.id], horizon)
    ensures NoDuplicates(ValidateHorizon(ids, m, horizon))
  {
    var far := set i | i in m && m[i].end > horizon;
    MovedTasks(ids, m, far);
    EntriesAre(Select(ChangedTasks(ids, m), far), m, NoSpaceForward);
  }

  lemma Parts(a: seq<Unresolved>, front: seq<Unresolved>, due: seq<Unresolved>, far: seq<Unresolved>)
    requires forall e :: e in a || e in front ==> e.reason == CycleDetected
    requires Only(due, DueDateViolation) && Only(far, NoSpaceForward) && NoDuplicates(due) && NoDuplicates(far)
    ensures var u := a + front + due + far;
            && (forall e :: e in u <==> e in a || e in front || e in due || e in far)
            && (forall i, j :: 0 <= i < j < |u| && u[i] == u[j] ==> u[i].reason == CycleDetected)
  {
    var u := a + front + due + far;
    var n, k := |a| + |front|, |a| + |front| + |due|;
    assert forall i :: 0 <= i < n ==> u[i] in a || u[i] in front;
    assert forall i :: n <= i < k ==> u[i] == due[i - n] && due[i - n] in due;
    assert forall i :: k <= i < |u| ==> u[i] == far[i - k] && far[i - k] in far;
  }

  lemma HowItEnds(f: Frame)
    requires WellFormed(f.c.ids, f.m0) && f.changed in f.m0 && UntouchedBut(f.m0, f.changed)
    requires !Cascaded(f.c, f.m0, f.changed).run.raised
    ensures var z := Cascaded(f.c, f.m0, f.changed);
            && WellFormed(f.c.ids, z.run.m) && f.changed in z.run.m && (z.truncated ==> z.frontier != [])
            && forall x :: x in z.frontier ==> x in z.run.m
  {
    hide Cascaded, WellFormed, Replay, Journal, Marked, Recorded, Safe, Ordered, Anchored;
    CascadeKeeps(f);
  }

  /** The verdict of a preview lists exactly what is wrong with it: each moved task that ends after its
      due date, each that ends after the last instant planned for, each that was left to be looked at
      when the waves were used up, and the changed task if the run was cut off.  Late and distant tasks
      are listed once. */
  lemma VerdictMeans(f: Frame, horizon: int)
    requires WellFormed(f.c.ids, f.m0) && f.changed in f.m0 && UntouchedBut(f.m0, f.changed)
    requires !Cascaded(f.c, f.m0, f.changed).run.raised
    ensures var z := Cascaded(f.c, f.m0, f.changed);
            var u := UnresolvedOf(f.c, z, f.changed, horizon);
            && (forall e :: e in u <==> Deserved(z, f.changed, horizon, e))
            && (forall i, j :: 0 <= i < j < |u| && u[i] == u[j] ==> u[i].reason == CycleDetected)
  {
    hide Cascaded, ValidateDueDate, ValidateHorizon, Entries, ValidateCycles, WellFormed, UntouchedBut;
    HowItEnds(f);
    ComplainsExactly(f, horizon);
    var z := Cascaded(f.c, f.m0, f.changed);
    var m := z.run.m;
    var a := if z.truncated then BareEntries([f.changed]) else [];
    var front, due, far := Entries(z.frontier, m, CycleDetected), ValidateDueDate(f.c.ids, m),
                           ValidateHorizon(f.c.ids, m, horizon);
    BareMeans(f.changed);
    EntriesAre(z.frontier, m, CycleDetected);
    DueDateMeans(f.c.ids, m);
    HorizonMeans(f.c.ids, m, horizon);
    Parts(a, front, due, far);
    assert UnresolvedOf(f.c, z, f.changed, horizon) == a + front + due + far;
  }

  lemma BareMeans(id: string)
    ensures BareEntries([id]) == [Unresolved(id, "", "", CycleDetected)]
  {
  }

  /** So a preview can be carried out without further ado exactly when the run came to its own end and
      no moved task ends after its due date or after the last instant planned for. */
  lemma ResolvesExactly(f: Frame, reverse: (int, int) -> int, horizon: int)
    requires WellFormed(f.c.ids, f.m0) && f.changed in f.m0 && UntouchedBut(f.m0, f.changed)
    requires !Cascaded(f.c, f.m0, f.changed).run.raised
    ensures var z := Cascaded(f.c, f.m0, f.changed);
            && WellFormed(f.c.ids, z.run.m) && f.changed in z.run.m
            && var p := PreviewOf(f.c, z, f.changed, reverse, horizon);
            && (p.canAutoResolve <==>
                  && z.frontier == []
                  && forall x :: x in z.run.m && z.run.m[x].origin.Some? ==>
                       (z.run.m[x].due.Some? ==> z.run.m[x].end <= z.run.m[x].due.value) && z.run.m[x].end <= horizon)
            && p.pushes == z.run.pushes && p.pulls == ProposalsFor(f.c.ids, z.run.m, reverse, f.changed)
            && p.iterCount == z.wavesUsed && p.truncated == z.truncated
  {
    hide Cascaded, UnresolvedOf, WellFormed, UntouchedBut;
    HowItEnds(f);
    VerdictMeans(f, horizon);
    var z := Cascaded(f.c, f.m0, f.changed);
    NothingWrong(z, f.changed, horizon, UnresolvedOf(f.c, z, f.changed, horizon));
  }

  lemma FrontierIsWrong(z: Final, changed: string, horizon: int, u: seq<Unresolved>)
    requires forall e :: e in u <==> Deserved(z, changed, horizon, e)
    requires z.frontier != [] && forall x :: x in z.frontier ==> x in z.run.m
    ensures u != []
  {
    var m, x := z.run.m, z.frontier[0];
    assert x in z.frontier;
    assert Unresolved(x, m[x].equipment, m[x].batch, CycleDetected) in u;
  }

  lemma NothingWrong(z: Final, changed: string, horizon: int, u: seq<Unresolved>)
    requires forall e :: e in u <==> Deserved(z, changed, horizon, e)
    requires (z.truncated ==> z.frontier != []) && forall x :: x in z.frontier ==> x in z.run.m
    ensures u == [] <==>
            && z.frontier == []
            && forall x :: x in z.run.m ==> !EndsLate(z.run.m[x]) && !EndsBeyond(z.run.m[x], horizon)
  {
    var m := z.run.m;
    if u == [] {
      if z.frontier != [] { FrontierIsWrong(z, changed, horizon, u); }
      forall x | x in m ensures !EndsLate(m[x]) && !EndsBeyond(m[x], horizon) {
        assert Unresolved(x, m[x].equipment, m[x].batch, DueDateViolation) !in u;
        assert Unresolved(x, m[x].equipment, m[x].batch, NoSpaceForward) !in u;
      }
    } else {
      assert u[0] in u;
    }
  }
}
