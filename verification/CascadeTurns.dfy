/** A whole turn of a cascade as one move, and a whole run as waves of such turns. */
module CascadeTurns {
  import opened Wrappers
  import opened Snapshot
  import opened SnapshotOrder
  import opened Cascade
  import opened CascadeInvariant

  // ---------- what a turn is to do

  /** `x` stands in the way of `t`: it overlaps `t` on its equipment or, as a later task of the same
      order line, starts before `t` is over; and it was not pushed in this wave already. */
  ghost predicate InTheWay(r: Run, t: string, x: string) {
    && t in r.m && x in r.m && x != t && x !in r.processed
    && (Clash(r.m[x], r.m[t]) || (Follows(r.m[t], r.m[x]) && r.m[x].start < r.m[t].end))
  }

  /** What overlaps comes first, by start; then the others, by where they started originally. */
  ghost predicate ComesFirst(ids: seq<string>, r: Run, t: string, x: string, y: string) {
    && t in r.m && x in r.m && y in r.m
    && if Clash(r.m[x], r.m[t]) != Clash(r.m[y], r.m[t]) then Clash(r.m[x], r.m[t])
       else if Clash(r.m[x], r.m[t]) then
         r.m[x].start < r.m[y].start || (r.m[x].start == r.m[y].start && Precedes(ids, x, y))
       else
         || r.m[x].OriginalStart() < r.m[y].OriginalStart()
         || (r.m[x].OriginalStart() == r.m[y].OriginalStart() && Precedes(ids, x, y))
  }

  /** All that stands in the way of `t`, in order. */
  ghost predicate Queue(ids: seq<string>, r: Run, t: string, list: seq<string>) {
    && t in r.m && NoDuplicates(list) && (forall x :: x in list <==> InTheWay(r, t, x))
    && forall i, j :: 0 <= i < j < |list| ==> ComesFirst(ids, r, t, list[i], list[j])
  }

  /** A task that now starts at `a`, as long as before, and remembers where it first stood. */
  ghost function At(t: Task, a: int): Task {
    t.(start := a, end := a + (t.end - t.start),
       origin := if t.origin.Some? then t.origin else Some(Original(t.start, t.end, t.equipment)))
  }

  ghost function Written(before: Task, a: int, reason: PushReason): Push {
    Push(before.id, before.equipment, before.batch, before.start, before.end,
         a, a + (before.end - before.start), reason)
  }

  ghost predicate TasksMoved(r: Run, list: seq<string>, a: int, q: Run) {
    && q.m.Keys == r.m.Keys
    && forall x :: x in r.m ==> q.m[x] == if x in list then At(r.m[x], a) else r.m[x]
  }

  /** The entry for a task that made way for `t`. */
  ghost function EntryFor(r: Run, t: string, x: string, a: int): Push
    requires t in r.m && x in r.m
  {
    Written(r.m[x], a, if Clash(r.m[x], r.m[t]) then SameEquipmentConflict else SuccessorChain)
  }

  ghost predicate MovesTold(r: Run, t: string, list: seq<string>, a: int, q: Run) {
    && t in r.m && (forall x :: x in list ==> x in r.m)
    && |q.pushes| == |r.pushes| + |list| && q.pushes[..|r.pushes|] == r.pushes
    && forall i :: 0 <= i < |list| ==>
         list[i] in list && q.pushes[|r.pushes| + i] == EntryFor(r, t, list[i], a)
  }

  ghost predicate MovesCounted(r: Run, list: seq<string>, q: Run) {
    && (forall x :: CountOf(q.count, x) == CountOf(r.count, x) + if x in list then 1 else 0)
    && (forall x :: x in q.processed <==> x in r.processed || x in list)
    && q.next == r.next + list
  }

  /** `q` is `r` after all of `list` has been moved at once to where `t` ends, or where working time
      begins after that, and the journal and the counters have been told. */
  ghost predicate AllMoved(c: Setup, r: Run, t: string, list: seq<string>, q: Run) {
    && t in r.m && !q.raised
    && var a := c.advance(r.m[t].end);
       TasksMoved(r, list, a, q) && MovesTold(r, t, list, a, q) && MovesCounted(r, list, q)
  }

  // ---------- one loop as one move

  ghost function Way(r: Run, t: string): set<string> { set x | x in r.m && InTheWay(r, t, x) }

  /** Those of a list that stand in the way. */
  ghost function Waiting(r: Run, t: string, list: seq<string>): seq<string> {
    Select(list, Way(r, t))
  }

  lemma {:induction false} SelectSame(list: seq<string>, k1: set<string>, k2: set<string>)
    requires forall x :: x in list ==> (x in k1 <==> x in k2)
    ensures Select(list, k1) == Select(list, k2)
  {
    if list != [] {
      assert list[0] in list && forall x :: x in list[1..] ==> x in list;
      SelectSame(list[1..], k1, k2);
    }
  }

  /** `q` is `r` after at most one move, of `n`. */
  ghost predicate OneMoved(c: Setup, r: Run, t: string, n: string, q: Run) {
    AllMoved(c, r, t, if InTheWay(r, t, n) then [n] else [], q)
  }

  lemma StillWaiting(c: Setup, r: Run, t: string, list: seq<string>, q: Run)
    requires list != [] && NoDuplicates(list) && t !in list && OneMoved(c, r, t, list[0], q)
    ensures Waiting(q, t, list[1..]) == Waiting(r, t, list[1..])
    ensures Waiting(r, t, list) == (if InTheWay(r, t, list[0]) then [list[0]] else []) + Waiting(r, t, list[1..])
  {
    assert list[0] !in list[1..];
    forall x | x in list[1..] ensures InTheWay(q, t, x) <==> InTheWay(r, t, x) {}
    SelectSame(list[1..], Way(q, t), Way(r, t));
  }

  lemma ToldAddUp(r: Run, t: string, l1: seq<string>, a: int, q1: Run, l2: seq<string>, q: Run)
    requires MovesTold(r, t, l1, a, q1) && MovesTold(q1, t, l2, a, q)
    requires TasksMoved(r, l1, a, q1) && t !in l1 && forall x :: x in l2 ==> x !in l1
    ensures MovesTold(r, t, l1 + l2, a, q)
  {
    hide EntryFor, At;
    var list := l1 + l2;
    forall i | 0 <= i < |list| ensures list[i] in r.m && q.pushes[|r.pushes| + i] == EntryFor(r, t, list[i], a) {
      if i < |l1| {
        assert q.pushes[|r.pushes| + i] == q.pushes[..|q1.pushes|][|r.pushes| + i];
      } else {
        var x := l2[i - |l1|];
        assert list[i] == x && x in l2 && q.pushes[|q1.pushes| + (i - |l1|)] == EntryFor(q1, t, x, a);
        SameEntry(r, t, l1, a, q1, x);
      }
    }
  }

  lemma SameEntry(r: Run, t: string, l1: seq<string>, a: int, q1: Run, x: string)
    requires t in r.m && TasksMoved(r, l1, a, q1) && t !in l1 && x !in l1 && x in r.m
    ensures EntryFor(q1, t, x, a) == EntryFor(r, t, x, a)
  {
  }

  lemma MovesAddUp(c: Setup, r: Run, t: string, l1: seq<string>, q1: Run, l2: seq<string>, q: Run)
    requires AllMoved(c, r, t, l1, q1) && AllMoved(c, q1, t, l2, q) && t !in l1
    requires forall x :: x in l2 ==> x !in l1
    ensures AllMoved(c, r, t, l1 + l2, q)
  {
    hide MovesTold, MovesCounted, At;
    assert q1.m[t] == r.m[t];
    ToldAddUp(r, t, l1, c.advance(r.m[t].end), q1, l2, q);
    CountedAddUp(r, l1, q1, l2, q);
  }

  lemma CountedAddUp(r: Run, l1: seq<string>, q1: Run, l2: seq<string>, q: Run)
    requires MovesCounted(r, l1, q1) && MovesCounted(q1, l2, q) && forall x :: x in l2 ==> x !in l1
    ensures MovesCounted(r, l1 + l2, q)
  {
    hide CountOf;
  }

  lemma PushMoves(c: Setup, r: Run, t: string, n: string, reason: PushReason)
    requires t in r.m && InTheWay(r, t, n) && r.m[n].id == n && WellFormed(c.ids, r.m)
    requires reason == if Clash(r.m[n], r.m[t]) then SameEquipmentConflict else SuccessorChain
    ensures var q := PushTo(c, r, n, r.m[t].end, reason);
            && (q.raised <==> r.m[n].start == c.advance(r.m[t].end))
            && (!q.raised ==> AllMoved(c, r, t, [n], q) && WellFormed(c.ids, q.m))
  {
    hide Clash;
  }

  lemma NothingMoves(c: Setup, r: Run, t: string)
    requires t in r.m && !r.raised
    ensures AllMoved(c, r, t, [], r)
  {
  }

  /** What makes a turn fail: a task in the way that already starts where it would be pushed. */
  ghost predicate Refused(c: Setup, r: Run, t: string, list: seq<string>) {
    t in r.m && exists x :: x in list && x in r.m && r.m[x].start == c.advance(r.m[t].end)
  }

  lemma OneOverlap(c: Setup, r: Run, t: string, n: string)
    requires WellFormed(c.ids, r.m) && t in r.m && n in r.m && n != t && !r.raised && Clash(r.m[n], r.m[t])
    ensures var q := OverlapStep(c, r, t, n);
            && (q.raised <==> InTheWay(r, t, n) && r.m[n].start == c.advance(r.m[t].end))
            && (!q.raised ==> OneMoved(c, r, t, n, q) && WellFormed(c.ids, q.m))
  {
    hide AllMoved, PushTo, PrevCandidate;
    if InTheWay(r, t, n) {
      PrevNeverWins(c.ids, r.m, r.m[n], r.m[t].end);
      PushMoves(c, r, t, n, SameEquipmentConflict);
    } else {
      NothingMoves(c, r, t);
    }
  }

  lemma OneSuccessor(c: Setup, r: Run, t: string, n: string)
    requires WellFormed(c.ids, r.m) && t in r.m && n in r.m && n != t && !r.raised && Follows(r.m[t], r.m[n])
    requires n in r.processed || !Clash(r.m[n], r.m[t])
    ensures var q := SuccessorStep(c, r, t, n);
            && (q.raised <==> InTheWay(r, t, n) && r.m[n].start == c.advance(r.m[t].end))
            && (!q.raised ==> OneMoved(c, r, t, n, q) && WellFormed(c.ids, q.m))
  {
    hide AllMoved, PushTo, PrevCandidate, Follows, Clash;
    PrevNeverWins(c.ids, r.m, r.m[n], r.m[t].end);
    if InTheWay(r, t, n) { PushMoves(c, r, t, n, SuccessorChain); } else { NothingMoves(c, r, t); }
  }

  /** What the loops ask of their lists. */
  ghost predicate Fit(c: Setup, r: Run, t: string, list: seq<string>, clashing: bool) {
    && WellFormed(c.ids, r.m) && t in r.m && !r.raised && NoDuplicates(list) && t !in list
    && forall x :: x in list ==>
         x in r.m && if clashing then Clash(r.m[x], r.m[t])
                     else Follows(r.m[t], r.m[x]) && (x in r.processed || !Clash(r.m[x], r.m[t]))
  }

  lemma StillFit(c: Setup, r: Run, t: string, list: seq<string>, clashing: bool, q: Run)
    requires Fit(c, r, t, list, clashing) && list != [] && OneMoved(c, r, t, list[0], q) && WellFormed(c.ids, q.m)
    ensures Fit(c, q, t, list[1..], clashing)
  {
    hide Clash, Follows, MovesTold, InTheWay, CountOf;
    assert list[0] !in list[1..] && forall x :: x in list[1..] ==> x in list;
    assert q.m[t] == r.m[t];
  }

  /** How a loop ends. */
  ghost predicate LoopDone(c: Setup, r: Run, t: string, list: seq<string>, q: Run) {
    && (q.raised <==> Refused(c, r, t, Waiting(r, t, list)))
    && (!q.raised ==> AllMoved(c, r, t, Waiting(r, t, list), q) && WellFormed(c.ids, q.m))
  }

  lemma LoopBegins(c: Setup, r: Run, t: string)
    requires t in r.m && !r.raised && WellFormed(c.ids, r.m)
    ensures LoopDone(c, r, t, [], r)
  {
  }

  /** One step and then the rest of a loop. */
  lemma LoopStep(c: Setup, r: Run, t: string, list: seq<string>, q: Run, end: Run)
    requires list != [] && t in r.m && NoDuplicates(list) && t !in list && list[0] in r.m
    requires q.raised <==> InTheWay(r, t, list[0]) && r.m[list[0]].start == c.advance(r.m[t].end)
    requires if q.raised then end == q else OneMoved(c, r, t, list[0], q) && LoopDone(c, q, t, list[1..], end)
    ensures LoopDone(c, r, t, list, end)
  {
    hide InTheWay, TasksMoved, MovesTold, MovesCounted, Refused, Waiting, NoDuplicates;
    var n, rest := list[0], Waiting(r, t, list[1..]);
    var head := if InTheWay(r, t, n) then [n] else [];
    WaitingMeans(r, t, list);
    if q.raised {
      RefusedAtHead(c, r, t, n, rest);
    } else {
      StillWaiting(c, r, t, list, q);
      RefusedLater(c, r, t, head, q, rest);
      if !end.raised { MovesAddUp(c, r, t, head, q, rest, end); }
    }
  }

  lemma WaitingMeans(r: Run, t: string, list: seq<string>)
    requires NoDuplicates(list) && list != []
    ensures Waiting(r, t, list) == (if InTheWay(r, t, list[0]) then [list[0]] else []) + Waiting(r, t, list[1..])
    ensures forall x :: x in Waiting(r, t, list[1..]) ==> x in list && x != list[0] && InTheWay(r, t, x)
  {
    hide InTheWay;
    SelectMeans(list[1..], Way(r, t));
    assert list[0] !in list[1..] && forall x :: x in list[1..] ==> x in list;
    assert InTheWay(r, t, list[0]) ==> list[0] in r.m by { OnlyTasks(r, t, list[0]); }
  }

  lemma OnlyTasks(r: Run, t: string, x: string)
    ensures InTheWay(r, t, x) ==> x in r.m
  {
  }

  lemma RefusedAtHead(c: Setup, r: Run, t: string, n: string, rest: seq<string>)
    requires t in r.m && n in r.m && r.m[n].start == c.advance(r.m[t].end)
    ensures Refused(c, r, t, [n] + rest)
  {
    assert n in [n] + rest;
  }

  lemma RefusedLater(c: Setup, r: Run, t: string, head: seq<string>, q: Run, rest: seq<string>)
    requires AllMoved(c, r, t, head, q) && t !in head
    requires forall x :: x in head ==> x in r.m && r.m[x].start != c.advance(r.m[t].end)
    requires forall x :: x in rest ==> x !in head
    ensures Refused(c, q, t, rest) <==> Refused(c, r, t, head + rest)
  {
    hide MovesTold, MovesCounted, At;
    assert q.m[t] == r.m[t];
    if Refused(c, r, t, head + rest) {
      var x :| x in head + rest && x in r.m && r.m[x].start == c.advance(r.m[t].end);
      assert x in rest && q.m[x] == r.m[x];
    }
    if Refused(c, q, t, rest) {
      var x :| x in rest && x in q.m && q.m[x].start == c.advance(q.m[t].end);
      assert x in head + rest && q.m[x] == r.m[x];
    }
  }

  lemma {:induction false} OverlapsMove(c: Setup, r: Run, t: string, list: seq<string>)
    requires Fit(c, r, t, list, true)
    ensures LoopDone(c, r, t, list, PushOverlapping(c, r, t, list))
    decreases |list|
  {
    hide OneMoved, LoopDone, OverlapStep, InTheWay;
    if list == [] {
      LoopBegins(c, r, t);
    } else {
      var q := OverlapStep(c, r, t, list[0]);
      assert list[0] in list;
      OneOverlap(c, r, t, list[0]);
      if !q.raised {
        StillFit(c, r, t, list, true, q);
        OverlapsMove(c, q, t, list[1..]);
      }
      assert PushOverlapping(c, r, t, list) == PushOverlapping(c, q, t, list[1..]);
      LoopStep(c, r, t, list, q, PushOverlapping(c, r, t, list));
    }
  }

  lemma {:induction false} SuccessorsMove(c: Setup, r: Run, t: string, list: seq<string>)
    requires Fit(c, r, t, list, false)
    ensures LoopDone(c, r, t, list, PushSuccessors(c, r, t, list))
    decreases |list|
  {
    hide OneMoved, LoopDone, SuccessorStep, InTheWay;
    if list == [] {
      LoopBegins(c, r, t);
    } else {
      var q := SuccessorStep(c, r, t, list[0]);
      assert list[0] in list;
      OneSuccessor(c, r, t, list[0]);
      if !q.raised {
        StillFit(c, r, t, list, false, q);
        SuccessorsMove(c, q, t, list[1..]);
      }
      assert PushSuccessors(c, r, t, list) == PushSuccessors(c, q, t, list[1..]);
      LoopStep(c, r, t, list, q, PushSuccessors(c, r, t, list));
    }
  }

  // ---------- both loops as one move

  ghost function Apart(r: Run, t: string): set<string> {
    set x | x in r.m && InTheWay(r, t, x) && t in r.m && !Clash(r.m[x], r.m[t])
  }

  /** Those of a list that stand in the way but do not overlap `t`. */
  ghost function Behind(r: Run, t: string, list: seq<string>): seq<string> {
    Select(list, Apart(r, t))
  }

  /** Where a turn finds what it moves. */
  ghost function OverlapList(c: Setup, r: Run, t: string): seq<string>
    requires t in r.m
  {
    SameEquipmentOverlapping(c.ids, r.m, r.m[t])
  }

  ghost function SuccessorList(c: Setup, r: Run, t: string): seq<string>
    requires t in r.m
  {
    SuccessorsByOriginalOrder(c.ids, r.m, r.m[t])
  }

  lemma SameSuccessors(c: Setup, r: Run, t: string, list: seq<string>, a: int, q: Run)
    requires t in r.m && TasksMoved(r, list, a, q) && t !in list
    ensures SuccessorList(c, q, t) == SuccessorList(c, r, t)
  {
    assert q.m[t] == r.m[t];
    forall i | i in r.m ensures q.m[i].OriginalStart() == r.m[i].OriginalStart() && q.m[i].id == r.m[i].id
                             && (Follows(r.m[t], q.m[i]) <==> Follows(r.m[t], r.m[i])) {}
    assert OriginalStarts(q.m) == OriginalStarts(r.m);
    var k1 := set i | i in q.m && i != r.m[t].id && Follows(r.m[t], q.m[i]);
    var k2 := set i | i in r.m && i != r.m[t].id && Follows(r.m[t], r.m[i]);
    assert k1 == k2;
  }

  /** After the overlaps, those still in the way are those that did not overlap. */
  lemma StillBehind(c: Setup, r: Run, t: string, q: Run)
    requires WellFormed(c.ids, r.m) && t in r.m && AllMoved(c, r, t, Waiting(r, t, OverlapList(c, r, t)), q)
    ensures var list := SuccessorList(c, r, t); Waiting(q, t, list) == Behind(r, t, list)
    ensures forall x :: x in SuccessorList(c, r, t) ==>
              x in q.m && t in q.m && (x in q.processed || !Clash(q.m[x], q.m[t]))
  {
    var first, list := Waiting(r, t, OverlapList(c, r, t)), SuccessorList(c, r, t);
    ListsOfTask(c.ids, r.m, t);
    SelectMeans(OverlapList(c, r, t), Way(r, t));
    assert q.m[t] == r.m[t];
    forall x | x in list
      ensures InTheWay(q, t, x) <==> InTheWay(r, t, x) && !Clash(r.m[x], r.m[t])
      ensures x in q.processed || !Clash(q.m[x], q.m[t])
    {
      assert x in first <==> InTheWay(r, t, x) && Clash(r.m[x], r.m[t]);
    }
    SelectSame(list, Way(q, t), Apart(r, t));
  }

  /** Everything that stands in the way of `t`, in the order in which a turn finds it. */
  ghost function WholeQueue(c: Setup, r: Run, t: string): seq<string>
    requires t in r.m
  {
    Waiting(r, t, OverlapList(c, r, t)) + Behind(r, t, SuccessorList(c, r, t))
  }

  lemma QueueMembers(c: Setup, r: Run, t: string)
    requires WellFormed(c.ids, r.m) && t in r.m
    ensures var first, second := Waiting(r, t, OverlapList(c, r, t)), Behind(r, t, SuccessorList(c, r, t));
            && NoDuplicates(first) && NoDuplicates(second)
            && (forall x :: x in first <==> InTheWay(r, t, x) && Clash(r.m[x], r.m[t]))
            && (forall x :: x in second <==> InTheWay(r, t, x) && !Clash(r.m[x], r.m[t]))
            && (forall x :: x in first || x in second ==> x in r.m && x != t)
  {
    ListsOfTask(c.ids, r.m, t);
    SelectMeans(OverlapList(c, r, t), Way(r, t));
    SelectMeans(SuccessorList(c, r, t), Apart(r, t));
  }

  lemma QueueRanked(c: Setup, r: Run, t: string)
    requires t in r.m
    ensures Ranked(Waiting(r, t, OverlapList(c, r, t)), Starts(r.m), c.ids)
    ensures Ranked(Behind(r, t, SuccessorList(c, r, t)), OriginalStarts(r.m), c.ids)
  {
    hide Ranked, InTheWay, Clash, SameEquipmentOverlapping, SuccessorsByOriginalOrder;
    OverlappingRanked(c.ids, r.m, r.m[t]);
    SelectRanked(OverlapList(c, r, t), Way(r, t), Starts(r.m), c.ids);
    SuccessorsRanked(c.ids, r.m, r.m[t]);
    SelectRanked(SuccessorList(c, r, t), Apart(r, t), OriginalStarts(r.m), c.ids);
  }

  lemma QueueInOrder(c: Setup, r: Run, t: string)
    requires WellFormed(c.ids, r.m) && t in r.m
    ensures Queue(c.ids, r, t, WholeQueue(c, r, t))
  {
    hide InTheWay, Waiting, Behind, Precedes, Clash;
    QueueMembers(c, r, t);
    QueueRanked(c, r, t);
    var first, second := Waiting(r, t, OverlapList(c, r, t)), Behind(r, t, SuccessorList(c, r, t));
    var list := first + second;
    forall x | x in list ensures x in r.m { OnlyTasks(r, t, x); }
    forall i, j | 0 <= i < j < |list| ensures list[i] != list[j] && ComesFirst(c.ids, r, t, list[i], list[j]) {
      assert list[i] in list && list[j] in list;
      if j < |first| {
        assert list[i] in first && list[j] in first;
        assert Ranks(Starts(r.m), c.ids, first[i], first[j]);
      } else if |first| <= i {
        assert list[i] in second && list[j] in second;
        assert Ranks(OriginalStarts(r.m), c.ids, second[i - |first|], second[j - |first|]);
      } else {
        assert list[i] in first && list[j] in second;
      }
    }
  }

  /** The turn of `t`, as one move of all that stands in its way. */
  ghost predicate Turn(c: Setup, r: Run, t: string, q: Run) {
    exists list :: Queue(c.ids, r, t, list) && TurnOver(c, r, t, list, q)
  }

  ghost predicate TurnOver(c: Setup, r: Run, t: string, list: seq<string>, q: Run) {
    (q.raised <==> Refused(c, r, t, list)) && (!q.raised ==> AllMoved(c, r, t, list, q))
  }

  /** Both loops over a task of the frontier, with the candidates they weigh, the moves one by one and
      the check of what was pushed already, come to one move: all that overlaps the task and all its
      successors that start before it is over are put where it ends, unless they were pushed in this
      wave.  It fails exactly when one of them stands there already. */
  lemma TurnIsOneMove(c: Setup, r: Run, t: string)
    requires WellFormed(c.ids, r.m) && t in r.m && !r.raised
    ensures var q := ProcessTask(c, r, t);
            Turn(c, r, t, q) && (!q.raised ==> WellFormed(c.ids, q.m))
  {
    hide Queue, AllMoved, PushOverlapping, PushSuccessors, Refused, Clash, Follows, InTheWay, Waiting, Behind;
    var first, second := Waiting(r, t, OverlapList(c, r, t)), Behind(r, t, SuccessorList(c, r, t));
    QueueInOrder(c, r, t);
    QueueMembers(c, r, t);
    OverlapsFit(c, r, t);
    OverlapsMove(c, r, t, OverlapList(c, r, t));
    var r1, q := AfterOverlaps(c, r, t), ProcessTask(c, r, t);
    if r1.raised {
      RaisedStays(c, r1, t);
      RefusedInFront(c, r, t, first, second);
    } else {
      SuccessorsFit(c, r, t, r1);
      SuccessorsMove(c, r1, t, SuccessorList(c, r, t));
      TwoMoves(c, r, t, first, r1, second, q);
    }
    assert TurnOver(c, r, t, first + second, q);
  }

  lemma OverlapsFit(c: Setup, r: Run, t: string)
    requires WellFormed(c.ids, r.m) && t in r.m && !r.raised
    ensures Fit(c, r, t, OverlapList(c, r, t), true)
  {
    ListsOfTask(c.ids, r.m, t);
  }

  lemma RaisedStays(c: Setup, r: Run, t: string)
    requires r.raised
    ensures AfterSuccessors(c, r, t) == r
  {
  }

  lemma RefusedInFront(c: Setup, r: Run, t: string, first: seq<string>, second: seq<string>)
    requires Refused(c, r, t, first)
    ensures Refused(c, r, t, first + second)
  {
    var x :| x in first && x in r.m && r.m[x].start == c.advance(r.m[t].end);
    assert x in first + second;
  }

  lemma SuccessorsFit(c: Setup, r: Run, t: string, q: Run)
    requires WellFormed(c.ids, r.m) && t in r.m && WellFormed(c.ids, q.m)
    requires AllMoved(c, r, t, Waiting(r, t, OverlapList(c, r, t)), q)
    ensures t in q.m && SuccessorList(c, q, t) == SuccessorList(c, r, t) && Fit(c, q, t, SuccessorList(c, r, t), false)
    ensures Waiting(q, t, SuccessorList(c, r, t)) == Behind(r, t, SuccessorList(c, r, t))
  {
    hide MovesTold, MovesCounted, Clash, Follows, Waiting, Behind;
    QueueMembers(c, r, t);
    assert t !in Waiting(r, t, OverlapList(c, r, t));
    SameSuccessors(c, r, t, Waiting(r, t, OverlapList(c, r, t)), c.advance(r.m[t].end), q);
    StillBehind(c, r, t, q);
    ListsOfTask(c.ids, q.m, t);
  }

  lemma TwoMoves(c: Setup, r: Run, t: string, first: seq<string>, r1: Run, second: seq<string>, q: Run)
    requires t in r.m && AllMoved(c, r, t, first, r1) && !Refused(c, r, t, first) && t !in first
    requires (forall x :: x in first ==> x in r.m) && forall x :: x in second ==> x !in first
    requires q.raised <==> Refused(c, r1, t, second)
    requires !q.raised ==> AllMoved(c, r1, t, second, q)
    ensures TurnOver(c, r, t, first + second, q)
  {
    hide AllMoved;
    RefusedLater(c, r, t, first, r1, second);
    if !q.raised { MovesAddUp(c, r, t, first, r1, second, q); }
  }
}
