/** Precedence between two moved tasks is not guaranteed: a run that converges and breaks it. */
module CascadeExample {
  import opened Wrappers
  import opened Snapshot
  import opened Cascade
  import opened CascadeInvariant
  import opened CascadeLaws

  /** The names of four tasks. */
  datatype Names = Names(c: string, a: string, b: string, s: string)

  predicate Distinct4(n: Names) {
    n.c != n.a && n.c != n.b && n.c != n.s && n.a != n.b && n.a != n.s && n.b != n.s
  }

  /** One order line: C, then A and B side by side, then S, each on a machine of its own.  C has
      just been lengthened from [0, 9) to [0, 20). */
  function Line(id: string, start: int, end: int, origin: Option<Original>): Task {
    Task(id, id, start, end, id, Some("order"), Some(1), None, origin)
  }

  function Ids(n: Names): seq<string> { [n.c, n.a, n.b, n.s] }

  function At(n: Names, c: Task, a: Task, b: Task, s: Task): Schedule {
    map[n.c := c, n.a := a, n.b := b, n.s := s]
  }

  function C(n: Names): Task { Line(n.c, 0, 20, Some(Original(0, 9, n.c))) }
  function A0(n: Names): Task { Line(n.a, 9, 26, None) }
  function B0(n: Names): Task { Line(n.b, 10, 30, None) }
  function S0(n: Names): Task { Line(n.s, 30, 40, None) }
  function A1(n: Names): Task { Line(n.a, 20, 37, Some(Original(9, 26, n.a))) }
  function B1(n: Names): Task { Line(n.b, 20, 40, Some(Original(10, 30, n.b))) }
  function S1(n: Names): Task { Line(n.s, 37, 47, Some(Original(30, 40, n.s))) }

  function Same(n: Names): Setup { Setup(Ids(n), x => x) }

  lemma Shape(n: Names, c: Task, a: Task, b: Task, s: Task)
    requires Distinct4(n) && c.id == n.c && a.id == n.a && b.id == n.b && s.id == n.s
    ensures WellFormed(Ids(n), At(n, c, a, b, s))
  {
  }

  lemma Lookup(n: Names, m: Schedule, c: Task, a: Task, b: Task, s: Task)
    requires Distinct4(n) && m == At(n, c, a, b, s)
    ensures n.c in m && n.a in m && n.b in m && n.s in m
    ensures m[n.c] == c && m[n.a] == a && m[n.b] == b && m[n.s] == s
  {
  }

  lemma Update(n: Names, m: Schedule, c: Task, a: Task, b: Task, s: Task, t: Task)
    requires Distinct4(n) && m == At(n, c, a, b, s)
    ensures m[n.a := t] == At(n, c, t, b, s) && m[n.b := t] == At(n, c, a, t, s) && m[n.s := t] == At(n, c, a, b, t)
  {
  }

  /** With one task a machine there are no clashes. */
  lemma NoClashes(n: Names, m: Schedule, r: Run, t: string)
    requires Distinct4(n)
    requires WellFormed(Ids(n), m) && t in m && r.m == m && !r.raised
    requires forall x :: x in m ==> m[x].equipment == x
    ensures AfterOverlaps(Same(n), r, t) == r
  {
    ListsOfTask(Ids(n), m, t);
    var list := SameEquipmentOverlapping(Ids(n), m, m[t]);
    if list != [] { FirstElement(list); }
  }

  lemma OnlyS(n: Names, list: seq<string>)
    requires NoDuplicates(list) && forall x :: x in list <==> x == n.s
    ensures list == [n.s]
  {
    assert n.s in list && list[0] in list;
    if 1 < |list| { SecondElement(list); }
  }

  lemma SecondElement(list: seq<string>)
    requires 1 < |list|
    ensures list[1] in list
  {
  }

  lemma Empty(list: seq<string>)
    requires forall x :: x !in list
    ensures list == []
  {
    if list != [] { FirstElement(list); }
  }

  lemma FirstElement(list: seq<string>)
    requires list != []
    ensures list[0] in list
  {
  }

  lemma SuccessorsOfC(n: Names, m: Schedule)
    requires Distinct4(n)
    requires m == At(n, C(n), A0(n), B0(n), S0(n))
    ensures SuccessorsByOriginalOrder(Ids(n), m, C(n)) == [n.a, n.b, n.s]
  {
    var keep := set i | i in m && i != n.c && Follows(C(n), m[i]);
    assert keep == {n.a, n.b, n.s};
    var key := OriginalStarts(m);
    assert Select([n.s], keep) == [n.s] by { assert [n.s][1..] == []; }
    assert Select([n.b, n.s], keep) == [n.b, n.s] by { assert [n.b, n.s][1..] == [n.s]; }
    assert Select([n.a, n.b, n.s], keep) == [n.a, n.b, n.s] by { assert [n.a, n.b, n.s][1..] == [n.b, n.s]; }
    assert Select(Ids(n), keep) == [n.a, n.b, n.s] by { assert Ids(n)[1..] == [n.a, n.b, n.s]; }
    assert SortByKey([n.s], key) == [n.s] by { assert [n.s][1..] == []; }
    assert SortByKey([n.b, n.s], key) == [n.b, n.s] by { assert [n.b, n.s][1..] == [n.s]; }
    assert SortByKey([n.a, n.b, n.s], key) == [n.a, n.b, n.s] by { assert [n.a, n.b, n.s][1..] == [n.b, n.s]; }
  }

  /** A successor that starts too early is pushed to the end of the task it follows. */
  lemma IsPushed(n: Names, r: Run, t: string, s: string, moved: Task)
    requires WellFormed(Ids(n), r.m)
    requires t in r.m && s in r.m && s !in r.processed && r.m[s].start < r.m[t].end
    requires moved == r.m[s].MovedTo(r.m[t].end, r.m[t].end + r.m[s].end - r.m[s].start, None)
    ensures var q := SuccessorStep(Same(n), r, t, s);
            && q.m == r.m[s := moved] && q.next == r.next + [s] && q.processed == r.processed + {s}
            && !q.raised && |q.pushes| == |r.pushes| + 1
  {
    PrevNeverWins(Ids(n), r.m, r.m[s], r.m[t].end);
  }

  lemma IsKept(n: Names, r: Run, t: string, s: string)
    requires WellFormed(Ids(n), r.m)
    requires t in r.m && s in r.m && (s in r.processed || r.m[t].end <= r.m[s].start)
    ensures SuccessorStep(Same(n), r, t, s) == r
  {
    PrevNeverWins(Ids(n), r.m, r.m[s], r.m[t].end);
  }

  lemma Unroll(n: Names, r: Run, t: string, s: string, rest: seq<string>)
    requires !r.raised
    ensures PushSuccessors(Same(n), r, t, [s] + rest)
              == PushSuccessors(Same(n), SuccessorStep(Same(n), r, t, s), t, rest)
  {
    assert ([s] + rest)[1..] == rest;
  }

  lemma PushA(n: Names, r: Run)
    requires Distinct4(n) && r == Start(At(n, C(n), A0(n), B0(n), S0(n)))
    ensures var q := SuccessorStep(Same(n), r, n.c, n.a);
            && q.m == At(n, C(n), A1(n), B0(n), S0(n)) && q.next == [n.a] && q.processed == {n.a}
            && !q.raised && |q.pushes| == 1
  {
    Shape(n, C(n), A0(n), B0(n), S0(n));
    Lookup(n, r.m, C(n), A0(n), B0(n), S0(n));
    Update(n, r.m, C(n), A0(n), B0(n), S0(n), A1(n));
    IsPushed(n, r, n.c, n.a, A1(n));
  }

  lemma PushB(n: Names, r: Run)
    requires Distinct4(n) && r.m == At(n, C(n), A1(n), B0(n), S0(n)) && !r.raised
    requires r.next == [n.a] && r.processed == {n.a} && |r.pushes| == 1
    ensures var q := SuccessorStep(Same(n), r, n.c, n.b);
            q.m == At(n, C(n), A1(n), B1(n), S0(n)) && q.next == [n.a, n.b] && !q.raised && |q.pushes| == 2
  {
    Shape(n, C(n), A1(n), B0(n), S0(n));
    Lookup(n, r.m, C(n), A1(n), B0(n), S0(n));
    Update(n, r.m, C(n), A1(n), B0(n), S0(n), B1(n));
    IsPushed(n, r, n.c, n.b, B1(n));
  }

  lemma KeepS(n: Names, r: Run)
    requires Distinct4(n) && r.m == At(n, C(n), A1(n), B1(n), S0(n)) && !r.raised
    ensures SuccessorStep(Same(n), r, n.c, n.s) == r
  {
    Shape(n, C(n), A1(n), B1(n), S0(n));
    Lookup(n, r.m, C(n), A1(n), B1(n), S0(n));
    IsKept(n, r, n.c, n.s);
  }

  /** Three successors in a row. */
  lemma Unroll3(n: Names, r: Run, t: string, x: string, y: string, z: string)
    requires var r1 := SuccessorStep(Same(n), r, t, x);
             var r2 := SuccessorStep(Same(n), r1, t, y);
             !r.raised && !r1.raised && !r2.raised
    ensures PushSuccessors(Same(n), r, t, [x, y, z]) ==
            SuccessorStep(Same(n), SuccessorStep(Same(n), SuccessorStep(Same(n), r, t, x), t, y), t, z)
  {
    assert [x] + [y, z] == [x, y, z] && [y] + [z] == [y, z] && [z] + [] == [z];
    Unroll(n, r, t, x, [y, z]);
    Unroll(n, SuccessorStep(Same(n), r, t, x), t, y, [z]);
    Unroll(n, SuccessorStep(Same(n), SuccessorStep(Same(n), r, t, x), t, y), t, z, []);
  }

  lemma FirstWave(n: Names, m: Schedule, r: Run)
    requires Distinct4(n)
    requires m == At(n, C(n), A0(n), B0(n), S0(n)) && r == Start(m)
    ensures var q := ProcessTask(Same(n), r, n.c);
            !q.raised && q.m == At(n, C(n), A1(n), B1(n), S0(n)) && q.next == [n.a, n.b] && |q.pushes| == 2
  {
    Shape(n, C(n), A0(n), B0(n), S0(n));
    NoClashes(n, m, r, n.c);
    SuccessorsOfC(n, m);
    PushA(n, r);
    var r1 := SuccessorStep(Same(n), r, n.c, n.a);
    PushB(n, r1);
    KeepS(n, SuccessorStep(Same(n), r1, n.c, n.b));
    Unroll3(n, r, n.c, n.a, n.b, n.s);
  }

  lemma PushS(n: Names, r: Run)
    requires Distinct4(n) && r.m == At(n, C(n), A1(n), B1(n), S0(n)) && !r.raised
    requires r.processed == {} && r.next == []
    ensures var q := SuccessorStep(Same(n), r, n.a, n.s);
            && q.m == At(n, C(n), A1(n), B1(n), S1(n)) && q.next == [n.s] && q.processed == {n.s}
            && !q.raised && |q.pushes| == |r.pushes| + 1
  {
    Shape(n, C(n), A1(n), B1(n), S0(n));
    Lookup(n, r.m, C(n), A1(n), B1(n), S0(n));
    Update(n, r.m, C(n), A1(n), B1(n), S0(n), S1(n));
    IsPushed(n, r, n.a, n.s, S1(n));
  }

  /** S is the only successor of A and of B. */
  lemma OneSuccessor(n: Names, m: Schedule, s: Task, t: string)
    requires Distinct4(n) && m == At(n, C(n), A1(n), B1(n), s) && s in {S0(n), S1(n)} && t in {n.a, n.b}
    ensures t in m && SuccessorsByOriginalOrder(Ids(n), m, m[t]) == [n.s]
  {
    hide SuccessorsByOriginalOrder, WellFormed;
    Shape(n, C(n), A1(n), B1(n), s);
    Lookup(n, m, C(n), A1(n), B1(n), s);
    ListsOfTask(Ids(n), m, t);
    assert forall x :: x in m <==> x == n.c || x == n.a || x == n.b || x == n.s;
    OnlyS(n, SuccessorsByOriginalOrder(Ids(n), m, m[t]));
  }

  lemma ProcessOne(n: Names, r: Run, t: string)
    requires t in r.m && !r.raised && AfterOverlaps(Same(n), r, t) == r
    requires SuccessorsByOriginalOrder(Ids(n), r.m, r.m[t]) == [n.s]
    ensures ProcessTask(Same(n), r, t) == SuccessorStep(Same(n), r, t, n.s)
  {
    assert [n.s] + [] == [n.s];
    Unroll(n, r, t, n.s, []);
  }

  lemma OwnMachines(n: Names, m: Schedule, s: Task)
    requires Distinct4(n) && m == At(n, C(n), A1(n), B1(n), s) && s in {S0(n), S1(n)}
    ensures forall x :: x in m ==> m[x].equipment == x
  {
    Lookup(n, m, C(n), A1(n), B1(n), s);
  }

  lemma SecondWaveA(n: Names, m: Schedule, r: Run)
    requires Distinct4(n)
    requires m == At(n, C(n), A1(n), B1(n), S0(n)) && r.m == m && !r.raised && r.processed == {} && r.next == []
    ensures var q := ProcessTask(Same(n), r, n.a);
            && !q.raised && q.m == At(n, C(n), A1(n), B1(n), S1(n)) && q.next == [n.s] && q.processed == {n.s}
            && |q.pushes| == |r.pushes| + 1
  {
    Shape(n, C(n), A1(n), B1(n), S0(n));
    OwnMachines(n, m, S0(n));
    OneSuccessor(n, m, S0(n), n.a);
    NoClashes(n, m, r, n.a);
    ProcessOne(n, r, n.a);
    PushS(n, r);
  }

  lemma SecondWaveB(n: Names, m: Schedule, r: Run)
    requires Distinct4(n)
    requires m == At(n, C(n), A1(n), B1(n), S1(n)) && r.m == m && !r.raised && r.processed == {n.s}
    ensures ProcessTask(Same(n), r, n.b) == r
  {
    Shape(n, C(n), A1(n), B1(n), S1(n));
    OwnMachines(n, m, S1(n));
    OneSuccessor(n, m, S1(n), n.b);
    NoClashes(n, m, r, n.b);
    ProcessOne(n, r, n.b);
    Lookup(n, m, C(n), A1(n), B1(n), S1(n));
    IsKept(n, r, n.b, n.s);
  }

  lemma ThirdWave(n: Names, m: Schedule, r: Run)
    requires Distinct4(n)
    requires m == At(n, C(n), A1(n), B1(n), S1(n)) && r.m == m && !r.raised && r.next == []
    ensures n.s in m && ProcessTask(Same(n), r, n.s) == r
  {
    Shape(n, C(n), A1(n), B1(n), S1(n));
    NoClashes(n, m, r, n.s);
    ListsOfTask(Ids(n), m, n.s);
    Empty(SuccessorsByOriginalOrder(Ids(n), m, S1(n)));
  }

  lemma WaveOfOne(c: Setup, r: Run, t: string)
    requires !r.raised
    ensures Wave(c, r, [t]) == ProcessTask(c, Rested(r), t)
  {
    assert [t][1..] == [] && ProcessAll(c, ProcessTask(c, Rested(r), t), []) == ProcessTask(c, Rested(r), t);
  }

  lemma WaveOfTwo(c: Setup, r: Run, t: string, u: string)
    requires !r.raised && !ProcessTask(c, Rested(r), t).raised
    ensures Wave(c, r, [t, u]) == ProcessTask(c, ProcessTask(c, Rested(r), t), u)
  {
    var q := ProcessTask(c, Rested(r), t);
    assert [t, u][1..] == [u] && [u][1..] == [];
    assert ProcessAll(c, q, [u]) == ProcessTask(c, q, u);
  }

  lemma ThreeWaves(n: Names, m: Schedule)
    requires Distinct4(n)
    requires m == At(n, C(n), A0(n), B0(n), S0(n))
    ensures n.c in m
    ensures var z := Cascaded(Same(n), m, n.c);
            !z.run.raised && z.frontier == [] && z.run.m == At(n, C(n), A1(n), B1(n), S1(n))
  {
    FirstWave(n, m, Start(m));
    var w0 := ProcessTask(Same(n), Start(m), n.c);
    assert Start(m).(processed := {}, next := []) == Start(m);
    WaveOfOne(Same(n), Start(m), n.c);
    DistinctMeans(w0.next);
    LaterWaves(n, w0);
  }

  lemma LaterWaves(n: Names, w0: Run)
    requires Distinct4(n)
    requires w0.m == At(n, C(n), A1(n), B1(n), S0(n)) && !w0.raised && w0.next == [n.a, n.b] && |w0.pushes| == 2
    ensures var z := Waves(Same(n), w0, [n.a, n.b], 1, 1);
            !z.run.raised && z.frontier == [] && z.run.m == At(n, C(n), A1(n), B1(n), S1(n))
  {
    var r1 := Rested(w0);
    SecondWaveA(n, w0.m, r1);
    var w1 := ProcessTask(Same(n), r1, n.a);
    SecondWaveB(n, w1.m, w1);
    WaveOfTwo(Same(n), w0, n.a, n.b);
    NextWave(Same(n), w0, [n.a, n.b], w1, 1);
    LastWave(n, w1);
  }

  lemma LastWave(n: Names, w1: Run)
    requires Distinct4(n)
    requires w1.m == At(n, C(n), A1(n), B1(n), S1(n)) && !w1.raised && w1.next == [n.s] && |w1.pushes| == 3
    ensures var z := Waves(Same(n), w1, Distinct(w1.next), 2, 2);
            !z.run.raised && z.frontier == [] && z.run.m == w1.m
  {
    ThirdWave(n, w1.m, Rested(w1));
    WaveOfOne(Same(n), w1, n.s);
    DistinctMeans(w1.next);
    NextWave(Same(n), w1, [n.s], Rested(w1), 2);
  }

  lemma NextWave(c: Setup, r: Run, frontier: seq<string>, w: Run, wave: nat)
    requires !r.raised && frontier != [] && |r.pushes| <= HARD_TASK_LIMIT && wave < MAX_WAVES
    requires w == Wave(c, r, frontier) && !w.raised
    ensures Waves(c, r, frontier, wave, wave) == Waves(c, w, Distinct(w.next), wave + 1, wave + 1)
    ensures w.next == [] ==> Waves(c, r, frontier, wave, wave) == Final(w, [], wave + 1, false)
  {
  }

  /** A moves S behind itself to 37.  B, which ends at 40, leaves S alone because S was already
      pushed in that wave, and is not looked at again.  The run converges without a complaint. */
  lemma PrecedenceCanBreak(n: Names)
    requires Distinct4(n)
    ensures var m := At(n, C(n), A0(n), B0(n), S0(n));
            && WellFormed(Ids(n), m) && UntouchedBut(m, n.c) && Anchor(Same(n), m, n.c)
            && var z := Cascaded(Same(n), m, n.c);
               && !z.run.raised && z.frontier == []
               && n.b in z.run.m && n.s in z.run.m
               && Follows(z.run.m[n.b], z.run.m[n.s]) && z.run.m[n.s].start < z.run.m[n.b].end
  {
    hide Cascaded, WellFormed;
    Shape(n, C(n), A0(n), B0(n), S0(n));
    ThreeWaves(n, At(n, C(n), A0(n), B0(n), S0(n)));
  }
}
