/** The in-memory schedule that a cascade preview works on. */
module Snapshot {
  import opened Wrappers

  /** Where a task stood before it was first moved. */
  datatype Original = Original(start: int, end: int, equipment: string)

  datatype Task = Task(id: string, equipment: string, start: int, end: int, batch: string,
                       order: Option<string>, line: Option<int>, due: Option<int>,
                       origin: Option<Original>)
  {
    function OriginalStart(): int { if origin.Some? then origin.value.start else start }

    function OriginalEnd(): int { if origin.Some? then origin.value.end else end }

    function Duration(): int { end - start }

    /** The task moved; only the first move records where it stood. */
    function MovedTo(newStart: int, newEnd: int, newEquipment: Option<string>): Task {
      this.(start := newStart, end := newEnd,
            equipment := if newEquipment.Some? then newEquipment.value else equipment,
            origin := if origin.Some? then origin else Some(Original(start, end, equipment)))
    }
  }

  /** Tasks by id.  The order in which a snapshot lists its tasks is kept beside it. */
  type Schedule = map<string, Task>

  ghost predicate NoDuplicates<T>(s: seq<T>) {
    forall i, j :: 0 <= i < j < |s| ==> s[i] != s[j]
  }

  ghost predicate WellFormed(ids: seq<string>, m: Schedule) {
    && NoDuplicates(ids)
    && (forall i :: i in m <==> i in ids)
    && (forall i :: i in m ==> m[i].id == i)
  }

  /** Half-open overlap: touching tasks do not overlap. */
  predicate Overlaps(a: Task, b: Task) { b.start < a.end && a.start < b.end }

  predicate Clash(a: Task, b: Task) { a.equipment == b.equipment && Overlaps(a, b) }

  // ---------- selecting and sorting

  /** The elements of `s` that are in `keep`, in the order of `s`. */
  function Select(s: seq<string>, keep: set<string>): seq<string> {
    if s == [] then []
    else if s[0] in keep then [s[0]] + Select(s[1..], keep)
    else Select(s[1..], keep)
  }

  lemma {:induction false} SelectMeans(s: seq<string>, keep: set<string>)
    ensures forall x :: x in Select(s, keep) <==> x in s && x in keep
    ensures NoDuplicates(s) ==> NoDuplicates(Select(s, keep))
  {
    if s != [] {
      SelectMeans(s[1..], keep);
      assert s == [s[0]] + s[1..];
    }
  }

  function KeyOf(key: map<string, int>, x: string): int { if x in key then key[x] else 0 }

  function InsertByKey(x: string, s: seq<string>, key: map<string, int>): seq<string> {
    if s == [] || KeyOf(key, x) <= KeyOf(key, s[0]) then [x] + s
    else [s[0]] + InsertByKey(x, s[1..], key)
  }

  /** Stable sort by key. */
  function SortByKey(s: seq<string>, key: map<string, int>): seq<string> {
    if s == [] then [] else InsertByKey(s[0], SortByKey(s[1..], key), key)
  }

  ghost predicate Sorted(s: seq<string>, key: map<string, int>) {
    forall i, j :: 0 <= i < j < |s| ==> KeyOf(key, s[i]) <= KeyOf(key, s[j])
  }

  lemma {:induction false} InsertPermutes(x: string, s: seq<string>, key: map<string, int>)
    ensures multiset(InsertByKey(x, s, key)) == multiset([x] + s)
    ensures forall y :: y in InsertByKey(x, s, key) <==> y == x || y in s
  {
    if s != [] && KeyOf(key, x) > KeyOf(key, s[0]) {
      InsertPermutes(x, s[1..], key);
      assert s == [s[0]] + s[1..];
    }
  }

  lemma {:induction false} InsertSorts(x: string, s: seq<string>, key: map<string, int>)
    requires Sorted(s, key)
    ensures Sorted(InsertByKey(x, s, key), key)
  {
    if s != [] && KeyOf(key, x) > KeyOf(key, s[0]) {
      InsertSorts(x, s[1..], key);
      InsertPermutes(x, s[1..], key);
      var t := InsertByKey(x, s[1..], key);
      forall i | 0 <= i < |t| ensures KeyOf(key, s[0]) <= KeyOf(key, t[i]) {
        assert t[i] in t;
        assert t[i] == x || t[i] in s[1..];
      }
    }
  }

  lemma {:induction false} InsertKeepsDistinct(x: string, s: seq<string>, key: map<string, int>)
    requires NoDuplicates(s) && x !in s
    ensures NoDuplicates(InsertByKey(x, s, key))
  {
    if s != [] && KeyOf(key, x) > KeyOf(key, s[0]) {
      InsertKeepsDistinct(x, s[1..], key);
      InsertPermutes(x, s[1..], key);
      assert s[0] !in s[1..] && s[0] !in InsertByKey(x, s[1..], key);
    }
  }

  /** Sorting permutes, and sorts. */
  lemma {:induction false} SortMeans(s: seq<string>, key: map<string, int>)
    ensures multiset(SortByKey(s, key)) == multiset(s)
    ensures forall y :: y in SortByKey(s, key) <==> y in s
    ensures Sorted(SortByKey(s, key), key)
    ensures NoDuplicates(s) ==> NoDuplicates(SortByKey(s, key))
  {
    if s != [] {
      SortMeans(s[1..], key);
      InsertPermutes(s[0], SortByKey(s[1..], key), key);
      InsertSorts(s[0], SortByKey(s[1..], key), key);
      assert s == [s[0]] + s[1..];
      if NoDuplicates(s) { InsertKeepsDistinct(s[0], SortByKey(s[1..], key), key); }
    }
  }

  // ---------- queries

  function Starts(m: Schedule): map<string, int> { map i | i in m :: m[i].start }

  function Ends(m: Schedule): map<string, int> { map i | i in m :: m[i].end }

  function OriginalStarts(m: Schedule): map<string, int> { map i | i in m :: m[i].OriginalStart() }

  function ByEquipment(ids: seq<string>, m: Schedule, code: string): seq<string> {
    SortByKey(Select(ids, set i | i in m && m[i].equipment == code), Starts(m))
  }

  lemma ByEquipmentMeans(ids: seq<string>, m: Schedule, code: string)
    requires WellFormed(ids, m)
    ensures var list := ByEquipment(ids, m, code);
            && NoDuplicates(list) && Sorted(list, Starts(m))
            && (forall x :: x in list <==> x in m && m[x].equipment == code)
  {
    var keep := set i | i in m && m[i].equipment == code;
    SelectMeans(ids, keep);
    SortMeans(Select(ids, keep), Starts(m));
  }

  function SameEquipmentOverlapping(ids: seq<string>, m: Schedule, t: Task): seq<string> {
    Select(ByEquipment(ids, m, t.equipment), set i | i in m && i != t.id && Overlaps(m[i], t))
  }

  lemma OverlappingMeans(ids: seq<string>, m: Schedule, t: Task)
    requires WellFormed(ids, m)
    ensures var list := SameEquipmentOverlapping(ids, m, t);
            && NoDuplicates(list)
            && (forall x :: x in list <==> x in m && x != t.id && Clash(m[x], t))
  {
    ByEquipmentMeans(ids, m, t.equipment);
    SelectMeans(ByEquipment(ids, m, t.equipment), set i | i in m && i != t.id && Overlaps(m[i], t));
  }

  /** The latest end among the tasks of `s`. */
  function LatestEnd(s: seq<string>, ends: map<string, int>): Option<int> {
    if s == [] then None
    else
      var rest := LatestEnd(s[1..], ends);
      if rest.None? || rest.value <= KeyOf(ends, s[0]) then Some(KeyOf(ends, s[0])) else rest
  }

  lemma {:induction false} LatestEndMeans(s: seq<string>, ends: map<string, int>)
    ensures LatestEnd(s, ends).None? <==> s == []
    ensures s != [] ==> exists x :: x in s && KeyOf(ends, x) == LatestEnd(s, ends).value
    ensures s != [] ==> forall x :: x in s ==> KeyOf(ends, x) <= LatestEnd(s, ends).value
  {
    if s != [] {
      LatestEndMeans(s[1..], ends);
      assert s == [s[0]] + s[1..];
    }
  }

  /** The end of the last task on the same equipment that is over when `t` starts. */
  function SameEqPrevEnd(ids: seq<string>, m: Schedule, t: Task): Option<int> {
    LatestEnd(Select(ByEquipment(ids, m, t.equipment), set i | i in m && i != t.id && m[i].end <= t.start), Ends(m))
  }

  ghost predicate Before(m: Schedule, t: Task, x: string) {
    x in m && x != t.id && m[x].equipment == t.equipment && m[x].end <= t.start
  }

  lemma PrevEndMeans(ids: seq<string>, m: Schedule, t: Task)
    requires WellFormed(ids, m)
    ensures var p := SameEqPrevEnd(ids, m, t);
            && (p.Some? ==> p.value <= t.start && exists x :: Before(m, t, x) && m[x].end == p.value)
            && (forall x :: Before(m, t, x) ==> p.Some? && m[x].end <= p.value)
  {
    var keep := set i | i in m && i != t.id && m[i].end <= t.start;
    ByEquipmentMeans(ids, m, t.equipment);
    var list := Select(ByEquipment(ids, m, t.equipment), keep);
    SelectMeans(ByEquipment(ids, m, t.equipment), keep);
    LatestEndMeans(list, Ends(m));
    forall x | x in list ensures Before(m, t, x) && KeyOf(Ends(m), x) == m[x].end {}
    forall x | Before(m, t, x) ensures x in list {}
  }

  predicate SameLine(a: Task, b: Task) {
    a.order.Some? && a.line.Some? && a.order == b.order && a.line == b.line
  }

  /** The tasks of the same order line that start once `t` is over, by start. */
  function SuccessorTasks(ids: seq<string>, m: Schedule, t: Task): seq<string> {
    if t.order.None? || t.line.None? then []
    else SortByKey(Select(ids, set i | i in m && i != t.id && SameLine(t, m[i]) && t.end <= m[i].start), Starts(m))
  }

  lemma SuccessorTasksMeans(ids: seq<string>, m: Schedule, t: Task)
    requires WellFormed(ids, m)
    ensures var list := SuccessorTasks(ids, m, t);
            && NoDuplicates(list) && Sorted(list, Starts(m))
            && (forall x :: x in list <==> x in m && x != t.id && SameLine(t, m[x]) && t.end <= m[x].start)
  {
    var keep := set i | i in m && i != t.id && SameLine(t, m[i]) && t.end <= m[i].start;
    SelectMeans(ids, keep);
    SortMeans(Select(ids, keep), Starts(m));
  }

  function ChangedTasks(ids: seq<string>, m: Schedule): seq<string> {
    Select(ids, set i | i in m && m[i].origin.Some?)
  }

  function FindSameEqOverlapIn(changed: seq<string>, ids: seq<string>, m: Schedule): Option<string> {
    if changed == [] then None
    else if changed[0] in m && SameEquipmentOverlapping(ids, m, m[changed[0]]) != [] then Some(changed[0])
    else FindSameEqOverlapIn(changed[1..], ids, m)
  }

  /** The first moved task that clashes with another task. */
  function FindSameEqOverlap(ids: seq<string>, m: Schedule): Option<string> {
    FindSameEqOverlapIn(ChangedTasks(ids, m), ids, m)
  }

  lemma {:induction false} FindOverlapIn(changed: seq<string>, ids: seq<string>, m: Schedule)
    requires WellFormed(ids, m) && forall x :: x in changed ==> x in m
    ensures FindSameEqOverlapIn(changed, ids, m) == None <==>
            forall x, y :: x in changed && y in m && y != x ==> !Clash(m[y], m[x])
  {
    if changed != [] {
      FindOverlapIn(changed[1..], ids, m);
      OverlappingMeans(ids, m, m[changed[0]]);
      var list := SameEquipmentOverlapping(ids, m, m[changed[0]]);
      assert list != [] ==> list[0] in list;
      assert changed == [changed[0]] + changed[1..];
    }
  }

  /** The check finds nothing exactly when no moved task clashes with another task. */
  lemma FindOverlapMeans(ids: seq<string>, m: Schedule)
    requires WellFormed(ids, m)
    ensures FindSameEqOverlap(ids, m) == None <==>
            forall x, y :: x in m && m[x].origin.Some? && y in m && y != x ==> !Clash(m[x], m[y])
  {
    var changed := ChangedTasks(ids, m);
    SelectMeans(ids, set i | i in m && m[i].origin.Some?);
    FindOverlapIn(changed, ids, m);
    assert forall x, y :: x in m && y in m ==> Clash(m[x], m[y]) == Clash(m[y], m[x]);
    assert forall x :: x in changed <==> x in m && m[x].origin.Some?;
  }

  // ---------- the snapshot object

  function LastRow(tasks: seq<Task>, id: string): Option<Task> {
    if tasks == [] then None
    else if tasks[|tasks| - 1].id == id then Some(tasks[|tasks| - 1])
    else LastRow(tasks[..|tasks| - 1], id)
  }

  /** The ids of the rows, each at its first occurrence. */
  function IdsOf(tasks: seq<Task>): seq<string> {
    if tasks == [] then []
    else
      var before := IdsOf(tasks[..|tasks| - 1]);
      var id := tasks[|tasks| - 1].id;
      if id in before then before else before + [id]
  }

  /** What a snapshot of the rows holds. */
  ghost predicate Loaded(tasks: seq<Task>, ids: seq<string>, m: Schedule) {
    && WellFormed(ids, m) && ids == IdsOf(tasks)
    && (forall i :: i in m ==> LastRow(tasks, i) == Some(m[i]))
    && (forall i :: i in m <==> LastRow(tasks, i).Some?)
  }

  lemma LoadMore(tasks: seq<Task>, n: nat, ids: seq<string>, m: Schedule)
    requires n < |tasks| && Loaded(tasks[..n], ids, m)
    ensures var t := tasks[n];
            Loaded(tasks[..n + 1], if t.id in m then ids else ids + [t.id], m[t.id := t])
  {
    assert tasks[..n + 1][..n] == tasks[..n];
  }

  datatype Outcome = Applied | NoChange | UnknownTask

  class Snap {
    var ids: seq<string>
    var byId: Schedule

    ghost predicate Valid()
      reads this
    {
      WellFormed(ids, byId)
    }

    /** Later rows with the id of an earlier one replace it in its place. */
    constructor (tasks: seq<Task>)
      ensures Valid()
      ensures ids == IdsOf(tasks)
      ensures forall i :: i in byId ==> LastRow(tasks, i) == Some(byId[i])
      ensures forall i :: i in byId <==> LastRow(tasks, i).Some?
    {
      ids, byId := [], map[];
      new;
      for n := 0 to |tasks|
        invariant Loaded(tasks[..n], ids, byId)
      {
        LoadMore(tasks, n, ids, byId);
        if tasks[n].id !in byId { ids := ids + [tasks[n].id]; }
        byId := byId[tasks[n].id := tasks[n]];
      }
      assert tasks[..|tasks|] == tasks;
    }

    /** Moves a task in place; a call that would change nothing is refused and changes nothing. */
    method Apply(id: string, newStart: int, newEnd: int, newEquipment: Option<string>) returns (o: Outcome)
      requires Valid()
      modifies this`byId
      ensures Valid()
      ensures o.UnknownTask? <==> id !in old(byId)
      ensures id in old(byId) ==>
              (o.NoChange? <==> var t := old(byId[id]);
                 && t.start == newStart && t.end == newEnd
                 && (newEquipment.None? || newEquipment.value == t.equipment))
      ensures byId == if o.Applied? then old(byId)[id := old(byId[id]).MovedTo(newStart, newEnd, newEquipment)]
                      else old(byId)
    {
      if id !in byId { return UnknownTask; }
      var t := byId[id];
      if t.start == newStart && t.end == newEnd && (newEquipment.None? || newEquipment.value == t.equipment) {
        return NoChange;
      }
      if t.origin.None? { t := t.(origin := Some(Original(t.start, t.end, t.equipment))); }
      t := t.(start := newStart, end := newEnd);
      if newEquipment.Some? { t := t.(equipment := newEquipment.value); }
      byId := byId[id := t];
      return Applied;
    }
  }
}
