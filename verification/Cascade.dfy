/** The cascade preview: waves of pushes that follow from one changed task. */
module Cascade {
  import opened Wrappers
  import opened Snapshot

  const MAX_WAVES := 4
  const HARD_TASK_LIMIT := 500

  datatype PushReason = SameEquipmentConflict | CrossEquipmentConflict | SuccessorChain

  datatype Push = Push(id: string, equipment: string, batch: string, oldStart: int, oldEnd: int,
                       newStart: int, newEnd: int, reason: PushReason)

  /** What does not change during a run: the order of the tasks and the nudge to working time. */
  datatype Setup = Setup(ids: seq<string>, advance: int -> int)

  /** The state of a run.  `processed` are the tasks pushed in the current wave, `next` the
      frontier of the next one; `raised` says that a push would have changed nothing, upon which
      the program raises an error. */
  datatype Run = Run(m: Schedule, pushes: seq<Push>, count: map<string, int>,
                     processed: set<string>, next: seq<string>, raised: bool)

  function Start(m: Schedule): Run { Run(m, [], map[], {}, [], false) }

  function Later(a: int, b: Option<int>): int { if b.Some? && b.value > a then b.value else a }

  function CountOf(count: map<string, int>, id: string): int { if id in count then count[id] else 0 }

  // ---------- the run as functions

  function PushEntry(t: Task, reason: PushReason, newStart: int, newEnd: int): Push {
    Push(t.id, t.equipment, t.batch, t.start, t.end, newStart, newEnd, reason)
  }

  /** Pushes task `id` to the nudged `base`. */
  function PushTo(c: Setup, r: Run, id: string, base: int, reason: PushReason): Run
    requires id in r.m
  {
    var t := r.m[id];
    var newStart := c.advance(base);
    var newEnd := newStart + (t.end - t.start);
    if newStart == t.start && newEnd == t.end then r.(raised := true)
    else Run(r.m[id := t.MovedTo(newStart, newEnd, None)],
             r.pushes + [PushEntry(t, reason, newStart, newEnd)],
             r.count[id := CountOf(r.count, id) + 1],
             r.processed + {id}, r.next + [id], false)
  }

  /** The end of an earlier task on the same equipment, as a candidate beside the pushing task's end. */
  function PrevCandidate(ids: seq<string>, m: Schedule, t: Task): Option<int> {
    var p := SameEqPrevEnd(ids, m, t);
    if p.Some? && p.value != t.start then p else None
  }

  function OverlapStep(c: Setup, r: Run, t: string, n: string): Run {
    if n in r.processed || n !in r.m || t !in r.m then r
    else PushTo(c, r, n, Later(r.m[t].end, PrevCandidate(c.ids, r.m, r.m[n])), SameEquipmentConflict)
  }

  function PushOverlapping(c: Setup, r: Run, t: string, list: seq<string>): Run
    decreases |list|
  {
    if list == [] || r.raised then r
    else PushOverlapping(c, OverlapStep(c, r, t, list[0]), t, list[1..])
  }

  function SuccessorStep(c: Setup, r: Run, t: string, s: string): Run {
    if s in r.processed || s !in r.m || t !in r.m then r
    else
      var earliest := Later(r.m[t].end, PrevCandidate(c.ids, r.m, r.m[s]));
      if r.m[s].start < earliest
      then PushTo(c, r, s, earliest, if earliest == r.m[t].end then SuccessorChain else CrossEquipmentConflict)
      else r
  }

  function PushSuccessors(c: Setup, r: Run, t: string, list: seq<string>): Run
    decreases |list|
  {
    if list == [] || r.raised then r
    else PushSuccessors(c, SuccessorStep(c, r, t, list[0]), t, list[1..])
  }

  /** `s` follows `t` on the same order line, by where the tasks stood originally. */
  predicate Follows(t: Task, s: Task) { SameLine(t, s) && t.OriginalEnd() <= s.OriginalStart() }

  function SuccessorsByOriginalOrder(ids: seq<string>, m: Schedule, t: Task): seq<string> {
    if t.order.None? || t.line.None? then []
    else SortByKey(Select(ids, set i | i in m && i != t.id && Follows(t, m[i])), OriginalStarts(m))
  }

  lemma SuccessorsMean(ids: seq<string>, m: Schedule, t: Task)
    requires WellFormed(ids, m)
    ensures var list := SuccessorsByOriginalOrder(ids, m, t);
            && NoDuplicates(list) && Sorted(list, OriginalStarts(m))
            && (forall x :: x in list <==> x in m && x != t.id && Follows(t, m[x]))
  {
    var keep := set i | i in m && i != t.id && Follows(t, m[i]);
    SelectMeans(ids, keep);
    SortMeans(Select(ids, keep), OriginalStarts(m));
  }

  function AfterOverlaps(c: Setup, r: Run, t: string): Run {
    if t in r.m then PushOverlapping(c, r, t, SameEquipmentOverlapping(c.ids, r.m, r.m[t])) else r
  }

  function AfterSuccessors(c: Setup, r: Run, t: string): Run {
    if t in r.m then PushSuccessors(c, r, t, SuccessorsByOriginalOrder(c.ids, r.m, r.m[t])) else r
  }

  /** One task of the frontier: first what it overlaps on its equipment, then its successors. */
  function ProcessTask(c: Setup, r: Run, t: string): Run {
    AfterSuccessors(c, AfterOverlaps(c, r, t), t)
  }

  function ProcessAll(c: Setup, r: Run, frontier: seq<string>): Run
    decreases |frontier|
  {
    if frontier == [] || r.raised then r
    else ProcessAll(c, ProcessTask(c, r, frontier[0]), frontier[1..])
  }

  function Wave(c: Setup, r: Run, frontier: seq<string>): Run {
    ProcessAll(c, r.(processed := {}, next := []), frontier)
  }

  /** First occurrences, in order. */
  function Distinct(s: seq<string>): seq<string> {
    if s == [] then []
    else
      var r := Distinct(s[..|s| - 1]);
      if s[|s| - 1] in r then r else r + [s[|s| - 1]]
  }

  lemma {:induction false} DistinctMeans(s: seq<string>)
    ensures forall x :: x in Distinct(s) <==> x in s
    ensures NoDuplicates(s) ==> Distinct(s) == s
  {
    if s != [] {
      DistinctMeans(s[..|s| - 1]);
      assert s == s[..|s| - 1] + [s[|s| - 1]];
    }
  }

  datatype Final = Final(run: Run, frontier: seq<string>, wavesUsed: int, truncated: bool)

  function Waves(c: Setup, r: Run, frontier: seq<string>, wave: nat, used: int): Final
    decreases MAX_WAVES - wave, frontier, r
  {
    if wave >= MAX_WAVES || frontier == [] || r.raised then Final(r, frontier, used, false)
    else if |r.pushes| > HARD_TASK_LIMIT then Final(r, frontier, used, true)
    else
      var w := Wave(c, r, frontier);
      if w.raised then Final(w, frontier, wave + 1, false)
      else Waves(c, w, Distinct(w.next), wave + 1, wave + 1)
  }

  function Cascaded(c: Setup, m: Schedule, changed: string): Final {
    Waves(c, Start(m), [changed], 0, 0)
  }
}
