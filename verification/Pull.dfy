/** Proposals to bring the successors of a shortened task forward. */
module Pull {
  import opened Wrappers
  import opened Snapshot

  datatype PullEntry = PullEntry(id: string, equipment: string, batch: string, oldStart: int, oldEnd: int,
                                 newStart: int, newEnd: int)

  function Max(a: int, b: Option<int>): int { if b.Some? && b.value > a then b.value else a }

  /** The proposal for one successor: it may start when both the chain member before it, which ends
      at `prevEnd`, and the task before it on its equipment are over. */
  function Proposal(ids: seq<string>, m: Schedule, reverse: (int, int) -> int, s: Task,
                    prevEnd: int): Option<PullEntry> {
    var earliest := Max(prevEnd, SameEqPrevEnd(ids, m, s));
    if earliest < s.start then
      var start := reverse(s.start, s.start - earliest);
      Some(PullEntry(s.id, s.equipment, s.batch, s.start, s.end, start, start + (s.end - s.start)))
    else None
  }

  function EndAfter(s: Task, e: Option<PullEntry>): int { if e.Some? then e.value.newEnd else s.end }

  ghost predicate Known(m: Schedule, chain: seq<string>) { forall i :: 0 <= i < |chain| ==> chain[i] in m }

  /** The proposals for a chain of successors. */
  function Proposals(ids: seq<string>, m: Schedule, reverse: (int, int) -> int, chain: seq<string>,
                     prevEnd: int): seq<PullEntry>
    requires Known(m, chain)
  {
    if chain == [] then []
    else
      var e := Proposal(ids, m, reverse, m[chain[0]], prevEnd);
      Listed(e)
        + Proposals(ids, m, reverse, chain[1..], EndAfter(m[chain[0]], e))
  }

  /** No proposals unless the changed task was moved and now ends earlier. */
  function ProposalsFor(ids: seq<string>, m: Schedule, reverse: (int, int) -> int, changed: string): seq<PullEntry>
    requires WellFormed(ids, m) && changed in m
  {
    var t := m[changed];
    if t.origin.None? || t.end >= t.origin.value.end then []
    else
      SuccessorTasksMeans(ids, m, t);
      Proposals(ids, m, reverse, SuccessorTasks(ids, m, t), t.end)
  }

  method ProposeForSuccessors(changed: string, snap: Snap, reverse: (int, int) -> int) returns (pulls: seq<PullEntry>)
    requires snap.Valid() && changed in snap.byId
    ensures pulls == ProposalsFor(snap.ids, snap.byId, reverse, changed)
  {
    var t := snap.byId[changed];
    if t.origin.None? { return []; }
    if t.end >= t.origin.value.end { return []; }
    var chain := SuccessorTasks(snap.ids, snap.byId, t);
    SuccessorTasksMeans(snap.ids, snap.byId, t);
    pulls := ProposeAlong(snap.ids, snap.byId, reverse, chain, t.end);
  }

  function Listed(e: Option<PullEntry>): seq<PullEntry> { if e.Some? then [e.value] else [] }

  /** `pulls` are the proposals for the first `i` of the chain. */
  ghost predicate Partway(ids: seq<string>, m: Schedule, reverse: (int, int) -> int, chain: seq<string>, end: int,
                          pulls: seq<PullEntry>, i: nat, prevEnd: int) {
    && Known(m, chain) && i <= |chain|
    && Proposals(ids, m, reverse, chain, end) == pulls + Proposals(ids, m, reverse, chain[i..], prevEnd)
  }

  lemma ProposalsStep(ids: seq<string>, m: Schedule, reverse: (int, int) -> int, chain: seq<string>, end: int,
                      pulls: seq<PullEntry>, i: nat, prevEnd: int, e: Option<PullEntry>)
    requires i < |chain| && Partway(ids, m, reverse, chain, end, pulls, i, prevEnd)
    requires e == Proposal(ids, m, reverse, m[chain[i]], prevEnd)
    ensures Partway(ids, m, reverse, chain, end, pulls + Listed(e), i + 1, EndAfter(m[chain[i]], e))
  {
    assert chain[i..][0] == chain[i] && chain[i..][1..] == chain[i + 1..];
    var rest := Proposals(ids, m, reverse, chain[i + 1..], EndAfter(m[chain[i]], e));
    assert pulls + (Listed(e) + rest) == (pulls + Listed(e)) + rest;
  }

  method ProposeAlong(ids: seq<string>, m: Schedule, reverse: (int, int) -> int, chain: seq<string>, end: int)
    returns (pulls: seq<PullEntry>)
    requires Known(m, chain)
    ensures pulls == Proposals(ids, m, reverse, chain, end)
  {
    pulls := [];
    var prevEnd := end;
    for i := 0 to |chain|
      invariant Partway(ids, m, reverse, chain, end, pulls, i, prevEnd)
    {
      var s := m[chain[i]];
      var e := ProposeOne(ids, m, reverse, s, prevEnd);
      ProposalsStep(ids, m, reverse, chain, end, pulls, i, prevEnd, e);
      prevEnd := EndAfter(s, e);
      if e.Some? { pulls := pulls + [e.value]; } else { assert pulls + Listed(e) == pulls; }
    }
  }

  method ProposeOne(ids: seq<string>, m: Schedule, reverse: (int, int) -> int, s: Task, prevEnd: int)
    returns (e: Option<PullEntry>)
    ensures e == Proposal(ids, m, reverse, s, prevEnd)
  {
    var earliest := prevEnd;
    var sameEqPrev := SameEqPrevEnd(ids, m, s);
    if sameEqPrev.Some? && sameEqPrev.value > earliest { earliest := sameEqPrev.value; }
    if earliest >= s.start { return None; }
    var slack := s.start - earliest;
    var start := reverse(s.start, slack);
    return Some(PullEntry(s.id, s.equipment, s.batch, s.start, s.end, start, start + (s.end - s.start)));
  }

  // ---------- carrying the proposals out

  function EntryOf(pulls: seq<PullEntry>, id: string): Option<PullEntry> {
    if pulls == [] then None
    else if pulls[0].id == id then Some(pulls[0])
    else EntryOf(pulls[1..], id)
  }

  /** Where `x` stands after the proposals. */
  function Pulled(m: Schedule, pulls: seq<PullEntry>, x: string): Task
    requires x in m
  {
    var e := EntryOf(pulls, x);
    if e.Some? then m[x].MovedTo(e.value.newStart, e.value.newEnd, None) else m[x]
  }

  /** All proposals carried out at once. */
  function ApplyAll(m: Schedule, pulls: seq<PullEntry>): Schedule {
    map i | i in m :: Pulled(m, pulls, i)
  }

  ghost predicate Clear(m: Schedule) {
    forall x, y :: x in m && y in m && x != y ==> !Clash(m[x], m[y])
  }

  /** From `x`, going back `d` minutes of working time goes back no further than `d` minutes, nor forward. */
  predicate StaysWithin(reverse: (int, int) -> int, x: int, d: int) { x - d <= reverse(x, d) <= x }

  /** A way of going back that does so always. */
  ghost predicate WithinSlack(reverse: (int, int) -> int) {
    forall x, d :: 0 < d ==> StaysWithin(reverse, x, d)
  }

  /** The slack of a successor, none if it is not positive. */
  function SlackOf(ids: seq<string>, m: Schedule, s: Task, prevEnd: int): int {
    s.start - Max(prevEnd, SameEqPrevEnd(ids, m, s))
  }

  /** A way of going back that does so wherever a chain asks it to. */
  predicate WithinAlong(ids: seq<string>, m: Schedule, reverse: (int, int) -> int, chain: seq<string>, prevEnd: int)
    requires Known(m, chain)
  {
    chain == []
    || (var s := m[chain[0]];
        && (0 < SlackOf(ids, m, s, prevEnd) ==> StaysWithin(reverse, s.start, SlackOf(ids, m, s, prevEnd)))
        && WithinAlong(ids, m, reverse, chain[1..], EndAfter(s, Proposal(ids, m, reverse, s, prevEnd))))
  }

  /** The same of the proposals for a changed task. */
  predicate WithinFor(ids: seq<string>, m: Schedule, reverse: (int, int) -> int, changed: string)
    requires WellFormed(ids, m) && changed in m
  {
    var t := m[changed];
    t.origin.None? || t.end >= t.origin.value.end
    || (SuccessorTasksMeans(ids, m, t); WithinAlong(ids, m, reverse, SuccessorTasks(ids, m, t), t.end))
  }

  lemma {:induction false} WithinEverywhere(ids: seq<string>, m: Schedule, reverse: (int, int) -> int,
                                            chain: seq<string>, prevEnd: int)
    requires Known(m, chain) && WithinSlack(reverse)
    ensures WithinAlong(ids, m, reverse, chain, prevEnd)
    decreases |chain|
  {
    if chain != [] {
      var s := m[chain[0]];
      WithinEverywhere(ids, m, reverse, chain[1..], EndAfter(s, Proposal(ids, m, reverse, s, prevEnd)));
    }
  }

  /** A proposal keeps the length, moves nothing later, and starts neither before the end of the
      task before it on its equipment nor before `floor`. */
  ghost predicate Fits(ids: seq<string>, m: Schedule, e: PullEntry, floor: int) {
    && e.id in m
    && e.newEnd - e.newStart == m[e.id].Duration()
    && e.newStart <= m[e.id].start
    && floor <= e.newStart
    && (var p := SameEqPrevEnd(ids, m, m[e.id]); p.Some? ==> p.value <= e.newStart)
  }

  lemma ProposalFits(ids: seq<string>, m: Schedule, reverse: (int, int) -> int, x: string, prevEnd: int)
    requires WellFormed(ids, m) && x in m
    requires var d := SlackOf(ids, m, m[x], prevEnd); 0 < d ==> StaysWithin(reverse, m[x].start, d)
    ensures var e := Proposal(ids, m, reverse, m[x], prevEnd);
            e.Some? ==> e.value.id == x && Fits(ids, m, e.value, prevEnd)
  {
    PrevEndMeans(ids, m, m[x]);
  }

  /** Looking an entry up in a chain whose head is known. */
  lemma EntryAtHead(ids: seq<string>, m: Schedule, reverse: (int, int) -> int, chain: seq<string>, prevEnd: int,
                    x: string)
    requires WellFormed(ids, m) && Known(m, chain) && chain != []
    ensures var e := Proposal(ids, m, reverse, m[chain[0]], prevEnd);
            EntryOf(Proposals(ids, m, reverse, chain, prevEnd), x) ==
            if x == chain[0] && e.Some? then e
            else EntryOf(Proposals(ids, m, reverse, chain[1..], EndAfter(m[chain[0]], e)), x)
  {
    var e := Proposal(ids, m, reverse, m[chain[0]], prevEnd);
    var rest := Proposals(ids, m, reverse, chain[1..], EndAfter(m[chain[0]], e));
    if e.Some? {
      assert ([e.value] + rest)[1..] == rest;
    } else {
      assert Proposals(ids, m, reverse, chain, prevEnd) == rest;
    }
  }

  lemma {:induction false} ProposalsFit(ids: seq<string>, m: Schedule, reverse: (int, int) -> int, chain: seq<string>,
                                        prevEnd: int, x: string)
    requires WellFormed(ids, m) && Known(m, chain) && WithinAlong(ids, m, reverse, chain, prevEnd)
    ensures var e := EntryOf(Proposals(ids, m, reverse, chain, prevEnd), x);
            && (e.Some? ==> e.value.id == x && x in chain && exists floor :: Fits(ids, m, e.value, floor))
    decreases |chain|
  {
    if chain != [] {
      EntryAtHead(ids, m, reverse, chain, prevEnd, x);
      ProposalFits(ids, m, reverse, chain[0], prevEnd);
      var e := Proposal(ids, m, reverse, m[chain[0]], prevEnd);
      ProposalsFit(ids, m, reverse, chain[1..], EndAfter(m[chain[0]], e), x);
    }
  }

  /** Where the way of going back stays within the slack along the chain: carrying all proposals out
      at once leaves a schedule that had no clashes without any. */
  lemma PullsStayClear(ids: seq<string>, m: Schedule, reverse: (int, int) -> int, chain: seq<string>, prevEnd: int)
    requires WellFormed(ids, m) && Known(m, chain) && WithinAlong(ids, m, reverse, chain, prevEnd) && Clear(m)
    ensures Clear(ApplyAll(m, Proposals(ids, m, reverse, chain, prevEnd)))
  {
    hide Proposals, WithinAlong;
    var pulls := Proposals(ids, m, reverse, chain, prevEnd);
    var after := ApplyAll(m, pulls);
    forall x, y | x in after && y in after && x != y ensures !Clash(after[x], after[y]) {
      ProposalsFit(ids, m, reverse, chain, prevEnd, x);
      ProposalsFit(ids, m, reverse, chain, prevEnd, y);
      assert !Clash(m[x], m[y]);
      if m[x].equipment == m[y].equipment {
        if m[x].end <= m[y].start {
          StaysBehind(ids, m, pulls, x, y);
        } else {
          StaysBehind(ids, m, pulls, y, x);
        }
      }
    }
  }

  lemma StaysBehind(ids: seq<string>, m: Schedule, pulls: seq<PullEntry>, x: string, y: string)
    requires WellFormed(ids, m) && x in m && y in m && x != y && m[x].equipment == m[y].equipment
    requires m[x].end <= m[y].start
    requires forall z :: z in {x, y} && EntryOf(pulls, z).Some? ==>
               EntryOf(pulls, z).value.id == z && exists floor :: Fits(ids, m, EntryOf(pulls, z).value, floor)
    ensures Pulled(m, pulls, x).end <= Pulled(m, pulls, y).start
  {
    PrevEndMeans(ids, m, m[y]);
    assert Before(m, m[y], x);
    var p := SameEqPrevEnd(ids, m, m[y]);
    assert p.Some? && m[x].end <= p.value;
    assert Pulled(m, pulls, x).end <= m[x].end by {
      if EntryOf(pulls, x).Some? { assert x in {x, y}; }
    }
    assert p.value <= Pulled(m, pulls, y).start by {
      if EntryOf(pulls, y).Some? { assert y in {x, y}; }
    }
  }

  lemma HeadPulled(ids: seq<string>, m: Schedule, reverse: (int, int) -> int, chain: seq<string>, prevEnd: int)
    requires WellFormed(ids, m) && Known(m, chain) && WithinAlong(ids, m, reverse, chain, prevEnd)
    requires chain != [] && chain[0] !in chain[1..]
    ensures var pulls, e := Proposals(ids, m, reverse, chain, prevEnd), Proposal(ids, m, reverse, m[chain[0]], prevEnd);
            && EntryOf(pulls, chain[0]) == e
            && Pulled(m, pulls, chain[0]).end == EndAfter(m[chain[0]], e)
            && (e.Some? ==> prevEnd <= Pulled(m, pulls, chain[0]).start)
  {
    var e := Proposal(ids, m, reverse, m[chain[0]], prevEnd);
    EntryAtHead(ids, m, reverse, chain, prevEnd, chain[0]);
    ProposalFits(ids, m, reverse, chain[0], prevEnd);
    ProposalsFit(ids, m, reverse, chain[1..], EndAfter(m[chain[0]], e), chain[0]);
  }

  /** What holds of member `i` of a chain: if it is pulled, the member before it is over by then. */
  ghost predicate InOrder(m: Schedule, pulls: seq<PullEntry>, chain: seq<string>, prevEnd: int, i: nat)
    requires i < |chain| && Known(m, chain)
  {
    EntryOf(pulls, chain[i]).Some? ==>
      (if i == 0 then prevEnd else Pulled(m, pulls, chain[i - 1]).end) <= Pulled(m, pulls, chain[i]).start
  }

  lemma OrderAtHead(ids: seq<string>, m: Schedule, reverse: (int, int) -> int, chain: seq<string>, prevEnd: int, i: nat)
    requires WellFormed(ids, m) && Known(m, chain) && WithinAlong(ids, m, reverse, chain, prevEnd)
    requires NoDuplicates(chain) && 0 < i < |chain|
    requires var end := EndAfter(m[chain[0]], Proposal(ids, m, reverse, m[chain[0]], prevEnd));
             InOrder(m, Proposals(ids, m, reverse, chain[1..], end), chain[1..], end, i - 1)
    ensures InOrder(m, Proposals(ids, m, reverse, chain, prevEnd), chain, prevEnd, i)
  {
    assert chain[1..][i - 1] == chain[i] && chain[i] != chain[0];
    EntryAtHead(ids, m, reverse, chain, prevEnd, chain[i]);
    if i == 1 {
      HeadPulled(ids, m, reverse, chain, prevEnd);
    } else {
      assert chain[1..][i - 2] == chain[i - 1] && chain[i - 1] != chain[0];
      EntryAtHead(ids, m, reverse, chain, prevEnd, chain[i - 1]);
    }
  }

  /** Along the chain: a member that is pulled starts neither before the member before it is over,
      pulled or not, nor, if it is the first, before the changed task is. */
  lemma {:induction false} ChainInOrder(ids: seq<string>, m: Schedule, reverse: (int, int) -> int, chain: seq<string>,
                                        prevEnd: int, i: nat)
    requires WellFormed(ids, m) && Known(m, chain) && WithinAlong(ids, m, reverse, chain, prevEnd)
    requires NoDuplicates(chain) && i < |chain|
    ensures InOrder(m, Proposals(ids, m, reverse, chain, prevEnd), chain, prevEnd, i)
    decreases i
  {
    if i == 0 {
      HeadPulled(ids, m, reverse, chain, prevEnd);
    } else {
      var end := EndAfter(m[chain[0]], Proposal(ids, m, reverse, m[chain[0]], prevEnd));
      ChainInOrder(ids, m, reverse, chain[1..], end, i - 1);
      OrderAtHead(ids, m, reverse, chain, prevEnd, i);
    }
  }
}
