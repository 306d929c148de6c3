/** Which successors of a shortened task are to be pulled forward, and how far. */
module PullChain {
  import opened Wrappers
  import opened Snapshot
  import opened SnapshotOrder
  import opened Pull

  /** `floor` is the later of `prevEnd` and the ends of the tasks on the same equipment that are over
      when `x` starts. */
  ghost predicate LatestOf(m: Schedule, x: string, prevEnd: int, floor: int) {
    && x in m && prevEnd <= floor
    && (forall y :: y in m && y != x && m[y].equipment == m[x].equipment && m[y].end <= m[x].start
                    ==> m[y].end <= floor)
    && (floor == prevEnd || exists y :: y in m && y != x && m[y].equipment == m[x].equipment
                                        && m[y].end <= m[x].start && m[y].end == floor)
  }

  ghost predicate Proposed(pulls: seq<PullEntry>, x: string) { exists e :: e in pulls && e.id == x }

  /** `x` ends at `end` if what is proposed for it is carried out. */
  ghost predicate EndsAt(m: Schedule, pulls: seq<PullEntry>, x: string, end: int) {
    x in m && if Proposed(pulls, x) then exists e :: e in pulls && e.id == x && e.newEnd == end else end == m[x].end
  }

  /** `x` is pulled if and only if it starts after `floor`, and then as far as going back from its start
      by that much leads; its length stays. */
  ghost predicate PulledTo(m: Schedule, reverse: (int, int) -> int, pulls: seq<PullEntry>, x: string, floor: int) {
    && x in m && (Proposed(pulls, x) <==> floor < m[x].start)
    && var t := m[x];
       var start := reverse(t.start, t.start - floor);
       forall e :: e in pulls && e.id == x ==>
         e == PullEntry(x, t.equipment, t.batch, t.start, t.end, start, start + (t.end - t.start))
  }

  /** What is proposed for member `i` of a chain, in view of the member before it as pulled. */
  ghost predicate MemberPulled(m: Schedule, reverse: (int, int) -> int, chain: seq<string>, end: int,
                               pulls: seq<PullEntry>, i: nat)
    requires i < |chain|
  {
    exists prevEnd, floor ::
      && (if i == 0 then prevEnd == end else EndsAt(m, pulls, chain[i - 1], prevEnd))
      && LatestOf(m, chain[i], prevEnd, floor) && PulledTo(m, reverse, pulls, chain[i], floor)
  }

  /** The proposals are for members of the chain, in its order, one for each at most. */
  ghost predicate AlongChain(pulls: seq<PullEntry>, chain: seq<string>) {
    && (forall e :: e in pulls ==> e.id in chain)
    && forall j, k :: 0 <= j < k < |pulls| ==> pulls[j].id != pulls[k].id && Precedes(chain, pulls[j].id, pulls[k].id)
  }

  // ---------- along a chain

  lemma ProposalExact(ids: seq<string>, m: Schedule, reverse: (int, int) -> int, x: string, prevEnd: int)
    requires WellFormed(ids, m) && x in m
    ensures var e := Proposal(ids, m, reverse, m[x], prevEnd);
            && (e.Some? ==> e.value.id == x)
            && exists floor :: LatestOf(m, x, prevEnd, floor) && PulledTo(m, reverse, Listed(e), x, floor)
  {
    PrevEndMeans(ids, m, m[x]);
    var p := SameEqPrevEnd(ids, m, m[x]);
    var floor := Max(prevEnd, p);
    forall y | y in m && y != x && m[y].equipment == m[x].equipment && m[y].end <= m[x].start
      ensures m[y].end <= floor
    {
      assert Before(m, m[x], y);
    }
    if floor != prevEnd {
      var y :| Before(m, m[x], y) && m[y].end == p.value;
      assert y in m && y != x;
    }
    assert LatestOf(m, x, prevEnd, floor);
    var e := Proposal(ids, m, reverse, m[x], prevEnd);
    if e.Some? { assert e.value in Listed(e); }
    assert PulledTo(m, reverse, Listed(e), x, floor);
  }

  lemma {:induction false} ProposalsAlong(ids: seq<string>, m: Schedule, reverse: (int, int) -> int,
                                          chain: seq<string>, prevEnd: int)
    requires WellFormed(ids, m) && Known(m, chain) && NoDuplicates(chain)
    ensures AlongChain(Proposals(ids, m, reverse, chain, prevEnd), chain)
    decreases |chain|
  {
    if chain != [] {
      var e := Proposal(ids, m, reverse, m[chain[0]], prevEnd);
      var end := EndAfter(m[chain[0]], e);
      ProposalExact(ids, m, reverse, chain[0], prevEnd);
      ProposalsAlong(ids, m, reverse, chain[1..], end);
      MoreAlong(e, Proposals(ids, m, reverse, chain[1..], end), chain);
    }
  }

  lemma MoreAlong(e: Option<PullEntry>, rest: seq<PullEntry>, chain: seq<string>)
    requires chain != [] && NoDuplicates(chain) && AlongChain(rest, chain[1..]) && (e.Some? ==> e.value.id == chain[0])
    ensures AlongChain(Listed(e) + rest, chain)
  {
    hide Precedes;
    var pulls, n := Listed(e) + rest, |Listed(e)|;
    assert chain[0] !in chain[1..] && forall x :: x in chain[1..] ==> x in chain;
    forall j, k | 0 <= j < k < |pulls|
      ensures pulls[j].id != pulls[k].id && Precedes(chain, pulls[j].id, pulls[k].id)
    {
      assert pulls[k] == rest[k - n] && rest[k - n] in rest;
      if j < n {
        FirstPrecedes(chain, pulls[k].id);
      } else {
        assert pulls[j] == rest[j - n] && Precedes(chain[1..], rest[j - n].id, rest[k - n].id);
        LaterPrecedes(chain, pulls[j].id, pulls[k].id);
      }
    }
  }

  lemma FirstPrecedes(chain: seq<string>, y: string)
    requires chain != [] && y in chain[1..]
    ensures Precedes(chain, chain[0], y)
  {
    var i :| 0 <= i < |chain[1..]| && chain[1..][i] == y;
    assert chain[i + 1] == y;
  }

  lemma LaterPrecedes(chain: seq<string>, x: string, y: string)
    requires chain != [] && Precedes(chain[1..], x, y)
    ensures Precedes(chain, x, y)
  {
    var a, b :| 0 <= a < b < |chain[1..]| && chain[1..][a] == x && chain[1..][b] == y;
    assert chain[a + 1] == x && chain[b + 1] == y;
  }

  /** A member further down finds the same with the head's proposal in front. */
  lemma SameWithHead(m: Schedule, reverse: (int, int) -> int, e: Option<PullEntry>, rest: seq<PullEntry>, x: string)
    requires e.Some? ==> e.value.id != x
    ensures Proposed(Listed(e) + rest, x) <==> Proposed(rest, x)
    ensures forall end :: EndsAt(m, Listed(e) + rest, x, end) <==> EndsAt(m, rest, x, end)
    ensures forall floor :: PulledTo(m, reverse, Listed(e) + rest, x, floor) <==> PulledTo(m, reverse, rest, x, floor)
  {
    assert forall d :: d in Listed(e) + rest && d.id == x <==> d in rest && d.id == x;
  }

  /** The head finds the same with the proposals of the others behind. */
  lemma SameAtHead(m: Schedule, reverse: (int, int) -> int, e: Option<PullEntry>, rest: seq<PullEntry>, x: string)
    requires forall d :: d in rest ==> d.id != x
    ensures Proposed(Listed(e) + rest, x) <==> Proposed(Listed(e), x)
    ensures forall end :: EndsAt(m, Listed(e) + rest, x, end) <==> EndsAt(m, Listed(e), x, end)
    ensures forall floor ::
              PulledTo(m, reverse, Listed(e) + rest, x, floor) <==> PulledTo(m, reverse, Listed(e), x, floor)
  {
    assert forall d :: d in Listed(e) + rest && d.id == x <==> d in Listed(e) && d.id == x;
  }

  lemma {:induction false} MembersPulled(ids: seq<string>, m: Schedule, reverse: (int, int) -> int,
                                         chain: seq<string>, end: int, i: nat)
    requires WellFormed(ids, m) && Known(m, chain) && NoDuplicates(chain) && i < |chain|
    ensures MemberPulled(m, reverse, chain, end, Proposals(ids, m, reverse, chain, end), i)
    decreases i
  {
    hide LatestOf, PulledTo, EndsAt, AlongChain, WellFormed, Proposal;
    var x := chain[0];
    var e := Proposal(ids, m, reverse, m[x], end);
    var next := EndAfter(m[x], e);
    var rest := Proposals(ids, m, reverse, chain[1..], next);
    ProposalExact(ids, m, reverse, x, end);
    ProposalsAlong(ids, m, reverse, chain[1..], next);
    NotAmong(rest, chain);
    SameAtHead(m, reverse, e, rest, x);
    if i > 0 {
      MembersPulled(ids, m, reverse, chain[1..], next, i - 1);
      assert chain[1..][i - 1] == chain[i] && chain[i] != x;
      SameWithHead(m, reverse, e, rest, chain[i]);
      if i == 1 {
        HeadEnds(m, e, x);
      } else {
        assert chain[1..][i - 2] == chain[i - 1] && chain[i - 1] != x;
        SameWithHead(m, reverse, e, rest, chain[i - 1]);
      }
    }
  }

  lemma NotAmong(rest: seq<PullEntry>, chain: seq<string>)
    requires chain != [] && NoDuplicates(chain) && AlongChain(rest, chain[1..])
    ensures forall d :: d in rest ==> d.id != chain[0]
  {
    assert chain[0] !in chain[1..];
  }

  lemma HeadEnds(m: Schedule, e: Option<PullEntry>, x: string)
    requires x in m && (e.Some? ==> e.value.id == x)
    ensures EndsAt(m, Listed(e), x, EndAfter(m[x], e))
  {
    if e.Some? { assert e.value in Listed(e); }
  }

  // ---------- the theorem

  /** All proposals for a changed task.  None unless it was moved and now ends earlier.  Else, for every
      later task of its order line, by start: it is pulled if and only if it starts after both the one
      before it, as pulled, and the task before it on its equipment are over, and it is taken back by
      all of that slack.  Nothing else is proposed. */
  lemma PullsExactly(ids: seq<string>, m: Schedule, reverse: (int, int) -> int, changed: string)
    requires WellFormed(ids, m) && changed in m
    ensures var pulls, t := ProposalsFor(ids, m, reverse, changed), m[changed];
            if t.origin.None? || t.origin.value.end <= t.end then pulls == []
            else
              var chain := SuccessorTasks(ids, m, t);
              && AlongChain(pulls, chain)
              && forall i :: 0 <= i < |chain| ==> MemberPulled(m, reverse, chain, t.end, pulls, i)
  {
    hide MemberPulled, AlongChain;
    var t := m[changed];
    if t.origin.Some? && t.end < t.origin.value.end {
      SuccessorTasksMeans(ids, m, t);
      var chain := SuccessorTasks(ids, m, t);
      ProposalsAlong(ids, m, reverse, chain, t.end);
      forall i | 0 <= i < |chain|
        ensures MemberPulled(m, reverse, chain, t.end, ProposalsFor(ids, m, reverse, changed), i)
      {
        MembersPulled(ids, m, reverse, chain, t.end, i);
      }
    }
  }

  /** Looking a proposal up finds the one for the task, if there is one. */
  lemma {:induction false} EntryOfMeans(pulls: seq<PullEntry>, x: string)
    ensures EntryOf(pulls, x).Some? <==> Proposed(pulls, x)
    ensures var e := EntryOf(pulls, x); e.Some? ==> e.value in pulls && e.value.id == x
  {
    if pulls != [] {
      EntryOfMeans(pulls[1..], x);
      assert pulls == [pulls[0]] + pulls[1..];
    }
  }
}
