/** Which ways of going back leave schedules without clashes. */
module PullSlack {
  import opened Wrappers
  import opened Snapshot
  import opened Pull

  /** Whatever the schedule, if it has no clash, it has none after its proposals are carried out. */
  ghost predicate NeverClashes(reverse: (int, int) -> int) {
    forall ids: seq<string>, m: Schedule, changed: string ::
      WellFormed(ids, m) && changed in m && Clear(m) ==> Clear(ApplyAll(m, ProposalsFor(ids, m, reverse, changed)))
  }

  lemma PulledIsClear(ids: seq<string>, m: Schedule, changed: string, reverse: (int, int) -> int)
    requires WellFormed(ids, m) && changed in m && WithinFor(ids, m, reverse, changed) && Clear(m)
    ensures Clear(ApplyAll(m, ProposalsFor(ids, m, reverse, changed)))
  {
    var t := m[changed];
    if t.origin.Some? && t.end < t.origin.value.end {
      SuccessorTasksMeans(ids, m, t);
      PullsStayClear(ids, m, reverse, SuccessorTasks(ids, m, t), t.end);
    } else {
      assert ApplyAll(m, []) == m;
    }
  }

  // ---------- three tasks

  /** A task that was shortened and is over at `x - d`. */
  function Shortened(c: string, x: int, d: int): Task {
    Task(c, c, x - d - 1, x - d, c, Some(c), Some(0), None, Some(Original(x - d - 1, x - d + 1, c)))
  }

  /** Its successor, at `x` on equipment of its own. */
  function Successor(c: string, s: string, x: int): Task { Task(s, s, x, x + 1, s, Some(c), Some(0), None, None) }

  /** A task of another order on the equipment of the successor. */
  function Other(s: string, o: string, start: int, end: int): Task { Task(o, s, start, end, o, None, None, None, None) }

  function Ids(c: string, s: string, o: string): seq<string> { [c, s, o] }

  function Three(c: string, s: string, o: string, x: int, d: int, start: int, end: int): Schedule {
    map[c := Shortened(c, x, d), s := Successor(c, s, x), o := Other(s, o, start, end)]
  }

  ghost predicate Distinct3(c: string, s: string, o: string) { c != s && c != o && s != o }

  /** The other task is out of the way: before the slack, or after the successor. */
  predicate Aside(x: int, d: int, start: int, end: int) { 0 < d && start < end && (end <= x - d || x + 1 <= start) }

  lemma ThreeAreClear(c: string, s: string, o: string, x: int, d: int, start: int, end: int)
    requires Distinct3(c, s, o) && Aside(x, d, start, end)
    ensures WellFormed(Ids(c, s, o), Three(c, s, o, x, d, start, end)) && Clear(Three(c, s, o, x, d, start, end))
  {
    var ids, m := Ids(c, s, o), Three(c, s, o, x, d, start, end);
    assert ids[0] == c && ids[1] == s && ids[2] == o;
    assert !Clash(m[s], m[o]) && !Clash(m[o], m[s]);
  }

  lemma OneSuccessor(c: string, s: string, o: string, x: int, d: int, start: int, end: int)
    requires Distinct3(c, s, o) && Aside(x, d, start, end)
    ensures var ids, m := Ids(c, s, o), Three(c, s, o, x, d, start, end);
            WellFormed(ids, m) && SuccessorTasks(ids, m, m[c]) == [s]
  {
    var ids, m := Ids(c, s, o), Three(c, s, o, x, d, start, end);
    ThreeAreClear(c, s, o, x, d, start, end);
    SuccessorTasksMeans(ids, m, m[c]);
    var list := SuccessorTasks(ids, m, m[c]);
    assert s in list && forall y :: y in list ==> y == s;
    OnlyOne(list, s);
  }

  lemma OnlyOne(list: seq<string>, s: string)
    requires NoDuplicates(list) && s in list && forall y :: y in list ==> y == s
    ensures list == [s]
  {
    assert list[0] in list;
    if |list| > 1 { SecondToo(list); }
  }

  lemma SecondToo(list: seq<string>)
    requires |list| > 1
    ensures list[1] in list
  {
  }

  lemma SlackIs(c: string, s: string, o: string, x: int, d: int, start: int, end: int)
    requires Distinct3(c, s, o) && Aside(x, d, start, end)
    ensures var ids, m := Ids(c, s, o), Three(c, s, o, x, d, start, end);
            Max(x - d, SameEqPrevEnd(ids, m, m[s])) == x - d
  {
    var ids, m := Ids(c, s, o), Three(c, s, o, x, d, start, end);
    ThreeAreClear(c, s, o, x, d, start, end);
    PrevEndMeans(ids, m, m[s]);
    forall y | Before(m, m[s], y) ensures y == o && m[y].end <= x - d {}
  }

  /** The successor is pulled to where the nudge says. */
  lemma PulledTo(c: string, s: string, o: string, x: int, d: int, start: int, end: int, reverse: (int, int) -> int)
    requires Distinct3(c, s, o) && Aside(x, d, start, end)
    ensures var ids, m := Ids(c, s, o), Three(c, s, o, x, d, start, end);
            var r := reverse(x, d);
            && WellFormed(ids, m)
            && ProposalsFor(ids, m, reverse, c) == [PullEntry(s, s, s, x, x + 1, r, r + 1)]
  {
    var ids, m := Ids(c, s, o), Three(c, s, o, x, d, start, end);
    var r := reverse(x, d);
    ThreeAreClear(c, s, o, x, d, start, end);
    OneSuccessor(c, s, o, x, d, start, end);
    SlackIs(c, s, o, x, d, start, end);
    var e := PullEntry(s, s, s, x, x + 1, r, r + 1);
    assert Proposal(ids, m, reverse, m[s], x - d) == Some(e);
    assert [s][1..] == [] && Proposals(ids, m, reverse, [], r + 1) == [];
    assert Proposals(ids, m, reverse, [s], x - d) == Listed(Some(e)) + [];
  }

  /** A nudge that leaves the slack makes a clash: with a task that follows the successor, or with
      one that ends where the slack begins. */
  lemma OutsideClashes(reverse: (int, int) -> int, x: int, d: int, c: string, s: string, o: string)
    requires Distinct3(c, s, o) && 0 < d && !StaysWithin(reverse, x, d)
    ensures !NeverClashes(reverse)
  {
    var r := reverse(x, d);
    var start, end := if x < r then x + 1 else r, if x < r then r + 1 else x - d;
    var ids, m := Ids(c, s, o), Three(c, s, o, x, d, start, end);
    ThreeAreClear(c, s, o, x, d, start, end);
    PulledTo(c, s, o, x, d, start, end, reverse);
    var pulls := ProposalsFor(ids, m, reverse, c);
    var after := ApplyAll(m, pulls);
    assert pulls[1..] == [];
    assert EntryOf(pulls, s) == Some(pulls[0]) && EntryOf(pulls, o) == EntryOf([], o) == None;
    assert Clash(after[s], after[o]);
    assert !Clear(after);
  }

  /** Pulls never make a clash, whatever the schedule, exactly when the nudge stays within the slack. */
  lemma NeverClashesExactly(reverse: (int, int) -> int)
    ensures NeverClashes(reverse) <==> WithinSlack(reverse)
  {
    if WithinSlack(reverse) {
      forall ids: seq<string>, m: Schedule, changed: string | WellFormed(ids, m) && changed in m && Clear(m)
        ensures Clear(ApplyAll(m, ProposalsFor(ids, m, reverse, changed)))
      {
        SuccessorTasksMeans(ids, m, m[changed]);
        WithinEverywhere(ids, m, reverse, SuccessorTasks(ids, m, m[changed]), m[changed].end);
        PulledIsClear(ids, m, changed, reverse);
      }
    } else {
      var x, d :| 0 < d && !StaysWithin(reverse, x, d);
      assert Distinct3("c", "s", "o") by { assert "c"[0] != "s"[0] && "c"[0] != "o"[0] && "s"[0] != "o"[0]; }
      OutsideClashes(reverse, x, d, "c", "s", "o");
    }
  }
}
