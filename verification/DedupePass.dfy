/** The repair pass as the program runs it: rows are deleted and headers overwritten in place. */
module DedupePass {
  import opened Wrappers
  import opened Batches
  import opened Dedupe
  import opened DedupeLaws

  // ---------- treating the groups one after the other

  lemma RecountOne(r: Row, all: seq<Row>, gs: set<string>)
    ensures Recount([r], all, gs) == Fate(all, gs, r)
  {
    assert [] + [r] == [r];
    RecountSnoc([], r, all, gs);
  }

  lemma FateOnce(t: seq<Row>, gs: set<string>, g: string, r: Row)
    requires g !in gs
    ensures Recount(Fate(t, gs, r), Recount(t, t, gs), {g}) == Fate(t, gs + {g}, r)
  {
    var u := Recount(t, t, gs);
    OtherHeadersStay(t, t, gs, g);
    SubsStay(t, t, gs, g);
    var f := Fate(t, gs, r);
    if f != [] {
      assert f == [f[0]];
      RecountOne(f[0], u, {g});
    }
  }

  lemma {:induction false} OneGroupMore(rows: seq<Row>, t: seq<Row>, gs: set<string>, g: string)
    requires g !in gs
    ensures Recount(Recount(rows, t, gs), Recount(t, t, gs), {g}) == Recount(rows, t, gs + {g})
    decreases |rows|
  {
    if rows != [] {
      var n := |rows| - 1;
      var before, r := rows[..n], rows[n];
      assert rows == before + [r];
      OneGroupMore(before, t, gs, g);
      RecountSnoc(before, r, t, gs);
      RecountSnoc(before, r, t, gs + {g});
      EachConcat(Recount(before, t, gs), Fate(t, gs, r), FateIn(Recount(t, t, gs), {g}));
      FateOnce(t, gs, g, r);
    }
  }

  lemma {:induction false} NoGroups(rows: seq<Row>, all: seq<Row>)
    ensures Recount(rows, all, {}) == rows
    decreases |rows|
  {
    if rows != [] {
      var n := |rows| - 1;
      NoGroups(rows[..n], all);
      assert rows == rows[..n] + [rows[n]];
    }
  }

  lemma SameBalance(t: seq<Row>, gs: set<string>, g: string)
    requires g !in gs
    ensures RebalancedIn(Recount(t, t, gs), g) == RebalancedIn(t, g)
    ensures Headers(Recount(t, t, gs), g) == Headers(t, g)
  {
    OtherHeadersStay(t, t, gs, g);
    SubsStay(t, t, gs, g);
  }

  lemma BalanceOfCanonical(t: seq<Row>, g: string, c: Row)
    requires ById(t) && Canonical(t, g, c)
    ensures RebalancedIn(t, g) == Rebalanced(c, Subs(t, g), |Headers(t, g)|)
  {
    var hs := Headers(t, g);
    forall h | h in hs && Stays(hs, h) ensures h == c { OneCanonical(t, g, h, c); }
  }

  // ---------- one header

  /** The first of the headers in the order of due date, priority and key. */
  method ChooseHeader(hs: seq<Row>) returns (c: Row)
    requires hs != []
    ensures c in hs && Stays(hs, c)
  {
    c := hs[0];
    for i := 1 to |hs|
      invariant c in hs && forall j :: 0 <= j < i ==> Before(c, hs[j])
    {
      if !Before(c, hs[i]) { c := hs[i]; }
    }
  }

  method CountLots(net: real, h: Row) returns (w: Work)
    ensures w == LotsFor(net, h.lot, Work(h.drums, h.length))
  {
    if h.lot > 0.0 && net > 0.0 {
      var drums := Ceil(net / h.lot);
      if drums < 1 { drums := 1; }
      return Work(drums, drums as real * h.lot);
    }
    if net > 0.0 { return Work(1, net); }
    w := Work(h.drums, h.length);
  }

  method RebuildHeader(h: Row, subs: seq<Row>, headers: nat) returns (r: Row, rebalanced: bool)
    requires headers > 0
    ensures r == Rebuilt(h, subs, headers) && rebalanced == Rebalanced(h, subs, headers)
  {
    if subs == [] { return h, headers > 1; }
    var total := SumLengths(subs);
    var net := total * h.Cores() as real;
    assert net == NetOf(h, subs);
    var w := CountLots(net, h);
    assert w == WorkOf(h, subs);
    rebalanced := headers > 1 || Abs(h.length - w.length) > 0.5 || h.drums != w.drums;
    var surplus := if w.length - net > 0.0 then w.length - net else 0.0;
    var duration := if h.speed > 0.0 then Some(w.length / h.speed) else h.duration;
    var merges := if headers > 1 then h.merges + [headers] else h.merges;
    r := h.(length := w.length, drums := w.drums, due := EarliestDue(subs, h.due), priority := BestPriority(subs),
            duration := duration, surplus := surplus, merges := merges);
  }

  method SumLengths(rows: seq<Row>) returns (sum: real)
    ensures sum == Total(rows)
  {
    sum := 0.0;
    for i := 0 to |rows|
      invariant sum == Total(rows[..i])
    {
      assert rows[..i + 1][..i] == rows[..i];
      sum := sum + rows[i].length;
    }
    assert rows[..|rows|] == rows;
  }

  lemma OneRowMore(rows: seq<Row>, i: nat)
    requires i < |rows|
    ensures var before, r := rows[..i], rows[i];
            && DropRepeats(rows[..i + 1])
                 == DropRepeats(before) + (if Compared(r) && KeyOf(r) in Keys(before) then [] else [r])
            && Keys(rows[..i + 1]) == if Compared(r) then Keys(before) + {KeyOf(r)} else Keys(before)
  {
    assert rows[..i + 1][..i] == rows[..i] && rows[..i + 1] == rows[..i] + [rows[i]];
    KeysGrow(rows[..i], rows[i]);
  }

  /** The batch table of a run. */
  class Table {
    var rows: seq<Row>

    constructor (rows: seq<Row>)
      ensures this.rows == rows
    {
      this.rows := rows;
    }

    method DropRepeated() returns (deleted: int)
      modifies this
      ensures rows == DropRepeats(old(rows)) && deleted == |old(rows)| - |rows|
    {
      hide Compared, KeyOf;
      var seen: set<Key>, kept: seq<Row> := {}, [];
      deleted := 0;
      for i := 0 to |rows|
        invariant rows == old(rows) && kept == DropRepeats(rows[..i]) && seen == Keys(rows[..i])
                  && deleted == i - |kept|
      {
        var r := rows[i];
        OneRowMore(rows, i);
        if Compared(r) && KeyOf(r) in seen {
          deleted := deleted + 1;
        } else {
          kept := kept + [r];
        }
        if Compared(r) { seen := seen + {KeyOf(r)}; }
      }
      assert rows[..|rows|] == rows;
      rows := kept;
    }

    /** The groups with headers, each once. */
    method ListGroups() returns (groups: seq<string>)
      ensures (forall g :: g in groups <==> g in HeaderGroups(rows)) && Different(groups)
    {
      groups := [];
      for i := 0 to |rows|
        invariant Different(groups)
        invariant forall g :: g in groups <==> g in HeaderGroups(rows[..i])
      {
        var r := rows[i];
        assert rows[..i + 1] == rows[..i] + [r];
        assert forall x :: x in rows[..i + 1] <==> x in rows[..i] || x == r;
        if r.Header() && r.group.Some? && r.group.value != "" && r.group.value !in groups {
          groups := groups + [r.group.value];
        }
      }
      assert rows[..|rows|] == rows;
    }

    /** Keeps the first header of the group, with new totals, and deletes the others. */
    method TreatGroup(g: string) returns (deleted: int, rebalanced: bool)
      requires ById(rows) && g in HeaderGroups(rows)
      modifies this
      ensures rows == Recount(old(rows), old(rows), {g}) && deleted == |old(rows)| - |rows|
      ensures rebalanced == RebalancedIn(old(rows), g)
    {
      HeaderGroupsMean(rows, g);
      var hs, subs := Headers(rows, g), Subs(rows, g);
      var c := ChooseHeader(hs);
      BalanceOfCanonical(rows, g, c);
      var header;
      header, rebalanced := RebuildHeader(c, subs, |hs|);
      deleted := LeaveHeader(g, c, header);
    }

    /** Puts `header` in the place of `c` and deletes the other headers of the group. */
    method LeaveHeader(g: string, c: Row, header: Row) returns (deleted: int)
      requires ById(rows) && Canonical(rows, g, c) && header == Rebuilt(c, Subs(rows, g), |Headers(rows, g)|)
      modifies this
      ensures rows == Recount(old(rows), old(rows), {g}) && deleted == |old(rows)| - |rows|
    {
      var kept: seq<Row> := [];
      deleted := 0;
      for i := 0 to |rows|
        invariant rows == old(rows) && kept == Recount(rows[..i], rows, {g}) && deleted == i - |kept|
      {
        var r := rows[i];
        LeaveStep(rows, i, g, c, header);
        if r.group == Some(g) && r.Header() {
          if r.id == c.id { kept := kept + [header]; } else { deleted := deleted + 1; }
        } else {
          kept := kept + [r];
        }
      }
      assert rows[..|rows|] == rows;
      rows := kept;
    }

    method TreatGroups(groups: seq<string>) returns (headers: int, rebalanced: nat)
      requires ById(rows) && NoRepeats(rows) && Different(groups) && Listed(groups) <= HeaderGroups(rows)
      modifies this
      ensures Treated(old(rows), Listed(groups), rows, headers, rebalanced)
    {
      ghost var t := rows;
      headers, rebalanced := 0, 0;
      NothingTreated(t);
      assert Listed(groups[..0]) == {};
      for i := 0 to |groups|
        invariant Treated(t, Listed(groups[..i]), rows, headers, rebalanced)
      {
        var g := groups[i];
        ListedGrows(groups, i);
        GroupWaits(t, Listed(groups[..i]), g);
        var deleted, changed := TreatGroup(g);
        TreatedOneMore(t, Listed(groups[..i]), g, headers, rebalanced);
        headers := headers + deleted;
        if changed { rebalanced := rebalanced + 1; }
      }
      assert groups[..|groups|] == groups;
    }

    /** The whole pass. */
    method Dedupe() returns (report: Report)
      requires ById(rows)
      modifies this
      ensures rows == Deduped(old(rows)) && report == ReportOf(old(rows))
      ensures ById(rows)
    {
      DropRepeatsMeans(rows);
      var dropped := DropRepeated();
      var groups := ListGroups();
      assert Listed(groups) == HeaderGroups(rows);
      var headers, rebalanced := TreatGroups(groups);
      AllTreated(old(rows), rows, headers, rebalanced);
      report := Report(dropped, headers, rebalanced);
    }
  }

  ghost predicate Different(groups: seq<string>) { forall i, j :: 0 <= i < j < |groups| ==> groups[i] != groups[j] }

  ghost function Listed(groups: seq<string>): set<string> { set g | g in groups }

  lemma ListedGrows(groups: seq<string>, i: nat)
    requires i < |groups| && Different(groups)
    ensures Listed(groups[..i + 1]) == Listed(groups[..i]) + {groups[i]} && groups[i] !in Listed(groups[..i])
    ensures groups[i] in Listed(groups)
  {
    assert groups[..i + 1] == groups[..i] + [groups[i]];
  }

  /** The groups `done` have been treated, `headers` rows are gone, `rebalanced` groups were changed. */
  ghost predicate Treated(t: seq<Row>, done: set<string>, rows: seq<Row>, headers: int, rebalanced: nat) {
    && ById(t) && NoRepeats(t)
    && rows == Recount(t, t, done) && headers == |t| - |rows|
    && rebalanced == CountRebalanced(t, done)
  }

  lemma NothingTreated(t: seq<Row>)
    requires ById(t) && NoRepeats(t)
    ensures Treated(t, {}, t, 0, 0)
  {
    NoGroups(t, t);
    NoneRebalanced(t, {});
  }

  lemma TreatedOneMore(t: seq<Row>, done: set<string>, g: string, headers: int, rebalanced: nat)
    requires var u := Recount(t, t, done); Treated(t, done, u, headers, rebalanced) && g !in done
    ensures var u := Recount(t, t, done);
            var v := Recount(u, u, {g});
            Treated(t, done + {g}, v, headers + |u| - |v|, rebalanced + if RebalancedIn(u, g) then 1 else 0)
  {
    OneGroupMore(t, t, done, g);
    SameBalance(t, done, g);
    CountOneMore(t, done, g);
  }

  lemma CountOneMore(t: seq<Row>, done: set<string>, g: string)
    requires g !in done
    ensures CountRebalanced(t, done + {g}) == CountRebalanced(t, done) + if RebalancedIn(t, g) then 1 else 0
  {
    OneMoreSatisfies(done, g, x => RebalancedIn(t, x));
  }

  lemma OneMoreSatisfies(done: set<string>, g: string, p: string -> bool)
    requires g !in done
    ensures |Satisfying(done + {g}, p)| == |Satisfying(done, p)| + if p(g) then 1 else 0
  {
    assert Satisfying(done + {g}, p) == Satisfying(done, p) + if p(g) then {g} else {};
  }

  lemma AllTreated(rows: seq<Row>, after: seq<Row>, headers: int, rebalanced: nat)
    requires var t := DropRepeats(rows); Treated(t, HeaderGroups(t), after, headers, rebalanced)
    ensures after == Deduped(rows) && ReportOf(rows) == Report(|rows| - |DropRepeats(rows)|, headers, rebalanced)
    ensures ById(after)
  {
    var t := DropRepeats(rows);
    RecountKeeps(t, t, HeaderGroups(t));
  }

  lemma LeaveStep(rows: seq<Row>, i: nat, g: string, c: Row, header: Row)
    requires ById(rows) && i < |rows| && Canonical(rows, g, c)
    requires header == Rebuilt(c, Subs(rows, g), |Headers(rows, g)|)
    ensures var r, before := rows[i], Recount(rows[..i], rows, {g});
            Recount(rows[..i + 1], rows, {g}) == if r.group == Some(g) && r.Header()
                                                  then if r.id == c.id then before + [header] else before
                                                  else before + [r]
  {
    var r := rows[i];
    GroupFate(rows, g, c, r);
    RecountSnoc(rows[..i], r, rows, {g});
    assert rows[..i + 1] == rows[..i] + [r];
  }

  lemma GroupFate(rows: seq<Row>, g: string, c: Row, r: Row)
    requires ById(rows) && Canonical(rows, g, c) && r in rows
    ensures Fate(rows, {g}, r) == if r.group == Some(g) && r.Header()
                                  then if r.id == c.id then [Rebuilt(c, Subs(rows, g), |Headers(rows, g)|)] else []
                                  else [r]
  {
    FateIs(rows, {g}, r);
    WhereMeans(rows, IsHeader(g));
    if r.group == Some(g) && r.Header() {
      if r.id == c.id { SameId(rows, r, c); }
      if Canonical(rows, g, r) { OneCanonical(rows, g, r, c); }
    }
  }

  /** A group that is still to be treated has its headers still. */
  lemma GroupWaits(t: seq<Row>, done: set<string>, g: string)
    requires g !in done && g in HeaderGroups(t) && ById(t) && NoRepeats(t)
    ensures ById(Recount(t, t, done)) && g in HeaderGroups(Recount(t, t, done))
            && RebalancedIn(Recount(t, t, done), g) == RebalancedIn(t, g)
  {
    HeaderGroupsMean(t, g);
    HeaderGroupsMean(Recount(t, t, done), g);
    SameBalance(t, done, g);
    RecountKeeps(t, t, done);
  }
}
