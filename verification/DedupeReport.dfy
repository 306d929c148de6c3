/** What the numbers of the repair pass tell of its changes, and what they do not. */
module DedupeReport {
  import opened Wrappers
  import opened Batches
  import opened Dedupe
  import opened DedupeLaws
  import opened DedupePass

  // ---------- a report of zeros

  /** A group has one header, and the pass would not count it as rebalanced. */
  ghost predicate Even(rows: seq<Row>, g: string) {
    var hs := Headers(rows, g);
    |hs| == 1 && !Rebalanced(hs[0], Subs(rows, g), 1)
  }

  lemma OneHeaderIsCanonical(rows: seq<Row>, g: string)
    requires |Headers(rows, g)| == 1
    ensures Canonical(rows, g, Headers(rows, g)[0])
  {
    var hs := Headers(rows, g);
    assert forall h :: h in hs ==> h == hs[0];
  }

  /** A headed group that is not counted as rebalanced is even, and the other way round. */
  lemma EvenExactly(rows: seq<Row>, g: string)
    requires ById(rows) && g in HeaderGroups(rows)
    ensures Even(rows, g) <==> !RebalancedIn(rows, g)
  {
    var hs := Headers(rows, g);
    HeaderGroupsMean(rows, g);
    var k := SomeStays(hs);
    assert Canonical(rows, g, hs[k]);
    BalanceOfCanonical(rows, g, hs[k]);
    if |hs| == 1 { assert k == 0; }
  }

  lemma NoneCounted(rows: seq<Row>, gs: set<string>)
    ensures CountRebalanced(rows, gs) == 0 <==> forall g :: g in gs ==> !RebalancedIn(rows, g)
  {
    var counted := Satisfying(gs, g => RebalancedIn(rows, g));
    if forall g :: g in gs ==> !RebalancedIn(rows, g) {
      NoneRebalanced(rows, gs);
    } else {
      var g :| g in gs && RebalancedIn(rows, g);
      assert g in counted;
    }
  }

  lemma PrefixSnoc(rows: seq<Row>, n: nat)
    requires 0 < n <= |rows|
    ensures rows[..n] == rows[..n - 1] + [rows[n - 1]]
  {
  }

  lemma {:induction false} RecountSameSize(n: nat, all: seq<Row>, gs: set<string>)
    requires n <= |all| && forall i :: 0 <= i < |all| ==> |Fate(all, gs, all[i])| == 1
    ensures |Recount(all[..n], all, gs)| == n
    decreases n
  {
    if n > 0 {
      hide Fate, Recount;
      RecountSameSize(n - 1, all, gs);
      RecountSnoc(all[..n - 1], all[n - 1], all, gs);
      PrefixSnoc(all, n);
    }
  }

  lemma EvenFate(rows: seq<Row>, r: Row)
    requires r in rows && forall g :: g in HeaderGroups(rows) ==> Even(rows, g)
    ensures |Fate(rows, HeaderGroups(rows), r)| == 1
  {
    FateIs(rows, HeaderGroups(rows), r);
    if r.Header() && r.group.Some? && r.group.value in HeaderGroups(rows) {
      var g := r.group.value;
      WhereMeans(rows, IsHeader(g));
      assert r in Headers(rows, g) && Even(rows, g);
      OneHeaderIsCanonical(rows, g);
      assert r == Headers(rows, g)[0];
    }
  }

  /** The report is all zeros exactly when no key repeats, every headed group has one header, and no
      header is off by more than half a metre or in its number of lots. */
  lemma ZeroReportExactly(rows: seq<Row>)
    requires ById(rows)
    ensures ReportOf(rows) == Report(0, 0, 0) <==>
              NoRepeats(rows) && forall g :: g in HeaderGroups(rows) ==> Even(rows, g)
  {
    if NoRepeats(rows) { NothingToDrop(rows); }
    DropRepeatsShrinks(rows);
    if DropRepeats(rows) == rows {
      var gs := HeaderGroups(rows);
      forall g | g in gs ensures Even(rows, g) <==> !RebalancedIn(rows, g) { EvenExactly(rows, g); }
      NoneCounted(rows, gs);
      if forall g :: g in gs ==> Even(rows, g) {
        forall i | 0 <= i < |rows| ensures |Fate(rows, gs, rows[i])| == 1 { EvenFate(rows, rows[i]); }
        RecountSameSize(|rows|, rows, gs);
        assert rows[..|rows|] == rows;
      }
    }
  }

  /** A report of zeros hides a change exactly when moreover some header would be counted anew
      differently: its length by half a metre at most, or its due date, priority, duration or surplus. */
  lemma ZerosHideAChangeExactly(rows: seq<Row>)
    requires ById(rows)
    ensures ReportOf(rows) == Report(0, 0, 0) && Deduped(rows) != rows <==>
              && NoRepeats(rows) && (forall g :: g in HeaderGroups(rows) ==> Even(rows, g))
              && exists g :: g in HeaderGroups(rows) && !Settled(rows, g)
  {
    ZeroReportExactly(rows);
    UnchangedExactly(rows);
  }

  lemma HeadAndSub(rows: seq<Row>, g: string, h: Row, s: Row)
    requires rows == [h, s] && IsHeader(g)(h) && IsSub(g)(s)
    ensures Headers(rows, g) == [h] && Subs(rows, g) == [s]
  {
    assert rows == [h] + [s];
    WhereConcat([h], [s], IsHeader(g));
    WhereConcat([h], [s], IsSub(g));
    WhereOne(h, IsHeader(g));
    WhereOne(s, IsHeader(g));
    WhereOne(h, IsSub(g));
    WhereOne(s, IsSub(g));
  }

  /** Any header with one order row that would be counted anew differently, but not by enough. */
  lemma PairHidesAChange(rows: seq<Row>, g: string, h: Row, s: Row)
    requires rows == [h, s] && g != "" && h.id < s.id && IsHeader(g)(h) && IsSub(g)(s)
    requires !Rebalanced(h, [s], 1) && Rebuilt(h, [s], 1) != h
    ensures ById(rows) && ReportOf(rows) == Report(0, 0, 0) && Deduped(rows) != rows
  {
    assert rows[0] == h && rows[1] == s && forall r :: r in rows <==> r == h || r == s;
    HeadAndSub(rows, g, h, s);
    assert HeaderGroups(rows) == {g};
    assert Even(rows, g) && !Settled(rows, g);
    ZerosHideAChangeExactly(rows);
  }

  /** The report may be all zeros although a header was changed, here by half a metre. */
  lemma ZeroReportMayHideAChange()
    ensures exists rows :: ById(rows) && ReportOf(rows) == Report(0, 0, 0) && Deduped(rows) != rows
  {
    var h := Row(1, Some("g"), "o", 1, -1, "p", 10.0, 0.0, 1, 1, None, 99, 0.0, None, 0.0, []);
    var s := Row(2, Some("g"), "o", 1, 1, "p", 10.5, 0.0, 1, 1, None, 99, 0.0, None, 0.0, []);
    assert Total([s]) == 10.5 by { assert [s][..0] == []; }
    assert WorkOf(h, [s]) == Work(1, 10.5);
    PairHidesAChange([h, s], "g", h, s);
  }

  // ---------- what the three numbers count

  ghost function Members(rows: seq<Row>): set<Row> { set r | r in rows }

  ghost function Repeating(rows: seq<Row>): set<Row> { set r | r in rows && Repeats(rows, r) }

  /** The rows of which nothing is left when the groups `gs` are treated. */
  ghost function Gone(rows: seq<Row>, all: seq<Row>, gs: set<string>): set<Row> {
    set r | r in rows && Fate(all, gs, r) == []
  }

  /** The headers of named groups that are not the one that stays. */
  ghost function SpareHeaders(rows: seq<Row>): set<Row> {
    set r | r in rows && r.Header() && r.group.Some? && r.group.value != "" && !Canonical(rows, r.group.value, r)
  }

  /** The headed groups that are not even once no key repeats. */
  ghost function Uneven(rows: seq<Row>): set<string> {
    set g | g in HeaderGroups(rows) && !Even(DropRepeats(rows), g)
  }

  lemma MembersSnoc(before: seq<Row>, r: Row)
    requires r !in before
    ensures |Members(before + [r])| == |Members(before)| + 1
  {
    assert Members(before + [r]) == Members(before) + {r};
  }

  lemma PrefixById(rows: seq<Row>)
    requires ById(rows) && rows != []
    ensures ById(rows[..|rows| - 1])
  {
  }

  lemma {:induction false} RowsAreMembers(rows: seq<Row>)
    requires ById(rows)
    ensures |Members(rows)| == |rows|
    decreases |rows|
  {
    if rows != [] {
      var n := |rows| - 1;
      hide ById, Members;
      PrefixById(rows);
      RowsAreMembers(rows[..n]);
      LastNotBefore(rows);
      MembersSnoc(rows[..n], rows[n]);
      assert rows == rows[..n] + [rows[n]];
    }
  }

  lemma RepeatingAreDropped(rows: seq<Row>)
    requires ById(rows)
    ensures |rows| - |DropRepeats(rows)| == |Repeating(rows)|
  {
    var t := DropRepeats(rows);
    DropRepeatsMeans(rows);
    RowsAreMembers(rows);
    RowsAreMembers(t);
    assert Members(rows) == Members(t) + Repeating(rows) && Members(t) !! Repeating(rows);
  }

  lemma GoneSnoc(before: seq<Row>, r: Row, all: seq<Row>, gs: set<string>)
    requires r !in before
    ensures |Gone(before + [r], all, gs)| == |Gone(before, all, gs)| + if Fate(all, gs, r) == [] then 1 else 0
  {
    hide Fate;
    assert forall x :: x in before + [r] <==> x in before || x == r;
    assert Gone(before + [r], all, gs) == Gone(before, all, gs) + if Fate(all, gs, r) == [] then {r} else {};
  }

  lemma OneOrNone(all: seq<Row>, gs: set<string>, r: Row)
    ensures |Fate(all, gs, r)| <= 1
  {
  }

  lemma {:induction false} GoneAreMissing(rows: seq<Row>, all: seq<Row>, gs: set<string>)
    requires ById(rows)
    ensures |rows| - |Recount(rows, all, gs)| == |Gone(rows, all, gs)|
    decreases |rows|
  {
    if rows != [] {
      hide Fate, Recount, Gone, ById;
      var n := |rows| - 1;
      PrefixById(rows);
      GoneAreMissing(rows[..n], all, gs);
      RecountSnoc(rows[..n], rows[n], all, gs);
      LastNotBefore(rows);
      GoneSnoc(rows[..n], rows[n], all, gs);
      OneOrNone(all, gs, rows[n]);
      assert rows == rows[..n] + [rows[n]];
    }
  }

  lemma {:induction false} HeadersAreKept(rows: seq<Row>, g: string)
    ensures Headers(DropRepeats(rows), g) == Headers(rows, g)
    decreases |rows|
  {
    if rows != [] {
      var n := |rows| - 1;
      var before, r := rows[..n], rows[n];
      assert rows == before + [r];
      HeadersAreKept(before, g);
      WhereSnoc(before, r, IsHeader(g));
      WhereSnoc(DropRepeats(before), r, IsHeader(g));
      if Compared(r) && KeyOf(r) in Keys(before) {
        assert DropRepeats(rows) == DropRepeats(before) + [] == DropRepeats(before);
      } else {
        assert DropRepeats(rows) == DropRepeats(before) + [r];
      }
    }
  }

  lemma GoneAreSpare(rows: seq<Row>)
    requires ById(rows)
    ensures var t := DropRepeats(rows); Gone(t, t, HeaderGroups(t)) == SpareHeaders(rows)
  {
    var t := DropRepeats(rows);
    DropRepeatsMeans(rows);
    forall r ensures r in Gone(t, t, HeaderGroups(t)) <==> r in SpareHeaders(rows) {
      if r in t { FateIs(t, HeaderGroups(t), r); }
      if r.group.Some? { HeadersAreKept(rows, r.group.value); }
    }
  }

  /** What a caller may read from the report: the rows deleted are those that repeat an earlier key,
      the headers deleted those that are not the one that stays, and the groups rebalanced those
      that had several headers, or one that is off by more than half a metre or in its lots. */
  lemma ReportMeans(rows: seq<Row>)
    requires ById(rows)
    ensures ReportOf(rows) == Report(|Repeating(rows)|, |SpareHeaders(rows)|, |Uneven(rows)|)
  {
    var t := DropRepeats(rows);
    RepeatingAreDropped(rows);
    DropRepeatsMeans(rows);
    HeadersSurviveDrop(rows);
    GoneAreMissing(t, t, HeaderGroups(t));
    GoneAreSpare(rows);
    forall g | g in HeaderGroups(t) ensures Even(t, g) <==> !RebalancedIn(t, g) { EvenExactly(t, g); }
    assert Satisfying(HeaderGroups(t), g => RebalancedIn(t, g)) == Uneven(rows);
  }
}
