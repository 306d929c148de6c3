/** What a table looks like after the repair pass, and when the pass changes nothing. */
module DedupeLaws {
  import opened Wrappers
  import opened Batches
  import opened Dedupe

  // ---------- the header that stays

  lemma StaysIsOne(hs: seq<Row>, i: nat, j: nat)
    requires ById(hs) && i < |hs| && j < |hs| && Stays(hs, hs[i]) && Stays(hs, hs[j])
    ensures i == j
  {
    assert hs[i] in hs && hs[j] in hs;
    assert hs[i].id == hs[j].id;
  }

  lemma {:induction false} SomeStays(hs: seq<Row>) returns (k: nat)
    requires hs != []
    ensures k < |hs| && Stays(hs, hs[k])
    decreases |hs|
  {
    var n := |hs| - 1;
    assert hs == hs[..n] + [hs[n]];
    k := n;
    if n > 0 {
      var j := SomeStays(hs[..n]);
      if Before(hs[j], hs[n]) { k := j; } else { assert forall h :: h in hs[..n] ==> Before(hs[j], h); }
    }
  }

  /** A header of group `g` that stays. */
  ghost predicate Canonical(all: seq<Row>, g: string, c: Row) {
    c in Headers(all, g) && Stays(Headers(all, g), c)
  }

  lemma OneCanonical(all: seq<Row>, g: string, a: Row, b: Row)
    requires ById(all) && Canonical(all, g, a) && Canonical(all, g, b)
    ensures a == b
  {
    var hs := Headers(all, g);
    WhereById(all, IsHeader(g));
    var i :| 0 <= i < |hs| && hs[i] == a;
    var j :| 0 <= j < |hs| && hs[j] == b;
    StaysIsOne(hs, i, j);
  }

  lemma FateIs(all: seq<Row>, gs: set<string>, r: Row)
    requires r in all
    ensures var f := Fate(all, gs, r);
            if r.Header() && r.group.Some? && r.group.value in gs
            then if Canonical(all, r.group.value, r)
                 then f == [Rebuilt(r, Subs(all, r.group.value), |Headers(all, r.group.value)|)]
                 else f == []
            else f == [r]
  {
    if r.group.Some? { WhereMeans(all, IsHeader(r.group.value)); }
  }

  // ---------- what recounting leaves alone

  lemma RecountSnoc(rows: seq<Row>, r: Row, all: seq<Row>, gs: set<string>)
    ensures Recount(rows + [r], all, gs) == Recount(rows, all, gs) + Fate(all, gs, r)
  {
    EachSnoc(rows, r, FateIn(all, gs));
  }

  lemma RebuiltKind(h: Row, subs: seq<Row>, headers: nat)
    ensures Rebuilt(h, subs, headers).group == h.group && Rebuilt(h, subs, headers).rank == h.rank
  {
  }

  lemma FateOfSub(all: seq<Row>, gs: set<string>, g: string, r: Row)
    ensures Unseen(FateIn(all, gs), IsSub(g), r)
  {
    hide Rebuilt, Headers, Subs, Stays, Where;
    WhereOne(r, IsSub(g));
    if Fate(all, gs, r) != [r] {
      var subs, hs := Subs(all, r.group.value), Headers(all, r.group.value);
      RebuiltKind(r, subs, |hs|);
      WhereOne(Rebuilt(r, subs, |hs|), IsSub(g));
      WhereEmpty(IsSub(g));
    }
  }

  lemma FateOfOtherHeader(all: seq<Row>, gs: set<string>, g: string, r: Row)
    requires g !in gs
    ensures Unseen(FateIn(all, gs), IsHeader(g), r)
  {
    hide Rebuilt, Headers, Subs, Stays, Where;
    WhereOne(r, IsHeader(g));
    if Fate(all, gs, r) != [r] {
      var subs, hs := Subs(all, r.group.value), Headers(all, r.group.value);
      RebuiltKind(r, subs, |hs|);
      WhereOne(Rebuilt(r, subs, |hs|), IsHeader(g));
      WhereEmpty(IsHeader(g));
    }
  }

  lemma WhereEmpty(keep: Row -> bool)
    ensures Where([], keep) == []
  {
  }

  lemma SubsStay(rows: seq<Row>, all: seq<Row>, gs: set<string>, g: string)
    ensures Subs(Recount(rows, all, gs), g) == Subs(rows, g)
  {
    hide Fate;
    forall r ensures Unseen(FateIn(all, gs), IsSub(g), r) { FateOfSub(all, gs, g, r); }
    EachUnseen(rows, FateIn(all, gs), IsSub(g));
  }

  lemma OtherHeadersStay(rows: seq<Row>, all: seq<Row>, gs: set<string>, g: string)
    requires g !in gs
    ensures Headers(Recount(rows, all, gs), g) == Headers(rows, g)
  {
    hide Fate;
    forall r ensures Unseen(FateIn(all, gs), IsHeader(g), r) { FateOfOtherHeader(all, gs, g, r); }
    EachUnseen(rows, FateIn(all, gs), IsHeader(g));
  }

  /** A treated group is left with its canonical header, recounted. */
  lemma {:induction false} HeaderLeft(rows: seq<Row>, all: seq<Row>, gs: set<string>, g: string, c: Row)
    requires ById(all) && ById(rows) && (forall r :: r in rows ==> r in all) && g in gs && Canonical(all, g, c)
    ensures Headers(Recount(rows, all, gs), g)
              == if c in rows then [Rebuilt(c, Subs(all, g), |Headers(all, g)|)] else []
    decreases |rows|
  {
    if rows != [] {
      var n := |rows| - 1;
      var r := rows[n];
      assert rows == rows[..n] + [r];
      HeaderLeft(rows[..n], all, gs, g, c);
      WhereConcat(Recount(rows[..n], all, gs), Fate(all, gs, r), IsHeader(g));
      FateOfHeader(all, gs, g, c, r);
      LastNotBefore(rows);
    }
  }

  lemma LastNotBefore(rows: seq<Row>)
    requires ById(rows) && rows != []
    ensures rows[|rows| - 1] !in rows[..|rows| - 1]
  {
  }

  lemma FateOfHeader(all: seq<Row>, gs: set<string>, g: string, c: Row, r: Row)
    requires ById(all) && r in all && g in gs && Canonical(all, g, c)
    ensures Where(Fate(all, gs, r), IsHeader(g)) == if r == c then [Rebuilt(c, Subs(all, g), |Headers(all, g)|)] else []
  {
    FateIs(all, gs, r);
    WhereMeans(all, IsHeader(g));
    if IsHeader(g)(r) {
      if Canonical(all, g, r) {
        OneCanonical(all, g, c, r);
        WhereOne(Rebuilt(r, Subs(all, g), |Headers(all, g)|), IsHeader(g));
      }
    } else if Fate(all, gs, r) != [] {
      WhereOne(Fate(all, gs, r)[0], IsHeader(g));
    }
  }

  // ---------- keys and order

  lemma AllButTheLast(rows: seq<Row>)
    requires rows != [] && ById(rows) && NoRepeats(rows)
    ensures var n := |rows| - 1;
            && ById(rows[..n]) && NoRepeats(rows[..n])
            && ById(rows[..n] + [rows[n]]) && NoRepeats(rows[..n] + [rows[n]])
  {
    hide KeyOf, Compared;
    var n := |rows| - 1;
    assert rows == rows[..n] + [rows[n]];
  }

  lemma {:induction false} RecountKeeps(rows: seq<Row>, all: seq<Row>, gs: set<string>)
    requires ById(rows) && NoRepeats(rows) && forall r :: r in rows ==> r in all
    ensures ById(Recount(rows, all, gs)) && NoRepeats(Recount(rows, all, gs))
    ensures Keys(Recount(rows, all, gs)) == Keys(rows)
    ensures rows != [] ==> forall r :: r in Recount(rows, all, gs) ==> r.id <= rows[|rows| - 1].id
    decreases |rows|
  {
    if rows != [] {
      hide Recount, Fate, Keys, ById, NoRepeats;
      var n := |rows| - 1;
      AllButTheLast(rows);
      RecountKeeps(rows[..n], all, gs);
      RecountSnoc(rows[..n], rows[n], all, gs);
      RecountKeepsLast(rows[..n], rows[n], Recount(rows[..n], all, gs), Fate(all, gs, rows[n]), all, gs);
      assert rows == rows[..n] + [rows[n]];
    }
  }

  lemma RecountKeepsLast(rows: seq<Row>, r: Row, done: seq<Row>, f: seq<Row>, all: seq<Row>, gs: set<string>)
    requires ById(rows + [r]) && NoRepeats(rows + [r]) && r in all && f == Fate(all, gs, r)
    requires ById(done) && NoRepeats(done) && Keys(done) == Keys(rows)
    requires rows != [] ==> forall x :: x in done ==> x.id <= rows[|rows| - 1].id
    requires rows == [] ==> done == []
    ensures ById(done + f) && NoRepeats(done + f) && Keys(done + f) == Keys(rows + [r])
    ensures forall x :: x in done + f ==> x.id <= r.id
  {
    FateIs(all, gs, r);
    KeysGrow(rows, r);
    forall x | x in done ensures x.id < r.id { assert (rows + [r])[|rows| - 1].id < (rows + [r])[|rows|].id; }
    if f == [] {
      assert done + f == done;
    } else {
      assert f == [f[0]] && f[0].id == r.id && Compared(f[0]) == Compared(r);
      KeysGrow(done, f[0]);
      LastIsNew(rows, r);
      NoRepeatsGrows(done, f[0]);
    }
  }

  lemma LastIsNew(rows: seq<Row>, r: Row)
    requires NoRepeats(rows + [r])
    ensures !(Compared(r) && KeyOf(r) in Keys(rows))
  {
    forall s | s in rows && Compared(s) && Compared(r) ensures KeyOf(s) != KeyOf(r) {
      var i :| 0 <= i < |rows| && rows[i] == s;
      assert (rows + [r])[i] == s && (rows + [r])[|rows|] == r;
    }
  }

  lemma {:induction false} NothingInvented(rows: seq<Row>, all: seq<Row>, gs: set<string>)
    requires forall r :: r in rows ==> r in all
    ensures forall r :: r in Recount(rows, all, gs) && !r.Header() ==> r in rows
    ensures forall r :: r in rows && !r.Header() ==> r in Recount(rows, all, gs)
    decreases |rows|
  {
    if rows != [] {
      var n := |rows| - 1;
      NothingInvented(rows[..n], all, gs);
      FateIs(all, gs, rows[n]);
      assert rows == rows[..n] + [rows[n]];
      assert rows[n] in rows;
    }
  }

  // ---------- after the pass

  lemma HeaderGroupsMean(rows: seq<Row>, g: string)
    ensures g in HeaderGroups(rows) <==> g != "" && Headers(rows, g) != []
  {
    WhereMeans(rows, IsHeader(g));
    if g != "" && Headers(rows, g) != [] { assert Headers(rows, g)[0] in rows; }
    if g in HeaderGroups(rows) {
      var r :| r in rows && r.Header() && r.group.Some? && r.group.value != "" && r.group.value == g;
      assert r in Headers(rows, g);
    }
  }

  /** A group is settled: one header, and recounting it changes nothing. */
  ghost predicate Settled(rows: seq<Row>, g: string) {
    var hs := Headers(rows, g);
    |hs| == 1 && Rebuilt(hs[0], Subs(rows, g), 1) == hs[0]
  }

  lemma RebuiltAgain(h: Row, subs: seq<Row>, n: nat)
    ensures Rebuilt(Rebuilt(h, subs, n), subs, 1) == Rebuilt(h, subs, n)
  {
    if subs != [] {
      var once := Rebuilt(h, subs, n);
      assert NetOf(once, subs) == NetOf(h, subs);
      WorkAgain(NetOf(h, subs), h.lot, Work(h.drums, h.length));
      assert WorkOf(once, subs) == WorkOf(h, subs);
      EarliestDueSame(subs, h.due, EarliestDue(subs, h.due));
    }
  }

  lemma WorkAgain(net: real, lot: real, otherwise: Work)
    ensures LotsFor(net, lot, LotsFor(net, lot, otherwise)) == LotsFor(net, lot, otherwise)
  {
  }

  lemma EarliestDueSame(rows: seq<Row>, a: Option<int>, b: Option<int>)
    requires b == EarliestDue(rows, a)
    ensures EarliestDue(rows, b) == b
  {
    EarliestDueMeans(rows, a);
    EarliestDueMeans(rows, b);
    if exists r :: r in rows && r.due.Some? {
      var x :| x in rows && x.due == EarliestDue(rows, a);
      var y :| y in rows && y.due == EarliestDue(rows, b);
    }
  }

  lemma SettledByRecount(t: seq<Row>, g: string)
    requires ById(t) && g in HeaderGroups(t)
    ensures Settled(Recount(t, t, HeaderGroups(t)), g)
    ensures exists c :: Canonical(t, g, c)
              && Headers(Recount(t, t, HeaderGroups(t)), g) == [Rebuilt(c, Subs(t, g), |Headers(t, g)|)]
  {
    HeaderGroupsMean(t, g);
    var k := SomeStays(Headers(t, g));
    var c := Headers(t, g)[k];
    assert Canonical(t, g, c);
    WhereMeans(t, IsHeader(g));
    HeaderLeft(t, t, HeaderGroups(t), g, c);
    SubsStay(t, t, HeaderGroups(t), g);
    RebuiltAgain(c, Subs(t, g), |Headers(t, g)|);
  }

  lemma SameGroups(t: seq<Row>)
    requires ById(t)
    ensures HeaderGroups(Recount(t, t, HeaderGroups(t))) == HeaderGroups(t)
  {
    var gs := HeaderGroups(t);
    var u := Recount(t, t, gs);
    forall g ensures g in HeaderGroups(u) <==> g in gs {
      HeaderGroupsMean(t, g);
      HeaderGroupsMean(u, g);
      if g in gs { SettledByRecount(t, g); } else { OtherHeadersStay(t, t, gs, g); }
    }
  }

  /** After the pass: each key once, held by its smallest id; one header in each named group that
      had any; every other header and every order row that stays is as it was. */
  lemma AfterThePass(rows: seq<Row>)
    requires ById(rows)
    ensures var u := Deduped(rows);
            && ById(u) && NoRepeats(u) && Keys(u) == Keys(rows)
            && (forall r :: r in u && !r.Header() <==> r in rows && !r.Header() && !Repeats(rows, r))
            && HeaderGroups(u) == HeaderGroups(rows) && forall g :: g in HeaderGroups(u) ==> Settled(u, g)
  {
    var t := DropRepeats(rows);
    var gs := HeaderGroups(t);
    DropRepeatsMeans(rows);
    RecountKeeps(t, t, gs);
    NothingInvented(t, t, gs);
    SameGroups(t);
    forall g | g in gs ensures Settled(Recount(t, t, gs), g) { SettledByRecount(t, g); }
    HeadersSurviveDrop(rows);
  }

  lemma HeadersSurviveDrop(rows: seq<Row>)
    requires ById(rows)
    ensures HeaderGroups(DropRepeats(rows)) == HeaderGroups(rows)
  {
    DropRepeatsMeans(rows);
    assert forall r :: r in rows && r.Header() <==> r in DropRepeats(rows) && r.Header();
  }

  // ---------- when nothing changes

  lemma {:induction false} RecountSteady(n: nat, all: seq<Row>, gs: set<string>)
    requires n <= |all| && forall i :: 0 <= i < |all| ==> Fate(all, gs, all[i]) == [all[i]]
    ensures Recount(all[..n], all, gs) == all[..n]
    decreases n
  {
    if n > 0 {
      RecountSteady(n - 1, all, gs);
      assert all[..n][..n - 1] == all[..n - 1] && all[..n] == all[..n - 1] + [all[n - 1]];
    }
  }

  lemma {:induction false} RecountShrinks(rows: seq<Row>, all: seq<Row>, gs: set<string>)
    ensures |Recount(rows, all, gs)| <= |rows|
    decreases |rows|
  {
    if rows != [] { RecountShrinks(rows[..|rows| - 1], all, gs); }
  }

  lemma {:induction false} SteadyFates(rows: seq<Row>, all: seq<Row>, gs: set<string>)
    requires Recount(rows, all, gs) == rows
    ensures forall i :: 0 <= i < |rows| ==> Fate(all, gs, rows[i]) == [rows[i]]
    decreases |rows|
  {
    if rows != [] {
      var n := |rows| - 1;
      var before, f := Recount(rows[..n], all, gs), Fate(all, gs, rows[n]);
      RecountShrinks(rows[..n], all, gs);
      assert before + f == rows && |before| == n;
      assert before == (before + f)[..n] && f == (before + f)[n..];
      SteadyFates(rows[..n], all, gs);
      forall i | 0 <= i < n ensures Fate(all, gs, rows[i]) == [rows[i]] { assert rows[..n][i] == rows[i]; }
    }
  }

  lemma SettledFate(t: seq<Row>, r: Row)
    requires r in t && forall g :: g in HeaderGroups(t) ==> Settled(t, g)
    ensures Fate(t, HeaderGroups(t), r) == [r]
  {
    if r.Header() && r.group.Some? && r.group.value in HeaderGroups(t) {
      var g := r.group.value;
      WhereMeans(t, IsHeader(g));
      assert r in Headers(t, g);
      assert Headers(t, g) == [r];
    }
  }

  lemma SteadyHeader(t: seq<Row>, g: string, h: Row)
    requires g in HeaderGroups(t) && h in t && IsHeader(g)(h)
    requires forall i :: 0 <= i < |t| ==> Fate(t, HeaderGroups(t), t[i]) == [t[i]]
    ensures Stays(Headers(t, g), h) && Rebuilt(h, Subs(t, g), |Headers(t, g)|) == h
  {
    var j :| 0 <= j < |t| && t[j] == h;
    assert Fate(t, HeaderGroups(t), t[j]) == [h];
  }

  lemma SteadyIsSettled(t: seq<Row>, g: string)
    requires ById(t) && g in HeaderGroups(t) && Recount(t, t, HeaderGroups(t)) == t
    ensures Settled(t, g)
  {
    var hs := Headers(t, g);
    HeaderGroupsMean(t, g);
    WhereMeans(t, IsHeader(g));
    WhereById(t, IsHeader(g));
    SteadyFates(t, t, HeaderGroups(t));
    forall i | 0 <= i < |hs| ensures Stays(hs, hs[i]) && Rebuilt(hs[i], Subs(t, g), |hs|) == hs[i] {
      assert hs[i] in hs;
      SteadyHeader(t, g, hs[i]);
    }
    if |hs| > 1 { StaysIsOne(hs, 0, 1); }
  }

  /** The pass leaves a table alone exactly when no key repeats and every headed group is settled. */
  lemma UnchangedExactly(rows: seq<Row>)
    requires ById(rows)
    ensures Deduped(rows) == rows <==> NoRepeats(rows) && forall g :: g in HeaderGroups(rows) ==> Settled(rows, g)
  {
    if NoRepeats(rows) && forall g :: g in HeaderGroups(rows) ==> Settled(rows, g) {
      NothingToDrop(rows);
      forall i | 0 <= i < |rows| ensures Fate(rows, HeaderGroups(rows), rows[i]) == [rows[i]] {
        SettledFate(rows, rows[i]);
      }
      RecountSteady(|rows|, rows, HeaderGroups(rows));
      assert rows[..|rows|] == rows;
    }
    if Deduped(rows) == rows {
      var t := DropRepeats(rows);
      RecountShrinks(t, t, HeaderGroups(t));
      DropRepeatsShrinks(rows);
      NothingToDrop(rows);
      forall g | g in HeaderGroups(rows) ensures Settled(rows, g) { SteadyIsSettled(rows, g); }
    }
  }

  lemma UnchangedReportsNothing(rows: seq<Row>)
    requires ById(rows) && Deduped(rows) == rows
    ensures ReportOf(rows) == Report(0, 0, 0)
  {
    UnchangedExactly(rows);
    NothingToDrop(rows);
    forall g | g in HeaderGroups(rows) ensures !RebalancedIn(rows, g) { SettledIsBalanced(rows, g); }
    NoneRebalanced(rows, HeaderGroups(rows));
  }

  lemma NoneRebalanced(rows: seq<Row>, gs: set<string>)
    requires forall g :: g in gs ==> !RebalancedIn(rows, g)
    ensures CountRebalanced(rows, gs) == 0
  {
    assert Satisfying(gs, g => RebalancedIn(rows, g)) == {};
  }

  lemma SettledIsBalanced(rows: seq<Row>, g: string)
    requires Settled(rows, g)
    ensures !RebalancedIn(rows, g)
  {
    var hs := Headers(rows, g);
    assert forall h :: h in hs ==> h == hs[0];
    RebuiltIsBalanced(hs[0], Subs(rows, g));
  }

  lemma RebuiltIsBalanced(h: Row, subs: seq<Row>)
    requires Rebuilt(h, subs, 1) == h
    ensures !Rebalanced(h, subs, 1)
  {
    if subs != [] { assert WorkOf(h, subs).length == h.length; }
  }

  /** Twice is once: the second pass changes no row and reports nothing. */
  lemma TwiceIsOnce(rows: seq<Row>)
    requires ById(rows)
    ensures Deduped(Deduped(rows)) == Deduped(rows)
    ensures ReportOf(Deduped(rows)) == Report(0, 0, 0)
  {
    AfterThePass(rows);
    UnchangedExactly(Deduped(rows));
    UnchangedReportsNothing(Deduped(rows));
  }

  /** A table with two headers in one named group is never left alone. */
  lemma ManyHeadersMerge(t: seq<Row>, n: string)
    requires ById(t) && n != "" && |Headers(t, n)| >= 2
    ensures Deduped(t) != t
  {
    HeaderGroupsMean(t, n);
    UnchangedExactly(t);
    assert !Settled(t, n);
  }

  /** What a settled header says about the order rows of its group. */
  lemma SettledMeans(rows: seq<Row>, g: string)
    requires Settled(rows, g) && Subs(rows, g) != []
    ensures var h, subs := Headers(rows, g)[0], Subs(rows, g);
            var net := NetOf(h, subs);
            && (net > 0.0 && h.lot > 0.0 ==>
                  && (forall n: int :: Holds(n, h.lot, net) <==> h.drums <= n)
                  && h.length == h.drums as real * h.lot && h.surplus == h.length - net && 0.0 <= h.surplus < h.lot)
            && (net > 0.0 && h.lot <= 0.0 ==> h.drums == 1 && h.length == net && h.surplus == 0.0)
            && (forall r :: r in subs && r.due.Some? ==> h.due.Some? && h.due.value <= r.due.value)
            && (forall r :: r in subs ==> h.priority <= PriorityOr(r.priority))
  {
    var h, subs := Headers(rows, g)[0], Subs(rows, g);
    var net := NetOf(h, subs);
    if net > 0.0 && h.lot > 0.0 { LotsAreFewest(net, h.lot, Work(h.drums, h.length)); }
    EarliestDueMeans(subs, h.due);
    BestPriorityMeans(subs);
  }
}
