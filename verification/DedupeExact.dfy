/** The rows that the repair pass leaves, one by one and column by column. */
module DedupeExact {
  import Orderings
  import opened Wrappers
  import opened Batches
  import opened Dedupe
  import opened DedupeLaws
  import opened DedupeReport

  // ---------- which rows

  /** Two rows stand for the same order line in the same step of the same group. */
  ghost predicate SamePlace(a: Row, b: Row) {
    && a.group == b.group && a.order == b.order && a.line == b.line && a.rank == b.rank && a.process == b.process
  }

  /** A row that is no header, of a group, with an earlier one in the same place. */
  ghost predicate IsRepeat(rows: seq<Row>, r: Row) {
    r.rank != -1 && r.group.Some? && exists s :: s in rows && SamePlace(s, r) && s.id < r.id
  }

  /** Header `a` is preferred to `b`: due earlier, where no date is the last of the calendar; or as early
      and of a smaller priority, where none counts as 99; or entered earlier. */
  ghost predicate Preferred(a: Row, b: Row) {
    var x, y := if a.due.Some? then a.due.value else 3652059, if b.due.Some? then b.due.value else 3652059;
    var p, q := if a.priority == 0 then 99 else a.priority, if b.priority == 0 then 99 else b.priority;
    x < y || (x == y && p < q) || (x == y && p == q && a.id <= b.id)
  }

  ghost predicate HeadsGroup(h: Row, g: string) { h.rank == -1 && h.group == Some(g) }

  ghost predicate IsPreferred(rows: seq<Row>, h: Row, g: string) {
    h in rows && HeadsGroup(h, g) && forall o :: o in rows && HeadsGroup(o, g) ==> Preferred(h, o)
  }

  /** The order rows of group `g` that stay. */
  ghost predicate StaysUnder(rows: seq<Row>, g: string, r: Row) {
    r in rows && r.group == Some(g) && 1 <= r.rank && !IsRepeat(rows, r)
  }

  // ---------- how a header is counted

  ghost predicate LotsCounted(h: Row, net: real, r: Row) {
    if 0.0 < net && 0.0 < h.lot
    then r.length == r.drums as real * h.lot && (r.drums - 1) as real * h.lot < net <= r.length
    else if 0.0 < net then r.drums == 1 && r.length == net
    else r.drums == h.drums && r.length == h.length
  }

  ghost predicate MostPressing(h: Row, subs: seq<Row>, r: Row) {
    && (if exists s :: s in subs && s.due.Some?
        then && (exists s :: s in subs && s.due.Some? && s.due == r.due)
             && r.due.Some? && forall s :: s in subs && s.due.Some? ==> r.due.value <= s.due.value
        else r.due == h.due)
    && (exists s :: s in subs && r.priority == if s.priority == 0 then 99 else s.priority)
    && (forall s :: s in subs ==> r.priority <= if s.priority == 0 then 99 else s.priority)
  }

  /** Row `r` is header `h` counted anew from its order rows, one of `n` headers of its group. */
  ghost predicate CountedFrom(h: Row, subs: seq<Row>, n: nat, r: Row) {
    var net := Total(subs) * (if h.cores == 0 then 1 else h.cores) as real;
    if subs == [] then r == h
    else
      && r == h.(length := r.length, drums := r.drums, due := r.due, priority := r.priority,
                 duration := if 0.0 < h.speed then Some(r.length / h.speed) else h.duration,
                 surplus := if net < r.length then r.length - net else 0.0,
                 merges := if 1 < n then h.merges + [n] else h.merges)
      && LotsCounted(h, net, r) && MostPressing(h, subs, r)
  }

  lemma LotsFollow(h: Row, net: real, otherwise: Work, r: Row)
    requires otherwise == Work(h.drums, h.length)
    requires var w := LotsFor(net, h.lot, otherwise); r.length == w.length && r.drums == w.drums
    ensures LotsCounted(h, net, r)
  {
    if 0.0 < net && 0.0 < h.lot {
      LotsAreFewest(net, h.lot, otherwise);
      var w := LotsFor(net, h.lot, otherwise);
      assert Holds(w.drums, h.lot, net) && !Holds(w.drums - 1, h.lot, net);
    }
  }

  lemma PressingFollows(h: Row, subs: seq<Row>, r: Row)
    requires subs != [] && r.due == EarliestDue(subs, h.due) && r.priority == BestPriority(subs)
    ensures MostPressing(h, subs, r)
  {
    EarliestDueMeans(subs, h.due);
    BestPriorityMeans(subs);
  }

  lemma RebuiltIsCounted(h: Row, subs: seq<Row>, n: nat)
    ensures CountedFrom(h, subs, n, Rebuilt(h, subs, n))
  {
    hide LotsFor, LotsCounted, MostPressing, EarliestDue, BestPriority, Total;
    var r := Rebuilt(h, subs, n);
    if subs != [] {
      assert NetOf(h, subs) == Total(subs) * (if h.cores == 0 then 1 else h.cores) as real;
      LotsFollow(h, NetOf(h, subs), Work(h.drums, h.length), r);
      PressingFollows(h, subs, r);
    }
  }

  // ---------- the pass

  lemma {:induction false} EachMeans(rows: seq<Row>, become: Row -> seq<Row>)
    ensures forall r :: r in Each(rows, become) <==> exists x :: x in rows && r in become(x)
    decreases |rows|
  {
    if rows != [] {
      var n := |rows| - 1;
      EachMeans(rows[..n], become);
      assert rows == rows[..n] + [rows[n]];
    }
  }

  lemma RepeatExactly(rows: seq<Row>, r: Row)
    ensures Repeats(rows, r) <==> IsRepeat(rows, r)
  {
    if IsRepeat(rows, r) {
      var s :| s in rows && SamePlace(s, r) && s.id < r.id;
      assert Compared(s) && KeyOf(s) == KeyOf(r);
    }
    if Repeats(rows, r) {
      var s :| s in rows && Compared(s) && KeyOf(s) == KeyOf(r) && s.id < r.id;
      assert SamePlace(s, r);
    }
  }

  lemma DropKeeps(rows: seq<Row>)
    requires ById(rows)
    ensures forall r :: r in DropRepeats(rows) <==> r in rows && !IsRepeat(rows, r)
    ensures ById(DropRepeats(rows))
  {
    DropRepeatsMeans(rows);
    forall r ensures Repeats(rows, r) <==> IsRepeat(rows, r) { RepeatExactly(rows, r); }
  }

  lemma PreferredExactly(rows: seq<Row>, t: seq<Row>, h: Row, g: string)
    requires forall r :: r in t <==> r in rows && !IsRepeat(rows, r)
    ensures Canonical(t, g, h) <==> IsPreferred(rows, h, g)
  {
    WhereMeans(t, IsHeader(g));
    forall a, b ensures Preferred(a, b) <==> Before(a, b) {}
    forall o ensures o in Headers(t, g) <==> o in rows && HeadsGroup(o, g) {}
  }

  /** The header that stays in group `g` and what it is counted from: its order rows, and the number of
      its headers. */
  ghost predicate Kept(rows: seq<Row>, g: string, h: Row, subs: seq<Row>, hs: seq<Row>, r: Row) {
    && IsPreferred(rows, h, g) && CountedFrom(h, subs, |hs|, r)
    && ById(subs) && (forall s :: s in subs <==> StaysUnder(rows, g, s))
    && ById(hs) && (forall o :: o in hs <==> o in rows && HeadsGroup(o, g))
  }

  ghost predicate KeptHeader(rows: seq<Row>, r: Row) {
    exists g, h, subs, hs :: g != "" && Kept(rows, g, h, subs, hs, r)
  }

  /** A row that the pass does not touch: no repeat, and no header of a named group. */
  ghost predicate Untouched(rows: seq<Row>, r: Row) {
    r in rows && !IsRepeat(rows, r) && (r.rank == -1 ==> r.group.None? || r.group == Some(""))
  }

  lemma CanonicalKept(rows: seq<Row>, t: seq<Row>, g: string, h: Row)
    requires ById(rows) && ById(t) && forall r :: r in t <==> r in rows && !IsRepeat(rows, r)
    requires Canonical(t, g, h)
    ensures Kept(rows, g, h, Subs(t, g), Headers(t, g), Rebuilt(h, Subs(t, g), |Headers(t, g)|))
  {
    hide CountedFrom, Rebuilt, IsPreferred, Canonical;
    PreferredExactly(rows, t, h, g);
    WhereMeans(t, IsSub(g));
    WhereById(t, IsSub(g));
    WhereMeans(t, IsHeader(g));
    WhereById(t, IsHeader(g));
    RebuiltIsCounted(h, Subs(t, g), |Headers(t, g)|);
  }

  lemma Unscale(x: real, y: real, c: real)
    requires 0.0 < c && x * c < y * c
    ensures x < y
  {
    if y <= x { Scale(y, x, c); }
  }

  lemma NoMoreLots(lot: real, net: real, m: int, n: int)
    requires 0.0 < lot && (m - 1) as real * lot < net <= n as real * lot
    ensures m <= n
  {
    Unscale((m - 1) as real, n as real, lot);
  }

  lemma OneCount(h: Row, net: real, a: Row, b: Row)
    requires LotsCounted(h, net, a) && LotsCounted(h, net, b)
    ensures a.length == b.length && a.drums == b.drums
  {
    if 0.0 < net && 0.0 < h.lot {
      NoMoreLots(h.lot, net, a.drums, b.drums);
      NoMoreLots(h.lot, net, b.drums, a.drums);
    }
  }

  lemma CountedOnce(h: Row, subs: seq<Row>, n: nat, a: Row, b: Row)
    requires CountedFrom(h, subs, n, a) && CountedFrom(h, subs, n, b)
    ensures a == b
  {
    hide LotsCounted, Total;
    if subs != [] { OneCount(h, Total(subs) * (if h.cores == 0 then 1 else h.cores) as real, a, b); }
  }

  lemma SameRows(a: seq<Row>, b: seq<Row>)
    requires ById(a) && ById(b) && forall r :: r in a <==> r in b
    ensures a == b
  {
    Orderings.SameAscending(a, b, (x: Row, y: Row) => x.id < y.id);
  }

  lemma KeptIsCanonical(rows: seq<Row>, t: seq<Row>, g: string, h: Row, subs: seq<Row>, hs: seq<Row>, r: Row)
    requires ById(rows) && ById(t) && forall r :: r in t <==> r in rows && !IsRepeat(rows, r)
    requires Kept(rows, g, h, subs, hs, r)
    ensures Canonical(t, g, h) && r == Rebuilt(h, Subs(t, g), |Headers(t, g)|)
  {
    hide CountedFrom, Rebuilt, IsPreferred, Canonical;
    PreferredExactly(rows, t, h, g);
    CanonicalKept(rows, t, g, h);
    SameRows(subs, Subs(t, g));
    SameRows(hs, Headers(t, g));
    CountedOnce(h, subs, |hs|, r, Rebuilt(h, Subs(t, g), |Headers(t, g)|));
  }

  lemma InHeaderGroup(t: seq<Row>, h: Row, g: string)
    requires Canonical(t, g, h)
    ensures h in t && h.Header() && h.group == Some(g) && (g != "" <==> g in HeaderGroups(t))
  {
    WhereMeans(t, IsHeader(g));
    if g in HeaderGroups(t) {
      var r :| r in t && r.Header() && r.group.Some? && r.group.value != "" && r.group.value == g;
    }
  }

  lemma FateOfKept(rows: seq<Row>, t: seq<Row>, r: Row)
    requires ById(rows) && ById(t) && forall r :: r in t <==> r in rows && !IsRepeat(rows, r)
    ensures KeptHeader(rows, r) <==>
            exists x :: x in t && x.Header() && x.group.Some? && x.group.value in HeaderGroups(t)
                        && r in Fate(t, HeaderGroups(t), x)
  {
    hide Kept, Canonical, Rebuilt, Fate, HeaderGroups, IsRepeat;
    var gs := HeaderGroups(t);
    if KeptHeader(rows, r) {
      var g, h, subs, hs :| g != "" && Kept(rows, g, h, subs, hs, r);
      KeptIsCanonical(rows, t, g, h, subs, hs, r);
      InHeaderGroup(t, h, g);
      FateIs(t, gs, h);
    }
    if x :| x in t && x.Header() && x.group.Some? && x.group.value in gs && r in Fate(t, gs, x) {
      var g := x.group.value;
      FateIs(t, gs, x);
      CanonicalKept(rows, t, g, x);
      InHeaderGroup(t, x, g);
    }
  }

  lemma FateOfUntouched(rows: seq<Row>, t: seq<Row>, r: Row)
    requires forall r :: r in t <==> r in rows && !IsRepeat(rows, r)
    ensures Untouched(rows, r) <==>
            exists x :: x in t && !(x.Header() && x.group.Some? && x.group.value in HeaderGroups(t))
                        && r in Fate(t, HeaderGroups(t), x)
  {
    hide IsRepeat;
    var gs := HeaderGroups(t);
    if x :| x in t && !(x.Header() && x.group.Some? && x.group.value in gs) && r in Fate(t, gs, x) {
      assert r == x;
      assert x.Header() && x.group.Some? ==> x.group.value == "";
    }
    if Untouched(rows, r) { assert r in t && Fate(t, gs, r) == [r]; }
  }

  /** The rows after the pass, for every table: those that are neither repeats nor headers of named
      groups, as they were; and for each named group with headers the preferred one, counted anew from
      the order rows that stay.  There are no others, and they are listed by key. */
  lemma PassExactly(rows: seq<Row>)
    requires ById(rows)
    ensures ById(Deduped(rows))
    ensures forall r :: r in Deduped(rows) <==> Untouched(rows, r) || KeptHeader(rows, r)
  {
    hide IsRepeat, Untouched, KeptHeader, Fate, HeaderGroups;
    var t := DropRepeats(rows);
    var gs := HeaderGroups(t);
    DropKeeps(rows);
    AfterThePass(rows);
    EachMeans(t, FateIn(t, gs));
    forall r ensures r in Deduped(rows) <==> Untouched(rows, r) || KeptHeader(rows, r) {
      FateOfKept(rows, t, r);
      FateOfUntouched(rows, t, r);
      assert forall x :: FateIn(t, gs)(x) == Fate(t, gs, x);
    }
  }

  // ---------- the report

  /** What the pass makes of group `g` shows: it had several headers, or order rows from which the length
      of its header comes out by more than half a metre differently, or its lots. */
  ghost predicate Shows(rows: seq<Row>, g: string) {
    exists h, subs, hs, r ::
      && Kept(rows, g, h, subs, hs, r)
      && (1 < |hs| || (subs != [] && (r.length - h.length > 0.5 || h.length - r.length > 0.5 || r.drums != h.drums)))
  }

  ghost predicate HasHeader(rows: seq<Row>, g: string) { g != "" && exists h :: h in rows && HeadsGroup(h, g) }

  lemma RebalancedShows(h: Row, subs: seq<Row>, n: nat)
    ensures var r := Rebuilt(h, subs, n);
            Rebalanced(h, subs, n) <==>
            1 < n || (subs != [] && (r.length - h.length > 0.5 || h.length - r.length > 0.5 || r.drums != h.drums))
  {
    hide LotsFor, NetOf, EarliestDue, BestPriority;
  }

  lemma ShowsExactly(rows: seq<Row>, t: seq<Row>, g: string)
    requires ById(rows) && ById(t) && forall r :: r in t <==> r in rows && !IsRepeat(rows, r)
    ensures RebalancedIn(t, g) <==> Shows(rows, g)
  {
    hide Kept, Rebalanced, Rebuilt, Stays, IsRepeat;
    if RebalancedIn(t, g) {
      var hs := Headers(t, g);
      var h :| h in hs && Stays(hs, h) && Rebalanced(h, Subs(t, g), |hs|);
      CanonicalKept(rows, t, g, h);
      RebalancedShows(h, Subs(t, g), |hs|);
    }
    if Shows(rows, g) {
      var h, subs, hs, r :|
        && Kept(rows, g, h, subs, hs, r)
        && (1 < |hs| || (subs != [] && (r.length - h.length > 0.5 || h.length - r.length > 0.5 || r.drums != h.drums)));
      KeptIsCanonical(rows, t, g, h, subs, hs, r);
      KeptLists(rows, t, g, h, subs, hs, r);
      RebalancedShows(h, subs, |hs|);
    }
  }

  lemma KeptLists(rows: seq<Row>, t: seq<Row>, g: string, h: Row, subs: seq<Row>, hs: seq<Row>, r: Row)
    requires ById(rows) && ById(t) && forall r :: r in t <==> r in rows && !IsRepeat(rows, r)
    requires Kept(rows, g, h, subs, hs, r) && Canonical(t, g, h)
    ensures subs == Subs(t, g) && hs == Headers(t, g)
  {
    hide CountedFrom, Rebuilt, IsPreferred, Canonical;
    CanonicalKept(rows, t, g, h);
    SameRows(subs, Subs(t, g));
    SameRows(hs, Headers(t, g));
  }

  lemma HeadersFound(rows: seq<Row>, g: string)
    ensures g in HeaderGroups(rows) <==> HasHeader(rows, g)
  {
    if HasHeader(rows, g) {
      var h :| h in rows && HeadsGroup(h, g);
      assert h.Header() && h.group.Some? && h.group.value == g;
    }
  }

  lemma CanonicalInAll(rows: seq<Row>, h: Row, g: string)
    ensures Canonical(rows, g, h) <==> IsPreferred(rows, h, g)
  {
    WhereMeans(rows, IsHeader(g));
    forall a, b ensures Preferred(a, b) <==> Before(a, b) {}
    forall o ensures o in Headers(rows, g) <==> o in rows && HeadsGroup(o, g) {}
  }

  /** The three numbers of the report, for every table. */
  lemma ReportExactly(rows: seq<Row>)
    requires ById(rows)
    ensures var repeats := set r | r in rows && IsRepeat(rows, r);
            var spare := set h | h in rows && h.rank == -1 && h.group.Some? && h.group.value != ""
                                 && !IsPreferred(rows, h, h.group.value);
            var named := set h | h in rows && h.group.Some? :: h.group.value;
            var uneven := set g | g in named && HasHeader(rows, g) && Shows(rows, g);
            ReportOf(rows) == Report(|repeats|, |spare|, |uneven|)
  {
    hide IsRepeat, Shows, IsPreferred, Even, HeaderGroups, Canonical, RebalancedIn, HasHeader;
    ReportMeans(rows);
    var repeats := set r | r in rows && IsRepeat(rows, r);
    forall r ensures Repeats(rows, r) <==> IsRepeat(rows, r) { RepeatExactly(rows, r); }
    assert repeats == Repeating(rows);
    var spare := set h | h in rows && h.rank == -1 && h.group.Some? && h.group.value != ""
                         && !IsPreferred(rows, h, h.group.value);
    forall h, g ensures Canonical(rows, g, h) <==> IsPreferred(rows, h, g) { CanonicalInAll(rows, h, g); }
    assert spare == SpareHeaders(rows);
    UnevenExactly(rows);
  }

  lemma UnevenExactly(rows: seq<Row>)
    requires ById(rows)
    ensures var named := set h | h in rows && h.group.Some? :: h.group.value;
            (set g | g in named && HasHeader(rows, g) && Shows(rows, g)) == Uneven(rows)
  {
    hide IsRepeat, Shows, Even, RebalancedIn;
    var t := DropRepeats(rows);
    DropKeeps(rows);
    HeadersSurviveDrop(rows);
    var named := set h | h in rows && h.group.Some? :: h.group.value;
    forall g
      ensures g in Uneven(rows) <==> HasHeader(rows, g) && Shows(rows, g)
      ensures HasHeader(rows, g) ==> g in named
    {
      HeadersFound(rows, g);
      HeadersFound(t, g);
      if g in HeaderGroups(t) { EvenExactly(t, g); }
      ShowsExactly(rows, t, g);
    }
  }
}
