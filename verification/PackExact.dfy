/** Where the orders of a group are cut into drums, and which split that leads to. */
module PackExact {
  import opened Orderings
  import opened Wrappers
  import opened Batches
  import opened DrumPacking
  import opened SplitChoice

  // ---------- the order of the rows

  /** Up to letter `k` the texts agree; there the first one ends or has the smaller letter. */
  ghost predicate DifferFirstAt(a: string, b: string, k: int) {
    0 <= k <= |a| && k < |b| && a[..k] == b[..k] && (k == |a| || a[k] < b[k])
  }

  ghost predicate TextBefore(a: string, b: string) { exists k :: DifferFirstAt(a, b, k) }

  /** The earlier due date, where none is the last day of the calendar; on the same day, the order whose
      name comes first. */
  ghost predicate DueBefore(a: Row, b: Row) {
    var x, y := if a.due.Some? then a.due.value else 3652059, if b.due.Some? then b.due.value else 3652059;
    x < y || (x == y && TextBefore(a.order, b.order))
  }

  ghost function ByDue(): (Row, Row) -> bool { (a: Row, b: Row) => DueBefore(a, b) }

  lemma {:induction false} LessExactly(a: string, b: string)
    ensures Less(a, b) <==> TextBefore(a, b)
  {
    if b != [] {
      if a == [] {
        assert DifferFirstAt(a, b, 0);
      } else {
        LessExactly(a[1..], b[1..]);
        if Less(a, b) { LaterDiffer(a, b); }
        if k :| DifferFirstAt(a, b, k) { EarlierDiffer(a, b, k); }
      }
    }
  }

  lemma LaterDiffer(a: string, b: string)
    requires a != [] && b != [] && (a[0] < b[0] || (a[0] == b[0] && TextBefore(a[1..], b[1..])))
    ensures TextBefore(a, b)
  {
    if a[0] < b[0] {
      assert DifferFirstAt(a, b, 0);
    } else {
      var k :| DifferFirstAt(a[1..], b[1..], k);
      assert a[..k + 1] == [a[0]] + a[1..][..k] && b[..k + 1] == [b[0]] + b[1..][..k];
      assert DifferFirstAt(a, b, k + 1);
    }
  }

  lemma EarlierDiffer(a: string, b: string, k: int)
    requires a != [] && b != [] && DifferFirstAt(a, b, k)
    ensures a[0] < b[0] || (a[0] == b[0] && TextBefore(a[1..], b[1..]))
  {
    if k > 0 {
      assert a[..k][0] == b[..k][0];
      assert a[1..][..k - 1] == a[..k][1..] && b[1..][..k - 1] == b[..k][1..];
      assert DifferFirstAt(a[1..], b[1..], k - 1);
    }
  }

  lemma {:induction false} LessOneWay(a: string, b: string)
    requires Less(a, b)
    ensures !Less(b, a)
  {
    if a != [] && a[0] == b[0] { LessOneWay(a[1..], b[1..]); }
  }

  lemma {:induction false} LessBetween(a: string, b: string, c: string)
    requires Less(a, c)
    ensures Less(a, b) || Less(b, c)
  {
    if a != [] && b != [] && a[0] == b[0] == c[0] { LessBetween(a[1..], b[1..], c[1..]); }
  }

  lemma SoonerExactly(a: Row, b: Row)
    ensures Sooner(a, b) <==> DueBefore(a, b)
  {
    LessExactly(a.order, b.order);
  }

  lemma DueIsWeakOrder()
    ensures WeakOrder(ByDue())
  {
    hide Less, TextBefore;
    forall a, b ensures Less(a, b) <==> TextBefore(a, b) { LessExactly(a, b); }
    forall a, b | Less(a, b) ensures !Less(b, a) { LessOneWay(a, b); }
    forall a, b, c | Less(a, c) ensures Less(a, b) || Less(b, c) { LessBetween(a, b, c); }
  }

  lemma {:induction false} InsertIsInsert(r: Row, s: seq<Row>)
    ensures Insert(r, s) == InsertBehind(r, s, ByDue())
    decreases |s|
  {
    hide Sooner, DueBefore;
    if s != [] {
      SoonerExactly(r, s[|s| - 1]);
      InsertIsInsert(r, s[..|s| - 1]);
    }
  }

  lemma {:induction false} SortIsSort(rows: seq<Row>)
    ensures SortByDue(rows) == SortBehind(rows, ByDue())
    decreases |rows|
  {
    hide Insert;
    if rows != [] {
      var n := |rows| - 1;
      SortIsSort(rows[..n]);
      InsertIsInsert(rows[n], SortByDue(rows[..n]));
    }
  }

  /** The orders of a group by due date and name, equals as they came; there is one such list only. */
  lemma RowsByDue(rows: seq<Row>, s: seq<Row>)
    ensures s == SortByDue(rows) <==> StablySorted(rows, s, ByDue())
  {
    hide DueBefore, StablySorted;
    SortIsSort(rows);
    DueIsWeakOrder();
    SortBehindIsStable(rows, ByDue());
    if StablySorted(rows, s, ByDue()) { SortIsUnique(rows, s, SortByDue(rows), ByDue()); }
  }

  // ---------- the drums

  /** With the orders from `from` on the drum, order `j` goes to the next: it would run over; or the drum is
      filled to four fifths, and the order belongs to another customer order and is due much later. */
  ghost predicate GoesToNext(s: seq<Row>, from: nat, j: nat, lot: real, gapDays: int) {
    && from < j < |s|
    && var metres := Total(s[from..j]);
       || metres + s[j].length > lot
       || (&& 0.8 * lot <= metres && s[j - 1].order != s[j].order
           && s[j - 1].due.Some? && s[j].due.Some? && gapDays <= s[j].due.value - s[j - 1].due.value)
  }

  /** Drum `i` holds the orders from `starts[i]` up to the first that goes to the next drum. */
  ghost predicate DrumAt(s: seq<Row>, drum: seq<Row>, from: nat, to: nat, lot: real, gapDays: int) {
    && from < to <= |s| && drum == s[from..to]
    && (forall j :: from < j < to ==> !GoesToNext(s, from, j, lot, gapDays))
    && (to < |s| ==> GoesToNext(s, from, to, lot, gapDays))
  }

  ghost predicate CutIntoDrums(s: seq<Row>, drums: seq<seq<Row>>, starts: seq<nat>, lot: real, gapDays: int) {
    && |starts| == |drums| + 1 && starts[0] == 0 && starts[|drums|] == |s|
    && forall i :: 0 <= i < |drums| ==> DrumAt(s, drums[i], starts[i], starts[i + 1], lot, gapDays)
  }

  ghost predicate SliceIs(s: seq<Row>, part: seq<Row>, from: nat, to: nat) { from <= to <= |s| && s[from..to] == part }

  /** The drums lie end to end in the list. */
  ghost predicate EndToEnd(s: seq<Row>, drums: seq<seq<Row>>, starts: seq<nat>) {
    && |starts| == |drums| + 1 && starts[0] == 0 && starts[|drums|] == |s|
    && forall i :: 0 <= i < |drums| ==> SliceIs(s, drums[i], starts[i], starts[i + 1])
  }

  lemma OneMoreDrum(s: seq<Row>, drums: seq<seq<Row>>, starts: seq<nat>, d: seq<Row>)
    requires EndToEnd(s, drums, starts)
    ensures EndToEnd(s + d, drums + [d], starts + [|s + d|])
  {
    var n, all := |drums|, s + d;
    var more := starts + [|all|];
    forall i | 0 <= i <= n ensures SliceIs(all, (drums + [d])[i], more[i], more[i + 1]) {
      if i < n {
        assert SliceIs(s, drums[i], starts[i], starts[i + 1]);
        assert all[starts[i]..starts[i + 1]] == s[starts[i]..starts[i + 1]];
      } else {
        assert all[|s|..|all|] == d;
      }
    }
  }

  lemma {:induction false} Offsets(drums: seq<seq<Row>>) returns (starts: seq<nat>)
    ensures EndToEnd(Flat(drums), drums, starts)
    decreases |drums|
  {
    if drums == [] {
      starts := [0];
    } else {
      hide EndToEnd;
      var n := |drums| - 1;
      var o := Offsets(drums[..n]);
      OneMoreDrum(Flat(drums[..n]), drums[..n], o, drums[n]);
      assert drums == drums[..n] + [drums[n]];
      starts := o + [|Flat(drums)|];
    }
  }

  lemma ClosesThere(s: seq<Row>, drum: seq<Row>, from: nat, j: nat, lot: real, gapDays: int)
    requires from < j < |s| && drum == s[from..j]
    ensures Closes(drum, s[j], lot, gapDays) <==> GoesToNext(s, from, j, lot, gapDays)
  {
    assert drum[|drum| - 1] == s[j - 1];
    assert 0.8 * lot == lot * FILL_FOR_GAP;
  }

  lemma SliceUpTo(s: seq<Row>, from: nat, j: nat, to: nat)
    requires from <= j < to <= |s|
    ensures s[from..to][..j - from] == s[from..j] && s[from..to][j - from] == s[j]
  {
  }

  lemma NextDrum(drums: seq<seq<Row>>, s: seq<Row>, starts: seq<nat>, i: nat)
    requires EndToEnd(s, drums, starts) && i < |drums| && starts[i + 1] < |s| && forall d :: d in drums ==> d != []
    ensures i + 1 < |drums| && drums[i + 1] != [] && drums[i + 1][0] == s[starts[i + 1]]
  {
    assert i + 1 < |drums| && drums[i + 1] in drums;
    assert SliceIs(s, drums[i + 1], starts[i + 1], starts[i + 2]);
  }

  lemma OneDrum(drums: seq<seq<Row>>, s: seq<Row>, starts: seq<nat>, lot: real, gapDays: int, i: nat)
    requires Greedy(drums, lot, gapDays) && i < |drums| && EndToEnd(s, drums, starts)
    ensures DrumAt(s, drums[i], starts[i], starts[i + 1], lot, gapDays)
  {
    hide Closes, GoesToNext;
    var d, from, to := drums[i], starts[i], starts[i + 1];
    assert SliceIs(s, d, from, to) && Filled(d, lot, gapDays);
    forall j | from < j < to ensures !GoesToNext(s, from, j, lot, gapDays) {
      SliceUpTo(s, from, j, to);
      assert !Closes(d[..j - from], d[j - from], lot, gapDays);
      ClosesThere(s, d[..j - from], from, j, lot, gapDays);
    }
    if to < |s| {
      forall e | e in drums ensures e != [] {
        var k :| 0 <= k < |drums| && drums[k] == e;
        assert Filled(drums[k], lot, gapDays);
      }
      NextDrum(drums, s, starts, i);
      ClosesThere(s, d, from, to, lot, gapDays);
    }
  }

  /** The packing of the orders by due date: each drum holds the orders up to the first that goes to the
      next, and that is where the next begins. */
  lemma PackedExactly(drums: seq<seq<Row>>, rows: seq<Row>, lot: real, gapDays: int)
    requires PacksAs(drums, rows, lot, gapDays)
    ensures exists s, starts :: StablySorted(rows, s, ByDue()) && CutIntoDrums(s, drums, starts, lot, gapDays)
  {
    hide StablySorted, DrumAt, SortByDue, Flat;
    var s := SortByDue(rows);
    RowsByDue(rows, s);
    var starts := Offsets(drums);
    forall i | 0 <= i < |drums| ensures DrumAt(s, drums[i], starts[i], starts[i + 1], lot, gapDays) {
      OneDrum(drums, s, starts, lot, gapDays, i);
    }
    assert CutIntoDrums(s, drums, starts, lot, gapDays);
  }

  // ---------- the gaps

  ghost predicate LastDue(d: seq<Row>, day: int) {
    && (exists r :: r in d && r.due == Some(day)) && forall r :: r in d && r.due.Some? ==> r.due.value <= day
  }

  ghost predicate FirstDue(d: seq<Row>, day: int) {
    && (exists r :: r in d && r.due == Some(day)) && forall r :: r in d && r.due.Some? ==> day <= r.due.value
  }

  ghost predicate Dated(d: seq<Row>) { exists r :: r in d && r.due.Some? }

  /** The days from the last due date of one drum to the first of the next, 0 if one of them has none. */
  ghost predicate GapIs(d: seq<Row>, e: seq<Row>, gap: int) {
    if Dated(d) && Dated(e) then exists x, y :: LastDue(d, x) && FirstDue(e, y) && gap == y - x else gap == 0
  }

  lemma {:induction false} LatestMeans(rows: seq<Row>)
    ensures LatestDue(rows).Some? <==> Dated(rows)
    ensures LatestDue(rows).Some? ==> LastDue(rows, LatestDue(rows).value)
    decreases |rows|
  {
    if rows != [] {
      var n := |rows| - 1;
      LatestMeans(rows[..n]);
      assert rows == rows[..n] + [rows[n]] && rows[n] in rows;
    }
  }

  lemma GapMeans(d: seq<Row>, e: seq<Row>)
    ensures GapIs(d, e, Gap(d, e))
  {
    LatestMeans(d);
    EarliestDueMeans(e, None);
    if Dated(d) && Dated(e) {
      assert LastDue(d, LatestDue(d).value) && FirstDue(e, EarliestDue(e, None).value);
    }
  }

  ghost predicate AllGaps(drums: seq<seq<Row>>, g: seq<int>) {
    && |g| == (if drums == [] then 0 else |drums| - 1)
    && forall i :: 0 <= i < |g| ==> GapIs(drums[i], drums[i + 1], g[i])
  }

  lemma {:induction false} GapsAt(drums: seq<seq<Row>>, i: nat)
    requires i < |Gaps(drums)|
    ensures i + 1 < |drums| && Gaps(drums)[i] == Gap(drums[i], drums[i + 1])
    decreases |drums|
  {
    hide Gap;
    var n := |drums| - 1;
    if i < n - 1 { GapsAt(drums[..n], i); }
  }

  lemma GapsMean(drums: seq<seq<Row>>)
    ensures AllGaps(drums, Gaps(drums))
  {
    hide GapIs, Gap, Gaps;
    forall i | 0 <= i < |Gaps(drums)| ensures GapIs(drums[i], drums[i + 1], Gaps(drums)[i]) {
      GapsAt(drums, i);
      GapMeans(drums[i], drums[i + 1]);
    }
  }

  lemma {:induction false} MaxGapMeans(g: seq<int>, n: int)
    requires g != []
    ensures MaxGap(g) < n <==> forall i :: 0 <= i < |g| ==> g[i] < n
    decreases |g|
  {
    if |g| > 1 { MaxGapMeans(g[..|g| - 1], n); }
  }

  // ---------- the proposal

  ghost predicate GapBefore(starts: seq<nat>, g: seq<int>, kept: seq<int>, k: nat) {
    k < |kept| && k + 1 < |starts| && 0 < starts[k + 1] <= |g| && kept[k] == g[starts[k + 1] - 1]
  }

  /** The drums where a part starts: the first, and each with a gap before it; a part holds all drums up to
      where the next starts, and the gaps between the parts are kept. */
  ghost predicate MergedAt(drums: seq<seq<Row>>, g: seq<int>, starts: seq<nat>, parts: seq<seq<Row>>, gaps: seq<int>) {
    && |g| + 1 == |drums| && |parts| == |starts| == |gaps| + 1 && starts[0] == 0
    && (forall i: nat :: i in starts <==> i < |drums| && (0 < i ==> g[i - 1] != 0))
    && (forall i, j :: 0 <= i < j < |starts| ==> starts[i] < starts[j])
    && (forall k :: 0 <= k < |starts| ==>
          && var to := if k + 1 < |starts| then starts[k + 1] else |drums|;
             starts[k] <= to <= |drums| && parts[k] == Flat(drums[starts[k]..to]))
    && (forall k :: 0 <= k < |gaps| ==> GapBefore(starts, g, gaps, k))
  }

  /** Between two parts lies the gap before the second. */
  ghost predicate GapsBetween(s: seq<nat>, g: seq<int>, kept: seq<int>) {
    |s| == |kept| + 1 && s[0] == 0 && forall k :: 0 <= k < |kept| ==> GapBefore(s, g, kept, k)
  }

  lemma NoGapMore(s: seq<nat>, g: seq<int>, kept: seq<int>, gap: int)
    requires GapsBetween(s, g, kept)
    ensures GapsBetween(s, g + [gap], kept)
  {
    forall k | 0 <= k < |kept| ensures GapBefore(s, g + [gap], kept, k) { assert GapBefore(s, g, kept, k); }
  }

  lemma OneGapMore(s: seq<nat>, g: seq<int>, kept: seq<int>, gap: int)
    requires GapsBetween(s, g, kept)
    ensures GapsBetween(s + [|g| + 1], g + [gap], kept + [gap])
  {
    var t: seq<nat>, h, more := s + [|g| + 1], g + [gap], kept + [gap];
    forall k | 0 <= k < |more| ensures GapBefore(t, h, more, k) {
      if k < |kept| { assert GapBefore(s, g, kept, k); }
    }
  }

  lemma {:induction false} KeptGaps(drums: seq<seq<Row>>)
    requires drums != []
    ensures GapsBetween(Starts(drums), Gaps(drums), NonZero(Gaps(drums)))
    decreases |drums|
  {
    if |drums| == 1 {
      FirstStart(drums);
    } else {
      hide Gap, GapsBetween, NonZero;
      var n := |drums| - 1;
      KeptGaps(drums[..n]);
      var before, gap := drums[..n], Gap(drums[n - 1], drums[n]);
      GapsSplit(Gaps(before), gap);
      assert Gaps(drums) == Gaps(before) + [gap];
      if gap == 0 {
        NoGapMore(Starts(before), Gaps(before), NonZero(Gaps(before)), gap);
        assert Starts(drums) == Starts(before) && NonZero(Gaps(drums)) == NonZero(Gaps(before));
      } else {
        OneGapMore(Starts(before), Gaps(before), NonZero(Gaps(before)), gap);
        assert Starts(drums) == Starts(before) + [n];
      }
    }
  }

  lemma FirstStart(drums: seq<seq<Row>>)
    requires |drums| == 1
    ensures Starts(drums) == [0]
  {
    assert drums[..0] == [];
  }

  lemma GapsSplit(g: seq<int>, gap: int)
    ensures NonZero(g + [gap]) == NonZero(g) + if gap == 0 then [] else [gap]
  {
    assert (g + [gap])[..|g|] == g;
  }

  lemma MergedMeans(drums: seq<seq<Row>>, parts: seq<seq<Row>>)
    requires drums != [] && Merged(drums, parts)
    ensures MergedAt(drums, Gaps(drums), Starts(drums), parts, NonZero(Gaps(drums)))
  {
    hide Gap, Gaps, NonZero, Starts, Flat;
    var g, s := Gaps(drums), Starts(drums);
    KeptGaps(drums);
    StartsMean(drums);
    forall i: nat ensures i in s <==> i < |drums| && (0 < i ==> g[i - 1] != 0) {
      if 0 < i < |drums| { GapsAt(drums, i - 1); }
    }
    forall k | 0 <= k < |s|
      ensures var to := if k + 1 < |s| then s[k + 1] else |drums|;
              s[k] <= to <= |drums| && parts[k] == Flat(drums[s[k]..to])
    {
      assert ChunkIs(drums, parts[k], k);
    }
  }

  lemma OnePart(drums: seq<seq<Row>>)
    requires drums != []
    ensures |Starts(drums)| <= 1 <==> forall i :: 0 <= i < |Gaps(drums)| ==> Gaps(drums)[i] == 0
  {
    hide Gap, Gaps, Starts;
    var g, s := Gaps(drums), Starts(drums);
    StartsMean(drums);
    assert 0 in s;
    forall i | 0 <= i < |g| ensures g[i] != 0 <==> i + 1 in s { GapsAt(drums, i); }
    if |s| > 1 {
      assert s[0] in s && s[1] in s && s[0] < s[1];
      assert g[s[1] - 1] != 0;
    }
  }

  /** Which split is proposed.  None for one drum, and none, unless the group is overloaded, if every gap is
      too short or there is none.  Otherwise, for an overloaded group, the drums; for others, the drums put
      together where there is no gap between them. */
  lemma ProposedExactly(drums: seq<seq<Row>>, gapDays: int, overload: bool, p: Proposal)
    requires ProposedFor(drums, gapDays, overload, p)
    ensures exists g ::
              && AllGaps(drums, g)
              && (p.NoSplit? <==>
                    || |drums| <= 1
                    || (!overload && ((forall i :: 0 <= i < |g| ==> g[i] < gapDays)
                                      || (forall i :: 0 <= i < |g| ==> g[i] == 0))))
              && (p.Proposed? && overload ==> p.parts == drums && p.gaps == g)
              && (p.Proposed? && !overload ==> exists starts :: MergedAt(drums, g, starts, p.parts, p.gaps))
  {
    hide AllGaps, MergedAt, Merged, Starts, NonZero, MaxGap;
    var g := Gaps(drums);
    GapsMean(drums);
    if |drums| > 1 {
      MaxGapMeans(g, gapDays);
      OnePart(drums);
      if p.Proposed? && !overload { MergedMeans(drums, p.parts); }
    }
  }
}
