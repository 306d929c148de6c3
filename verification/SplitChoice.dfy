/** Which orders of an overloaded group an automatic split moves. */
module SplitChoice {
  import opened Wrappers
  import opened Batches
  import opened AutoSplit
  import opened DedupePass
  import opened DrumPacking

  // ---------- earliest due date first

  predicate Less(a: string, b: string) {
    if b == [] then false
    else if a == [] then true
    else a[0] < b[0] || (a[0] == b[0] && Less(a[1..], b[1..]))
  }

  /** The order of due dates, a missing one last, and of customer orders on the same date. */
  predicate Sooner(a: Row, b: Row) {
    var x, y := DueOr(a.due, DATE_MAX), DueOr(b.due, DATE_MAX);
    x < y || (x == y && Less(a.order, b.order))
  }

  function Insert(r: Row, s: seq<Row>): seq<Row> {
    if s == [] || !Sooner(r, s[|s| - 1]) then s + [r]
    else Insert(r, s[..|s| - 1]) + [s[|s| - 1]]
  }

  function SortByDue(rows: seq<Row>): seq<Row> {
    if rows == [] then [] else Insert(rows[|rows| - 1], SortByDue(rows[..|rows| - 1]))
  }

  ghost predicate DueSorted(s: seq<Row>) {
    forall i, j :: 0 <= i < j < |s| ==> DueOr(s[i].due, DATE_MAX) <= DueOr(s[j].due, DATE_MAX)
  }

  ghost predicate NoneLater(s: seq<Row>, r: Row) {
    forall x :: x in s ==> DueOr(x.due, DATE_MAX) <= DueOr(r.due, DATE_MAX)
  }

  lemma Appended(s: seq<Row>, r: Row)
    requires DueSorted(s) && NoneLater(s, r)
    ensures DueSorted(s + [r]) && multiset(s + [r]) == multiset(s) + multiset{r}
  {
    hide DueOr;
    forall i | 0 <= i < |s| ensures DueOr(s[i].due, DATE_MAX) <= DueOr(r.due, DATE_MAX) { assert s[i] in s; }
  }

  lemma LastIsLatest(before: seq<Row>, last: Row)
    requires DueSorted(before + [last])
    ensures DueSorted(before) && NoneLater(before, last) && NoneLater(before + [last], last)
  {
    hide DueOr;
    var all := before + [last];
    assert all[|before|] == last;
    forall i | 0 <= i < |before| ensures DueOr(before[i].due, DATE_MAX) <= DueOr(last.due, DATE_MAX) {
      assert all[i] == before[i];
    }
    forall i, j | 0 <= i < j < |before|
      ensures DueOr(before[i].due, DATE_MAX) <= DueOr(before[j].due, DATE_MAX)
    {
      assert all[i] == before[i] && all[j] == before[j];
    }
  }

  lemma NoneLaterIn(s: seq<Row>, r: Row, t: seq<Row>, last: Row)
    requires multiset(t) == multiset(s) + multiset{r} && NoneLater(s, last) && Sooner(r, last)
    ensures NoneLater(t, last)
  {
    hide Less;
    forall x | x in t ensures DueOr(x.due, DATE_MAX) <= DueOr(last.due, DATE_MAX) {
      assert x in multiset(t);
      if x != r { assert x in multiset(s); }
    }
  }

  lemma {:induction false} InsertMeans(r: Row, s: seq<Row>)
    requires DueSorted(s)
    ensures DueSorted(Insert(r, s)) && multiset(Insert(r, s)) == multiset(s) + multiset{r}
    decreases |s|
  {
    hide DueSorted, Less;
    if s == [] {
      Appended(s, r);
    } else {
      var before, last := s[..|s| - 1], s[|s| - 1];
      assert s == before + [last];
      LastIsLatest(before, last);
      if Sooner(r, last) {
        InsertMeans(r, before);
        NoneLaterIn(before, r, Insert(r, before), last);
        Appended(Insert(r, before), last);
        assert multiset(s) == multiset(before) + multiset{last};
      } else {
        Appended(s, r);
      }
    }
  }

  lemma {:induction false} SortMeans(rows: seq<Row>)
    ensures DueSorted(SortByDue(rows)) && multiset(SortByDue(rows)) == multiset(rows)
    decreases |rows|
  {
    if rows != [] {
      var n := |rows| - 1;
      SortMeans(rows[..n]);
      InsertMeans(rows[n], SortByDue(rows[..n]));
      assert rows == rows[..n] + [rows[n]];
    }
  }

  // ---------- drums with no gap between them

  function LatestDue(rows: seq<Row>): Option<int> {
    if rows == [] then None
    else
      var n := |rows| - 1;
      var e, d := LatestDue(rows[..n]), rows[n].due;
      if e.Some? && (d.None? || e.value >= d.value) then e else d
  }

  /** Days from the last due date of one drum to the first of the next. */
  function Gap(d: seq<Row>, e: seq<Row>): int {
    var last, first := LatestDue(d), EarliestDue(e, None);
    if last.Some? && first.Some? then first.value - last.value else 0
  }

  function Gaps(drums: seq<seq<Row>>): (g: seq<int>)
    ensures |g| == if drums == [] then 0 else |drums| - 1
  {
    if |drums| <= 1 then []
    else
      var n := |drums| - 1;
      Gaps(drums[..n]) + [Gap(drums[n - 1], drums[n])]
  }

  function NonZero(gaps: seq<int>): seq<int> {
    if gaps == [] then []
    else NonZero(gaps[..|gaps| - 1]) + if gaps[|gaps| - 1] == 0 then [] else [gaps[|gaps| - 1]]
  }

  /** Drum `i` is the first or has a gap before it. */
  predicate CutAt(drums: seq<seq<Row>>, i: nat) {
    i < |drums| && (i == 0 || Gap(drums[i - 1], drums[i]) != 0)
  }

  /** The drums that are not merged into the one before them. */
  function Starts(drums: seq<seq<Row>>): seq<nat> {
    if drums == [] then []
    else
      var n := |drums| - 1;
      Starts(drums[..n]) + if CutAt(drums, n) then [n] else []
  }

  lemma CutBefore(drums: seq<seq<Row>>, n: nat, i: nat)
    requires n <= |drums|
    ensures CutAt(drums[..n], i) <==> i < n && CutAt(drums, i)
  {
  }

  lemma {:induction false} StartsMean(drums: seq<seq<Row>>)
    ensures forall i: nat :: i in Starts(drums) <==> CutAt(drums, i)
    ensures forall i, j :: 0 <= i < j < |Starts(drums)| ==> Starts(drums)[i] < Starts(drums)[j]
    ensures forall i :: 0 <= i < |Starts(drums)| ==> Starts(drums)[i] < |drums|
    ensures drums != [] ==> Starts(drums) != []
    decreases |drums|
  {
    if drums != [] {
      var n := |drums| - 1;
      var before := Starts(drums[..n]);
      StartsMean(drums[..n]);
      forall i: nat ensures i in Starts(drums) <==> CutAt(drums, i) {
        CutBefore(drums, n, i);
        assert i in Starts(drums) <==> i in before || (CutAt(drums, n) && i == n);
      }
      assert CutAt(drums, 0) && 0 in Starts(drums);
    }
  }

  function EndOf(drums: seq<seq<Row>>, k: nat): nat {
    if k + 1 < |Starts(drums)| then Starts(drums)[k + 1] else |drums|
  }

  /** Chunk `k` holds the drums from its start up to the next one. */
  ghost predicate ChunkIs(drums: seq<seq<Row>>, chunk: seq<Row>, k: nat) {
    k < |Starts(drums)| && Starts(drums)[k] <= EndOf(drums, k) <= |drums|
    && chunk == Flat(drums[Starts(drums)[k]..EndOf(drums, k)])
  }

  ghost predicate Merged(drums: seq<seq<Row>>, chunks: seq<seq<Row>>) {
    |chunks| == |Starts(drums)| && forall k :: 0 <= k < |chunks| ==> ChunkIs(drums, chunks[k], k)
  }

  lemma MergedIsUnique(drums: seq<seq<Row>>, a: seq<seq<Row>>, b: seq<seq<Row>>)
    requires Merged(drums, a) && Merged(drums, b)
    ensures a == b
  {
    forall k | 0 <= k < |a| ensures a[k] == b[k] { assert ChunkIs(drums, a[k], k) && ChunkIs(drums, b[k], k); }
  }

  lemma StartsMore(drums: seq<seq<Row>>, i: nat)
    requires 1 <= i < |drums|
    ensures Starts(drums[..i + 1]) == Starts(drums[..i]) + if Gap(drums[i - 1], drums[i]) == 0 then [] else [i]
  {
    assert drums[..i + 1][..i] == drums[..i];
  }

  lemma MergeMore(drums: seq<seq<Row>>, i: nat, chunks: seq<seq<Row>>)
    requires 1 <= i < |drums| && Merged(drums[..i], chunks) && Gap(drums[i - 1], drums[i]) == 0
    ensures chunks != []
    ensures Merged(drums[..i + 1], chunks[..|chunks| - 1] + [chunks[|chunks| - 1] + drums[i]])
  {
    hide Flat, Gap, Starts;
    StartsMean(drums[..i]);
    StartsMore(drums, i);
    var n := |chunks| - 1;
    var more := chunks[..n] + [chunks[n] + drums[i]];
    forall k | 0 <= k < |more| ensures ChunkIs(drums[..i + 1], more[k], k) {
      assert ChunkIs(drums[..i], chunks[k], k);
      if k < n {
        SameSlice(drums, i, Starts(drums[..i])[k], Starts(drums[..i])[k + 1]);
      } else {
        OneLonger(drums, i, Starts(drums[..i])[k]);
      }
    }
  }

  lemma MergeCut(drums: seq<seq<Row>>, i: nat, chunks: seq<seq<Row>>)
    requires 1 <= i < |drums| && Merged(drums[..i], chunks) && Gap(drums[i - 1], drums[i]) != 0
    ensures Merged(drums[..i + 1], chunks + [drums[i]])
  {
    hide Flat, Gap, Starts;
    StartsMean(drums[..i]);
    StartsMore(drums, i);
    var more := chunks + [drums[i]];
    forall k | 0 <= k < |more| ensures ChunkIs(drums[..i + 1], more[k], k) {
      if k < |chunks| {
        assert ChunkIs(drums[..i], chunks[k], k);
        SameSlice(drums, i, Starts(drums[..i])[k], EndOf(drums[..i], k));
      } else {
        assert drums[..i + 1][i..i + 1] == [drums[i]];
        FlatOne([drums[i]]);
      }
    }
  }

  lemma SameSlice(drums: seq<seq<Row>>, i: nat, a: nat, b: nat)
    requires i < |drums| && a <= b <= i
    ensures drums[..i][a..b] == drums[..i + 1][a..b]
  {
  }

  lemma OneLonger(drums: seq<seq<Row>>, i: nat, a: nat)
    requires i < |drums| && a <= i
    ensures Flat(drums[..i + 1][a..i + 1]) == Flat(drums[..i][a..i]) + drums[i]
  {
    assert drums[..i + 1][a..i + 1] == drums[..i][a..i] + [drums[i]];
    FlatSnoc(drums[..i][a..i], drums[i]);
  }

  ghost predicate NoneEmpty(s: seq<seq<Row>>) { forall i :: 0 <= i < |s| ==> s[i] != [] }

  /** The first `n` drums are merged. */
  ghost predicate MergedSoFar(drums: seq<seq<Row>>, n: nat, chunks: seq<seq<Row>>, gaps: seq<int>)
    requires n <= |drums|
  {
    && Merged(drums[..n], chunks) && gaps == NonZero(Gaps(drums[..n]))
    && Flat(chunks) == Flat(drums[..n]) && |chunks| == |gaps| + 1
    && (NoneEmpty(drums) ==> NoneEmpty(chunks))
  }

  lemma MergeFirst(drums: seq<seq<Row>>)
    requires drums != []
    ensures MergedSoFar(drums, 1, [drums[0]], [])
  {
    assert drums[..1] == [drums[0]] && drums[..1][0..1] == [drums[0]];
    FlatOne([drums[0]]);
  }

  lemma MergeOn(drums: seq<seq<Row>>, i: nat, chunks: seq<seq<Row>>, gaps: seq<int>)
    requires 1 <= i < |drums| && MergedSoFar(drums, i, chunks, gaps) && Gap(drums[i - 1], drums[i]) == 0
    ensures var n := |chunks| - 1; MergedSoFar(drums, i + 1, chunks[..n] + [chunks[n] + drums[i]], gaps)
  {
    hide Merged, Flat, Gaps, Gap, NonZero;
    OneDrumMore(drums, i);
    MergeMore(drums, i, chunks);
    ExtendLast(chunks, drums[i]);
  }

  lemma MergeNext(drums: seq<seq<Row>>, i: nat, chunks: seq<seq<Row>>, gaps: seq<int>)
    requires 1 <= i < |drums| && MergedSoFar(drums, i, chunks, gaps) && Gap(drums[i - 1], drums[i]) != 0
    ensures MergedSoFar(drums, i + 1, chunks + [drums[i]], gaps + [Gap(drums[i - 1], drums[i])])
  {
    hide Merged, Flat, Gaps, Gap, NonZero;
    OneDrumMore(drums, i);
    MergeCut(drums, i, chunks);
    FlatSnoc(chunks, drums[i]);
  }

  /** The drums with those merged that have no gap between them. */
  method MergeDrums(drums: seq<seq<Row>>) returns (chunks: seq<seq<Row>>, gaps: seq<int>)
    requires drums != []
    ensures Merged(drums, chunks) && gaps == NonZero(Gaps(drums))
    ensures Flat(chunks) == Flat(drums) && |chunks| == |gaps| + 1
    ensures NoneEmpty(drums) ==> NoneEmpty(chunks)
  {
    chunks, gaps := [drums[0]], [];
    MergeFirst(drums);
    for i := 1 to |drums|
      invariant MergedSoFar(drums, i, chunks, gaps)
    {
      var gap := Gap(drums[i - 1], drums[i]);
      var n := |chunks| - 1;
      if gap == 0 {
        MergeOn(drums, i, chunks, gaps);
        chunks := chunks[..n] + [chunks[n] + drums[i]];
      } else {
        MergeNext(drums, i, chunks, gaps);
        gaps := gaps + [gap];
        chunks := chunks + [drums[i]];
      }
    }
    assert drums[..|drums|] == drums;
  }

  lemma OneDrumMore(drums: seq<seq<Row>>, i: nat)
    requires 1 <= i < |drums|
    ensures var gap := Gap(drums[i - 1], drums[i]);
            && NonZero(Gaps(drums[..i + 1])) == NonZero(Gaps(drums[..i])) + (if gap == 0 then [] else [gap])
            && Flat(drums[..i + 1]) == Flat(drums[..i]) + drums[i]
  {
    var gap := Gap(drums[i - 1], drums[i]);
    assert drums[..i + 1] == drums[..i] + [drums[i]] && drums[..i + 1][..i] == drums[..i];
    FlatSnoc(drums[..i], drums[i]);
    var g := Gaps(drums[..i]);
    assert Gaps(drums[..i + 1]) == g + [gap];
    assert (g + [gap])[..|g|] == g;
  }

  lemma ExtendLast(chunks: seq<seq<Row>>, d: seq<Row>)
    requires chunks != []
    ensures var n := |chunks| - 1; Flat(chunks[..n] + [chunks[n] + d]) == Flat(chunks) + d
  {
    hide Flat;
    var n := |chunks| - 1;
    assert chunks == chunks[..n] + [chunks[n]];
    FlatSnoc(chunks[..n], chunks[n]);
    FlatSnoc(chunks[..n], chunks[n] + d);
    Regroup(Flat(chunks[..n]), chunks[n], d);
  }

  // ---------- the proposal

  datatype Proposal = NoSplit | Proposed(parts: seq<seq<Row>>, gaps: seq<int>)

  function MaxGap(gaps: seq<int>): int {
    if gaps == [] then 0
    else if |gaps| == 1 then gaps[0]
    else
      var m := MaxGap(gaps[..|gaps| - 1]);
      if m >= gaps[|gaps| - 1] then m else gaps[|gaps| - 1]
  }

  ghost predicate Parts(parts: seq<seq<Row>>, rows: seq<Row>) {
    && Flat(parts) == SortByDue(rows) && |parts| >= 2
    && forall i :: 0 <= i < |parts| ==> parts[i] != []
  }

  /** What is proposed for the greedy drums: themselves if there is an overload; otherwise, if some
      gap is large enough, the drums merged over no gap; and nothing for a single part. */
  ghost predicate ProposedFor(drums: seq<seq<Row>>, gapDays: int, overload: bool, p: Proposal) {
    if |drums| <= 1 || (!overload && MaxGap(Gaps(drums)) < gapDays) then p == NoSplit
    else if overload then p == Proposed(drums, Gaps(drums))
    else if |Starts(drums)| <= 1 then p == NoSplit
    else p.Proposed? && Merged(drums, p.parts) && p.gaps == NonZero(Gaps(drums))
  }

  /** The greedy packing of the order rows by due date; there is exactly one. */
  ghost predicate PacksAs(drums: seq<seq<Row>>, rows: seq<Row>, lot: real, gapDays: int) {
    Greedy(drums, lot, gapDays) && Flat(drums) == SortByDue(rows)
  }

  /** A split of the order rows `rows` of a group that has a lot size, if there is one to propose. */
  method ProposeSplit(rows: seq<Row>, lot: real, gapDays: int, overload: bool) returns (p: Proposal)
    ensures forall drums :: PacksAs(drums, rows, lot, gapDays) ==> ProposedFor(drums, gapDays, overload, p)
    ensures exists drums :: PacksAs(drums, rows, lot, gapDays)
    ensures p.Proposed? ==> Parts(p.parts, rows) && |p.gaps| + 1 == |p.parts|
    ensures p.Proposed? && overload ==> Greedy(p.parts, lot, gapDays)
    ensures p.Proposed? && !overload ==> (forall i :: 0 <= i < |p.gaps| ==> p.gaps[i] != 0)
  {
    var sorted := SortByDue(rows);
    var drums := PackDrums(sorted, lot, gapDays);
    p := ProposeParts(drums, gapDays, overload, lot);
    assert PacksAs(drums, rows, lot, gapDays);
    forall ds | PacksAs(ds, rows, lot, gapDays) ensures ProposedFor(ds, gapDays, overload, p) {
      GreedyIsUnique(ds, drums, lot, gapDays);
    }
  }

  /** There is one such proposal. */
  lemma ProposalIsUnique(rows: seq<Row>, lot: real, gapDays: int, overload: bool, drums: seq<seq<Row>>,
                         es: seq<seq<Row>>, p: Proposal, q: Proposal)
    requires PacksAs(drums, rows, lot, gapDays) && ProposedFor(drums, gapDays, overload, p)
    requires PacksAs(es, rows, lot, gapDays) && ProposedFor(es, gapDays, overload, q)
    ensures p == q
  {
    hide Gaps, NonZero, MaxGap, Greedy, Starts, Merged;
    GreedyIsUnique(drums, es, lot, gapDays);
    if p.Proposed? && q.Proposed? && !overload { MergedIsUnique(drums, p.parts, q.parts); }
  }

  method ProposeParts(drums: seq<seq<Row>>, gapDays: int, overload: bool, ghost lot: real) returns (p: Proposal)
    requires Greedy(drums, lot, gapDays)
    ensures ProposedFor(drums, gapDays, overload, p)
    ensures p.Proposed? ==> Flat(p.parts) == Flat(drums) && |p.parts| >= 2 && |p.gaps| + 1 == |p.parts|
    ensures p.Proposed? ==> forall i :: 0 <= i < |p.parts| ==> p.parts[i] != []
    ensures p.Proposed? && overload ==> p.parts == drums
    ensures p.Proposed? && !overload ==> (forall i :: 0 <= i < |p.gaps| ==> p.gaps[i] != 0)
  {
    if |drums| <= 1 { return NoSplit; }
    var gaps := Gaps(drums);
    if !overload && MaxGap(gaps) < gapDays { return NoSplit; }
    forall i | 0 <= i < |drums| ensures drums[i] != [] { assert Filled(drums[i], lot, gapDays); }
    if overload { return Proposed(drums, gaps); }
    var chunks, kept := MergeDrums(drums);
    if |chunks| <= 1 { return NoSplit; }
    NonZeroMeans(gaps);
    p := Proposed(chunks, kept);
  }

  lemma {:induction false} NonZeroMeans(gaps: seq<int>)
    ensures forall i :: 0 <= i < |NonZero(gaps)| ==> NonZero(gaps)[i] != 0
    decreases |gaps|
  {
    if gaps != [] { NonZeroMeans(gaps[..|gaps| - 1]); }
  }

  // ---------- which part moves

  /** The first part that moves: the earlier half, and the odd one, stays. */
  function SplitIndex(parts: nat): nat { (parts + 1) / 2 }

  /** The keys of the rows; a row without one is passed over. */
  function IdsOf(rows: seq<Row>): (ids: seq<int>) {
    if rows == [] then []
    else IdsOf(rows[..|rows| - 1]) + if rows[|rows| - 1].id != 0 then [rows[|rows| - 1].id] else []
  }

  lemma IdsMore(parts: seq<seq<Row>>, k: nat, i: nat)
    requires k <= i < |parts|
    ensures IdsOf(Flat(parts[k..i + 1])) == IdsOf(Flat(parts[k..i])) + IdsOf(parts[i])
  {
    assert parts[k..i + 1] == parts[k..i] + [parts[i]];
    FlatSnoc(parts[k..i], parts[i]);
    IdsConcat(Flat(parts[k..i]), parts[i]);
  }

  method IdsToMove(parts: seq<seq<Row>>) returns (ids: seq<int>)
    requires |parts| >= 2
    ensures ids == IdsOf(Flat(parts[SplitIndex(|parts|)..]))
  {
    var k := SplitIndex(|parts|);
    ids := [];
    for i := k to |parts|
      invariant ids == IdsOf(Flat(parts[k..i]))
    {
      IdsMore(parts, k, i);
      ids := ids + IdsOf(parts[i]);
    }
    assert parts[k..|parts|] == parts[k..];
  }

  lemma {:induction false} IdsConcat(a: seq<Row>, b: seq<Row>)
    ensures IdsOf(a + b) == IdsOf(a) + IdsOf(b)
    decreases |b|
  {
    if b == [] {
      assert a + b == a;
    } else {
      var n := |b| - 1;
      IdsConcat(a, b[..n]);
      assert (a + b)[..|a + b| - 1] == a + b[..n] && (a + b)[|a + b| - 1] == b[n];
    }
  }

  lemma {:induction false} IdListed(rows: seq<Row>, i: nat)
    requires i < |rows| && rows[i].id != 0
    ensures rows[i].id in IdsOf(rows)
    decreases |rows|
  {
    if i < |rows| - 1 { IdListed(rows[..|rows| - 1], i); }
  }

  lemma {:induction false} IdOfRow(rows: seq<Row>, id: int) returns (i: nat)
    requires id in IdsOf(rows)
    ensures i < |rows| && rows[i].id == id
    decreases |rows|
  {
    var n := |rows| - 1;
    if id in IdsOf(rows[..n]) { i := IdOfRow(rows[..n], id); } else { i := n; }
  }

  lemma FlatNotEmpty(parts: seq<seq<Row>>)
    requires parts != [] && forall i :: 0 <= i < |parts| ==> parts[i] != []
    ensures Flat(parts) != []
  {
    assert parts[|parts| - 1] != [];
  }

  /** Each of the rows is in exactly one of the two halves. */
  lemma OneHalfEach(subs: seq<Row>, front: seq<Row>, back: seq<Row>)
    requires ById(subs) && multiset(front + back) == multiset(subs)
    ensures forall r :: r in subs <==> r in front || r in back
    ensures forall r :: r in back ==> r !in front
  {
    forall r ensures r in subs <==> r in front || r in back {
      assert r in multiset(subs) <==> r in multiset(front + back);
    }
    forall r | r in back ensures r !in front { ApartInSorted(subs, front, back, r); }
  }

  lemma ListedAll(subs: seq<Row>, back: seq<Row>)
    requires ById(subs) && (forall r :: r in subs ==> r.id != 0) && forall x :: x in back ==> x in subs
    ensures forall r :: r in subs ==> (r.id in IdsOf(back) <==> r in back)
  {
    forall r | r in subs ensures r.id in IdsOf(back) <==> r in back { ListedExactly(subs, back, r); }
  }

  /** The rows of the later parts are the ones that go: the two halves of the sorted orders. */
  lemma HalvesOfSorted(rows: seq<Row>, group: string, parts: seq<seq<Row>>)
    requires ById(rows) && Parts(parts, Subs(rows, group)) && forall r :: r in rows ==> r.id != 0
    ensures var k := SplitIndex(|parts|);
            var ids := set i | i in IdsOf(Flat(parts[k..]));
            && (forall r :: r in Off(rows, group, ids) <==> r in Flat(parts[k..]))
            && (forall r :: r in Left(rows, group, ids) <==> r in Flat(parts[..k]))
  {
    var k := SplitIndex(|parts|);
    var front, back := Flat(parts[..k]), Flat(parts[k..]);
    var ids := set i | i in IdsOf(back);
    var subs := Subs(rows, group);
    assert parts == parts[..k] + parts[k..];
    FlatConcat(parts[..k], parts[k..]);
    SortMeans(subs);
    WhereMeans(rows, IsSub(group));
    WhereMeans(rows, IsOff(group, ids));
    WhereMeans(rows, IsLeft(group, ids));
    WhereById(rows, IsSub(group));
    OneHalfEach(subs, front, back);
    ListedAll(subs, back);
  }

  lemma ListedExactly(subs: seq<Row>, back: seq<Row>, r: Row)
    requires ById(subs) && r in subs && r.id != 0 && forall x :: x in back ==> x in subs
    ensures r.id in IdsOf(back) <==> r in back
  {
    if r.id in IdsOf(back) {
      var i := IdOfRow(back, r.id);
      assert back[i] in back;
      SameId(subs, back[i], r);
    }
    if r in back {
      var i :| 0 <= i < |back| && back[i] == r;
      IdListed(back, i);
    }
  }

  lemma ApartInSorted(subs: seq<Row>, front: seq<Row>, back: seq<Row>, r: Row)
    requires ById(subs) && multiset(front + back) == multiset(subs) && r in back
    ensures r !in front
  {
    OnceEach(subs, r);
    assert multiset(front + back) == multiset(front) + multiset(back);
    assert r in multiset(back);
    assert multiset(subs)[r] == multiset(front)[r] + multiset(back)[r];
  }

  lemma {:induction false} OnceEach(rows: seq<Row>, r: Row)
    requires ById(rows)
    ensures multiset(rows)[r] <= 1
    decreases |rows|
  {
    if rows != [] {
      var n := |rows| - 1;
      OnceEach(rows[..n], r);
      assert rows == rows[..n] + [rows[n]];
      if r == rows[n] {
        forall i | 0 <= i < n ensures rows[..n][i] != r { assert rows[i].id < rows[n].id; }
        assert r !in rows[..n];
        assert multiset(rows[..n])[r] == 0;
      }
    }
  }

  /** An automatic split leaves orders on both sides, never moves an order that is due before one
      that stays, and keeps at least half of the drums, at most one more than it moves. */
  lemma LaterHalfMoves(rows: seq<Row>, group: string, parts: seq<seq<Row>>)
    requires ById(rows) && Parts(parts, Subs(rows, group)) && forall r :: r in rows ==> r.id != 0
    ensures var k := SplitIndex(|parts|);
            var ids := set i | i in IdsOf(Flat(parts[k..]));
            var off, left := Off(rows, group, ids), Left(rows, group, ids);
            && off != [] && left != []
            && (forall a, b :: a in left && b in off ==> DueOr(a.due, DATE_MAX) <= DueOr(b.due, DATE_MAX))
            && |parts[k..]| <= |parts[..k]| <= |parts[k..]| + 1
  {
    var k := SplitIndex(|parts|);
    var front, back := Flat(parts[..k]), Flat(parts[k..]);
    HalvesOfSorted(rows, group, parts);
    assert parts == parts[..k] + parts[k..];
    FlatConcat(parts[..k], parts[k..]);
    FlatNotEmpty(parts[..k]);
    FlatNotEmpty(parts[k..]);
    assert front[0] in front && back[0] in back;
    SortMeans(Subs(rows, group));
    DueApart(front, back);
  }

  lemma DueApart(front: seq<Row>, back: seq<Row>)
    requires DueSorted(front + back)
    ensures forall a, b :: a in front && b in back ==> DueOr(a.due, DATE_MAX) <= DueOr(b.due, DATE_MAX)
  {
    forall a, b | a in front && b in back ensures DueOr(a.due, DATE_MAX) <= DueOr(b.due, DATE_MAX) {
      var i :| 0 <= i < |front| && front[i] == a;
      var j :| 0 <= j < |back| && back[j] == b;
      assert (front + back)[i] == a && (front + back)[|front| + j] == b;
    }
  }

  /** The keys that a split of `parts` moves. */
  ghost function LaterIds(parts: seq<seq<Row>>): set<int>
    requires |parts| >= 2
  {
    set i | i in IdsOf(Flat(parts[SplitIndex(|parts|)..]))
  }

  /** The automatic split of an overloaded group: the later half of its greedily packed drums goes to
      a group of its own; a group that needs one drum only is left as it is. */
  method ExecuteAutoSplit(table: Table, group: string, lot: real, gapDays: int, newId: int) returns (o: Outcome)
    modifies table
    ensures forall drums :: PacksAs(drums, Subs(old(table.rows), group), lot, gapDays) ==>
              if |drums| >= 2
              then SplitDone(old(table.rows), table.rows, group, LaterIds(drums), SplitName(group, "B"), newId, o)
              else o == NoIds && table.rows == old(table.rows)
    ensures exists drums :: PacksAs(drums, Subs(old(table.rows), group), lot, gapDays)
  {
    ghost var rows := Subs(table.rows, group);
    var p := ProposeSplit(Subs(table.rows, group), lot, gapDays, true);
    if p.NoSplit? {
      o := NoIds;
    } else {
      var ids := IdsToMove(p.parts);
      assert LaterIds(p.parts) == set i | i in ids;
      o := ApplyAutoSplit(table, group, ids, "B", newId);
      forall drums | PacksAs(drums, rows, lot, gapDays) ensures drums == p.parts {
        GreedyIsUnique(drums, p.parts, lot, gapDays);
      }
    }
  }
}
