/** Two checks for overlapping tasks: neighbours in start order, and all pairs. */
module OverlapChecks {
  datatype Row = Row(id: string, equipment: string, start: int, end: int)

  datatype Violation = Violation(id: string, other: string)

  // ---------- the reference: every pair

  predicate Overlaps(a: Row, b: Row) { a.start < b.end && b.start < a.end }

  /** The tasks that overlap `t` on its equipment. */
  function PairViolations(t: Row, all: seq<Row>): seq<Violation> {
    if all == [] then []
    else
      (if all[0].equipment == t.equipment && all[0].id != t.id && Overlaps(t, all[0])
       then [Violation(t.id, all[0].id)] else [])
        + PairViolations(t, all[1..])
  }

  ghost predicate Conflict(a: Row, b: Row) { a.equipment == b.equipment && a.id != b.id && Overlaps(a, b) }

  lemma {:induction false} PairViolationsMean(t: Row, all: seq<Row>)
    ensures PairViolations(t, all) == [] <==> forall o :: o in all ==> !Conflict(t, o)
  {
    if all != [] {
      PairViolationsMean(t, all[1..]);
      assert all == [all[0]] + all[1..];
      if Conflict(t, all[0]) {
        assert |PairViolations(t, all)| > 0;
        assert all[0] in all;
      } else {
        assert PairViolations(t, all) == PairViolations(t, all[1..]);
      }
    }
  }

  // ---------- neighbours in start order

  function InsertRow(x: Row, s: seq<Row>): seq<Row> {
    if s == [] || x.start <= s[0].start then [x] + s else [s[0]] + InsertRow(x, s[1..])
  }

  function SortRows(s: seq<Row>): seq<Row> {
    if s == [] then [] else InsertRow(s[0], SortRows(s[1..]))
  }

  function OfEquipment(rows: seq<Row>, code: string): seq<Row> {
    if rows == [] then []
    else
      var before := OfEquipment(rows[..|rows| - 1], code);
      if rows[|rows| - 1].equipment == code then before + [rows[|rows| - 1]] else before
  }

  ghost predicate SortedRows(s: seq<Row>) { forall i, j :: 0 <= i < j < |s| ==> s[i].start <= s[j].start }

  lemma {:induction false} InsertRowPermutes(x: Row, s: seq<Row>)
    ensures multiset(InsertRow(x, s)) == multiset([x] + s)
    ensures forall y :: y in InsertRow(x, s) <==> y == x || y in s
  {
    if s != [] && x.start > s[0].start {
      InsertRowPermutes(x, s[1..]);
      assert s == [s[0]] + s[1..];
    }
  }

  lemma {:induction false} InsertRowSorts(x: Row, s: seq<Row>)
    requires SortedRows(s)
    ensures SortedRows(InsertRow(x, s))
  {
    if s != [] && x.start > s[0].start {
      InsertRowSorts(x, s[1..]);
      InsertRowPermutes(x, s[1..]);
      var t := InsertRow(x, s[1..]);
      forall i | 0 <= i < |t| ensures s[0].start <= t[i].start { assert t[i] in t; }
    }
  }

  lemma {:induction false} SortRowsMeans(s: seq<Row>)
    ensures SortedRows(SortRows(s)) && multiset(SortRows(s)) == multiset(s)
  {
    if s != [] {
      SortRowsMeans(s[1..]);
      InsertRowSorts(s[0], SortRows(s[1..]));
      InsertRowPermutes(s[0], SortRows(s[1..]));
      assert s == [s[0]] + s[1..];
    }
  }

  lemma {:induction false} OfEquipmentMeans(rows: seq<Row>, code: string)
    ensures forall r :: r in OfEquipment(rows, code) <==> r in rows && r.equipment == code
    ensures multiset(OfEquipment(rows, code)) <= multiset(rows)
  {
    if rows != [] {
      OfEquipmentMeans(rows[..|rows| - 1], code);
      assert rows == rows[..|rows| - 1] + [rows[|rows| - 1]];
    }
  }

  /** The violations between neighbours, in order. */
  function NeighbourViolations(s: seq<Row>): seq<Violation> {
    if |s| <= 1 then []
    else
      NeighbourViolations(s[..|s| - 1])
        + if s[|s| - 2].end > s[|s| - 1].start then [Violation(s[|s| - 1].id, s[|s| - 2].id)] else []
  }

  lemma {:induction false} NeighboursMean(s: seq<Row>)
    ensures NeighbourViolations(s) == [] <==> forall i :: 0 <= i < |s| - 1 ==> s[i].end <= s[i + 1].start
  {
    if |s| > 1 {
      var t, n := s[..|s| - 1], |s| - 2;
      NeighboursMean(t);
      assert forall i :: 0 <= i < |t| ==> t[i] == s[i];
      assert |NeighbourViolations(s)| == |NeighbourViolations(t)| + if s[n].end > s[n + 1].start then 1 else 0;
    }
  }

  /** All rows have distinct ids and none ends before it starts. */
  ghost predicate Plausible(rows: seq<Row>) {
    && (forall i, j :: 0 <= i < j < |rows| ==> rows[i].id != rows[j].id)
    && (forall r :: r in rows ==> r.start <= r.end)
  }

  /** An empty row `r` that starts with `x`, which is not empty: no pair of them overlaps. */
  ghost predicate Hides(x: Row, r: Row) { x.start == r.start == r.end < x.end }

  ghost predicate SomeHidden(s: seq<Row>) { exists i, j :: 0 <= i < j < |s| && Hides(s[i], s[j]) }

  ghost predicate SomeOverlap(s: seq<Row>) { exists i, j :: 0 <= i < j < |s| && Overlaps(s[i], s[j]) }

  /** In start order, some neighbours are too close exactly when some pair overlaps, or an empty row
      comes after one that starts with it. */
  lemma NeighboursExactly(s: seq<Row>)
    requires SortedRows(s) && (forall i :: 0 <= i < |s| ==> s[i].start <= s[i].end)
    ensures NeighbourViolations(s) != [] <==> SomeOverlap(s) || SomeHidden(s)
  {
    hide NeighbourViolations;
    NeighboursMean(s);
    if i, j :| 0 <= i < j < |s| && (Overlaps(s[i], s[j]) || Hides(s[i], s[j])) {
      assert s[i + 1].start <= s[j].start;
      assert s[i].end > s[i + 1].start;
    }
    if i :| 0 <= i < |s| - 1 && s[i].end > s[i + 1].start {
      assert s[i].start <= s[i + 1].start;
      assert Overlaps(s[i], s[i + 1]) || Hides(s[i], s[i + 1]);
    }
  }

  // ---------- the order of rows that start together

  lemma HiddenCons(x: Row, s: seq<Row>)
    ensures SomeHidden([x] + s) <==> SomeHidden(s) || exists r :: r in s && Hides(x, r)
  {
    var t := [x] + s;
    if i, j :| 0 <= i < j < |t| && Hides(t[i], t[j]) {
      if i > 0 { assert Hides(s[i - 1], s[j - 1]); } else { assert t[j] in s; }
    }
    if i, j :| 0 <= i < j < |s| && Hides(s[i], s[j]) { assert Hides(t[i + 1], t[j + 1]); }
    if r :| r in s && Hides(x, r) {
      var j :| 0 <= j < |s| && s[j] == r;
      assert Hides(t[0], t[j + 1]);
    }
  }

  lemma HiddenSnoc(s: seq<Row>, r: Row)
    ensures SomeHidden(s + [r]) <==> SomeHidden(s) || exists x :: x in s && Hides(x, r)
  {
    var t := s + [r];
    if i, j :| 0 <= i < j < |t| && Hides(t[i], t[j]) {
      if j < |s| { assert Hides(s[i], s[j]); } else { assert t[i] in s; }
    }
    if i, j :| 0 <= i < j < |s| && Hides(s[i], s[j]) { assert Hides(t[i], t[j]); }
    if x :| x in s && Hides(x, r) {
      var i :| 0 <= i < |s| && s[i] == x;
      assert Hides(t[i], t[|s|]);
    }
  }

  /** Sorting keeps the order of rows that start together. */
  lemma {:induction false} InsertHides(x: Row, s: seq<Row>)
    ensures SomeHidden(InsertRow(x, s)) <==> SomeHidden([x] + s)
  {
    if s != [] && x.start > s[0].start {
      var rest := s[1..];
      InsertHides(x, rest);
      InsertRowPermutes(x, rest);
      HiddenCons(s[0], InsertRow(x, rest));
      HiddenCons(x, rest);
      HiddenCons(x, s);
      HiddenCons(s[0], rest);
      assert s == [s[0]] + rest;
    }
  }

  lemma {:induction false} SortHides(s: seq<Row>)
    ensures SomeHidden(SortRows(s)) <==> SomeHidden(s)
  {
    if s != [] {
      SortHides(s[1..]);
      InsertHides(s[0], SortRows(s[1..]));
      HiddenCons(s[0], SortRows(s[1..]));
      HiddenCons(s[0], s[1..]);
      SortRowsMeans(s[1..]);
      forall r ensures r in SortRows(s[1..]) <==> r in s[1..] { SameMembers(SortRows(s[1..]), s[1..], r); }
      assert s == [s[0]] + s[1..];
    }
  }

  lemma SameMembers(a: seq<Row>, b: seq<Row>, r: Row)
    requires multiset(a) == multiset(b)
    ensures r in a <==> r in b
  {
    assert r in a <==> r in multiset(a);
    assert r in b <==> r in multiset(b);
  }

  /** On equipment `code` an empty row comes later in the list than one that starts with it. */
  ghost predicate HiddenOn(rows: seq<Row>, code: string) {
    exists i, j :: 0 <= i < j < |rows| && HidesOn(code, rows[i], rows[j])
  }

  ghost predicate HidesOn(code: string, x: Row, r: Row) { x.equipment == code == r.equipment && Hides(x, r) }

  lemma HiddenOnSnoc(rows: seq<Row>, r: Row, code: string)
    ensures HiddenOn(rows + [r], code) <==> HiddenOn(rows, code) || exists x :: x in rows && HidesOn(code, x, r)
  {
    var t := rows + [r];
    if i, j :| 0 <= i < j < |t| && HidesOn(code, t[i], t[j]) {
      if j < |rows| { assert HidesOn(code, rows[i], rows[j]); } else { assert t[i] in rows; }
    }
    if i, j :| 0 <= i < j < |rows| && HidesOn(code, rows[i], rows[j]) { assert HidesOn(code, t[i], t[j]); }
    if x :| x in rows && HidesOn(code, x, r) {
      var i :| 0 <= i < |rows| && rows[i] == x;
      assert HidesOn(code, t[i], t[|rows|]);
    }
  }

  lemma {:induction false} BucketHides(rows: seq<Row>, code: string)
    ensures SomeHidden(OfEquipment(rows, code)) <==> HiddenOn(rows, code)
    decreases |rows|
  {
    if rows != [] {
      var n := |rows| - 1;
      var before, r := rows[..n], rows[n];
      assert rows == before + [r];
      BucketHides(before, code);
      OfEquipmentMeans(before, code);
      HiddenOnSnoc(before, r, code);
      HiddenSnoc(OfEquipment(before, code), r);
    }
  }

  // ---------- the check as the program runs it

  /** The violations of the equipments `codes`, one after the other. */
  function ViolationsOf(codes: seq<string>, rows: seq<Row>): seq<Violation> {
    if codes == [] then []
    else ViolationsOf(codes[..|codes| - 1], rows) + NeighbourViolations(SortRows(OfEquipment(rows, codes[|codes| - 1])))
  }

  lemma {:induction false} ViolationsMean(codes: seq<string>, rows: seq<Row>)
    ensures ViolationsOf(codes, rows) == [] <==>
            forall c :: c in codes ==> NeighbourViolations(SortRows(OfEquipment(rows, c))) == []
  {
    if codes != [] {
      var init, last := codes[..|codes| - 1], codes[|codes| - 1];
      ViolationsMean(init, rows);
      assert codes == init + [last];
      var found := NeighbourViolations(SortRows(OfEquipment(rows, last)));
      assert |ViolationsOf(codes, rows)| == |ViolationsOf(init, rows)| + |found|;
      assert last in codes;
    }
  }

  function CodesOf(rows: seq<Row>): seq<string> {
    if rows == [] then []
    else
      var before := CodesOf(rows[..|rows| - 1]);
      if rows[|rows| - 1].equipment in before then before else before + [rows[|rows| - 1].equipment]
  }

  lemma {:induction false} CodesMean(rows: seq<Row>)
    ensures forall c :: c in CodesOf(rows) <==> exists r :: r in rows && r.equipment == c
  {
    if rows != [] {
      CodesMean(rows[..|rows| - 1]);
      assert rows == rows[..|rows| - 1] + [rows[|rows| - 1]];
    }
  }

  /** Each equipment that the rows name has a bucket with its rows. */
  ghost predicate Bucketed(rows: seq<Row>, codes: seq<string>, buckets: map<string, seq<Row>>) {
    && codes == CodesOf(rows) && (forall c :: c in buckets <==> c in codes)
    && forall c :: c in buckets ==> buckets[c] == OfEquipment(rows, c)
  }

  lemma OneRowMore(rows: seq<Row>, r: Row, codes: seq<string>, buckets: map<string, seq<Row>>)
    requires Bucketed(rows, codes, buckets)
    ensures var code := r.equipment;
            var bucket := if code in buckets then buckets[code] else [];
            Bucketed(rows + [r], if code in buckets then codes else codes + [code], buckets[code := bucket + [r]])
  {
    var all, code := rows + [r], r.equipment;
    assert all[..|rows|] == rows;
    if code !in buckets {
      OfEquipmentMeans(rows, code);
      CodesMean(rows);
      NoneOf(rows, code);
    }
  }

  method CheckOverlap(rows: seq<Row>) returns (violations: seq<Violation>)
    ensures violations == ViolationsOf(CodesOf(rows), rows)
  {
    hide SortRows, NeighbourViolations, OfEquipment, CodesOf, ViolationsOf;
    var codes: seq<string> := [];
    var buckets: map<string, seq<Row>> := map[];
    NoBuckets();
    for n := 0 to |rows|
      invariant Bucketed(rows[..n], codes, buckets)
    {
      assert rows[..n + 1] == rows[..n] + [rows[n]];
      var code := rows[n].equipment;
      OneRowMore(rows[..n], rows[n], codes, buckets);
      var bucket := if code in buckets then buckets[code] else [];
      if code !in buckets { codes := codes + [code]; }
      buckets := buckets[code := bucket + [rows[n]]];
    }
    assert rows[..|rows|] == rows;
    violations := CheckBuckets(rows, codes, buckets);
  }

  lemma NoBuckets()
    ensures Bucketed([], [], map[])
  {
  }

  /** The neighbours of each bucket. */
  method CheckBuckets(rows: seq<Row>, codes: seq<string>, buckets: map<string, seq<Row>>)
    returns (violations: seq<Violation>)
    requires Bucketed(rows, codes, buckets)
    ensures violations == ViolationsOf(codes, rows)
  {
    hide SortRows, NeighbourViolations, OfEquipment, CodesOf;
    violations := [];
    for n := 0 to |codes|
      invariant violations == ViolationsOf(codes[..n], rows)
    {
      assert codes[..n + 1][..n] == codes[..n];
      var sorted := SortRows(buckets[codes[n]]);
      var found := CheckNeighbours(sorted);
      violations := violations + found;
    }
    assert codes[..|codes|] == codes;
  }

  method CheckNeighbours(sorted: seq<Row>) returns (found: seq<Violation>)
    ensures found == NeighbourViolations(sorted)
  {
    found := [];
    var i := 0;
    while i + 1 < |sorted|
      invariant 0 <= i && (sorted != [] ==> i < |sorted|)
      invariant if sorted == [] then found == [] else found == NeighbourViolations(sorted[..i + 1])
    {
      assert sorted[..i + 2][..i + 1] == sorted[..i + 1];
      if sorted[i].end > sorted[i + 1].start {
        found := found + [Violation(sorted[i + 1].id, sorted[i].id)];
      }
      i := i + 1;
    }
    if sorted != [] { assert sorted[..i + 1] == sorted; } else { assert found == []; }
  }

  lemma NoneOf(rows: seq<Row>, code: string)
    requires forall r :: r in rows ==> r.equipment != code
    ensures OfEquipment(rows, code) == []
  {
    OfEquipmentMeans(rows, code);
    var l := OfEquipment(rows, code);
    if l != [] { FirstIn(l); }
  }

  lemma FirstIn(l: seq<Row>)
    requires l != []
    ensures l[0] in l
  {
  }

  // ---------- the two checks agree

  ghost predicate BucketClear(rows: seq<Row>, code: string) {
    forall a, b :: a in rows && b in rows && a.equipment == code ==> !Conflict(a, b)
  }

  /** One equipment: its neighbours are fine exactly when no pair conflicts and no row is hidden. */
  lemma BucketExactly(rows: seq<Row>, code: string)
    requires Plausible(rows)
    ensures NeighbourViolations(SortRows(OfEquipment(rows, code))) == [] <==>
              BucketClear(rows, code) && !HiddenOn(rows, code)
  {
    var s := SortRows(OfEquipment(rows, code));
    BucketMeans(rows, code);
    NeighboursExactly(s);
    SortHides(OfEquipment(rows, code));
    BucketHides(rows, code);
    BucketOverlaps(rows, code);
  }

  lemma BucketOverlaps(rows: seq<Row>, code: string)
    requires Plausible(rows)
    ensures SomeOverlap(SortRows(OfEquipment(rows, code))) <==> !BucketClear(rows, code)
  {
    var s := SortRows(OfEquipment(rows, code));
    BucketMeans(rows, code);
    if i, j :| 0 <= i < j < |s| && Overlaps(s[i], s[j]) {
      DistinctIds(rows, OfEquipment(rows, code), s, i, j);
      assert s[i] in s && s[j] in s;
      assert Conflict(s[i], s[j]);
    }
    if a, b :| a in rows && b in rows && a.equipment == code && Conflict(a, b) { PairInBucket(s, a, b); }
  }

  lemma BucketMeans(rows: seq<Row>, code: string)
    requires Plausible(rows)
    ensures var l := OfEquipment(rows, code);
            var s := SortRows(l);
            && SortedRows(s) && multiset(s) == multiset(l) && multiset(l) <= multiset(rows)
            && (forall r :: r in s <==> r in rows && r.equipment == code)
            && (forall i :: 0 <= i < |s| ==> s[i].start <= s[i].end)
  {
    var l := OfEquipment(rows, code);
    var s := SortRows(l);
    OfEquipmentMeans(rows, code);
    SortRowsMeans(l);
    forall r ensures r in s <==> r in l { SameMembers(s, l, r); }
    forall i | 0 <= i < |s| ensures s[i].start <= s[i].end { assert s[i] in s; }
  }

  lemma PairInBucket(s: seq<Row>, a: Row, b: Row)
    requires a in s && b in s && a != b && Overlaps(a, b)
    ensures SomeOverlap(s)
  {
    var i :| 0 <= i < |s| && s[i] == a;
    var j :| 0 <= j < |s| && s[j] == b;
    if i < j { assert Overlaps(s[i], s[j]); } else { assert Overlaps(s[j], s[i]); }
  }

  lemma DistinctIds(rows: seq<Row>, l: seq<Row>, s: seq<Row>, i: int, j: int)
    requires Plausible(rows) && multiset(s) == multiset(l) && multiset(l) <= multiset(rows) && 0 <= i < j < |s|
    ensures s[i].id != s[j].id
  {
    if s[i].id == s[j].id {
      assert s[i] in multiset(s) && s[j] in multiset(s);
      assert s[i] in rows && s[j] in rows;
      assert s[i] == s[j];
      assert s == s[..i] + [s[i]] + s[i + 1..j] + [s[j]] + s[j + 1..];
      assert multiset(s)[s[i]] >= 2;
      OnceOnly(rows, s[i]);
    }
  }

  lemma {:induction false} OnceOnly(rows: seq<Row>, r: Row)
    requires forall i, j :: 0 <= i < j < |rows| ==> rows[i].id != rows[j].id
    ensures multiset(rows)[r] <= 1
  {
    if rows != [] {
      OnceOnly(rows[1..], r);
      assert rows == [rows[0]] + rows[1..];
      if rows[0] == r { assert r !in rows[1..]; }
    }
  }

  ghost predicate PairsReport(rows: seq<Row>) { exists t :: t in rows && PairViolations(t, rows) != [] }

  ghost predicate AnyHidden(rows: seq<Row>) {
    exists i, j :: 0 <= i < j < |rows| && HidesOn(rows[i].equipment, rows[i], rows[j])
  }

  lemma PairsReportMeans(rows: seq<Row>)
    ensures PairsReport(rows) <==> exists c :: c in CodesOf(rows) && !BucketClear(rows, c)
  {
    CodesMean(rows);
    forall t ensures PairViolations(t, rows) == [] <==> forall o :: o in rows ==> !Conflict(t, o) {
      PairViolationsMean(t, rows);
    }
    if t :| t in rows && PairViolations(t, rows) != [] {
      assert t.equipment in CodesOf(rows) && !BucketClear(rows, t.equipment);
    }
    if c :| c in CodesOf(rows) && !BucketClear(rows, c) {
      var a, b :| a in rows && b in rows && a.equipment == c && Conflict(a, b);
      assert PairViolations(a, rows) != [];
    }
  }

  lemma AnyHiddenMeans(rows: seq<Row>)
    ensures AnyHidden(rows) <==> exists c :: c in CodesOf(rows) && HiddenOn(rows, c)
  {
    CodesMean(rows);
    if i, j :| 0 <= i < j < |rows| && HidesOn(rows[i].equipment, rows[i], rows[j]) {
      assert rows[i] in rows;
      assert HiddenOn(rows, rows[i].equipment);
    }
    if c :| c in CodesOf(rows) && HiddenOn(rows, c) {
      var i, j :| 0 <= i < j < |rows| && HidesOn(c, rows[i], rows[j]);
      assert HidesOn(rows[i].equipment, rows[i], rows[j]);
    }
  }

  /** The neighbour check reports something exactly when the check of all pairs does, or an empty row
      comes in the list after one of the same equipment that starts with it and is not empty. */
  lemma ChecksExactly(rows: seq<Row>)
    requires Plausible(rows)
    ensures ViolationsOf(CodesOf(rows), rows) != [] <==> PairsReport(rows) || AnyHidden(rows)
  {
    ViolationsMean(CodesOf(rows), rows);
    PairsReportMeans(rows);
    AnyHiddenMeans(rows);
    forall c
      ensures NeighbourViolations(SortRows(OfEquipment(rows, c))) == [] <==> BucketClear(rows, c) && !HiddenOn(rows, c)
    {
      BucketExactly(rows, c);
    }
  }

  /** So the two checks agree on a list exactly if the check of all pairs reports something or no empty
      row hides; in particular where every row takes time. */
  lemma ChecksAgreeExactly(rows: seq<Row>)
    requires Plausible(rows)
    ensures (ViolationsOf(CodesOf(rows), rows) != [] <==> PairsReport(rows)) <==> PairsReport(rows) || !AnyHidden(rows)
    ensures (forall r :: r in rows ==> r.start < r.end) ==> !AnyHidden(rows)
  {
    ChecksExactly(rows);
    assert forall i :: 0 <= i < |rows| ==> rows[i] in rows;
  }

  /** A task of no length that starts with another is reported by the neighbour check, by no pair. */
  lemma EmptyTaskTellsThemApart(long: Row, empty: Row)
    requires long.equipment == empty.equipment && long.id != empty.id
    requires long.start == empty.start == empty.end < long.end
    ensures ViolationsOf(CodesOf([long, empty]), [long, empty]) != [] && !PairsReport([long, empty])
    ensures ViolationsOf(CodesOf([empty, long]), [empty, long]) == []
  {
    var rows, turned := [long, empty], [empty, long];
    ChecksExactly(rows);
    ChecksExactly(turned);
    assert HidesOn(rows[0].equipment, rows[0], rows[1]);
    forall t, o | t in rows && o in rows ensures !Conflict(t, o) {}
    forall t ensures PairViolations(t, rows) == [] <==> forall o :: o in rows ==> !Conflict(t, o) {
      PairViolationsMean(t, rows);
    }
    forall t ensures PairViolations(t, turned) == [] <==> forall o :: o in turned ==> !Conflict(t, o) {
      PairViolationsMean(t, turned);
    }
  }
}
