/** Which pairs of tasks the two checks for overlaps name. */
module OverlapReports {
  import opened Orderings
  import opened OverlapChecks

  // ---------- picking rows in order

  /** `p` are the places of `rows` where `keep` holds, from the front. */
  ghost predicate PlacesOf(rows: seq<Row>, keep: Row -> bool, p: seq<nat>) {
    && (forall i: nat :: i in p <==> i < |rows| && keep(rows[i]))
    && forall i, j :: 0 <= i < j < |p| ==> p[i] < p[j]
  }

  ghost predicate At(rows: seq<Row>, p: seq<nat>, i: nat) { i < |p| && p[i] < |rows| }

  lemma PlacesInside(rows: seq<Row>, keep: Row -> bool, p: seq<nat>)
    requires PlacesOf(rows, keep, p)
    ensures forall i: nat :: i < |p| ==> At(rows, p, i) && keep(rows[p[i]])
  {
    forall i: nat | i < |p| ensures At(rows, p, i) && keep(rows[p[i]]) { assert p[i] in p; }
  }

  lemma PlacesSnoc(rows: seq<Row>, r: Row, keep: Row -> bool, p: seq<nat>)
    requires PlacesOf(rows, keep, p)
    ensures PlacesOf(rows + [r], keep, p + if keep(r) then [|rows|] else [])
  {
    PlacesInside(rows, keep, p);
    assert forall i :: 0 <= i < |p| ==> At(rows, p, i);
    var q: seq<nat> := p + if keep(r) then [|rows|] else [];
    forall i: nat ensures i in q <==> i < |rows| + 1 && keep((rows + [r])[i]) {
      assert i in q <==> i in p || (keep(r) && i == |rows|);
    }
  }

  // ---------- one task against all

  ghost function Against(t: Row): Row -> bool { (o: Row) => Conflict(t, o) }

  /** One violation for each row in conflict with `t`, in their order. */
  ghost predicate NamesEach(t: Row, all: seq<Row>, p: seq<nat>, v: seq<Violation>) {
    && PlacesOf(all, Against(t), p) && |v| == |p|
    && forall k: nat :: k < |p| ==> At(all, p, k) && v[k] == Violation(t.id, all[p[k]].id)
  }

  lemma PairsSnoc(t: Row, all: seq<Row>, r: Row)
    ensures PairViolations(t, all + [r]) ==
            PairViolations(t, all) + if Conflict(t, r) then [Violation(t.id, r.id)] else []
  {
    if all == [] {
      assert [] + [r] == [r] && [r][1..] == [];
    } else {
      PairsSnoc(t, all[1..], r);
      assert (all + [r])[1..] == all[1..] + [r];
    }
  }

  /** The check of one task names each other task on its equipment that overlaps it, once and in the order
      of the list, and no other. */
  lemma {:induction false} PairsExactly(t: Row, all: seq<Row>)
    ensures exists p :: NamesEach(t, all, p, PairViolations(t, all))
    decreases |all|
  {
    hide PlacesOf;
    if all == [] {
      assert PlacesOf([], Against(t), []) by { NoPlaces(Against(t)); }
      assert NamesEach(t, [], [], PairViolations(t, []));
    } else {
      var n := |all| - 1;
      PairsExactly(t, all[..n]);
      var p :| NamesEach(t, all[..n], p, PairViolations(t, all[..n]));
      assert all == all[..n] + [all[n]];
      PairsSnoc(t, all[..n], all[n]);
      PlacesSnoc(all[..n], all[n], Against(t), p);
      var q: seq<nat> := p + if Conflict(t, all[n]) then [n] else [];
      forall k: nat | k < |q| ensures At(all, q, k) && PairViolations(t, all)[k] == Violation(t.id, all[q[k]].id) {
        if k < |p| { assert At(all[..n], p, k); }
      }
      assert NamesEach(t, all, q, PairViolations(t, all));
    }
  }

  lemma NoPlaces(keep: Row -> bool)
    ensures PlacesOf([], keep, [])
  {
  }

  // ---------- neighbours on one machine

  ghost function On(code: string): Row -> bool { (r: Row) => r.equipment == code }

  /** `list` are the rows on a machine, in order. */
  ghost predicate OnMachine(rows: seq<Row>, code: string, list: seq<Row>) {
    exists p :: TakenFrom(rows, code, list, p)
  }

  ghost predicate TakenFrom(rows: seq<Row>, code: string, list: seq<Row>, p: seq<nat>) {
    PlacesOf(rows, On(code), p) && |list| == |p| && forall k: nat :: k < |p| ==> At(rows, p, k) && list[k] == rows[p[k]]
  }

  lemma {:induction false} BucketIsOnMachine(rows: seq<Row>, code: string)
    ensures OnMachine(rows, code, OfEquipment(rows, code))
    decreases |rows|
  {
    hide PlacesOf;
    if rows == [] {
      NoPlaces(On(code));
      assert TakenFrom([], code, [], []);
    } else {
      var n := |rows| - 1;
      BucketIsOnMachine(rows[..n], code);
      var list := OfEquipment(rows[..n], code);
      var p :| TakenFrom(rows[..n], code, list, p);
      assert rows == rows[..n] + [rows[n]];
      PlacesSnoc(rows[..n], rows[n], On(code), p);
      var q: seq<nat> := p + if rows[n].equipment == code then [n] else [];
      var all := OfEquipment(rows, code);
      forall k: nat | k < |q| ensures At(rows, q, k) && all[k] == rows[q[k]] {
        if k < |p| { assert At(rows[..n], p, k); }
      }
      assert TakenFrom(rows, code, all, q);
    }
  }

  lemma OneOnMachine(rows: seq<Row>, code: string, a: seq<Row>, b: seq<Row>)
    requires OnMachine(rows, code, a) && OnMachine(rows, code, b)
    ensures a == b
  {
    var p :| TakenFrom(rows, code, a, p);
    var q :| TakenFrom(rows, code, b, q);
    SameAscending<nat>(p, q, (x: nat, y: nat) => x < y);
    forall k | 0 <= k < |a| ensures a[k] == b[k] { assert At(rows, p, k) && At(rows, q, k); }
  }

  ghost function ByStart(): (Row, Row) -> bool { (a: Row, b: Row) => a.start < b.start }

  lemma {:induction false} InsertIsInsert(x: Row, s: seq<Row>)
    ensures InsertRow(x, s) == InsertBefore(x, s, ByStart())
    decreases |s|
  {
    if s != [] && s[0].start < x.start { InsertIsInsert(x, s[1..]); }
  }

  lemma {:induction false} SortIsSort(list: seq<Row>)
    ensures SortRows(list) == SortBefore(list, ByStart())
    decreases |list|
  {
    if list != [] {
      SortIsSort(list[1..]);
      InsertIsInsert(list[0], SortRows(list[1..]));
    }
  }

  /** Rows by start, as they stand where they start together; there is one such list only. */
  lemma RowsByStart(list: seq<Row>, s: seq<Row>)
    ensures s == SortRows(list) <==> StablySorted(list, s, ByStart())
  {
    SortIsSort(list);
    SortBeforeIsStable(list, ByStart());
    if StablySorted(list, s, ByStart()) { SortIsUnique(list, s, SortRows(list), ByStart()); }
  }

  ghost predicate Names(v: Violation, s: seq<Row>, i: nat) {
    i + 1 < |s| && v == Violation(s[i + 1].id, s[i].id)
  }

  /** On a machine, row `i` is not over when the next one starts. */
  ghost predicate RunsInto(rows: seq<Row>, code: string, s: seq<Row>, i: nat) {
    && (exists list :: OnMachine(rows, code, list) && StablySorted(list, s, ByStart()))
    && i + 1 < |s| && s[i + 1].start < s[i].end
  }

  lemma {:induction false} NeighboursNamed(s: seq<Row>, v: Violation)
    ensures v in NeighbourViolations(s) <==>
            exists i: nat :: i + 1 < |s| && s[i + 1].start < s[i].end && v == Violation(s[i + 1].id, s[i].id)
    decreases |s|
  {
    if |s| > 1 {
      var n := |s| - 1;
      NeighboursNamed(s[..n], v);
      var i := n - 1;
      assert s[i + 1] == s[n];
    }
  }

  ghost predicate NamedOn(rows: seq<Row>, code: string, v: Violation) {
    v in NeighbourViolations(SortRows(OfEquipment(rows, code)))
  }

  lemma {:induction false} ViolationsIn(codes: seq<string>, rows: seq<Row>, v: Violation)
    ensures v in ViolationsOf(codes, rows) <==> exists c :: c in codes && NamedOn(rows, c, v)
    decreases |codes|
  {
    if codes != [] {
      var n := |codes| - 1;
      var before := codes[..n];
      ViolationsIn(before, rows, v);
      assert codes == before + [codes[n]];
      assert v in ViolationsOf(codes, rows) <==> v in ViolationsOf(before, rows) || NamedOn(rows, codes[n], v);
      if c :| c in codes && NamedOn(rows, c, v) { assert c in before || c == codes[n]; }
      if c :| c in before && NamedOn(rows, c, v) { assert c in codes; }
    }
  }

  lemma MachineNames(rows: seq<Row>, code: string, v: Violation)
    ensures NamedOn(rows, code, v) <==>
            exists s: seq<Row>, i: nat :: RunsInto(rows, code, s, i) && Names(v, s, i)
  {
    hide OnMachine, StablySorted;
    var list := OfEquipment(rows, code);
    var sorted := SortRows(list);
    BucketIsOnMachine(rows, code);
    RowsByStart(list, sorted);
    NeighboursNamed(sorted, v);
    if v in NeighbourViolations(sorted) {
      var i: nat :| i + 1 < |sorted| && sorted[i + 1].start < sorted[i].end
                    && v == Violation(sorted[i + 1].id, sorted[i].id);
      assert RunsInto(rows, code, sorted, i);
    }
    if s: seq<Row>, i: nat :| RunsInto(rows, code, s, i) && Names(v, s, i) {
      var other :| OnMachine(rows, code, other) && StablySorted(other, s, ByStart());
      OneOnMachine(rows, code, other, list);
      RowsByStart(list, s);
    }
  }

  /** The check of neighbours names exactly the tasks that start before the one in front of them on the same
      equipment, by start and else as listed, is over, together with that one. */
  lemma NeighboursNamedExactly(rows: seq<Row>, v: Violation)
    ensures v in ViolationsOf(CodesOf(rows), rows) <==>
            exists code, s: seq<Row>, i: nat :: RunsInto(rows, code, s, i) && Names(v, s, i)
  {
    hide RunsInto, NamedOn;
    var codes := CodesOf(rows);
    ViolationsIn(codes, rows, v);
    forall c
      ensures NamedOn(rows, c, v) <==>
              exists s: seq<Row>, i: nat :: RunsInto(rows, c, s, i) && Names(v, s, i)
    {
      MachineNames(rows, c, v);
    }
    if code, s: seq<Row>, i: nat :| RunsInto(rows, code, s, i) && Names(v, s, i) {
      assert NamedOn(rows, code, v);
      NamedInRows(rows, code, v);
    }
  }

  lemma NamedInRows(rows: seq<Row>, code: string, v: Violation)
    requires NamedOn(rows, code, v)
    ensures code in CodesOf(rows)
  {
    var list := OfEquipment(rows, code);
    NeighboursNamed(SortRows(list), v);
    SortRowsMeans(list);
    assert |SortRows(list)| == |multiset(SortRows(list))| == |list|;
    OfEquipmentMeans(rows, code);
    CodesMean(rows);
    assert list[0] in list;
  }
}
