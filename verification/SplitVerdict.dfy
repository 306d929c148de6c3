/** When the repair pass leaves an automatic split alone. */
module SplitVerdict {
  import opened Wrappers
  import opened Batches
  import opened Dedupe
  import opened DedupeLaws
  import opened AutoSplit
  import opened SplitLaws
  import opened SplitFixpoint

  /** Splitting costs a lot more than not splitting. */
  ghost predicate CostsALot(h: Row, off: seq<Row>, left: seq<Row>) {
    h.lot > 0.0 && SurplusOf(h, off) + SurplusOf(h, left) >= h.lot
  }

  /** The two lengths make the length of the whole exactly when the split costs no lot. */
  lemma LengthsAddUp(h: Row, off: seq<Row>, left: seq<Row>, subs: seq<Row>)
    requires NetOf(h, off) >= 0.0 && NetOf(h, left) >= 0.0 && NetOf(h, subs) == NetOf(h, off) + NetOf(h, left)
    ensures LotsOf(h, off).length + LotsOf(h, left).length == LotsOf(h, subs).length <==> !CostsALot(h, off, left)
  {
    SurplusOfHalf(h, off);
    SurplusOfHalf(h, left);
    if h.lot > 0.0 && NetOf(h, subs) > 0.0 { LotsOfHalves(NetOf(h, off), NetOf(h, left), h.lot); }
  }

  lemma NetsAddUp(rows: seq<Row>, h: Row, group: string, ids: set<int>)
    ensures NetOf(h, Subs(rows, group)) == NetOf(h, Off(rows, group, ids)) + NetOf(h, Left(rows, group, ids))
  {
    SplitKeepsOrders(rows, group, ids);
    var a, b, c := Total(Off(rows, group, ids)), Total(Left(rows, group, ids)), h.Cores() as real;
    assert (a + b) * c == a * c + b * c;
  }

  /** A settled header runs for its length at its speed. */
  lemma SettledMinutes(h: Row, subs: seq<Row>)
    requires Rebuilt(h, subs, 1) == h && subs != [] && NetOf(h, subs) > 0.0 && h.speed > 0.0
    ensures Minutes(h) * h.speed == LotsOf(h, subs).length
  {
    assert h.length == WorkOf(h, subs).length;
    assert h.duration == Some(h.length / h.speed);
    var q := h.length / h.speed;
    assert q * h.speed == h.length;
  }

  lemma HalfVerdict(h: Row, part: seq<Row>, other: seq<Row>, subs: seq<Row>, head: Row, all: seq<Row>)
    requires Alike(subs, part) && NetOf(h, part) >= 0.0 && NetOf(h, other) >= 0.0
    requires head == Half(h, part, other).(id := head.id, group := head.group, order := head.order, line := head.line)
    requires Rebuilt(h, all, 1) == h && all != [] && NetOf(h, all) == NetOf(h, part) + NetOf(h, other)
    ensures Rebuilt(head, subs, 1) == head <==>
              || h.speed <= 0.0 || NetOf(h, part) == 0.0
              || LotsOf(h, part).length + LotsOf(h, other).length == LotsOf(h, all).length
  {
    if NetOf(h, part) == 0.0 {
      IdleHalfIsSettled(h, part, other, subs, head);
    } else {
      HalfIsSettledExactly(h, part, other, subs, head);
      if h.speed > 0.0 {
        SettledMinutes(h, all);
        HalfMinutes(h, part, other);
      }
    }
  }

  /** A half without work has no lots, and costs none. */
  lemma IdleCostsNothing(h: Row, a: seq<Row>, b: seq<Row>)
    requires NetOf(h, a) == 0.0 && NetOf(h, b) >= 0.0
    ensures !CostsALot(h, a, b) && !CostsALot(h, b, a)
  {
    SurplusOfHalf(h, a);
    SurplusOfHalf(h, b);
    assert LotsOf(h, a) == Work(0, 0.0);
  }

  lemma HalfMinutes(h: Row, part: seq<Row>, other: seq<Row>)
    requires NetOf(h, part) > 0.0 && NetOf(h, other) >= 0.0 && h.speed > 0.0
    ensures var half := Half(h, part, other);
            (half.duration == Some(half.length / h.speed))
            <==> (Minutes(h) * h.speed == LotsOf(h, part).length + LotsOf(h, other).length)
  {
    SurplusOfHalf(h, part);
    SurplusOfHalf(h, other);
    ShareIsTime(Minutes(h), h.speed, LotsOf(h, part).length, LotsOf(h, other).length);
  }

  lemma SameIsAlike(rows: seq<Row>)
    ensures Alike(rows, rows)
  {
  }

  /** There is no speed to time the halves by, or the split costs no lot. */
  ghost predicate Fair(rows: seq<Row>, h: Row, group: string, ids: set<int>) {
    h.speed <= 0.0 || !CostsALot(h, Off(rows, group, ids), Left(rows, group, ids))
  }

  /** A half that is counted from just its own rows is settled exactly when the split is fair. */
  lemma FairHalf(rows: seq<Row>, h: Row, group: string, ids: set<int>, to: string, newId: int, part: seq<Row>,
                 other: seq<Row>, subs: seq<Row>, head: Row)
    requires Splits(rows, h, group, ids, to, newId) && Alike(subs, part)
    requires var off, left := Off(rows, group, ids), Left(rows, group, ids);
             (part == off && other == left) || (part == left && other == off)
    requires head == Half(h, part, other).(id := head.id, group := head.group, order := head.order, line := head.line)
    ensures Rebuilt(head, subs, 1) == head <==> Fair(rows, h, group, ids)
  {
    SplitsMeans(rows, h, group, ids, to, newId);
    var off, left := Off(rows, group, ids), Left(rows, group, ids);
    NetsAddUp(rows, h, group, ids);
    LengthsAddUp(h, off, left, Subs(rows, group));
    HalfVerdict(h, part, other, subs, head, Subs(rows, group));
    if NetOf(h, part) == 0.0 { IdleCostsNothing(h, part, other); }
  }

  /** The header that stays is settled exactly when the split is fair; the new one when it is what
      would be counted from the rows that join under its name. */
  lemma HalvesSettled(rows: seq<Row>, h: Row, group: string, ids: set<int>, to: string, newId: int)
    requires Splits(rows, h, group, ids, to, newId)
    ensures var after := AfterSplit(rows, h, group, ids, to, newId);
            var made := NewHeader(h, Off(rows, group, ids), Left(rows, group, ids), to, newId);
            && (Settled(after, group) <==> Fair(rows, h, group, ids))
            && (Settled(after, to) <==> Rebuilt(made, Joined(rows, group, ids, to), 1) == made)
  {
    hide Half, NewHeader, AfterSplit, Rebuilt, Fair, Joined;
    var off, left := Off(rows, group, ids), Left(rows, group, ids);
    HeaderLeftBehind(rows, h, group, ids, to, newId);
    HeaderMade(rows, h, group, ids, to, newId);
    SubsLeft(rows, h, group, ids, to, newId);
    SubsJoined(rows, h, group, ids, to, newId);
    SameIsAlike(left);
    SameHead(Half(h, left, off));
    FairHalf(rows, h, group, ids, to, newId, left, off, left, Half(h, left, off));
  }

  lemma SameHead(h: Row)
    ensures h == h.(id := h.id, group := h.group, order := h.order, line := h.line)
  {
  }

  lemma OthersSettled(rows: seq<Row>, h: Row, group: string, ids: set<int>, to: string, newId: int, g: string)
    requires Splits(rows, h, group, ids, to, newId)
    requires g in HeaderGroups(AfterSplit(rows, h, group, ids, to, newId)) && g != group && g != to
    ensures Settled(AfterSplit(rows, h, group, ids, to, newId), g)
  {
    var after := AfterSplit(rows, h, group, ids, to, newId);
    OthersUntouched(rows, h, group, ids, to, newId, g);
    HeaderGroupsMean(after, g);
    HeaderGroupsMean(rows, g);
    UnchangedExactly(rows);
    assert Settled(rows, g);
  }

  /** Both halves are groups with headers. */
  lemma HalvesHeaded(rows: seq<Row>, h: Row, group: string, ids: set<int>, to: string, newId: int)
    requires Splits(rows, h, group, ids, to, newId)
    ensures group in HeaderGroups(AfterSplit(rows, h, group, ids, to, newId))
    ensures to in HeaderGroups(AfterSplit(rows, h, group, ids, to, newId))
  {
    var after := AfterSplit(rows, h, group, ids, to, newId);
    HeaderLeftBehind(rows, h, group, ids, to, newId);
    HeaderMade(rows, h, group, ids, to, newId);
    HeaderGroupsMean(after, group);
    HeaderGroupsMean(after, to);
  }

  /** The repair pass leaves a split alone exactly when the lines have no speed or the split costs no
      lot, no row that moves has the key of one that bears the new name already, and the new header is
      what would be counted from all rows under its name. */
  lemma LeftAloneExactly(rows: seq<Row>, h: Row, group: string, ids: set<int>, to: string, newId: int)
    requires Splits(rows, h, group, ids, to, newId)
    ensures var after := AfterSplit(rows, h, group, ids, to, newId);
            var made := NewHeader(h, Off(rows, group, ids), Left(rows, group, ids), to, newId);
            Deduped(after) == after <==>
              && Fair(rows, h, group, ids) && KeysFree(rows, group, ids, to)
              && Rebuilt(made, Joined(rows, group, ids, to), 1) == made
  {
    hide AfterSplit, NewHeader, Fair, Joined, Rebuilt, KeysFree, Settled, HeaderGroups, Deduped;
    SplitsMeans(rows, h, group, ids, to, newId);
    var after := AfterSplit(rows, h, group, ids, to, newId);
    KeysAfterSplit(rows, h, group, ids, to, newId);
    HalvesHeaded(rows, h, group, ids, to, newId);
    HalvesSettled(rows, h, group, ids, to, newId);
    forall g | g in HeaderGroups(after) && g != group && g != to ensures Settled(after, g) {
      OthersSettled(rows, h, group, ids, to, newId, g);
    }
    UnchangedExactly(after);
  }

  /** Under a name that no row bears the pass leaves the split alone exactly when it is fair:
      otherwise it lengthens the two durations, which the split had made add up. */
  lemma FreshLeftAloneExactly(rows: seq<Row>, h: Row, group: string, ids: set<int>, to: string, newId: int)
    requires Splits(rows, h, group, ids, to, newId) && Fresh(rows, to)
    ensures var after := AfterSplit(rows, h, group, ids, to, newId);
            Deduped(after) == after <==> Fair(rows, h, group, ids)
  {
    hide AfterSplit, Half, Fair, Joined, Rebuilt, KeysFree, Deduped;
    var off, left := Off(rows, group, ids), Left(rows, group, ids);
    LeftAloneExactly(rows, h, group, ids, to, newId);
    FreshKeys(rows, group, ids, to);
    SubsJoined(rows, h, group, ids, to, newId);
    SubsMoved(rows, h, group, ids, to, newId);
    var made := NewHeader(h, off, left, to, newId);
    FairHalf(rows, h, group, ids, to, newId, off, left, Joined(rows, group, ids, to), made);
  }

  /** Under a name that has a header already a split is never left alone: the pass drops a header. */
  lemma UsedNameMerges(rows: seq<Row>, h: Row, group: string, ids: set<int>, to: string, newId: int)
    requires ById(rows) && h in rows && IsHeader(group)(h) && h.id !in ids && Off(rows, group, ids) != []
    requires to != "" && to != group && (forall r :: r in rows ==> r.id < newId) && Headers(rows, to) != []
    ensures var after := AfterSplit(rows, h, group, ids, to, newId); Deduped(after) != after
  {
    var off, left := Off(rows, group, ids), Left(rows, group, ids);
    var half, made := Half(h, left, off), NewHeader(h, off, left, to, newId);
    var become := Moving(h, half, group, ids, to);
    var moved := Each(rows, become);
    var after := AfterSplit(rows, h, group, ids, to, newId);
    var kept := Headers(rows, to)[0];
    WhereMeans(rows, IsHeader(to));
    assert kept in Headers(rows, to);
    var i :| 0 <= i < |rows| && rows[i] == kept;
    EachAt(rows, become);
    assert moved[i] == kept;
    WhereMeans(after, IsHeader(to));
    assert after[i] == kept && after[|moved|] == made;
    assert kept in Headers(after, to) && made in Headers(after, to) && kept.id < newId;
    SplitById(rows, h, half, group, ids, to, made);
    TwoMembers(Headers(after, to), kept, made);
    ManyHeadersMerge(after, to);
  }

  lemma TwoMembers(s: seq<Row>, a: Row, b: Row)
    requires a in s && b in s && a != b
    ensures |s| >= 2
  {
    var i :| 0 <= i < |s| && s[i] == a;
    var j :| 0 <= j < |s| && s[j] == b;
  }

  lemma SplitById(rows: seq<Row>, h: Row, half: Row, group: string, ids: set<int>, to: string, made: Row)
    requires ById(rows) && half.id == h.id && forall r :: r in rows ==> r.id < made.id
    ensures ById(Each(rows, Moving(h, half, group, ids, to)) + [made])
  {
    EachAt(rows, Moving(h, half, group, ids, to));
    forall i | 0 <= i < |rows| ensures rows[i].id < made.id { assert rows[i] in rows; }
  }
}
