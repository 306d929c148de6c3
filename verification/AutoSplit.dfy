/** Splitting an overloaded group in two, and what the repair pass makes of the halves. */
module AutoSplit {
  import opened Wrappers
  import opened Batches
  import opened Dedupe
  import opened DedupePass

  datatype Outcome = NoIds | NoHeader | NothingToMove | Split(from: string, to: string, moved: nat)

  function IsOff(group: string, ids: set<int>): Row -> bool { (r: Row) => IsSub(group)(r) && r.id in ids }

  function IsLeft(group: string, ids: set<int>): Row -> bool { (r: Row) => IsSub(group)(r) && r.id !in ids }

  /** The order rows that are split off, and those that are left. */
  function Off(rows: seq<Row>, group: string, ids: set<int>): seq<Row> { Where(rows, IsOff(group, ids)) }

  function Left(rows: seq<Row>, group: string, ids: set<int>): seq<Row> { Where(rows, IsLeft(group, ids)) }

  // ---------- the two headers

  function LotsOf(h: Row, part: seq<Row>): Work { LotsFor(NetOf(h, part), h.lot, Work(0, 0.0)) }

  function SurplusOf(h: Row, part: seq<Row>): real {
    if LotsOf(h, part).length - NetOf(h, part) > 0.0 then LotsOf(h, part).length - NetOf(h, part) else 0.0
  }

  /** The share of `orig` that `part` has in `whole`. */
  function Share(orig: real, part: real, whole: real): real { if whole > 0.0 then orig * part / whole else 0.0 }

  function Minutes(h: Row): real { if h.duration.Some? then h.duration.value else 0.0 }

  /** The header of one half of a group. */
  function Half(h: Row, part: seq<Row>, other: seq<Row>): Row {
    var w := LotsOf(h, part);
    h.(drums := w.drums, length := w.length, due := EarliestDue(part, h.due), priority := BestPriority(part),
       duration := Some(Share(Minutes(h), w.length, w.length + LotsOf(h, other).length)),
       surplus := SurplusOf(h, part), merges := [])
  }

  function NewHeader(h: Row, off: seq<Row>, left: seq<Row>, to: string, newId: int): Row
    requires off != []
  {
    Half(h, off, left).(id := newId, group := Some(to), order := off[0].order, line := off[0].line)
  }

  /** A row after the split: the header stands for what is left, and the listed rows of the group move. */
  function Moved(h: Row, half: Row, group: string, ids: set<int>, to: string, r: Row): Row {
    var x := if r == h then half else r;
    if x.id in ids && x.group == Some(group) then x.(group := Some(to)) else x
  }

  function Moving(h: Row, half: Row, group: string, ids: set<int>, to: string): Row -> seq<Row> {
    (r: Row) => [Moved(h, half, group, ids, to, r)]
  }

  function AfterSplit(rows: seq<Row>, h: Row, group: string, ids: set<int>, to: string, newId: int): seq<Row>
    requires Off(rows, group, ids) != []
  {
    var off, left := Off(rows, group, ids), Left(rows, group, ids);
    Each(rows, Moving(h, Half(h, left, off), group, ids, to)) + [NewHeader(h, off, left, to, newId)]
  }

  function SplitName(group: string, suffix: string): string { group + "_" + suffix }

  /** What a split does and reports. */
  ghost predicate SplitDone(before: seq<Row>, after: seq<Row>, group: string, ids: set<int>, to: string, newId: int,
                            o: Outcome) {
    if ids == {} then o == NoIds && after == before
    else if Headers(before, group) == [] then o == NoHeader && after == before
    else if Off(before, group, ids) == [] then o == NothingToMove && after == before
    else
      && o == Split(group, to, |Off(before, group, ids)|)
      && after == AfterSplit(before, Headers(before, group)[0], group, ids, to, newId)
  }

  method CountHalf(h: Row, part: seq<Row>) returns (w: Work, surplus: real)
    ensures w == LotsOf(h, part) && surplus == SurplusOf(h, part)
  {
    var total := SumLengths(part);
    var net := total * h.Cores() as real;
    assert net == NetOf(h, part);
    w := Work(0, 0.0);
    if h.lot > 0.0 && net > 0.0 {
      PositiveLots(net, h.lot);
      w := Work(Ceil(net / h.lot), Ceil(net / h.lot) as real * h.lot);
    } else if net > 0.0 {
      w := Work(1, net);
    }
    surplus := if w.length - net > 0.0 then w.length - net else 0.0;
  }

  lemma PositiveLots(net: real, lot: real)
    requires net > 0.0 && lot > 0.0
    ensures Ceil(net / lot) >= 1
  {
  }

  method ApplyAutoSplit(table: Table, group: string, splitIds: seq<int>, suffix: string, newId: int)
    returns (o: Outcome)
    modifies table
    ensures SplitDone(old(table.rows), table.rows, group, (set i | i in splitIds), SplitName(group, suffix), newId, o)
  {
    if splitIds == [] { return NoIds; }
    var ids := set i | i in splitIds;
    assert splitIds[0] in ids;
    var to := SplitName(group, suffix);
    var headers := Headers(table.rows, group);
    if headers == [] { return NoHeader; }
    var h := headers[0];
    var off, left := Off(table.rows, group, ids), Left(table.rows, group, ids);
    if off == [] { return NothingToMove; }
    var offWork, offSurplus := CountHalf(h, off);
    var leftWork, leftSurplus := CountHalf(h, left);
    var whole := offWork.length + leftWork.length;
    var minutes := Minutes(h);
    var newHeader := h.(id := newId, group := Some(to), order := off[0].order, line := off[0].line,
                        drums := offWork.drums, length := offWork.length, due := EarliestDue(off, h.due),
                        priority := BestPriority(off), duration := Some(Share(minutes, offWork.length, whole)),
                        surplus := offSurplus, merges := []);
    var half := h.(drums := leftWork.drums, length := leftWork.length, due := EarliestDue(left, h.due),
                   priority := BestPriority(left), duration := Some(Share(minutes, leftWork.length, whole)),
                   surplus := leftSurplus, merges := []);
    assert newHeader == NewHeader(h, off, left, to, newId) && half == Half(h, left, off);
    MoveRows(table, h, half, group, ids, to);
    table.rows := table.rows + [newHeader];
    o := Split(group, to, |off|);
  }

  lemma MoveMore(rows: seq<Row>, i: nat, become: Row -> seq<Row>, moved: seq<Row>, x: Row)
    requires i < |rows| && moved == Each(rows[..i], become) && become(rows[i]) == [x]
    ensures moved + [x] == Each(rows[..i + 1], become)
  {
    EachSnoc(rows[..i], rows[i], become);
    assert rows[..i + 1] == rows[..i] + [rows[i]];
  }

  method MoveRows(table: Table, h: Row, half: Row, group: string, ids: set<int>, to: string)
    modifies table
    ensures table.rows == Each(old(table.rows), Moving(h, half, group, ids, to))
  {
    var moved: seq<Row> := [];
    for i := 0 to |table.rows|
      invariant table.rows == old(table.rows) && moved == Each(table.rows[..i], Moving(h, half, group, ids, to))
    {
      var r := table.rows[i];
      if r == h { r := half; }
      if r.id in ids && r.group == Some(group) { r := r.(group := Some(to)); }
      MoveMore(table.rows, i, Moving(h, half, group, ids, to), moved, r);
      moved := moved + [r];
    }
    assert table.rows[..|table.rows|] == table.rows;
    table.rows := moved;
  }
}
