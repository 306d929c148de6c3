/** The repair pass over the batch table: one row per order line, one header per group. */
module Dedupe {
  import opened Wrappers
  import opened Batches

  // ---------- repeated order rows

  datatype Key = Key(group: string, order: string, line: int, rank: int, process: string)

  /** Rows that the first part of the pass compares: all but headers, in a group. */
  predicate Compared(r: Row) { !r.Header() && r.group.Some? }

  function KeyOf(r: Row): Key
    requires Compared(r)
  {
    Key(r.group.value, r.order, r.line, r.rank, r.process)
  }

  function Keys(rows: seq<Row>): set<Key> { set r | r in rows && Compared(r) :: KeyOf(r) }

  /** The rows without those that repeat the key of an earlier one. */
  function DropRepeats(rows: seq<Row>): (r: seq<Row>) {
    if rows == [] then []
    else
      var n := |rows| - 1;
      DropRepeats(rows[..n]) + if Compared(rows[n]) && KeyOf(rows[n]) in Keys(rows[..n]) then [] else [rows[n]]
  }

  // ---------- repeated headers

  /** Earlier due date first, then the better priority, then the smaller key. */
  predicate Before(a: Row, b: Row) {
    var x, y := DueOr(a.due, DATE_MAX), DueOr(b.due, DATE_MAX);
    var p, q := PriorityOr(a.priority), PriorityOr(b.priority);
    x < y || (x == y && (p < q || (p == q && a.id <= b.id)))
  }

  /** The header that stays: no other comes before it. */
  predicate Stays(headers: seq<Row>, r: Row) {
    forall h :: h in headers ==> Before(r, h)
  }

  function NetOf(h: Row, subs: seq<Row>): real { Total(subs) * h.Cores() as real }

  function WorkOf(h: Row, subs: seq<Row>): Work { LotsFor(NetOf(h, subs), h.lot, Work(h.drums, h.length)) }

  /** A header with its totals taken anew from the order rows of its group. */
  function Rebuilt(h: Row, subs: seq<Row>, headers: nat): Row {
    if subs == [] then h
    else
      var w := WorkOf(h, subs);
      h.(length := w.length, drums := w.drums, due := EarliestDue(subs, h.due), priority := BestPriority(subs),
         duration := if h.speed > 0.0 then Some(w.length / h.speed) else h.duration,
         surplus := if w.length - NetOf(h, subs) > 0.0 then w.length - NetOf(h, subs) else 0.0,
         merges := if headers > 1 then h.merges + [headers] else h.merges)
  }

  /** What becomes of a row when the groups `gs` are treated; `all` is the table before. */
  function Fate(all: seq<Row>, gs: set<string>, r: Row): seq<Row> {
    if r.Header() && r.group.Some? && r.group.value in gs then
      var hs := Headers(all, r.group.value);
      if Stays(hs, r) then [Rebuilt(r, Subs(all, r.group.value), |hs|)] else []
    else [r]
  }

  function FateIn(all: seq<Row>, gs: set<string>): Row -> seq<Row> { (r: Row) => Fate(all, gs, r) }

  /** The rows with the groups `gs` treated. */
  function Recount(rows: seq<Row>, all: seq<Row>, gs: set<string>): seq<Row> { Each(rows, FateIn(all, gs)) }

  /** The groups that have headers; a group must have a name. */
  function HeaderGroups(rows: seq<Row>): set<string> {
    set r | r in rows && r.Header() && r.group.Some? && r.group.value != "" :: r.group.value
  }

  function Deduped(rows: seq<Row>): seq<Row> {
    var t := DropRepeats(rows);
    Recount(t, t, HeaderGroups(t))
  }

  // ---------- what the pass reports

  datatype Report = Report(rowsDeleted: int, headersDeleted: int, rebalanced: nat)

  function Abs(x: real): real { if x < 0.0 then -x else x }

  predicate Rebalanced(h: Row, subs: seq<Row>, headers: nat) {
    || headers > 1
    || (subs != [] && (Abs(h.length - WorkOf(h, subs).length) > 0.5 || h.drums != WorkOf(h, subs).drums))
  }

  /** The treatment of `g` counts as a rebalancing. */
  predicate RebalancedIn(rows: seq<Row>, g: string) {
    var hs := Headers(rows, g);
    exists h :: h in hs && Stays(hs, h) && Rebalanced(h, Subs(rows, g), |hs|)
  }

  function Satisfying(gs: set<string>, p: string -> bool): set<string> { set g | g in gs && p(g) }

  function CountRebalanced(rows: seq<Row>, gs: set<string>): nat { |Satisfying(gs, g => RebalancedIn(rows, g))| }

  function ReportOf(rows: seq<Row>): Report {
    var t := DropRepeats(rows);
    var gs := HeaderGroups(t);
    Report(|rows| - |t|, |t| - |Recount(t, t, gs)|, CountRebalanced(t, gs))
  }

  // ---------- the first part: what stays

  lemma KeysGrow(rows: seq<Row>, r: Row)
    ensures Keys(rows + [r]) == Keys(rows) + if Compared(r) then {KeyOf(r)} else {}
  {
    var all := rows + [r];
    assert forall x :: x in all <==> x in rows || x == r;
    if Compared(r) {
      assert r in all;
      assert KeyOf(r) in Keys(all);
    }
  }

  /** An earlier row of the table has the same key. */
  ghost predicate Repeats(rows: seq<Row>, r: Row) {
    Compared(r) && exists s :: s in rows && Compared(s) && KeyOf(s) == KeyOf(r) && s.id < r.id
  }

  ghost predicate NoRepeats(rows: seq<Row>) {
    forall i, j :: 0 <= i < j < |rows| && Compared(rows[i]) && Compared(rows[j]) ==> KeyOf(rows[i]) != KeyOf(rows[j])
  }

  /** `kept` are the rows of `rows` that do not repeat an earlier one. */
  ghost predicate Survivors(rows: seq<Row>, kept: seq<Row>) {
    && (forall r :: r in kept <==> r in rows && !Repeats(rows, r))
    && ById(kept) && NoRepeats(kept) && Keys(kept) == Keys(rows)
  }

  /** Of the rows with one key the one with the smallest id stays, and it is the only one. */
  lemma {:induction false} DropRepeatsMeans(rows: seq<Row>)
    requires ById(rows)
    ensures Survivors(rows, DropRepeats(rows))
    decreases |rows|
  {
    if rows != [] {
      var n := |rows| - 1;
      var before, last := rows[..n], rows[n];
      assert rows == before + [last];
      DropRepeatsMeans(before);
      var kept := DropRepeats(before);
      if Compared(last) && KeyOf(last) in Keys(before) {
        SurvivorsSame(before, last, kept);
        assert DropRepeats(rows) == kept;
      } else {
        SurvivorsGrow(before, last, kept);
      }
    }
  }

  lemma RepeatsBefore(before: seq<Row>, last: Row, r: Row)
    requires ById(before + [last]) && r in before
    ensures r.id < last.id && Repeats(before + [last], r) == Repeats(before, r)
  {
    var rows := before + [last];
    var i :| 0 <= i < |before| && before[i] == r;
    assert rows[i] == r && rows[|before|] == last;
    assert forall s :: s in rows <==> s in before || s == last;
  }

  lemma LastRepeats(before: seq<Row>, last: Row)
    requires ById(before + [last])
    ensures Repeats(before + [last], last) <==> Compared(last) && KeyOf(last) in Keys(before)
  {
    forall s | s in before ensures s.id < last.id { RepeatsBefore(before, last, s); }
    assert forall s :: s in before + [last] <==> s in before || s == last;
  }

  lemma SurvivorsSame(before: seq<Row>, last: Row, kept: seq<Row>)
    requires ById(before + [last]) && Survivors(before, kept) && Compared(last) && KeyOf(last) in Keys(before)
    ensures Survivors(before + [last], kept)
  {
    var rows := before + [last];
    LastRepeats(before, last);
    KeysGrow(before, last);
    forall r ensures r in kept <==> r in rows && !Repeats(rows, r) {
      if r in before { RepeatsBefore(before, last, r); }
    }
  }

  lemma SurvivorsGrow(before: seq<Row>, last: Row, kept: seq<Row>)
    requires ById(before + [last]) && Survivors(before, kept) && !(Compared(last) && KeyOf(last) in Keys(before))
    ensures Survivors(before + [last], kept + [last])
  {
    var rows, more := before + [last], kept + [last];
    LastRepeats(before, last);
    KeysGrow(before, last);
    KeysGrow(kept, last);
    forall r ensures r in more <==> r in rows && !Repeats(rows, r) {
      if r in before { RepeatsBefore(before, last, r); }
    }
    forall i | 0 <= i < |kept| ensures kept[i].id < last.id {
      assert kept[i] in kept;
      RepeatsBefore(before, last, kept[i]);
    }
    NoRepeatsGrows(kept, last);
  }

  lemma NoRepeatsGrows(kept: seq<Row>, last: Row)
    requires NoRepeats(kept) && !(Compared(last) && KeyOf(last) in Keys(kept))
    ensures NoRepeats(kept + [last])
  {
    forall i | 0 <= i < |kept| && Compared(kept[i]) && Compared(last) ensures KeyOf(kept[i]) != KeyOf(last) {
      assert kept[i] in kept;
      assert KeyOf(kept[i]) in Keys(kept);
    }
  }

  lemma {:induction false} NothingToDrop(rows: seq<Row>)
    requires NoRepeats(rows)
    ensures DropRepeats(rows) == rows
    decreases |rows|
  {
    hide Compared, KeyOf;
    if rows != [] {
      var n := |rows| - 1;
      NothingToDrop(rows[..n]);
      assert rows == rows[..n] + [rows[n]];
      forall s | s in rows[..n] && Compared(s) && Compared(rows[n]) ensures KeyOf(s) != KeyOf(rows[n]) {
        var i :| 0 <= i < n && rows[..n][i] == s;
        assert rows[i] == s;
      }
    }
  }

  lemma {:induction false} DropRepeatsShrinks(rows: seq<Row>)
    ensures |DropRepeats(rows)| <= |rows|
    ensures |DropRepeats(rows)| == |rows| ==> NoRepeats(rows)
    decreases |rows|
  {
    if rows != [] {
      var n := |rows| - 1;
      DropRepeatsShrinks(rows[..n]);
      if |DropRepeats(rows)| == |rows| {
        forall i, j | 0 <= i < j < |rows| && Compared(rows[i]) && Compared(rows[j])
          ensures KeyOf(rows[i]) != KeyOf(rows[j]) {
          if j == n {
            assert rows[..n][i] in rows[..n];
          } else {
            assert rows[..n][i] == rows[i] && rows[..n][j] == rows[j];
          }
        }
      }
    }
  }
}
