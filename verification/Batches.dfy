/** Production batches and the arithmetic of strand lots. */
module Batches {
  import opened Wrappers

  /** A row of the batch table.  Columns that may be null and that the program reads as `x or 0`
      are stored as 0.  `merges` are the header merges that the remarks tell of. */
  datatype Row = Row(id: int, group: Option<string>, order: string, line: int, rank: int, process: string,
                     length: real, lot: real, drums: int, cores: int, due: Option<int>, priority: int,
                     speed: real, duration: Option<real>, surplus: real, merges: seq<nat>)
  {
    predicate Header() { rank == -1 }

    /** Single cores per metre. */
    function Cores(): int { if cores == 0 then 1 else cores }
  }

  /** The ordinal of the last date there is. */
  const DATE_MAX := 3652059

  function DueOr(d: Option<int>, other: int): int { if d.Some? then d.value else other }

  function PriorityOr(p: int): int { if p == 0 then 99 else p }

  /** A table lists its rows by their primary key. */
  ghost predicate ById(rows: seq<Row>) { forall i, j :: 0 <= i < j < |rows| ==> rows[i].id < rows[j].id }

  lemma SameId(rows: seq<Row>, a: Row, b: Row)
    requires ById(rows) && a in rows && b in rows && a.id == b.id
    ensures a == b
  {
    var i :| 0 <= i < |rows| && rows[i] == a;
    var j :| 0 <= j < |rows| && rows[j] == b;
    if i < j { assert rows[i].id < rows[j].id; } else if j < i { assert rows[j].id < rows[i].id; }
  }

  function Where(rows: seq<Row>, keep: Row -> bool): (r: seq<Row>) {
    if rows == [] then []
    else
      var n := |rows| - 1;
      Where(rows[..n], keep) + if keep(rows[n]) then [rows[n]] else []
  }

  function IsSub(group: string): Row -> bool { (r: Row) => r.group == Some(group) && r.rank >= 1 }

  function IsHeader(group: string): Row -> bool { (r: Row) => r.group == Some(group) && r.Header() }

  /** The order rows of a group. */
  function Subs(rows: seq<Row>, group: string): (r: seq<Row>) { Where(rows, IsSub(group)) }

  /** The headers of a group. */
  function Headers(rows: seq<Row>, group: string): (r: seq<Row>) { Where(rows, IsHeader(group)) }

  lemma {:induction false} WhereMeans(rows: seq<Row>, keep: Row -> bool)
    ensures forall r :: r in Where(rows, keep) <==> r in rows && keep(r)
    decreases |rows|
  {
    if rows != [] {
      var n := |rows| - 1;
      WhereMeans(rows[..n], keep);
      assert rows == rows[..n] + [rows[n]];
    }
  }

  lemma WhereSnoc(rows: seq<Row>, r: Row, keep: Row -> bool)
    ensures Where(rows + [r], keep) == Where(rows, keep) + if keep(r) then [r] else []
  {
    assert (rows + [r])[..|rows|] == rows;
  }

  lemma {:induction false} WhereConcat(a: seq<Row>, b: seq<Row>, keep: Row -> bool)
    ensures Where(a + b, keep) == Where(a, keep) + Where(b, keep)
    decreases |b|
  {
    if b == [] {
      assert a + b == a;
    } else {
      var n := |b| - 1;
      var c, r := b[..n], b[n];
      assert b == c + [r] && a + b == (a + c) + [r];
      WhereConcat(a, c, keep);
      WhereSnoc(a + c, r, keep);
      WhereSnoc(c, r, keep);
      Regroup(Where(a, keep), Where(c, keep), if keep(r) then [r] else []);
    }
  }

  lemma {:induction false} WhereById(rows: seq<Row>, keep: Row -> bool)
    requires ById(rows)
    ensures ById(Where(rows, keep))
    decreases |rows|
  {
    if rows != [] {
      var n := |rows| - 1;
      WhereById(rows[..n], keep);
      WhereMeans(rows[..n], keep);
      var w := Where(rows[..n], keep);
      forall i | 0 <= i < |w| ensures w[i].id < rows[n].id { assert w[i] in w && w[i] in rows[..n]; }
    }
  }

  lemma WhereOne(r: Row, keep: Row -> bool)
    ensures Where([r], keep) == if keep(r) then [r] else []
  {
    assert [r][..0] == [];
  }

  lemma {:induction false} WhereNone(rows: seq<Row>, n: nat, keep: Row -> bool)
    requires n <= |rows| && forall i :: 0 <= i < |rows| ==> !keep(rows[i])
    ensures Where(rows[..n], keep) == []
    decreases n
  {
    if n > 0 {
      WhereNone(rows, n - 1, keep);
      assert rows[..n][..n - 1] == rows[..n - 1];
    }
  }

  /** Each row replaced by the rows it becomes. */
  function Each(rows: seq<Row>, become: Row -> seq<Row>): (r: seq<Row>) {
    if rows == [] then []
    else
      var n := |rows| - 1;
      Each(rows[..n], become) + become(rows[n])
  }

  lemma EachSnoc(rows: seq<Row>, r: Row, become: Row -> seq<Row>)
    ensures Each(rows + [r], become) == Each(rows, become) + become(r)
  {
    assert (rows + [r])[..|rows|] == rows;
  }

  lemma {:induction false} EachConcat(a: seq<Row>, b: seq<Row>, become: Row -> seq<Row>)
    ensures Each(a + b, become) == Each(a, become) + Each(b, become)
    decreases |b|
  {
    if b == [] {
      assert a + b == a;
    } else {
      var n := |b| - 1;
      var c, r := b[..n], b[n];
      assert b == c + [r] && a + b == (a + c) + [r];
      EachConcat(a, c, become);
      EachSnoc(a + c, r, become);
      EachSnoc(c, r, become);
      Regroup(Each(a, become), Each(c, become), become(r));
    }
  }

  lemma Regroup(x: seq<Row>, y: seq<Row>, z: seq<Row>)
    ensures (x + y) + z == x + (y + z)
  {
  }

  /** `keep` sees no difference between the row and what becomes of it. */
  ghost predicate Unseen(become: Row -> seq<Row>, keep: Row -> bool, r: Row) {
    Where(become(r), keep) == Where([r], keep)
  }

  lemma {:induction false} EachUnseen(rows: seq<Row>, become: Row -> seq<Row>, keep: Row -> bool)
    requires forall r :: Unseen(become, keep, r)
    ensures Where(Each(rows, become), keep) == Where(rows, keep)
    decreases |rows|
  {
    if rows != [] {
      var n := |rows| - 1;
      var before, r := rows[..n], rows[n];
      EachUnseen(before, become, keep);
      assert Unseen(become, keep, r);
      EachSnoc(before, r, become);
      WhereConcat(Each(before, become), become(r), keep);
      WhereConcat(before, [r], keep);
      assert rows == before + [r];
    }
  }

  // ---------- sums and least values

  function Total(rows: seq<Row>): real {
    if rows == [] then 0.0 else Total(rows[..|rows| - 1]) + rows[|rows| - 1].length
  }

  lemma TotalSnoc(rows: seq<Row>, r: Row)
    ensures Total(rows + [r]) == Total(rows) + r.length
    ensures rows + [] == rows
  {
    assert (rows + [r])[..|rows|] == rows;
  }

  lemma TotalOne(r: Row)
    ensures Total([r]) == r.length
  {
    assert [r][..0] == [];
  }

  /** The earliest of the dates that are known, `other` if none is. */
  function EarliestDue(rows: seq<Row>, other: Option<int>): Option<int> {
    if rows == [] then other
    else
      var n := |rows| - 1;
      var e := EarliestDue(rows[..n], None);
      var d := rows[n].due;
      if e.Some? && (d.None? || e.value <= d.value) then e else if d.Some? then d else other
  }

  function BestPriority(rows: seq<Row>): int {
    if rows == [] then 99
    else if |rows| == 1 then PriorityOr(rows[0].priority)
    else
      var n := |rows| - 1;
      var p := PriorityOr(rows[n].priority);
      if BestPriority(rows[..n]) <= p then BestPriority(rows[..n]) else p
  }

  lemma {:induction false} EarliestDueMeans(rows: seq<Row>, other: Option<int>)
    ensures var e := EarliestDue(rows, other);
            if exists r :: r in rows && r.due.Some?
            then e.Some? && (exists r :: r in rows && r.due == e)
                 && forall r :: r in rows && r.due.Some? ==> e.value <= r.due.value
            else e == other
    decreases |rows|
  {
    if rows != [] {
      var n := |rows| - 1;
      EarliestDueMeans(rows[..n], None);
      assert rows == rows[..n] + [rows[n]];
      assert rows[n] in rows;
    }
  }

  lemma {:induction false} BestPriorityMeans(rows: seq<Row>)
    requires rows != []
    ensures (exists r :: r in rows && PriorityOr(r.priority) == BestPriority(rows))
    ensures forall r :: r in rows ==> BestPriority(rows) <= PriorityOr(r.priority)
    ensures BestPriority(rows) != 0
    decreases |rows|
  {
    assert rows[|rows| - 1] in rows;
    if |rows| > 1 {
      var n := |rows| - 1;
      BestPriorityMeans(rows[..n]);
      assert rows == rows[..n] + [rows[n]];
    }
  }

  // ---------- lots

  function Ceil(x: real): (c: int)
    ensures (c - 1) as real < x <= c as real
  {
    -((-x).Floor)
  }

  /** So many lots, and the length they make together. */
  datatype Work = Work(drums: int, length: real)

  /** Whole lots for `net` metres; without a lot size a single lot of just that length. */
  function LotsFor(net: real, lot: real, otherwise: Work): Work {
    if lot > 0.0 && net > 0.0 then
      var drums := if Ceil(net / lot) >= 1 then Ceil(net / lot) else 1;
      Work(drums, drums as real * lot)
    else if net > 0.0 then Work(1, net)
    else otherwise
  }

  /** `n` lots hold `net` metres. */
  ghost predicate Holds(n: int, lot: real, net: real) { net <= n as real * lot }

  lemma DivideBounds(net: real, lot: real, n: int)
    requires lot > 0.0
    ensures Holds(n, lot, net) <==> net / lot <= n as real
  {
    var q := net / lot;
    assert q * lot == net;
    if q <= n as real { Scale(q, n as real, lot); } else { ScaleStrict(n as real, q, lot); }
  }

  lemma Scale(a: real, b: real, c: real)
    requires a <= b && c >= 0.0
    ensures a * c <= b * c
  {
    assert (b - a) * c >= 0.0;
  }

  lemma ScaleStrict(a: real, b: real, c: real)
    requires a < b && c > 0.0
    ensures a * c < b * c
  {
    assert (b - a) * c > 0.0;
  }

  lemma QuotientPositive(net: real, lot: real)
    requires net > 0.0 && lot > 0.0
    ensures net / lot > 0.0
  {
  }

  lemma OneLotLess(n: int, lot: real)
    ensures (n - 1) as real * lot == n as real * lot - lot
  {
    assert (n - 1) as real == n as real - 1.0;
  }

  /** The lots are the fewest that hold the metres, so that less than one lot is left over. */
  lemma LotsAreFewest(net: real, lot: real, otherwise: Work)
    requires lot > 0.0 && net > 0.0
    ensures var w := LotsFor(net, lot, otherwise);
            && w.drums >= 1 && w.length == w.drums as real * lot
            && 0.0 <= w.length - net < lot
            && forall n: int :: Holds(n, lot, net) <==> w.drums <= n
  {
    QuotientPositive(net, lot);
    var w := LotsFor(net, lot, otherwise);
    forall n: int ensures Holds(n, lot, net) <==> w.drums <= n { DivideBounds(net, lot, n); }
    assert Holds(w.drums, lot, net) && !Holds(w.drums - 1, lot, net);
    OneLotLess(w.drums, lot);
  }
}
