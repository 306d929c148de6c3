/** The order of the lines of a strand group, and the rows that are made of them. */
module StrandOrder {
  import opened Orderings
  import opened Wrappers
  import opened Batches
  import opened Strand
  import opened StrandBatches

  // ---------- the order of the lines

  /** The smaller priority, where none counts as 99; then the earlier due date, where none counts as the
      last day of the calendar. */
  ghost predicate ComesBefore(a: Line, b: Line) {
    var p, q := if a.priority == 0 then 99 else a.priority, if b.priority == 0 then 99 else b.priority;
    var d, e := if a.due.Some? then a.due.value else 3652059, if b.due.Some? then b.due.value else 3652059;
    p < q || (p == q && d < e)
  }

  ghost function InTurn(): (Line, Line) -> bool { (a: Line, b: Line) => ComesBefore(a, b) }

  lemma {:induction false} InsertIsInsert(l: Line, s: seq<Line>)
    ensures Insert(l, s) == InsertBehind(l, s, InTurn())
    decreases |s|
  {
    if s != [] && Sooner(l, s[|s| - 1]) { InsertIsInsert(l, s[..|s| - 1]); }
  }

  lemma {:induction false} SortIsSort(lines: seq<Line>)
    ensures SortLines(lines) == SortBehind(lines, InTurn())
    decreases |lines|
  {
    hide Insert;
    if lines != [] {
      var n := |lines| - 1;
      SortIsSort(lines[..n]);
      InsertIsInsert(lines[n], SortLines(lines[..n]));
    }
  }

  /** The lines of a group by priority and due date, equals as they came; there is one such list only. */
  lemma LinesInTurn(lines: seq<Line>, s: seq<Line>)
    ensures s == SortLines(lines) <==> StablySorted(lines, s, InTurn())
  {
    SortIsSort(lines);
    SortBehindIsStable(lines, InTurn());
    if StablySorted(lines, s, InTurn()) { SortIsUnique(lines, s, SortLines(lines), InTurn()); }
  }

  // ---------- the header

  ghost function NetOf(g: Group): real { if g.covered < g.total then g.total - g.covered else 0.0 }

  ghost function OrOne(n: int): int { if n == 0 then 1 else n }

  /** The header stands for line `l`: its order, cores and speed, and the time that takes. */
  ghost predicate StandsForLine(h: Row, l: Line) {
    && h.order == l.order && h.line == l.line && h.cores == OrOne(l.cores) && h.speed == l.speed
    && h.duration == if l.speed == 0.0 then None else Some(h.length / l.speed)
  }

  /** The header is made of the fewest whole lots that hold the work, or of just the work. */
  ghost predicate MadeOfLots(h: Row, g: Group) {
    var net := NetOf(g);
    && h.surplus == h.length - net
    && if 0.0 < g.lot
       then h.lot == g.lot && h.length == h.drums as real * g.lot && (h.drums - 1) as real * g.lot < net <= h.length
       else h.lot == net && h.length == net && h.drums == 1
  }

  /** The header has the earliest due date and the best priority of all lines. */
  ghost predicate BestOfLines(h: Row, lines: seq<Line>) {
    && (h.due.None? <==> forall l :: l in lines ==> l.due.None?)
    && (h.due.Some? ==> (exists l :: l in lines && l.due == h.due)
                        && forall l :: l in lines && l.due.Some? ==> h.due.value <= l.due.value)
    && (exists l :: l in lines && h.priority == if l.priority == 0 then 99 else l.priority)
    && (forall l :: l in lines ==> h.priority <= if l.priority == 0 then 99 else l.priority)
  }

  lemma {:induction false} EarliestMeans(lines: seq<Line>)
    ensures var e := EarliestLine(lines);
            && (e.None? <==> forall l :: l in lines ==> l.due.None?)
            && (e.Some? ==> (exists l :: l in lines && l.due == e)
                            && forall l :: l in lines && l.due.Some? ==> e.value <= l.due.value)
    decreases |lines|
  {
    if lines != [] {
      var n := |lines| - 1;
      EarliestMeans(lines[..n]);
      assert lines == lines[..n] + [lines[n]];
      assert lines[n] in lines;
    }
  }

  lemma {:induction false} BestMeans(lines: seq<Line>)
    requires lines != []
    ensures (exists l :: l in lines && BestLine(lines) == if l.priority == 0 then 99 else l.priority)
    ensures forall l :: l in lines ==> BestLine(lines) <= if l.priority == 0 then 99 else l.priority
    decreases |lines|
  {
    var n := |lines| - 1;
    assert lines == lines[..n] + [lines[n]];
    assert lines[n] in lines;
    if n > 0 { BestMeans(lines[..n]); }
  }

  lemma LotsMean(net: real, lot: real, otherwise: Work)
    requires 1.0 <= net
    ensures var w := LotsFor(net, lot, otherwise);
            if 0.0 < lot then w.length == w.drums as real * lot && (w.drums - 1) as real * lot < net <= w.length
            else w == Work(1, net)
  {
    if 0.0 < lot {
      var c := Ceil(net / lot);
      assert (net / lot) * lot == net;
      assert 0.0 < net / lot;
      assert c >= 1;
      assert (c - 1) as real * lot < (net / lot) * lot <= c as real * lot;
    }
  }

  /** A group with at least a metre of work gets one header.  It stands for the line that comes first, has
      the fewest lots that hold the work, and is due and as urgent as the most pressing line. */
  lemma HeaderExactly(g: Group, name: string)
    requires g.lines != []
    ensures NetOf(g) < 1.0 ==> Head(g, name) == []
    ensures 1.0 <= NetOf(g) ==>
              && |Head(g, name)| == 1
              && var h := Head(g, name)[0];
              && (exists k: nat :: Leads(g.lines, InTurn(), k) && StandsForLine(h, g.lines[k]))
              && MadeOfLots(h, g) && BestOfLines(h, g.lines)
              && h.id == 0 && h.group == Some(name) && h.rank == -1 && h.process == "연선" && h.merges == []
  {
    hide BestOfLines, StandsForLine, MadeOfLots;
    var sorted := SortLines(g.lines);
    LinesInTurn(g.lines, sorted);
    SortedMembers(g.lines, sorted, InTurn());
    if 1.0 <= NetOf(g) {
      var h := HeaderRow(g, name, sorted);
      var k := FirstLeads(g.lines, sorted, InTurn());
      HeaderStands(g, name, sorted);
      HeaderLots(g, name, sorted);
      HeaderBest(g, name, sorted);
    }
  }

  lemma HeaderStands(g: Group, name: string, sorted: seq<Line>)
    requires sorted != []
    ensures StandsForLine(HeaderRow(g, name, sorted), sorted[0])
  {
  }

  lemma HeaderLots(g: Group, name: string, sorted: seq<Line>)
    requires sorted != [] && 1.0 <= NetOf(g)
    ensures MadeOfLots(HeaderRow(g, name, sorted), g)
  {
    hide LotsFor;
    LotsMean(g.Net(), g.lot, Work(0, 0.0));
  }

  lemma HeaderBest(g: Group, name: string, sorted: seq<Line>)
    requires sorted != [] && forall l :: l in sorted <==> l in g.lines
    ensures BestOfLines(HeaderRow(g, name, sorted), g.lines)
  {
    EarliestMeans(sorted);
    BestMeans(sorted);
  }

  // ---------- the rows of the lines

  /** The row of an order line: its own metres, drums, cores, due date, priority and speed. */
  ghost predicate IsLineRow(r: Row, name: string, l: Line) {
    r == Row(0, Some(name), l.order, l.line, 1, "연선", l.qty, if l.drumLength == 0.0 then l.qty else l.drumLength,
             OrOne(l.drums), OrOne(l.cores), l.due, if l.priority == 0 then 99 else l.priority, l.speed, None, 0.0, [])
  }

  /** Cores are stranded first, in rows of their own, for copper or aluminium of 300 mm2 and more, where
      the rule is on and the group has work. */
  ghost predicate HasCores(c: Setup, g: Group, l: Line) {
    c.twoStage && 300.0 <= g.key.sq && 1.0 <= NetOf(g) && (l.material == "CU" || l.material == "AL")
  }

  /** Such a row: a group of its own by material, at its own speed, with the allowance for defects. */
  ghost predicate IsCoreRow(c: Setup, r: Row, g: Group, l: Line) {
    var prefix := if l.material == "CU" then "CORE-" else "AL-CORE-";
    var speed := if l.coreSpeed == 0.0 then 25.0 else l.coreSpeed;
    r == Row(0, Some(prefix + Text(Whole(g.key.sq)) + "-" + g.key.voltage), l.order, l.line, 0, "연선", l.qty,
             if l.drumLength == 0.0 then l.qty / OrOne(l.drums) as real else l.drumLength,
             OrOne(l.drums), OrOne(l.cores), l.due, if l.priority == 0 then 99 else l.priority, speed,
             if 0.0 < speed then Some(l.qty * (1.0 + c.buffer) / speed) else None, 0.0, [])
  }

  /** From `from` on, the rows of line `l`. */
  ghost predicate LineRowsAt(c: Setup, rows: seq<Row>, from: nat, to: nat, g: Group, name: string, l: Line) {
    && to == from + (if HasCores(c, g, l) then 2 else 1) && to <= |rows| && IsLineRow(rows[from], name, l)
    && (HasCores(c, g, l) ==> IsCoreRow(c, rows[from + 1], g, l))
  }

  /** The rows from `starts[0]` on are those of the lines, one line after the other. */
  ghost predicate RowsOfLines(c: Setup, rows: seq<Row>, starts: seq<nat>, g: Group, name: string, lines: seq<Line>) {
    && |starts| == |lines| + 1 && starts[|lines|] == |rows|
    && forall i :: 0 <= i < |lines| ==> LineRowsAt(c, rows, starts[i], starts[i + 1], g, name, lines[i])
  }

  lemma OneLine(c: Setup, g: Group, name: string, l: Line)
    ensures var rows := LineRows(c, g, name)(l); LineRowsAt(c, rows, 0, |rows|, g, name, l)
  {
  }

  lemma LineRowsStay(c: Setup, rows: seq<Row>, more: seq<Row>, from: nat, to: nat, g: Group, name: string, l: Line)
    requires LineRowsAt(c, rows, from, to, g, name, l)
    ensures LineRowsAt(c, rows + more, from, to, g, name, l)
  {
    hide IsLineRow, IsCoreRow, HasCores;
  }

  lemma LineRowsMove(c: Setup, rows: seq<Row>, front: seq<Row>, from: nat, to: nat, g: Group, name: string, l: Line)
    requires LineRowsAt(c, rows, from, to, g, name, l)
    ensures LineRowsAt(c, front + rows, |front| + from, |front| + to, g, name, l)
  {
    hide IsLineRow, IsCoreRow, HasCores;
  }

  lemma OneLineMore(c: Setup, before: seq<Row>, s: seq<nat>, g: Group, name: string, lines: seq<Line>, l: Line)
    requires RowsOfLines(c, before, s, g, name, lines)
    ensures var all := before + LineRows(c, g, name)(l); RowsOfLines(c, all, s + [|all|], g, name, lines + [l])
  {
    hide LineRowsAt, LineRows;
    var more := LineRows(c, g, name)(l);
    var all := before + more;
    OneLine(c, g, name, l);
    LineRowsMove(c, more, before, 0, |more|, g, name, l);
    forall i | 0 <= i < |lines| ensures LineRowsAt(c, all, s[i], s[i + 1], g, name, lines[i]) {
      LineRowsStay(c, before, more, s[i], s[i + 1], g, name, lines[i]);
    }
  }

  lemma {:induction false} LinesMakeRows(c: Setup, head: seq<Row>, g: Group, name: string, lines: seq<Line>)
    returns (starts: seq<nat>)
    ensures RowsOfLines(c, head + EachLine(lines, LineRows(c, g, name)), starts, g, name, lines)
    ensures starts != [] && starts[0] == |head|
    decreases |lines|
  {
    if lines == [] {
      starts := [|head|];
    } else {
      hide RowsOfLines, LineRows, EachLine;
      var n, make := |lines| - 1, LineRows(c, g, name);
      var s := LinesMakeRows(c, head, g, name, lines[..n]);
      var before := head + EachLine(lines[..n], make);
      OneLineMore(c, before, s, g, name, lines[..n], lines[n]);
      assert lines == lines[..n] + [lines[n]];
      EachLineSnoc(lines[..n], lines[n], make);
      assert head + EachLine(lines, make) == before + make(lines[n]);
      starts := s + [|before + make(lines[n])|];
    }
  }

  /** All rows of a group: its header, if it has work, then for each line by priority and due date its row
      and, where there is one, that of its cores.  There are no others. */
  lemma GroupRowsExactly(c: Setup, g: Group, name: string)
    requires g.lines != []
    ensures exists sorted, starts :: GroupLaidOut(c, g, name, RowsOf(c, g, name), sorted, starts)
  {
    hide RowsOfLines, NetOf, StablySorted, SortLines, StandsForLine, MadeOfLots, BestOfLines, Leads, Head;
    var sorted := SortLines(g.lines);
    LinesInTurn(g.lines, sorted);
    HeaderExactly(g, name);
    var starts := LinesMakeRows(c, Head(g, name), g, name, sorted);
    Heads(c, g, name, starts);
    assert RowsOf(c, g, name) == Head(g, name) + EachLine(sorted, LineRows(c, g, name));
    assert GroupLaidOut(c, g, name, RowsOf(c, g, name), sorted, starts);
  }

  lemma Heads(c: Setup, g: Group, name: string, starts: seq<nat>)
    requires starts != [] && starts[0] == |Head(g, name)|
    requires (NetOf(g) < 1.0 ==> Head(g, name) == []) && (1.0 <= NetOf(g) ==> |Head(g, name)| == 1)
    ensures starts[0] == (if 1.0 <= NetOf(g) then 1 else 0) <= |RowsOf(c, g, name)|
    ensures RowsOf(c, g, name)[..starts[0]] == Head(g, name)
  {
  }

  ghost predicate GroupLaidOut(c: Setup, g: Group, name: string, rows: seq<Row>, sorted: seq<Line>, starts: seq<nat>) {
    && StablySorted(g.lines, sorted, InTurn()) && RowsOfLines(c, rows, starts, g, name, sorted)
    && starts[0] == (if 1.0 <= NetOf(g) then 1 else 0) <= |rows| && rows[..starts[0]] == Head(g, name)
  }
}
