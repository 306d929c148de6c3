/** The rows that are created for the strand groups of a run. */
module StrandBatches {
  import opened Wrappers
  import opened Batches
  import opened Strand

  const STRANDING := "연선"

  // ---------- names

  function Digits(n: nat): string { (if n < 10 then "" else Digits(n / 10)) + [(n % 10) as char + '0'] }

  /** The whole part of a cross-section. */
  function Whole(x: real): int { if x >= 0.0 then x.Floor else -(-x).Floor }

  function Text(n: int): string { if n < 0 then "-" + Digits(-n) else Digits(n) }

  function NameOf(k: GroupKey): string { "ST-" + Text(Whole(k.sq)) + "-" + k.voltage + "-" + k.kind }

  // ---------- the order of the lines

  predicate Sooner(a: Line, b: Line) {
    var p, q := PriorityOr(a.priority), PriorityOr(b.priority);
    p < q || (p == q && DueOr(a.due, DATE_MAX) < DueOr(b.due, DATE_MAX))
  }

  function Insert(l: Line, s: seq<Line>): seq<Line> {
    if s == [] || !Sooner(l, s[|s| - 1]) then s + [l] else Insert(l, s[..|s| - 1]) + [s[|s| - 1]]
  }

  function SortLines(lines: seq<Line>): seq<Line> {
    if lines == [] then [] else Insert(lines[|lines| - 1], SortLines(lines[..|lines| - 1]))
  }

  // ---------- the rows

  function EarliestLine(lines: seq<Line>): Option<int> {
    if lines == [] then None
    else
      var n := |lines| - 1;
      var e, d := EarliestLine(lines[..n]), lines[n].due;
      if e.Some? && (d.None? || e.value <= d.value) then e else d
  }

  function BestLine(lines: seq<Line>): int {
    if lines == [] then 99
    else if |lines| == 1 then PriorityOr(lines[0].priority)
    else
      var n := |lines| - 1;
      var p := PriorityOr(lines[n].priority);
      if BestLine(lines[..n]) <= p then BestLine(lines[..n]) else p
  }

  /** The header of a group that has work; `sorted` are its lines, the first of which stands for all. */
  function HeaderRow(g: Group, name: string, sorted: seq<Line>): Row
    requires sorted != []
  {
    var w := LotsFor(g.Net(), g.lot, Work(0, 0.0));
    var rep := sorted[0];
    Row(0, Some(name), rep.order, rep.line, -1, STRANDING, w.length, if g.lot > 0.0 then g.lot else g.Net(),
        w.drums, rep.Cores(), EarliestLine(sorted), BestLine(sorted), rep.speed,
        if rep.speed != 0.0 then Some(w.length / rep.speed) else None,
        if w.length - g.Net() > 0.0 then w.length - g.Net() else 0.0, [])
  }

  function SubRow(name: string, l: Line): Row {
    Row(0, Some(name), l.order, l.line, 1, STRANDING, l.qty, if l.drumLength != 0.0 then l.drumLength else l.qty,
        if l.drums == 0 then 1 else l.drums, l.Cores(), l.due, PriorityOr(l.priority), l.speed, None, 0.0, [])
  }

  function CoreSpeed(l: Line): real { if l.coreSpeed == 0.0 then 25.0 else l.coreSpeed }

  function CoreRow(c: Setup, name: string, l: Line): Row {
    var drums := if l.drums == 0 then 1 else l.drums;
    Row(0, Some(name), l.order, l.line, 0, STRANDING,
        l.qty, if l.drumLength != 0.0 then l.drumLength else l.qty / drums as real,
        drums, l.Cores(), l.due, PriorityOr(l.priority), CoreSpeed(l),
        if CoreSpeed(l) > 0.0 then Some(l.qty * (1.0 + c.buffer) / CoreSpeed(l)) else None, 0.0, [])
  }

  /** Thick conductors are stranded in two stages; the cores of the first are rows of their own. */
  function CoreRows(c: Setup, g: Group, l: Line): seq<Row> {
    if !c.twoStage || g.key.sq < 300.0 || g.Idle() then []
    else if l.material == "CU" then [CoreRow(c, "CORE-" + Text(Whole(g.key.sq)) + "-" + g.key.voltage, l)]
    else if l.material == "AL" then [CoreRow(c, "AL-CORE-" + Text(Whole(g.key.sq)) + "-" + g.key.voltage, l)]
    else []
  }

  function LineRows(c: Setup, g: Group, name: string): Line -> seq<Row> {
    (l: Line) => [SubRow(name, l)] + CoreRows(c, g, l)
  }

  function EachLine(lines: seq<Line>, make: Line -> seq<Row>): seq<Row> {
    if lines == [] then [] else EachLine(lines[..|lines| - 1], make) + make(lines[|lines| - 1])
  }

  /** The rows of a group: its header, unless it has no work, and those of its lines. */
  function RowsOf(c: Setup, g: Group, name: string): seq<Row> {
    Head(g, name) + EachLine(SortLines(g.lines), LineRows(c, g, name))
  }

  function Head(g: Group, name: string): seq<Row> {
    var sorted := SortLines(g.lines);
    if g.Idle() || sorted == [] then [] else [HeaderRow(g, name, sorted)]
  }

  function GroupRows(c: Setup, names: GroupKey -> string): Group -> seq<Row> {
    (g: Group) => RowsOf(c, g, names(g.key))
  }

  function EachGroup(groups: seq<Group>, make: Group -> seq<Row>): seq<Row> {
    if groups == [] then [] else EachGroup(groups[..|groups| - 1], make) + make(groups[|groups| - 1])
  }

  /** The rows of all groups. */
  function Created(c: Setup, names: GroupKey -> string, groups: seq<Group>): seq<Row> {
    EachGroup(groups, GroupRows(c, names))
  }

  /** The rows as the table holds them: it numbers them as they come. */
  function Numbered(rows: seq<Row>, first: int): seq<Row> {
    seq(|rows|, i requires 0 <= i < |rows| => rows[i].(id := first + i))
  }

  lemma EachLineSnoc(lines: seq<Line>, l: Line, make: Line -> seq<Row>)
    ensures EachLine(lines + [l], make) == EachLine(lines, make) + make(l)
  {
    assert (lines + [l])[..|lines|] == lines;
  }

  lemma EachGroupSnoc(groups: seq<Group>, g: Group, make: Group -> seq<Row>)
    ensures EachGroup(groups + [g], make) == EachGroup(groups, make) + make(g)
  {
    assert (groups + [g])[..|groups|] == groups;
  }

  // ---------- as the program makes them

  method CreateLineRows(c: Setup, g: Group, name: string, lines: seq<Line>) returns (rows: seq<Row>)
    ensures rows == EachLine(lines, LineRows(c, g, name))
  {
    rows := [];
    for i := 0 to |lines|
      invariant rows == EachLine(lines[..i], LineRows(c, g, name))
    {
      assert lines[..i + 1] == lines[..i] + [lines[i]];
      EachLineSnoc(lines[..i], lines[i], LineRows(c, g, name));
      var more := CreateRowsOfLine(c, g, name, lines[i]);
      rows := rows + more;
    }
    assert lines[..|lines|] == lines;
  }

  method CreateRowsOfLine(c: Setup, g: Group, name: string, l: Line) returns (rows: seq<Row>)
    ensures rows == LineRows(c, g, name)(l)
  {
    rows := [SubRow(name, l)];
    var cores := CoreRows(c, g, l);
    rows := rows + cores;
  }

  method CreateGroupRows(c: Setup, g: Group, name: string) returns (rows: seq<Row>)
    requires g.lines != []
    ensures rows == RowsOf(c, g, name)
  {
    var sorted := SortLines(g.lines);
    SortKeepsSize(g.lines);
    rows := [];
    if !g.Idle() { rows := [HeaderRow(g, name, sorted)]; }
    var more := CreateLineRows(c, g, name, sorted);
    rows := rows + more;
  }

  method CreateRows(c: Setup, groups: seq<Group>) returns (rows: seq<Row>)
    requires forall i :: 0 <= i < |groups| ==> groups[i].lines != []
    ensures rows == Created(c, NameOf, groups)
  {
    rows := [];
    for i := 0 to |groups|
      invariant rows == EachGroup(groups[..i], GroupRows(c, NameOf))
    {
      assert groups[..i + 1] == groups[..i] + [groups[i]];
      EachGroupSnoc(groups[..i], groups[i], GroupRows(c, NameOf));
      var more := CreateGroupRows(c, groups[i], NameOf(groups[i].key));
      rows := rows + more;
    }
    assert groups[..|groups|] == groups;
  }

  /** All strand rows of a run. */
  method CreateStrandBatches(c: Setup, lines: seq<Line>) returns (groups: seq<Group>, rows: seq<Row>)
    ensures Grouped(SumsOf(c), lines, groups)
    ensures rows == Created(c, NameOf, groups)
  {
    groups := GroupLines(c, lines);
    rows := CreateRows(c, groups);
  }

  lemma {:induction false} InsertSize(l: Line, s: seq<Line>)
    ensures |Insert(l, s)| == |s| + 1
    decreases |s|
  {
    if s != [] && Sooner(l, s[|s| - 1]) { InsertSize(l, s[..|s| - 1]); }
  }

  lemma {:induction false} SortKeepsSize(lines: seq<Line>)
    ensures |SortLines(lines)| == |lines|
    decreases |lines|
  {
    if lines != [] {
      SortKeepsSize(lines[..|lines| - 1]);
      InsertSize(lines[|lines| - 1], SortLines(lines[..|lines| - 1]));
    }
  }
}
