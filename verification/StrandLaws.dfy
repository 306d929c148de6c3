/** What a created header says, and when the repair pass takes it as it is. */
module StrandLaws {
  import opened Wrappers
  import opened Batches
  import opened Dedupe
  import opened Strand
  import opened StrandBatches

  // ---------- sorting the lines

  lemma {:induction false} InsertMeans(l: Line, s: seq<Line>, f: Line -> real)
    ensures SumOf(Insert(l, s), f) == SumOf(s, f) + f(l)
    ensures forall x :: x in Insert(l, s) <==> x in s || x == l
    decreases |s|
  {
    hide Sooner, SumOf;
    if s == [] || !Sooner(l, s[|s| - 1]) {
      SumSnoc(s, l, f);
    } else {
      var n := |s| - 1;
      InsertMeans(l, s[..n], f);
      SumSnoc(Insert(l, s[..n]), s[n], f);
      SumSnoc(s[..n], s[n], f);
      assert s == s[..n] + [s[n]];
    }
  }

  /** Sorting loses no line and changes no sum. */
  lemma {:induction false} SortMeans(lines: seq<Line>, f: Line -> real)
    ensures SumOf(SortLines(lines), f) == SumOf(lines, f)
    ensures forall x :: x in SortLines(lines) <==> x in lines
    decreases |lines|
  {
    if lines != [] {
      var n := |lines| - 1;
      SortMeans(lines[..n], f);
      InsertMeans(lines[n], SortLines(lines[..n]), f);
      assert lines == lines[..n] + [lines[n]];
    }
  }

  // ---------- rows that stand for lines

  function Quantity(): Line -> real { (l: Line) => l.qty }

  /** The rows are those of the lines, in all that a header is counted from. */
  ghost predicate StandFor(rows: seq<Row>, lines: seq<Line>) {
    && |rows| == |lines|
    && forall i :: 0 <= i < |rows| ==>
         && rows[i].length == lines[i].qty && rows[i].due == lines[i].due
         && rows[i].priority == PriorityOr(lines[i].priority)
  }

  lemma {:induction false} StandForCounts(rows: seq<Row>, lines: seq<Line>, other: Option<int>)
    requires StandFor(rows, lines)
    ensures Total(rows) == SumOf(lines, Quantity()) && BestPriority(rows) == BestLine(lines)
    ensures EarliestDue(rows, other) == if EarliestLine(lines).Some? then EarliestLine(lines) else other
    decreases |rows|
  {
    if rows != [] { StandForCounts(rows[..|rows| - 1], lines[..|lines| - 1], None); }
  }

  // ---------- one header

  /** The metres that the order rows of the group are read as, all with the cores of the first line. */
  function MetresAsRead(g: Group): real {
    var sorted := SortLines(g.lines);
    if sorted == [] then 0.0 else SumOf(sorted, Quantity()) * sorted[0].Cores() as real
  }

  /** The rows account for all of the group's work. */
  ghost predicate Accounted(g: Group) { MetresAsRead(g) == g.Net() }

  lemma WholeLot(net: real, otherwise: Work)
    requires net > 0.0
    ensures LotsFor(net, net, otherwise) == Work(1, net)
  {
    assert net / net == 1.0;
    assert Ceil(1.0) == 1;
  }

  /** The work of a created header, taken anew from the same metres. */
  lemma SameWork(net: real, lot: real)
    requires net > 0.0
    ensures var w := LotsFor(net, lot, Work(0, 0.0));
            LotsFor(net, if lot > 0.0 then lot else net, w) == w && w.length - net >= 0.0
  {
    if lot > 0.0 { LotsAreFewest(net, lot, Work(0, 0.0)); } else { WholeLot(net, Work(1, net)); }
  }

  /** Other metres give another length or another surplus. */
  lemma OtherWork(net: real, read: real, lot: real, w: Work)
    requires net >= 1.0 && read != net && lot > 0.0 && w.length >= net
    ensures var v := LotsFor(read, lot, w);
            v.length != w.length || (if v.length - read > 0.0 then v.length - read else 0.0) != w.length - net
  {
    if read > 0.0 { LotsAreFewest(read, lot, w); }
  }

  /** Rows with the metres, due dates and priorities of `lines`, all read with the cores of the
      first line of `sorted`, say what was counted for `net` metres from `sorted`. */
  ghost predicate SameCount(net: real, sorted: seq<Line>, lines: seq<Line>) {
    && sorted != [] && SumOf(lines, Quantity()) * sorted[0].Cores() as real == net
    && (EarliestLine(lines).None? || EarliestLine(lines) == EarliestLine(sorted))
    && BestLine(lines) == BestLine(sorted)
  }

  /** The rows of `lines` say of the work, due date and priority of the group what its header says. */
  ghost predicate AccountedFor(g: Group, lines: seq<Line>) { SameCount(g.Net(), SortLines(g.lines), lines) }

  lemma HeaderFields(g: Group, name: string, sorted: seq<Line>, id: int)
    requires sorted != []
    ensures var h, w := HeaderRow(g, name, sorted).(id := id), LotsFor(g.Net(), g.lot, Work(0, 0.0));
            && h.Cores() == sorted[0].Cores() && h.due == EarliestLine(sorted) && h.priority == BestLine(sorted)
            && h.lot == (if g.lot > 0.0 then g.lot else g.Net())
            && h.drums == w.drums && h.length == w.length
            && (w.length - g.Net() >= 0.0 ==> h.surplus == w.length - g.Net())
            && (h.speed > 0.0 ==> h.duration == Some(h.length / h.speed))
  {
  }

  lemma HeaderOver(g: Group, name: string, id: int, subs: seq<Row>, lines: seq<Line>, sorted: seq<Line>)
    requires sorted != [] && lines != [] && StandFor(subs, lines) && !g.Idle()
    ensures var h := HeaderRow(g, name, sorted).(id := id);
            Rebuilt(h, subs, 1) == h <==> SameCount(g.Net(), sorted, lines)
  {
    HeaderFields(g, name, sorted, id);
    SameWork(g.Net(), g.lot);
    var h, w := HeaderRow(g, name, sorted).(id := id), LotsFor(g.Net(), g.lot, Work(0, 0.0));
    CountedAgain(h, g.Net(), w, sorted, subs, lines);
  }

  lemma {:induction false} CountedAgain(h: Row, net: real, w: Work, sorted: seq<Line>, subs: seq<Row>, lines: seq<Line>)
    requires sorted != [] && h.Cores() == sorted[0].Cores()
    requires h.due == EarliestLine(sorted) && h.priority == BestLine(sorted)
    requires lines != [] && StandFor(subs, lines) && net >= 1.0 && h.lot > 0.0 && w.length - net >= 0.0
    requires h.drums == w.drums && h.length == w.length && h.surplus == w.length - net
    requires LotsFor(net, h.lot, w) == w && (h.speed > 0.0 ==> h.duration == Some(h.length / h.speed))
    ensures Rebuilt(h, subs, 1) == h <==> SameCount(net, sorted, lines)
  {
    StandForCounts(subs, lines, h.due);
    RebuiltExactly(h, subs, net, w);
  }

  /** A created header is left as it is exactly when the rows it is counted from again say what it
      says: when their metres, all with the cores of its first line, are those it was made for, and
      none is due earlier or of better priority. */
  lemma HeaderAmong(g: Group, name: string, id: int, subs: seq<Row>, lines: seq<Line>)
    requires SortLines(g.lines) != [] && lines != [] && StandFor(subs, lines) && !g.Idle()
    ensures var h := HeaderRow(g, name, SortLines(g.lines)).(id := id);
            Rebuilt(h, subs, 1) == h <==> AccountedFor(g, lines)
  {
    HeaderOver(g, name, id, subs, lines, SortLines(g.lines));
  }

  lemma OwnCount(net: real, sorted: seq<Line>, own: seq<Line>)
    requires sorted != [] && own == sorted
    ensures SameCount(net, sorted, own) <==> SumOf(sorted, Quantity()) * sorted[0].Cores() as real == net
  {
  }

  lemma OwnHeader(g: Group, name: string, id: int, subs: seq<Row>, sorted: seq<Line>)
    requires sorted != [] && StandFor(subs, sorted) && !g.Idle()
    ensures var h := HeaderRow(g, name, sorted).(id := id);
            Rebuilt(h, subs, 1) == h <==> SumOf(sorted, Quantity()) * sorted[0].Cores() as real == g.Net()
  {
    HeaderOver(g, name, id, subs, sorted, sorted);
    OwnCount(g.Net(), sorted, sorted);
  }

  /** Counted from the rows of its own lines: exactly when these account for the group's work. */
  lemma HeaderSettledExactly(g: Group, name: string, id: int, subs: seq<Row>)
    requires var sorted := SortLines(g.lines); sorted != [] && StandFor(subs, sorted) && !g.Idle()
    ensures var h := HeaderRow(g, name, SortLines(g.lines)).(id := id);
            Rebuilt(h, subs, 1) == h <==> Accounted(g)
  {
    hide SortLines, Rebuilt, HeaderRow;
    OwnHeader(g, name, id, subs, SortLines(g.lines));
  }

  lemma RebuiltExactly(h: Row, subs: seq<Row>, net: real, w: Work)
    requires subs != [] && net >= 1.0 && h.lot > 0.0 && w.length - net >= 0.0
    requires h.drums == w.drums && h.length == w.length && h.surplus == w.length - net
    requires LotsFor(net, h.lot, w) == w
    requires h.speed > 0.0 ==> h.duration == Some(h.length / h.speed)
    ensures Rebuilt(h, subs, 1) == h <==>
              NetOf(h, subs) == net && EarliestDue(subs, h.due) == h.due && BestPriority(subs) == h.priority
  {
    assert w == Work(h.drums, h.length);
    if NetOf(h, subs) != net { OtherWork(net, NetOf(h, subs), h.lot, w); }
  }

  // ---------- groups that are accounted for, and groups that are not

  lemma {:induction false} SumScaled(lines: seq<Line>, f: Line -> real, h: Line -> real, k: real)
    requires forall l :: l in lines ==> f(l) == h(l) * k
    ensures SumOf(lines, f) == SumOf(lines, h) * k
    decreases |lines|
  {
    if lines != [] {
      var n := |lines| - 1;
      assert lines == lines[..n] + [lines[n]];
      SumScaled(lines[..n], f, h, k);
      var a, b := SumOf(lines[..n], h), h(lines[n]);
      assert (a + b) * k == a * k + b * k;
    }
  }

  /** All lines of the group have the same number of cores, and none is covered by stock. */
  ghost predicate Uniform(g: Group, cores: int) {
    && cores > 0 && g.lines != [] && forall l :: l in g.lines ==> l.Cores() == cores && !l.Covered()
  }

  lemma {:induction false} NothingCovered(c: Setup, lines: seq<Line>)
    requires forall l :: l in lines ==> !l.Covered()
    ensures SumOf(lines, SumsOf(c).covered) == 0.0
    decreases |lines|
  {
    if lines != [] {
      var n := |lines| - 1;
      assert lines == lines[..n] + [lines[n]];
      NothingCovered(c, lines[..n]);
    }
  }

  lemma MetresOfLine(c: Setup, l: Line, cores: int)
    requires l.Cores() == cores
    ensures SumsOf(c).metres(l) == l.qty * ((1.0 + c.buffer) * cores as real)
  {
    Reorder(l.qty, 1.0 + c.buffer, cores as real);
  }

  lemma Reorder(x: real, y: real, z: real)
    ensures x * y * z == x * (y * z) && x * (y * z) == (x * z) * y
  {
  }

  lemma UniformTotal(c: Setup, g: Group, cores: int)
    requires Uniform(g, cores) && g.total == SumOf(g.lines, SumsOf(c).metres)
             && g.covered == SumOf(g.lines, SumsOf(c).covered)
    ensures g.covered == 0.0 && g.total == MetresAsRead(g) * (1.0 + c.buffer)
  {
    hide SumOf, SortLines, MetresAsRead;
    NothingCovered(c, g.lines);
    UniformSum(c, g.lines, cores);
    UniformAsRead(g, cores);
    Reorder(SumOf(g.lines, Quantity()), 1.0 + c.buffer, cores as real);
  }

  lemma UniformSum(c: Setup, lines: seq<Line>, cores: int)
    requires forall l :: l in lines ==> l.Cores() == cores
    ensures SumOf(lines, SumsOf(c).metres) == SumOf(lines, Quantity()) * ((1.0 + c.buffer) * cores as real)
  {
    hide SumOf, SumsOf, Quantity;
    forall l | l in lines ensures SumsOf(c).metres(l) == l.qty * ((1.0 + c.buffer) * cores as real) {
      MetresOfLine(c, l, cores);
    }
    AllScaled(lines, SumsOf(c).metres, (1.0 + c.buffer) * cores as real);
  }

  lemma AllScaled(lines: seq<Line>, f: Line -> real, k: real)
    requires forall l :: l in lines ==> f(l) == l.qty * k
    ensures SumOf(lines, f) == SumOf(lines, Quantity()) * k
  {
    hide SumOf;
    SumScaled(lines, f, Quantity(), k);
  }

  lemma UniformAsRead(g: Group, cores: int)
    requires Uniform(g, cores)
    ensures MetresAsRead(g) == SumOf(g.lines, Quantity()) * cores as real
  {
    FirstIsOne(g.lines);
    ReadWith(g, cores);
  }

  lemma ReadWith(g: Group, cores: int)
    requires SortLines(g.lines) != [] && SortLines(g.lines)[0].Cores() == cores
    ensures MetresAsRead(g) == SumOf(g.lines, Quantity()) * cores as real
  {
    hide SortLines, SumOf;
    SameSum(g.lines);
    Read(SortLines(g.lines), SumOf(g.lines, Quantity()), cores);
  }

  lemma Read(sorted: seq<Line>, sum: real, cores: int)
    requires sorted != [] && sorted[0].Cores() == cores && SumOf(sorted, Quantity()) == sum
    ensures SumOf(sorted, Quantity()) * sorted[0].Cores() as real == sum * cores as real
  {
  }

  lemma SameSum(lines: seq<Line>)
    ensures SumOf(SortLines(lines), Quantity()) == SumOf(lines, Quantity())
  {
    SortMeans(lines, Quantity());
  }

  lemma FirstIsOne(lines: seq<Line>)
    requires lines != []
    ensures SortLines(lines) != [] && SortLines(lines)[0] in lines
  {
    SortKeepsSize(lines);
    SortMeans(lines, Quantity());
    assert SortLines(lines)[0] in SortLines(lines);
  }

  lemma NoneOfIt(m: real, b: real)
    requires m != 0.0
    ensures m * b == 0.0 <==> b == 0.0
  {
    if m * b == 0.0 { assert b == (m * b) / m; }
  }

  /** With one number of cores, no stock, and work to do: accounted for exactly without an allowance
      for defects.  The repair pass takes any allowance off again. */
  lemma AllowanceIsLost(c: Setup, g: Group, cores: int)
    requires Uniform(g, cores) && g.total == SumOf(g.lines, SumsOf(c).metres)
             && g.covered == SumOf(g.lines, SumsOf(c).covered)
    requires !g.Idle()
    ensures Accounted(g) <==> c.buffer == 0.0
  {
    UniformTotal(c, g, cores);
    var m := MetresAsRead(g);
    assert g.Net() == m * (1.0 + c.buffer);
    assert m * (1.0 + c.buffer) == m + m * c.buffer;
    NoneOfIt(m, c.buffer);
  }
}
