/** Creating the strand batches of a run: orders are grouped, and each group gets a header whose
    length is made of whole lots. */
module Strand {
  import opened Wrappers

  /** An order line that is to be stranded in this plant.  Missing numbers are 0; `material` is what
      the conductor is made of, `coreSpeed` the speed of the line for the seven-wire cores. */
  datatype Line = Line(order: string, line: int, sq: real, voltage: string, rawKind: string, qty: real, cores: int,
                       useWip: bool, wipType: string, due: Option<int>, priority: int, speed: real,
                       material: string, coreSpeed: real, drumLength: real, drums: int)
  {
    function Cores(): int { if cores == 0 then 1 else cores }

    /** The two names of compact stranding are one kind, which is also the default. */
    function Kind(): string { if rawKind == "" || rawKind == "압축" then "압축연선" else rawKind }

    function Key(): GroupKey { GroupKey(sq, voltage, Kind()) }

    /** Stock that is stranded already covers the line. */
    predicate Covered() { useWip && Without(wipType) in {"연선", "절연"} }

    /** The line asks for something. */
    predicate Asks(buffer: real) { 0.0 < qty * (1.0 + buffer) }

    /** Single-core metres with the allowance for defects. */
    function Metres(buffer: real): real { qty * (1.0 + buffer) * Cores() as real }
  }

  /** The text without the word for stock. */
  function Without(s: string): string {
    if s == "" then ""
    else if "재고" <= s then Without(s[2..])
    else [s[0]] + Without(s[1..])
  }

  datatype GroupKey = GroupKey(sq: real, voltage: string, kind: string)

  /** `lot` is 0 if the cross-section has no lot size. */
  datatype Group = Group(key: GroupKey, total: real, covered: real, lot: real, lines: seq<Line>)
  {
    function Net(): real { if total - covered > 0.0 then total - covered else 0.0 }

    /** Less than a metre is no work. */
    predicate Idle() { Net() < 1.0 }
  }

  datatype Setup = Setup(buffer: real, lots: map<real, real>, twoStage: bool)

  // ---------- grouping

  /** How lines are grouped and what is added up over the lines of a group. */
  datatype Sums = Sums(counts: Line -> bool, key: Line -> GroupKey, metres: Line -> real, covered: Line -> real,
                       lots: map<real, real>)

  function SumsOf(c: Setup): Sums {
    Sums((l: Line) => l.Asks(c.buffer),
         (l: Line) => l.Key(),
         (l: Line) => l.Metres(c.buffer),
         (l: Line) => if l.Covered() then l.Metres(c.buffer) else 0.0,
         c.lots)
  }

  function LotAt(lots: map<real, real>, sq: real): real { if sq in lots then lots[sq] else 0.0 }

  function LinesOf(c: Sums, lines: seq<Line>, key: GroupKey): seq<Line> {
    if lines == [] then []
    else
      var n := |lines| - 1;
      LinesOf(c, lines[..n], key) + if c.counts(lines[n]) && c.key(lines[n]) == key then [lines[n]] else []
  }

  function SumOf(lines: seq<Line>, f: Line -> real): real {
    if lines == [] then 0.0 else SumOf(lines[..|lines| - 1], f) + f(lines[|lines| - 1])
  }

  /** The group holds the lines with its key, in order, and knows their metres. */
  ghost predicate SoundGroup(c: Sums, lines: seq<Line>, g: Group) {
    && g.lines == LinesOf(c, lines, g.key)
    && g.total == SumOf(g.lines, c.metres) && g.covered == SumOf(g.lines, c.covered)
    && g.lot == LotAt(c.lots, g.key.sq)
  }

  /** The groups divide the lines that count by key. */
  ghost predicate Grouped(c: Sums, lines: seq<Line>, groups: seq<Group>) {
    && (forall i :: 0 <= i < |groups| ==> SoundGroup(c, lines, groups[i]) && groups[i].lines != [])
    && (forall i, j :: 0 <= i < j < |groups| ==> groups[i].key != groups[j].key)
    && (forall l :: l in lines && c.counts(l) ==> HasGroup(groups, c.key(l)))
  }

  ghost predicate HasGroup(groups: seq<Group>, key: GroupKey) { exists i :: 0 <= i < |groups| && groups[i].key == key }

  predicate Hits(c: Sums, l: Line, key: GroupKey) { c.counts(l) && c.key(l) == key }

  /** Where the first line with the key stands; past the end, if there is none. */
  function FirstLine(c: Sums, lines: seq<Line>, key: GroupKey): nat {
    if lines == [] then 0
    else
      var n := |lines| - 1;
      var k := FirstLine(c, lines[..n], key);
      if k < n || Hits(c, lines[n], key) then k else n + 1
  }

  lemma {:induction false} FirstLineMeans(c: Sums, lines: seq<Line>, key: GroupKey)
    ensures var k := FirstLine(c, lines, key);
            && k <= |lines| && (k < |lines| ==> Hits(c, lines[k], key))
            && (forall i :: 0 <= i < k ==> !Hits(c, lines[i], key))
            && (k == |lines| <==> LinesOf(c, lines, key) == [])
    decreases |lines|
  {
    if lines != [] { FirstLineMeans(c, lines[..|lines| - 1], key); }
  }

  /** The groups come in the order of their first lines. */
  ghost predicate InFirstOrder(c: Sums, lines: seq<Line>, groups: seq<Group>) {
    forall i, j :: 0 <= i < j < |groups| ==>
      FirstLine(c, lines, groups[i].key) < FirstLine(c, lines, groups[j].key) < |lines|
  }

  lemma FirstLineStays(c: Sums, lines: seq<Line>, l: Line, key: GroupKey)
    requires FirstLine(c, lines, key) < |lines|
    ensures FirstLine(c, lines + [l], key) == FirstLine(c, lines, key)
  {
    assert (lines + [l])[..|lines|] == lines;
  }

  lemma GroupHasFirst(c: Sums, lines: seq<Line>, groups: seq<Group>, i: nat)
    requires Grouped(c, lines, groups) && i < |groups|
    ensures FirstLine(c, lines, groups[i].key) < |lines|
  {
    hide SumOf;
    assert SoundGroup(c, lines, groups[i]);
    FirstLineMeans(c, lines, groups[i].key);
  }

  /** The order of groups that exist does not change. */
  lemma OrderStays(c: Sums, lines: seq<Line>, l: Line, groups: seq<Group>, all: seq<Group>)
    requires Grouped(c, lines, groups) && InFirstOrder(c, lines, groups)
    requires |all| == |groups| && forall i :: 0 <= i < |groups| ==> all[i].key == groups[i].key
    ensures InFirstOrder(c, lines + [l], all)
  {
    hide Grouped, FirstLine;
    forall i | 0 <= i < |all|
      ensures FirstLine(c, lines + [l], all[i].key) == FirstLine(c, lines, groups[i].key) < |lines|
    {
      GroupHasFirst(c, lines, groups, i);
      FirstLineStays(c, lines, l, groups[i].key);
    }
  }

  /** A group that is opened comes last. */
  lemma OpenedIsLast(c: Sums, lines: seq<Line>, l: Line, groups: seq<Group>, g: Group)
    requires Grouped(c, lines, groups) && InFirstOrder(c, lines, groups)
    requires c.counts(l) && g.key == c.key(l) && LinesOf(c, lines, g.key) == []
    ensures InFirstOrder(c, lines + [l], groups + [g])
  {
    hide Grouped, LinesOf;
    OrderStays(c, lines, l, groups, groups);
    FirstLineMeans(c, lines, g.key);
    assert (lines + [l])[..|lines|] == lines;
    assert FirstLine(c, lines + [l], g.key) == |lines|;
    forall i | 0 <= i < |groups| ensures FirstLine(c, lines + [l], groups[i].key) < |lines| {
      GroupHasFirst(c, lines, groups, i);
      FirstLineStays(c, lines, l, groups[i].key);
    }
  }

  lemma LinesOfSnoc(c: Sums, lines: seq<Line>, l: Line, key: GroupKey)
    ensures LinesOf(c, lines + [l], key) == LinesOf(c, lines, key) + if c.counts(l) && c.key(l) == key then [l] else []
  {
    assert (lines + [l])[..|lines|] == lines;
  }

  lemma SumSnoc(lines: seq<Line>, l: Line, f: Line -> real)
    ensures SumOf(lines + [l], f) == SumOf(lines, f) + f(l)
  {
    assert (lines + [l])[..|lines|] == lines;
  }

  method FindGroup(groups: seq<Group>, key: GroupKey) returns (k: nat)
    ensures k <= |groups| && (forall i :: 0 <= i < k ==> groups[i].key != key)
    ensures k < |groups| ==> groups[k].key == key
  {
    k := 0;
    while k < |groups| && groups[k].key != key
      invariant k <= |groups| && forall i :: 0 <= i < k ==> groups[i].key != key
    {
      k := k + 1;
    }
  }

  /** The group with one line more. */
  function More(c: Sums, g: Group, l: Line): Group {
    g.(total := g.total + c.metres(l), covered := g.covered + c.covered(l), lines := g.lines + [l])
  }

  method GroupLines(setup: Setup, lines: seq<Line>) returns (groups: seq<Group>)
    ensures Grouped(SumsOf(setup), lines, groups) && InFirstOrder(SumsOf(setup), lines, groups)
  {
    hide FirstLine, LinesOf, SumOf;
    var c := SumsOf(setup);
    groups := [];
    for i := 0 to |lines|
      invariant Grouped(c, lines[..i], groups) && InFirstOrder(c, lines[..i], groups)
    {
      var l := lines[i];
      assert lines[..i + 1] == lines[..i] + [l];
      if !c.counts(l) {
        PassedOver(c, lines[..i], l, groups);
        OrderStays(c, lines[..i], l, groups, groups);
        continue;
      }
      var key := c.key(l);
      var k := FindGroup(groups, key);
      if k == |groups| {
        var g := Group(key, 0.0, 0.0, LotAt(c.lots, key.sq), []);
        GroupOpens(c, lines[..i], l, groups, g);
        NoLinesYet(c, lines[..i], groups, g);
        OpenedIsLast(c, lines[..i], l, groups, More(c, g, l));
        groups := groups + [More(c, g, l)];
      } else {
        GroupGrows(c, lines[..i], l, groups, k);
        OrderStays(c, lines[..i], l, groups, groups[k := More(c, groups[k], l)]);
        groups := groups[k := More(c, groups[k], l)];
      }
    }
    assert lines[..|lines|] == lines;
  }

  lemma PassedOver(c: Sums, lines: seq<Line>, l: Line, groups: seq<Group>)
    requires Grouped(c, lines, groups) && !c.counts(l)
    ensures Grouped(c, lines + [l], groups)
  {
    forall i | 0 <= i < |groups| ensures SoundGroup(c, lines + [l], groups[i]) {
      LinesOfSnoc(c, lines, l, groups[i].key);
    }
  }

  lemma {:induction false} NoLines(c: Sums, lines: seq<Line>, key: GroupKey)
    requires forall i :: 0 <= i < |lines| ==> !(c.counts(lines[i]) && c.key(lines[i]) == key)
    ensures LinesOf(c, lines, key) == []
    decreases |lines|
  {
    if lines != [] { NoLines(c, lines[..|lines| - 1], key); }
  }

  lemma FilledIsSound(c: Sums, lines: seq<Line>, l: Line, g: Group)
    requires SoundGroup(c, lines, g) && c.counts(l) && g.key == c.key(l)
    ensures SoundGroup(c, lines + [l], More(c, g, l))
  {
    SumsGrow(c, g.lines, l, g.total, g.covered);
    LinesOfSnoc(c, lines, l, g.key);
  }

  lemma SumsGrow(c: Sums, lines: seq<Line>, l: Line, total: real, covered: real)
    requires total == SumOf(lines, c.metres) && covered == SumOf(lines, c.covered)
    ensures total + c.metres(l) == SumOf(lines + [l], c.metres)
            && covered + c.covered(l) == SumOf(lines + [l], c.covered)
  {
    SumSnoc(lines, l, c.metres);
    SumSnoc(lines, l, c.covered);
  }

  lemma OtherIsSound(c: Sums, lines: seq<Line>, l: Line, g: Group)
    requires SoundGroup(c, lines, g) && g.key != c.key(l)
    ensures SoundGroup(c, lines + [l], g)
  {
    LinesOfSnoc(c, lines, l, g.key);
  }

  lemma HasGroupsStill(c: Sums, lines: seq<Line>, l: Line, groups: seq<Group>, all: seq<Group>, k: nat)
    requires Grouped(c, lines, groups) && |groups| <= |all| && k < |all| && all[k].key == c.key(l)
    requires forall i :: 0 <= i < |groups| ==> all[i].key == groups[i].key
    ensures forall x :: x in lines + [l] && c.counts(x) ==> HasGroup(all, c.key(x))
  {
    forall x | x in lines + [l] && c.counts(x) ensures HasGroup(all, c.key(x)) {
      if x in lines {
        assert HasGroup(groups, c.key(x));
        var i :| 0 <= i < |groups| && groups[i].key == c.key(x);
        assert all[i].key == c.key(x);
      }
    }
  }

  lemma GroupGrows(c: Sums, lines: seq<Line>, l: Line, groups: seq<Group>, k: nat)
    requires Grouped(c, lines, groups) && c.counts(l) && k < |groups| && groups[k].key == c.key(l)
    ensures Grouped(c, lines + [l], groups[k := More(c, groups[k], l)])
  {
    var all := groups[k := More(c, groups[k], l)];
    forall i | 0 <= i < |all| ensures SoundGroup(c, lines + [l], all[i]) && all[i].lines != [] {
      if i == k { FilledIsSound(c, lines, l, groups[k]); } else { OtherIsSound(c, lines, l, groups[i]); }
    }
    HasGroupsStill(c, lines, l, groups, all, k);
  }

  /** A key that has no group has no lines yet. */
  lemma EmptyIsSound(c: Sums, lines: seq<Line>, groups: seq<Group>, g: Group)
    requires Grouped(c, lines, groups) && g == Group(g.key, 0.0, 0.0, LotAt(c.lots, g.key.sq), [])
    requires forall i :: 0 <= i < |groups| ==> groups[i].key != g.key
    ensures SoundGroup(c, lines, g)
  {
    forall i | 0 <= i < |lines| ensures !(c.counts(lines[i]) && c.key(lines[i]) == g.key) {
      if c.counts(lines[i]) {
        assert lines[i] in lines;
        assert HasGroup(groups, c.key(lines[i]));
      }
    }
    NoLines(c, lines, g.key);
  }

  lemma NoLinesYet(c: Sums, lines: seq<Line>, groups: seq<Group>, g: Group)
    requires Grouped(c, lines, groups) && g == Group(g.key, 0.0, 0.0, LotAt(c.lots, g.key.sq), [])
    requires forall i :: 0 <= i < |groups| ==> groups[i].key != g.key
    ensures LinesOf(c, lines, g.key) == []
  {
    EmptyIsSound(c, lines, groups, g);
  }

  lemma GroupOpens(c: Sums, lines: seq<Line>, l: Line, groups: seq<Group>, g: Group)
    requires Grouped(c, lines, groups) && c.counts(l) && g == Group(c.key(l), 0.0, 0.0, LotAt(c.lots, c.key(l).sq), [])
    requires forall i :: 0 <= i < |groups| ==> groups[i].key != c.key(l)
    ensures Grouped(c, lines + [l], groups + [More(c, g, l)])
  {
    hide LinesOf, SumOf;
    var all := groups + [More(c, g, l)];
    EmptyIsSound(c, lines, groups, g);
    forall i | 0 <= i < |all| ensures SoundGroup(c, lines + [l], all[i]) && all[i].lines != [] {
      if i == |groups| { FilledIsSound(c, lines, l, g); } else { OtherIsSound(c, lines, l, groups[i]); }
    }
    HasGroupsStill(c, lines, l, groups, all, |groups|);
  }
}
