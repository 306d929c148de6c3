/** The table of created strand rows, and when the repair pass leaves all of it alone. */
module StrandTable {
  import opened Wrappers
  import opened Batches
  import opened Dedupe
  import opened DedupeLaws
  import opened Strand
  import opened StrandBatches
  import opened StrandLaws

  // ---------- the rows of one group

  lemma CoreRowsMean(c: Setup, g: Group, l: Line)
    ensures |CoreRows(c, g, l)| <= 1
    ensures forall i :: 0 <= i < |CoreRows(c, g, l)| ==>
              && CoreRows(c, g, l)[i].rank == 0
              && CoreRows(c, g, l)[i].order == l.order && CoreRows(c, g, l)[i].line == l.line
  {
  }

  /** Of the rows of a line only the order row is one of its group, and none is a header. */
  lemma LineRowsSeen(c: Setup, g: Group, name: string, l: Line, n: string)
    ensures Where(LineRows(c, g, name)(l), IsSub(n)) == if n == name then [SubRow(name, l)] else []
    ensures Where(LineRows(c, g, name)(l), IsHeader(n)) == []
  {
    var subRow, cores := SubRow(name, l), CoreRows(c, g, l);
    CoreRowsMean(c, g, l);
    WhereConcat([subRow], cores, IsSub(n));
    WhereConcat([subRow], cores, IsHeader(n));
    WhereOne(subRow, IsSub(n));
    WhereOne(subRow, IsHeader(n));
    if cores != [] {
      assert cores == [cores[0]];
      WhereOne(cores[0], IsSub(n));
      WhereOne(cores[0], IsHeader(n));
    }
  }

  lemma StandForSnoc(rows: seq<Row>, lines: seq<Line>, name: string, l: Line)
    requires StandFor(rows, lines)
    ensures StandFor(rows + [SubRow(name, l)], lines + [l])
  {
  }

  lemma {:induction false} LinesSeen(c: Setup, g: Group, name: string, lines: seq<Line>, n: string)
    ensures var rows := EachLine(lines, LineRows(c, g, name));
            && Headers(rows, n) == []
            && (n == name ==> StandFor(Subs(rows, n), lines)) && (n != name ==> Subs(rows, n) == [])
    decreases |lines|
  {
    if lines != [] {
      var k := |lines| - 1;
      var before, l := lines[..k], lines[k];
      assert lines == before + [l];
      LinesSeen(c, g, name, before, n);
      EachLineSnoc(before, l, LineRows(c, g, name));
      LineRowsSeen(c, g, name, l, n);
      var rows := EachLine(before, LineRows(c, g, name));
      WhereConcat(rows, LineRows(c, g, name)(l), IsSub(n));
      WhereConcat(rows, LineRows(c, g, name)(l), IsHeader(n));
      if n == name { StandForSnoc(Subs(rows, n), before, name, l); }
    }
  }

  lemma HeadSeen(g: Group, name: string, n: string)
    ensures Where(Head(g, name), IsSub(n)) == []
    ensures Where(Head(g, name), IsHeader(n)) == if n == name then Head(g, name) else []
  {
    var head := Head(g, name);
    if head != [] {
      assert head == [head[0]] && head[0].Header() && head[0].group == Some(name);
      WhereOne(head[0], IsSub(n));
      WhereOne(head[0], IsHeader(n));
    }
  }

  /** What a group sees of the rows made for the group called `name`. */
  lemma GroupSeen(c: Setup, g: Group, name: string, n: string)
    ensures n == name ==> SeesOwn(RowsOf(c, g, name), g, name)
    ensures n != name ==> Subs(RowsOf(c, g, name), n) == [] && Headers(RowsOf(c, g, name), n) == []
  {
    var rest := EachLine(SortLines(g.lines), LineRows(c, g, name));
    HeadSeen(g, name, n);
    LinesSeen(c, g, name, SortLines(g.lines), n);
    WhereConcat(Head(g, name), rest, IsSub(n));
    WhereConcat(Head(g, name), rest, IsHeader(n));
    if n == name { assert [] + Subs(rest, n) == Subs(rest, n) && Head(g, name) + [] == Head(g, name); }
  }

  ghost predicate SeesOwn(rows: seq<Row>, g: Group, name: string) {
    StandFor(Subs(rows, name), SortLines(g.lines)) && Headers(rows, name) == Head(g, name)
  }

  // ---------- the rows of all groups

  ghost predicate DifferentNames(names: GroupKey -> string, groups: seq<Group>) {
    forall i, j :: 0 <= i < j < |groups| ==> names(groups[i].key) != names(groups[j].key)
  }

  lemma CreatedSnoc(c: Setup, names: GroupKey -> string, before: seq<Group>, g: Group, n: string)
    ensures var all, rows := Created(c, names, before + [g]), Created(c, names, before);
            var more := RowsOf(c, g, names(g.key));
            && all == rows + more
            && Subs(all, n) == Subs(rows, n) + Subs(more, n) && Headers(all, n) == Headers(rows, n) + Headers(more, n)
  {
    var rows, more := Created(c, names, before), RowsOf(c, g, names(g.key));
    EachGroupSnoc(before, g, GroupRows(c, names));
    WhereConcat(rows, more, IsSub(n));
    WhereConcat(rows, more, IsHeader(n));
  }

  /** The lines of all groups called `n`. */
  function NamedLines(names: GroupKey -> string, groups: seq<Group>, n: string): seq<Line> {
    if groups == [] then []
    else
      var k := |groups| - 1;
      NamedLines(names, groups[..k], n) + if names(groups[k].key) == n then SortLines(groups[k].lines) else []
  }

  lemma StandForConcat(a: seq<Row>, x: seq<Line>, b: seq<Row>, y: seq<Line>)
    requires StandFor(a, x) && StandFor(b, y)
    ensures StandFor(a + b, x + y)
  {
  }

  /** The order rows under a name are those of all groups called so. */
  lemma {:induction false} NamedRows(c: Setup, names: GroupKey -> string, groups: seq<Group>, n: string)
    ensures StandFor(Subs(Created(c, names, groups), n), NamedLines(names, groups, n))
    decreases |groups|
  {
    if groups != [] {
      var k := |groups| - 1;
      var before, g := groups[..k], groups[k];
      var name := names(g.key);
      assert groups == before + [g];
      NamedRows(c, names, before, n);
      CreatedSnoc(c, names, before, g, n);
      GroupSeen(c, g, name, n);
      StandForConcat(Subs(Created(c, names, before), n), NamedLines(names, before, n), Subs(RowsOf(c, g, name), n),
                     if name == n then SortLines(g.lines) else []);
    }
  }

  /** A header is made for the group, under the name `n`. */
  function Heads(names: GroupKey -> string, n: string): Group -> bool {
    (g: Group) => names(g.key) == n && Head(g, n) != []
  }

  lemma {:induction false} NoHead(c: Setup, names: GroupKey -> string, groups: seq<Group>, n: string)
    requires forall i :: 0 <= i < |groups| ==> !Heads(names, n)(groups[i])
    ensures Headers(Created(c, names, groups), n) == []
    decreases |groups|
  {
    if groups != [] {
      var k := |groups| - 1;
      var before, g := groups[..k], groups[k];
      assert groups == before + [g];
      NoHead(c, names, before, n);
      CreatedSnoc(c, names, before, g, n);
      GroupSeen(c, g, names(g.key), n);
    }
  }

  /** If only group `k` makes a header under a name, that is the one there is. */
  lemma {:induction false} OneHead(c: Setup, names: GroupKey -> string, groups: seq<Group>, n: string, k: nat)
    requires k < |groups| && names(groups[k].key) == n
    requires forall i :: 0 <= i < |groups| && i != k ==> !Heads(names, n)(groups[i])
    ensures Headers(Created(c, names, groups), n) == Head(groups[k], n)
    decreases |groups|
  {
    var last := |groups| - 1;
    var before, g := groups[..last], groups[last];
    assert groups == before + [g];
    CreatedSnoc(c, names, before, g, n);
    GroupSeen(c, g, names(g.key), n);
    if k == last { NoHead(c, names, before, n); } else { OneHead(c, names, before, n, k); }
  }

  // ---------- numbering

  lemma NumberedById(rows: seq<Row>, first: int)
    ensures ById(Numbered(rows, first))
  {
  }

  lemma NumberedSnoc(rows: seq<Row>, r: Row, first: int)
    ensures Numbered(rows + [r], first) == Numbered(rows, first) + [r.(id := first + |rows|)]
  {
  }

  ghost predicate SameButId(a: seq<Row>, b: seq<Row>) {
    |a| == |b| && forall i :: 0 <= i < |a| ==> a[i] == b[i].(id := a[i].id)
  }

  lemma {:induction false} NumberedWhere(rows: seq<Row>, first: int, keep: Row -> bool)
    requires forall r: Row, i: int :: keep(r.(id := i)) == keep(r)
    ensures SameButId(Where(Numbered(rows, first), keep), Where(rows, keep))
    decreases |rows|
  {
    if rows != [] {
      var n := |rows| - 1;
      var before, r := rows[..n], rows[n];
      assert rows == before + [r];
      NumberedWhere(before, first, keep);
      NumberedSnoc(before, r, first);
      WhereSnoc(Numbered(before, first), r.(id := first + n), keep);
      WhereSnoc(before, r, keep);
    }
  }

  lemma NumberedGroups(rows: seq<Row>, first: int, n: string)
    ensures SameButId(Subs(Numbered(rows, first), n), Subs(rows, n))
    ensures SameButId(Headers(Numbered(rows, first), n), Headers(rows, n))
  {
    NumberedWhere(rows, first, IsSub(n));
    NumberedWhere(rows, first, IsHeader(n));
  }

  // ---------- order lines apart

  function IdOf(l: Line): (string, int) { (l.order, l.line) }

  ghost predicate LinesApart(lines: seq<Line>) {
    forall i, j :: 0 <= i < j < |lines| ==> IdOf(lines[i]) != IdOf(lines[j])
  }

  /** No two rows that are not headers have the same order line and rank. */
  ghost predicate RowsApart(rows: seq<Row>) {
    forall i, j :: 0 <= i < j < |rows| && !rows[i].Header() && !rows[j].Header() ==>
      rows[i].order != rows[j].order || rows[i].line != rows[j].line || rows[i].rank != rows[j].rank
  }

  /** The rows that are not headers are of the order lines `ids`. */
  ghost predicate From(rows: seq<Row>, ids: set<(string, int)>) {
    forall i :: 0 <= i < |rows| && !rows[i].Header() ==> (rows[i].order, rows[i].line) in ids
  }

  lemma ApartConcat(a: seq<Row>, b: seq<Row>, x: set<(string, int)>, y: set<(string, int)>)
    requires RowsApart(a) && RowsApart(b) && From(a, x) && From(b, y) && x !! y
    ensures RowsApart(a + b) && From(a + b, x + y)
  {
    var rows := a + b;
    forall i, j | 0 <= i < j < |rows| && !rows[i].Header() && !rows[j].Header()
      ensures rows[i].order != rows[j].order || rows[i].line != rows[j].line || rows[i].rank != rows[j].rank
    {
      if i < |a| <= j {
        assert (a[i].order, a[i].line) in x && (b[j - |a|].order, b[j - |a|].line) in y;
      }
    }
  }

  ghost function Ids(lines: seq<Line>): set<(string, int)> { set l | l in lines :: IdOf(l) }

  lemma LineRowsApart(c: Setup, g: Group, name: string, l: Line)
    ensures RowsApart(LineRows(c, g, name)(l)) && From(LineRows(c, g, name)(l), {IdOf(l)})
  {
    CoreRowsMean(c, g, l);
  }

  lemma IdsSnoc(lines: seq<Line>, l: Line)
    ensures Ids(lines + [l]) == Ids(lines) + {IdOf(l)}
    ensures LinesApart(lines + [l]) ==> LinesApart(lines) && IdOf(l) !in Ids(lines)
  {
    var all := lines + [l];
    assert forall x :: x in all <==> x in lines || x == l;
    if LinesApart(all) {
      assert forall i :: 0 <= i < |lines| ==> all[i] == lines[i];
      forall x | x in lines ensures IdOf(x) != IdOf(l) {
        var i :| 0 <= i < |lines| && lines[i] == x;
        assert IdOf(all[i]) != IdOf(all[|lines|]);
      }
    }
  }

  lemma {:induction false} EachLineApart(c: Setup, g: Group, name: string, lines: seq<Line>)
    requires LinesApart(lines)
    ensures RowsApart(EachLine(lines, LineRows(c, g, name))) && From(EachLine(lines, LineRows(c, g, name)), Ids(lines))
    decreases |lines|
  {
    if lines != [] {
      var k := |lines| - 1;
      var before, l := lines[..k], lines[k];
      assert lines == before + [l];
      IdsSnoc(before, l);
      EachLineApart(c, g, name, before);
      EachLineSnoc(before, l, LineRows(c, g, name));
      LineRowsApart(c, g, name, l);
      ApartConcat(EachLine(before, LineRows(c, g, name)), LineRows(c, g, name)(l), Ids(before), {IdOf(l)});
    }
  }

  lemma {:induction false} InsertApart(l: Line, s: seq<Line>)
    requires LinesApart(s) && IdOf(l) !in Ids(s)
    ensures LinesApart(Insert(l, s)) && Ids(Insert(l, s)) == Ids(s) + {IdOf(l)}
    decreases |s|
  {
    if s == [] || !Sooner(l, s[|s| - 1]) {
      IdsSnoc(s, l);
      SnocApart(s, l);
    } else {
      var n := |s| - 1;
      var before, last := s[..n], s[n];
      assert s == before + [last];
      IdsSnoc(before, last);
      InsertApart(l, before);
      IdsSnoc(Insert(l, before), last);
      SnocApart(Insert(l, before), last);
    }
  }

  lemma SnocApart(s: seq<Line>, l: Line)
    requires LinesApart(s) && IdOf(l) !in Ids(s)
    ensures LinesApart(s + [l])
  {
    forall i | 0 <= i < |s| ensures IdOf(s[i]) != IdOf(l) {
      assert s[i] in s;
      assert IdOf(s[i]) in Ids(s);
    }
  }

  lemma {:induction false} SortApart(lines: seq<Line>)
    requires LinesApart(lines)
    ensures LinesApart(SortLines(lines)) && Ids(SortLines(lines)) == Ids(lines)
    decreases |lines|
  {
    if lines != [] {
      var n := |lines| - 1;
      var before, l := lines[..n], lines[n];
      assert lines == before + [l];
      IdsSnoc(before, l);
      SortApart(before);
      InsertApart(l, SortLines(before));
    }
  }

  lemma GroupApart(c: Setup, g: Group, name: string)
    requires LinesApart(g.lines)
    ensures RowsApart(RowsOf(c, g, name)) && From(RowsOf(c, g, name), Ids(g.lines))
  {
    var sorted := SortLines(g.lines);
    var head := Head(g, name);
    SortApart(g.lines);
    EachLineApart(c, g, name, sorted);
    ApartConcat(head, EachLine(sorted, LineRows(c, g, name)), {}, Ids(sorted));
    assert {} + Ids(sorted) == Ids(sorted);
  }

  /** Each order line is in one group, once. */
  ghost predicate GroupsApart(groups: seq<Group>) {
    && (forall i :: 0 <= i < |groups| ==> LinesApart(groups[i].lines))
    && (forall i, j :: 0 <= i < j < |groups| ==> Ids(groups[i].lines) !! Ids(groups[j].lines))
  }

  ghost function AllIds(groups: seq<Group>): set<(string, int)> {
    if groups == [] then {} else AllIds(groups[..|groups| - 1]) + Ids(groups[|groups| - 1].lines)
  }

  lemma {:induction false} AllIdsApart(groups: seq<Group>, x: set<(string, int)>)
    requires forall i :: 0 <= i < |groups| ==> Ids(groups[i].lines) !! x
    ensures AllIds(groups) !! x
    decreases |groups|
  {
    if groups != [] { AllIdsApart(groups[..|groups| - 1], x); }
  }

  lemma {:induction false} CreatedApart(c: Setup, names: GroupKey -> string, groups: seq<Group>)
    requires GroupsApart(groups)
    ensures RowsApart(Created(c, names, groups)) && From(Created(c, names, groups), AllIds(groups))
    decreases |groups|
  {
    if groups != [] {
      var k := |groups| - 1;
      var before, g := groups[..k], groups[k];
      assert groups == before + [g];
      CreatedApart(c, names, before);
      EachGroupSnoc(before, g, GroupRows(c, names));
      GroupApart(c, g, names(g.key));
      AllIdsApart(before, Ids(g.lines));
      ApartConcat(Created(c, names, before), RowsOf(c, g, names(g.key)), AllIds(before), Ids(g.lines));
    }
  }

  lemma NumberedNoRepeats(rows: seq<Row>, first: int)
    requires RowsApart(rows)
    ensures NoRepeats(Numbered(rows, first))
  {
  }

  // ---------- the whole table

  /** The groups as the table of created rows is to have them: with lines and names, each order line once. */
  ghost predicate WellMade(names: GroupKey -> string, groups: seq<Group>) {
    && (forall i :: 0 <= i < |groups| ==> groups[i].lines != [] && names(groups[i].key) != "")
    && GroupsApart(groups)
  }

  /** No two groups with work have one name. */
  ghost predicate WorkNamedApart(names: GroupKey -> string, groups: seq<Group>) {
    forall i, j :: 0 <= i < j < |groups| && !groups[i].Idle() && !groups[j].Idle() ==>
      names(groups[i].key) != names(groups[j].key)
  }

  /** The rows under the name of group `k` account for its work. */
  ghost predicate AccountedUnder(names: GroupKey -> string, groups: seq<Group>, k: nat)
    requires k < |groups|
  {
    AccountedFor(groups[k], NamedLines(names, groups, names(groups[k].key)))
  }

  ghost predicate AllAccounted(names: GroupKey -> string, groups: seq<Group>) {
    forall k :: 0 <= k < |groups| && !groups[k].Idle() ==> AccountedUnder(names, groups, k)
  }

  function Table(c: Setup, names: GroupKey -> string, groups: seq<Group>, first: int): seq<Row> {
    Numbered(Created(c, names, groups), first)
  }

  lemma {:induction false} NamedInclude(names: GroupKey -> string, groups: seq<Group>, k: nat)
    requires k < |groups| && groups[k].lines != []
    ensures NamedLines(names, groups, names(groups[k].key)) != []
    decreases |groups|
  {
    if k == |groups| - 1 {
      FirstIsOne(groups[k].lines);
    } else {
      assert groups[..|groups| - 1][k] == groups[k];
      NamedInclude(names, groups[..|groups| - 1], k);
    }
  }

  /** A group with work is settled in the table exactly when the rows under its name account for it. */
  lemma GroupSettledExactly(c: Setup, names: GroupKey -> string, groups: seq<Group>, first: int, k: nat)
    requires WellMade(names, groups) && WorkNamedApart(names, groups) && k < |groups| && !groups[k].Idle()
    ensures Settled(Table(c, names, groups, first), names(groups[k].key)) <==> AccountedUnder(names, groups, k)
    ensures names(groups[k].key) in HeaderGroups(Table(c, names, groups, first))
  {
    var g, n, rows := groups[k], names(groups[k].key), Created(c, names, groups);
    var table := Table(c, names, groups, first);
    forall i | 0 <= i < |groups| && i != k ensures !Heads(names, n)(groups[i]) {
      if i < k { assert !(names(groups[i].key) == n && !groups[i].Idle()); }
    }
    OneHead(c, names, groups, n, k);
    NamedRows(c, names, groups, n);
    NamedInclude(names, groups, k);
    NumberedGroups(rows, first, n);
    HeaderGroupsMean(table, n);
    FirstIsOne(g.lines);
    SettledAmong(g, n, NamedLines(names, groups, n), Headers(table, n), Subs(rows, n), Subs(table, n), table);
  }

  lemma SettledAmong(g: Group, n: string, lines: seq<Line>, hs: seq<Row>, subs: seq<Row>, numbered: seq<Row>,
                     table: seq<Row>)
    requires !g.Idle() && g.lines != [] && lines != [] && StandFor(subs, lines) && SameButId(numbered, subs)
    requires SameButId(hs, Head(g, n)) && hs == Headers(table, n) && numbered == Subs(table, n)
    ensures Settled(table, n) <==> AccountedFor(g, lines)
  {
    FirstIsOne(g.lines);
    var h := hs[0];
    assert h == HeaderRow(g, n, SortLines(g.lines)).(id := h.id);
    HeaderAmong(g, n, h.id, numbered, lines);
  }

  /** Only groups with work have headers. */
  lemma HeadedIsNamed(c: Setup, names: GroupKey -> string, groups: seq<Group>, first: int, n: string) returns (k: nat)
    requires n in HeaderGroups(Table(c, names, groups, first))
    ensures k < |groups| && names(groups[k].key) == n && !groups[k].Idle()
  {
    HeaderGroupsMean(Table(c, names, groups, first), n);
    NumberedGroups(Created(c, names, groups), first, n);
    if forall i :: 0 <= i < |groups| ==> !Heads(names, n)(groups[i]) { NoHead(c, names, groups, n); }
    k :| k < |groups| && Heads(names, n)(groups[k]);
  }

  /** For named-apart work: left alone exactly when all of it is accounted for. */
  lemma ApartIsSettledExactly(c: Setup, names: GroupKey -> string, groups: seq<Group>, first: int)
    requires WellMade(names, groups) && WorkNamedApart(names, groups)
    ensures var t := Table(c, names, groups, first); Deduped(t) == t <==> AllAccounted(names, groups)
  {
    var t := Table(c, names, groups, first);
    CreatedApart(c, names, groups);
    NumberedNoRepeats(Created(c, names, groups), first);
    NumberedById(Created(c, names, groups), first);
    UnchangedExactly(t);
    forall k | 0 <= k < |groups| && !groups[k].Idle()
      ensures Settled(t, names(groups[k].key)) <==> AccountedUnder(names, groups, k)
      ensures names(groups[k].key) in HeaderGroups(t)
    {
      GroupSettledExactly(c, names, groups, first, k);
    }
    if AllAccounted(names, groups) {
      forall n | n in HeaderGroups(t) ensures Settled(t, n) { var k := HeadedIsNamed(c, names, groups, first, n); }
    }
  }

  /** The repair pass leaves freshly created strand rows alone exactly when no two groups with work
      share a name and, for every group with work, the rows under its name account for it. */
  lemma CreatedIsSettledExactly(c: Setup, names: GroupKey -> string, groups: seq<Group>, first: int)
    requires WellMade(names, groups)
    ensures var t := Table(c, names, groups, first);
            Deduped(t) == t <==> WorkNamedApart(names, groups) && AllAccounted(names, groups)
  {
    if WorkNamedApart(names, groups) {
      ApartIsSettledExactly(c, names, groups, first);
    } else {
      var i, j :| 0 <= i < j < |groups| && !groups[i].Idle() && !groups[j].Idle()
                  && names(groups[i].key) == names(groups[j].key);
      OneNameMerges(c, names, groups, first, i, j);
    }
  }

  /** Where all names differ, a group's rows are those of its own lines. */
  lemma {:induction false} OwnLines(names: GroupKey -> string, groups: seq<Group>, k: nat)
    requires DifferentNames(names, groups) && k < |groups|
    ensures NamedLines(names, groups, names(groups[k].key)) == SortLines(groups[k].lines)
    decreases |groups|
  {
    var last := |groups| - 1;
    if k == last {
      NoLinesNamed(names, groups[..last], names(groups[k].key));
    } else {
      OwnLines(names, groups[..last], k);
    }
  }

  lemma {:induction false} NoLinesNamed(names: GroupKey -> string, groups: seq<Group>, n: string)
    requires forall i :: 0 <= i < |groups| ==> names(groups[i].key) != n
    ensures NamedLines(names, groups, n) == []
    decreases |groups|
  {
    if groups != [] { NoLinesNamed(names, groups[..|groups| - 1], n); }
  }

  lemma AccountedAlone(names: GroupKey -> string, groups: seq<Group>, k: nat)
    requires DifferentNames(names, groups) && k < |groups| && groups[k].lines != []
    ensures AccountedUnder(names, groups, k) <==> Accounted(groups[k])
  {
    hide SortLines, NamedLines, SumOf, EarliestLine, BestLine;
    OwnLines(names, groups, k);
    FirstIsOne(groups[k].lines);
    OwnCount(groups[k].Net(), SortLines(groups[k].lines), NamedLines(names, groups, names(groups[k].key)));
  }

  // ---------- the groups of a run

  lemma {:induction false} LinesOfMeans(c: Sums, lines: seq<Line>, key: GroupKey)
    ensures forall x :: x in LinesOf(c, lines, key) ==> x in lines && c.key(x) == key
    ensures LinesApart(lines) ==> LinesApart(LinesOf(c, lines, key)) && Ids(LinesOf(c, lines, key)) <= Ids(lines)
    decreases |lines|
  {
    if lines != [] {
      var n := |lines| - 1;
      var before, l := lines[..n], lines[n];
      assert lines == before + [l];
      LinesOfMeans(c, before, key);
      LinesOfSnoc(c, before, l, key);
      if LinesApart(lines) {
        IdsSnoc(before, l);
        IdsSnoc(LinesOf(c, before, key), l);
        SnocApart(LinesOf(c, before, key), l);
      }
    }
  }

  lemma SameLine(lines: seq<Line>, x: Line, y: Line)
    requires LinesApart(lines) && x in lines && y in lines && IdOf(x) == IdOf(y)
    ensures x == y
  {
    var i :| 0 <= i < |lines| && lines[i] == x;
    var j :| 0 <= j < |lines| && lines[j] == y;
    assert IdOf(lines[i]) == IdOf(lines[j]);
  }

  lemma GroupedApart(c: Sums, lines: seq<Line>, groups: seq<Group>)
    requires Grouped(c, lines, groups) && LinesApart(lines)
    ensures GroupsApart(groups)
  {
    forall i | 0 <= i < |groups| ensures LinesApart(groups[i].lines) {
      assert SoundGroup(c, lines, groups[i]);
      LinesOfMeans(c, lines, groups[i].key);
    }
    forall i, j | 0 <= i < j < |groups| ensures Ids(groups[i].lines) !! Ids(groups[j].lines) {
      assert SoundGroup(c, lines, groups[i]) && SoundGroup(c, lines, groups[j]);
      IdsOfKeysApart(c, lines, groups[i].key, groups[j].key);
    }
  }

  lemma IdsOfKeysApart(c: Sums, lines: seq<Line>, a: GroupKey, b: GroupKey)
    requires LinesApart(lines) && a != b
    ensures Ids(LinesOf(c, lines, a)) !! Ids(LinesOf(c, lines, b))
  {
    LinesOfMeans(c, lines, a);
    LinesOfMeans(c, lines, b);
    forall x, y | x in LinesOf(c, lines, a) && y in LinesOf(c, lines, b) ensures IdOf(x) != IdOf(y) {
      if IdOf(x) == IdOf(y) { SameLine(lines, x, y); }
    }
  }

  lemma NamedAlways(k: GroupKey)
    ensures NameOf(k) != ""
  {
    assert NameOf(k)[0] == 'S';
  }

  /** Creation, then repair, for a run whose order lines are distinct: nothing changes exactly when no
      two groups with work share a name and all work is accounted for. */
  lemma RepairAfterCreationExactly(c: Setup, lines: seq<Line>, groups: seq<Group>, first: int)
    requires Grouped(SumsOf(c), lines, groups) && LinesApart(lines)
    ensures var t := Table(c, NameOf, groups, first);
            Deduped(t) == t <==> WorkNamedApart(NameOf, groups) && AllAccounted(NameOf, groups)
  {
    GroupedApart(SumsOf(c), lines, groups);
    forall i | 0 <= i < |groups| ensures groups[i].lines != [] && NameOf(groups[i].key) != "" {
      NamedAlways(groups[i].key);
    }
    CreatedIsSettledExactly(c, NameOf, groups, first);
  }

  // ---------- groups with one name

  function Count(groups: seq<Group>, p: Group -> bool): nat {
    if groups == [] then 0 else Count(groups[..|groups| - 1], p) + if p(groups[|groups| - 1]) then 1 else 0
  }

  lemma {:induction false} HeadersCounted(c: Setup, names: GroupKey -> string, groups: seq<Group>, n: string)
    ensures |Headers(Created(c, names, groups), n)| == Count(groups, Heads(names, n))
    decreases |groups|
  {
    if groups != [] {
      var k := |groups| - 1;
      var before, g := groups[..k], groups[k];
      assert groups == before + [g];
      HeadersCounted(c, names, before, n);
      CreatedSnoc(c, names, before, g, n);
      GroupSeen(c, g, names(g.key), n);
    }
  }

  lemma {:induction false} CountGrows(groups: seq<Group>, p: Group -> bool, k: nat)
    requires k <= |groups|
    ensures Count(groups[..k], p) <= Count(groups, p)
    decreases |groups|
  {
    if k < |groups| {
      var before := groups[..|groups| - 1];
      CountGrows(before, p, k);
      assert before[..k] == groups[..k];
    } else {
      assert groups[..k] == groups;
    }
  }

  lemma CountUpTo(groups: seq<Group>, p: Group -> bool, k: nat)
    requires k < |groups| && p(groups[k])
    ensures Count(groups, p) >= Count(groups[..k], p) + 1
  {
    assert groups[..k + 1][..k] == groups[..k];
    CountGrows(groups, p, k + 1);
  }

  lemma CountTwo(groups: seq<Group>, p: Group -> bool, i: nat, j: nat)
    requires i < j < |groups| && p(groups[i]) && p(groups[j])
    ensures Count(groups, p) >= 2
  {
    CountUpTo(groups[..j], p, i);
    CountUpTo(groups, p, j);
  }

  /** Two groups with work under one name are never left alone: the repair pass drops a header. */
  lemma OneNameMerges(c: Setup, names: GroupKey -> string, groups: seq<Group>, first: int, i: nat, j: nat)
    requires i < j < |groups| && groups[i].lines != [] && groups[j].lines != []
             && !groups[i].Idle() && !groups[j].Idle()
    requires names(groups[i].key) == names(groups[j].key) != ""
    ensures Deduped(Table(c, names, groups, first)) != Table(c, names, groups, first)
  {
    var n := names(groups[i].key);
    FirstIsOne(groups[i].lines);
    FirstIsOne(groups[j].lines);
    CountTwo(groups, Heads(names, n), i, j);
    HeadersCounted(c, names, groups, n);
    NumberedGroups(Created(c, names, groups), first, n);
    NumberedById(Created(c, names, groups), first);
    ManyHeadersMerge(Table(c, names, groups, first), n);
  }

  // ---------- in the terms of the order lines

  ghost predicate UniformGroups(groups: seq<Group>) {
    forall i :: 0 <= i < |groups| ==> groups[i].lines != [] && Uniform(groups[i], groups[i].lines[0].Cores())
  }

  ghost predicate AllIdle(groups: seq<Group>) { forall i :: 0 <= i < |groups| ==> groups[i].Idle() }

  /** Creation, then repair, where no two groups share a name, the lines of each group have one number
      of cores and none is covered by stock: nothing changes exactly without an allowance for
      defects, unless there is no work at all. */
  lemma AllowanceExactly(c: Setup, lines: seq<Line>, groups: seq<Group>, first: int)
    requires Grouped(SumsOf(c), lines, groups) && LinesApart(lines)
    requires DifferentNames(NameOf, groups) && UniformGroups(groups)
    ensures var t := Table(c, NameOf, groups, first); Deduped(t) == t <==> c.buffer == 0.0 || AllIdle(groups)
  {
    hide Table, Deduped, NamedLines, AccountedUnder;
    RepairAfterCreationExactly(c, lines, groups, first);
    forall k | 0 <= k < |groups| && !groups[k].Idle()
      ensures AccountedUnder(NameOf, groups, k) <==> c.buffer == 0.0
    {
      assert SoundGroup(SumsOf(c), lines, groups[k]);
      AccountedAlone(NameOf, groups, k);
      AllowanceIsLost(c, groups[k], groups[k].lines[0].Cores());
    }
  }

  // ---------- when two groups share a name

  predicate NoHyphen(s: string) { '-' !in s }

  lemma {:induction false} DigitsMean(n: nat)
    ensures Digits(n) != [] && NoHyphen(Digits(n))
    decreases n
  {
    if n >= 10 { DigitsMean(n / 10); }
  }

  lemma {:induction false} DigitsApart(m: nat, n: nat)
    requires Digits(m) == Digits(n)
    ensures m == n
    decreases m
  {
    var x, y := if m < 10 then "" else Digits(m / 10), if n < 10 then "" else Digits(n / 10);
    assert Digits(m)[..|x|] == x && Digits(n)[..|y|] == y;
    assert Digits(m)[|x|] == (m % 10) as char + '0' && Digits(n)[|y|] == (n % 10) as char + '0';
    if m >= 10 { DigitsMean(m / 10); }
    if n >= 10 { DigitsMean(n / 10); }
    if m >= 10 && n >= 10 { DigitsApart(m / 10, n / 10); }
  }

  lemma BeforeTheHyphen(x: string, s: string)
    requires NoHyphen(x)
    ensures var a := x + "-" + s; a[|x|] == '-' && forall n :: 0 <= n < |x| ==> a[n] != '-'
  {
    forall n | 0 <= n < |x| ensures (x + "-" + s)[n] != '-' { assert x[n] in x; }
  }

  lemma FirstHyphen(x: string, y: string, s: string, t: string)
    requires NoHyphen(x) && NoHyphen(y) && x + "-" + s == y + "-" + t
    ensures x == y && s == t
  {
    var a, b := x + "-" + s, y + "-" + t;
    BeforeTheHyphen(x, s);
    BeforeTheHyphen(y, t);
    assert a[..|x|] == x && b[..|y|] == y && a[|x| + 1..] == s && b[|y| + 1..] == t;
  }

  /** Names with a whole part that is not negative, and voltages without a hyphen, are equal exactly
      when whole part, voltage and kind are: the fraction of the cross-section is lost. */
  lemma SameNameExactly(a: GroupKey, b: GroupKey)
    requires Whole(a.sq) >= 0 && Whole(b.sq) >= 0 && NoHyphen(a.voltage) && NoHyphen(b.voltage)
    ensures NameOf(a) == NameOf(b) <==> Whole(a.sq) == Whole(b.sq) && a.voltage == b.voltage && a.kind == b.kind
  {
    if NameOf(a) == NameOf(b) {
      var x, y := Digits(Whole(a.sq)), Digits(Whole(b.sq));
      var s, t := a.voltage + "-" + a.kind, b.voltage + "-" + b.kind;
      assert NameOf(a) == "ST-" + (x + "-" + s) && NameOf(b) == "ST-" + (y + "-" + t);
      assert NameOf(a)[3..] == x + "-" + s && NameOf(b)[3..] == y + "-" + t;
      DigitsMean(Whole(a.sq));
      DigitsMean(Whole(b.sq));
      FirstHyphen(x, y, s, t);
      DigitsApart(Whole(a.sq), Whole(b.sq));
      FirstHyphen(a.voltage, b.voltage, a.kind, b.kind);
    }
  }

  /** Two groups with work whose cross-sections differ in the fraction only are never left alone. */
  lemma FractionsMerge(c: Setup, lines: seq<Line>, groups: seq<Group>, first: int, i: nat, j: nat)
    requires Grouped(SumsOf(c), lines, groups) && i < j < |groups| && !groups[i].Idle() && !groups[j].Idle()
    requires var a, b := groups[i].key, groups[j].key;
             Whole(a.sq) == Whole(b.sq) && a.voltage == b.voltage && a.kind == b.kind
    ensures groups[i].key.sq != groups[j].key.sq
    ensures var t := Table(c, NameOf, groups, first); Deduped(t) != t
  {
    NamedAlways(groups[i].key);
    OneNameMerges(c, NameOf, groups, first, i, j);
  }
}
