/** Which lines make a strand group, what counts as covered by stock, and where the rows of the groups
    stand in the table. */
module StrandGroups {
  import opened Batches
  import opened Strand
  import opened StrandBatches

  // ---------- the text without the word for stock

  ghost predicate Mentions(s: string) { exists i :: MentionedAt(s, i) }

  ghost predicate MentionedAt(s: string, i: int) { 0 <= i && i + 1 < |s| && s[i] == '재' && s[i + 1] == '고' }

  /** The parts with the word between them. */
  ghost function Joined(parts: seq<string>): string {
    if parts == [] then "" else if |parts| == 1 then parts[0] else parts[0] + "재고" + Joined(parts[1..])
  }

  ghost function Together(parts: seq<string>): string {
    if parts == [] then "" else parts[0] + Together(parts[1..])
  }

  /** `s` cut at each mention of the word. */
  ghost predicate Pieces(s: string, parts: seq<string>) {
    parts != [] && s == Joined(parts) && forall i :: 0 <= i < |parts| ==> !Mentions(parts[i])
  }

  lemma {:induction false} CutUp(s: string) returns (parts: seq<string>)
    ensures Pieces(s, parts)
    decreases |s|
  {
    if s == "" {
      parts := [""];
    } else if "재고" <= s {
      var rest := CutUp(s[2..]);
      parts := [""] + rest;
      assert parts[1..] == rest && s == "재고" + s[2..];
    } else {
      var rest := CutUp(s[1..]);
      var first := [s[0]] + rest[0];
      parts := [first] + rest[1..];
      assert s == [s[0]] + s[1..] && parts[1..] == rest[1..];
      StartsWith(rest);
      NotMentioned(s, rest[0]);
      forall i | 0 <= i < |parts| ensures !Mentions(parts[i]) { if i > 0 { assert parts[i] == rest[i]; } }
    }
  }

  lemma StartsWith(parts: seq<string>)
    requires parts != []
    ensures parts[0] <= Joined(parts)
  {
  }

  lemma NotMentioned(s: string, part: string)
    requires s != "" && !("재고" <= s) && part <= s[1..] && !Mentions(part)
    ensures !Mentions([s[0]] + part)
  {
    var t := [s[0]] + part;
    forall i ensures !MentionedAt(t, i) {
      if 0 < i && i + 1 < |t| { assert !MentionedAt(part, i - 1); }
      if i == 0 && 1 < |t| { assert t[1] == s[1] && s[..2] == [s[0], s[1]]; }
    }
  }

  lemma WordAhead(parts: seq<string>)
    requires 1 < |parts| && parts[0] == ""
    ensures |Joined(parts[1..])| < |Joined(parts)|
    ensures Without(Joined(parts)) == Without(Joined(parts[1..])) && Together(parts) == Together(parts[1..])
  {
    var s := Joined(parts);
    assert s == "재고" + Joined(parts[1..]) && s[2..] == Joined(parts[1..]);
  }

  lemma LetterAhead(parts: seq<string>, less: seq<string>)
    requires parts != [] && parts[0] != "" && !Mentions(parts[0]) && less == [parts[0][1..]] + parts[1..]
    ensures |Joined(less)| < |Joined(parts)|
    ensures Without(Joined(parts)) == [parts[0][0]] + Without(Joined(less))
    ensures Together(parts) == [parts[0][0]] + Together(less)
  {
    hide Mentions;
    var s := Joined(parts);
    assert less[1..] == parts[1..] && s == [parts[0][0]] + Joined(less) && s[1..] == Joined(less);
    NotAtStart(parts);
  }

  /** Taking the word out leaves the pieces, put together: every mention goes, and nothing else. */
  lemma {:induction false} WithoutIsTogether(parts: seq<string>)
    requires parts != [] && forall i :: 0 <= i < |parts| ==> !Mentions(parts[i])
    ensures Without(Joined(parts)) == Together(parts)
    decreases |Joined(parts)|
  {
    hide Mentions, Joined, Without, Together;
    if parts[0] != "" {
      var less := [parts[0][1..]] + parts[1..];
      LetterAhead(parts, less);
      ShorterPart(parts[0]);
      forall i | 0 <= i < |less| ensures !Mentions(less[i]) { if i > 0 { assert less[i] == parts[i]; } }
      WithoutIsTogether(less);
    } else if |parts| > 1 {
      WordAhead(parts);
      WithoutIsTogether(parts[1..]);
    } else {
      assert parts == [""];
      NothingToTake();
    }
  }

  lemma NothingToTake()
    ensures Without(Joined([""])) == Together([""])
  {
  }

  lemma ShorterPart(part: string)
    requires part != "" && !Mentions(part)
    ensures !Mentions(part[1..])
  {
    forall i ensures !MentionedAt(part[1..], i) { assert !MentionedAt(part, i + 1); }
  }

  lemma WordFirst(s: string)
    ensures "재고" <= s <==> 2 <= |s| && s[0] == '재' && s[1] == '고'
  {
  }

  lemma NotAtStart(parts: seq<string>)
    requires parts != [] && parts[0] != "" && !Mentions(parts[0])
    ensures !("재고" <= Joined(parts))
  {
    var s := Joined(parts);
    WordFirst(s);
    StartsWith(parts);
    assert !MentionedAt(parts[0], 0);
    if 2 <= |parts[0]| {
      assert s[0] == parts[0][0] && s[1] == parts[0][1];
    } else if 1 < |parts| {
      assert s[1] == '재';
    }
  }

  /** Stock covers a line that was served from it if its kind, but for the word for stock, is stranded or
      insulated wire. */
  ghost predicate StockCovers(l: Line) {
    l.useWip && exists parts :: Pieces(l.wipType, parts) && (Together(parts) == "연선" || Together(parts) == "절연")
  }

  lemma CoveredExactly(l: Line)
    ensures l.Covered() <==> StockCovers(l)
  {
    var parts := CutUp(l.wipType);
    WithoutIsTogether(parts);
    forall other | Pieces(l.wipType, other) ensures Together(other) == Without(l.wipType) {
      WithoutIsTogether(other);
    }
  }

  // ---------- what makes a group

  /** The two names of compact stranding, and no name, are one kind. */
  ghost predicate SameKind(a: string, b: string) {
    a == b || (a in {"", "압축", "압축연선"} && b in {"", "압축", "압축연선"})
  }

  ghost predicate AlikeLines(a: Line, b: Line) {
    a.sq == b.sq && a.voltage == b.voltage && SameKind(a.rawKind, b.rawKind)
  }

  ghost predicate Grown(c: Setup, l: Line) { 0.0 < l.qty * (1.0 + c.buffer) }

  /** Single-core metres, with the allowance for defects. */
  ghost function MetresOf(c: Setup): Line -> real {
    (l: Line) => l.qty * (1.0 + c.buffer) * (if l.cores == 0 then 1 else l.cores) as real
  }

  ghost function CoveredMetresOf(c: Setup): Line -> real {
    (l: Line) => if StockCovers(l) then MetresOf(c)(l) else 0.0
  }

  ghost predicate InGroup(groups: seq<Group>, l: Line) { exists k :: 0 <= k < |groups| && l in groups[k].lines }

  ghost predicate InOneGroup(groups: seq<Group>, a: Line, b: Line) {
    exists k :: 0 <= k < |groups| && a in groups[k].lines && b in groups[k].lines
  }

  lemma {:induction false} LinesOfMeans(c: Sums, lines: seq<Line>, key: GroupKey)
    ensures forall l :: l in LinesOf(c, lines, key) <==> l in lines && c.counts(l) && c.key(l) == key
    decreases |lines|
  {
    if lines != [] {
      var n := |lines| - 1;
      LinesOfMeans(c, lines[..n], key);
      assert lines == lines[..n] + [lines[n]];
    }
  }

  lemma CountsMeans(c: Setup, l: Line)
    ensures SumsOf(c).counts(l) <==> Grown(c, l)
    ensures SumsOf(c).key(l) == l.Key()
  {
    assert SumsOf(c).counts(l) == l.Asks(c.buffer);
  }

  lemma GroupHolds(c: Setup, lines: seq<Line>, groups: seq<Group>, k: nat)
    requires Grouped(SumsOf(c), lines, groups) && k < |groups|
    ensures forall l :: l in groups[k].lines <==> l in lines && Grown(c, l) && l.Key() == groups[k].key
  {
    hide SumsOf, Grown, SumOf, LinesOf;
    LinesOfMeans(SumsOf(c), lines, groups[k].key);
    assert SoundGroup(SumsOf(c), lines, groups[k]);
    forall l ensures (SumsOf(c).counts(l) <==> Grown(c, l)) && SumsOf(c).key(l) == l.Key() { CountsMeans(c, l); }
  }

  /** Lines are in a group if and only if they ask for something, and in the same if and only if they
      agree in cross-section, voltage and kind of stranding. */
  lemma GroupsExactly(c: Setup, lines: seq<Line>, groups: seq<Group>, a: Line, b: Line)
    requires Grouped(SumsOf(c), lines, groups) && a in lines && b in lines
    ensures InGroup(groups, a) <==> Grown(c, a)
    ensures Grown(c, a) && Grown(c, b) ==> (InOneGroup(groups, a, b) <==> AlikeLines(a, b))
  {
    hide Grouped, Grown;
    forall k | 0 <= k < |groups|
      ensures forall l :: l in groups[k].lines <==> l in lines && Grown(c, l) && l.Key() == groups[k].key
    {
      GroupHolds(c, lines, groups, k);
    }
    if Grown(c, a) {
      HasItsGroup(c, lines, groups, a);
      var k :| 0 <= k < |groups| && groups[k].key == a.Key();
      assert a in groups[k].lines;
      assert b in groups[k].lines <==> Grown(c, b) && b.Key() == a.Key();
    }
    assert a.Key() == b.Key() <==> AlikeLines(a, b);
  }

  lemma HasItsGroup(c: Setup, lines: seq<Line>, groups: seq<Group>, l: Line)
    requires Grouped(SumsOf(c), lines, groups) && l in lines && Grown(c, l)
    ensures exists k :: 0 <= k < |groups| && groups[k].key == l.Key()
  {
    hide SumsOf, Grown;
    CountsMeans(c, l);
    assert HasGroup(groups, SumsOf(c).key(l));
  }

  lemma {:induction false} SameSum(lines: seq<Line>, f: Line -> real, g: Line -> real)
    requires forall l :: f(l) == g(l)
    ensures SumOf(lines, f) == SumOf(lines, g)
    decreases |lines|
  {
    if lines != [] { SameSum(lines[..|lines| - 1], f, g); }
  }

  /** What a group knows: the metres of its lines, those that stock covers, and the lot of its size. */
  lemma GroupKnows(c: Setup, lines: seq<Line>, groups: seq<Group>, k: nat)
    requires Grouped(SumsOf(c), lines, groups) && k < |groups|
    ensures var g := groups[k];
            && g.total == SumOf(g.lines, MetresOf(c)) && g.covered == SumOf(g.lines, CoveredMetresOf(c))
            && g.lot == if g.key.sq in c.lots then c.lots[g.key.sq] else 0.0
    ensures forall l :: l in groups[k].lines ==> l in lines && l.sq == groups[k].key.sq
  {
    hide StockCovers, LinesOf;
    var g := groups[k];
    assert SoundGroup(SumsOf(c), lines, g);
    GroupHolds(c, lines, groups, k);
    SameSum(g.lines, SumsOf(c).metres, MetresOf(c));
    forall l ensures SumsOf(c).covered(l) == CoveredMetresOf(c)(l) { CoveredExactly(l); }
    SameSum(g.lines, SumsOf(c).covered, CoveredMetresOf(c));
  }

  // ---------- where the rows stand

  /** Between `offs[i]` and `offs[i + 1]` stand the rows of group `i`. */
  ghost predicate InRow(c: Setup, names: GroupKey -> string, groups: seq<Group>, rows: seq<Row>, offs: seq<nat>) {
    && |offs| == |groups| + 1 && offs[0] == 0 && offs[|groups|] == |rows|
    && forall i :: 0 <= i < |groups| ==>
         StandsBetween(rows, offs[i], offs[i + 1], RowsOf(c, groups[i], names(groups[i].key)))
  }

  ghost predicate StandsBetween(rows: seq<Row>, from: nat, to: nat, part: seq<Row>) {
    from <= to <= |rows| && rows[from..to] == part
  }

  /** The table has the rows of one group after the other, numbered as they come. */
  lemma TableLaidOut(c: Setup, names: GroupKey -> string, groups: seq<Group>, first: int)
    ensures exists offs :: InRow(c, names, groups, Created(c, names, groups), offs)
    ensures var rows, t := Created(c, names, groups), Numbered(Created(c, names, groups), first);
            |t| == |rows| && forall i :: 0 <= i < |rows| ==> t[i].id == first + i && t[i].(id := rows[i].id) == rows[i]
  {
    hide RowsOf;
    var offs := GroupsInRow(c, names, groups);
  }

  lemma {:induction false} GroupsInRow(c: Setup, names: GroupKey -> string, groups: seq<Group>) returns (offs: seq<nat>)
    ensures InRow(c, names, groups, Created(c, names, groups), offs)
    decreases |groups|
  {
    hide RowsOf;
    if groups == [] {
      offs := [0];
    } else {
      var n := |groups| - 1;
      var o := GroupsInRow(c, names, groups[..n]);
      var before, more := Created(c, names, groups[..n]), RowsOf(c, groups[n], names(groups[n].key));
      var rows := Created(c, names, groups);
      assert rows == before + more;
      offs := o + [|rows|];
      forall i | 0 <= i < |groups|
        ensures StandsBetween(rows, offs[i], offs[i + 1], RowsOf(c, groups[i], names(groups[i].key)))
      {
        if i < n {
          assert groups[..n][i] == groups[i];
          assert rows[o[i]..o[i + 1]] == before[o[i]..o[i + 1]];
        } else {
          assert rows[|before|..|rows|] == more;
        }
      }
    }
  }

  // ---------- numbers in names

  ghost function Read(s: string): int {
    if s == "" then 0 else Read(s[..|s| - 1]) * 10 + (s[|s| - 1] as int - '0' as int)
  }

  lemma ReadMore(s: string, d: nat)
    requires d < 10
    ensures Read(s + [d as char + '0']) == Read(s) * 10 + d
  {
    assert (s + [d as char + '0'])[..|s|] == s;
  }

  /** A number is written with its decimal digits, without a leading zero. */
  lemma {:induction false} DigitsRead(n: nat)
    ensures Read(Digits(n)) == n && Digits(n) != ""
    ensures forall i :: 0 <= i < |Digits(n)| ==> '0' <= Digits(n)[i] <= '9'
    ensures 0 < n ==> Digits(n)[0] != '0'
  {
    hide Read;
    var front := if n < 10 then "" else Digits(n / 10);
    if n < 10 { assert Read(front) == 0 by { NothingRead(); } } else { DigitsRead(n / 10); }
    ReadMore(front, n % 10);
    assert Digits(n) == front + [(n % 10) as char + '0'];
  }

  lemma NothingRead()
    ensures Read("") == 0
  {
  }
}
