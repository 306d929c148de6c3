/** The table after an automatic split, and when the repair pass leaves it alone. */
module SplitFixpoint {
  import opened Wrappers
  import opened Batches
  import opened Dedupe
  import opened DedupeLaws
  import opened AutoSplit
  import opened SplitLaws

  // ---------- rows picked and changed

  /** The rows that `keep` wants, changed. */
  function Pick(keep: Row -> bool, change: Row -> Row): Row -> seq<Row> {
    (r: Row) => if keep(r) then [change(r)] else []
  }

  ghost predicate Sees(become: Row -> seq<Row>, keep: Row -> bool, pick: Row -> seq<Row>, r: Row) {
    Where(become(r), keep) == pick(r)
  }

  lemma {:induction false} EachSeen(rows: seq<Row>, become: Row -> seq<Row>, keep: Row -> bool, pick: Row -> seq<Row>)
    requires forall r :: Sees(become, keep, pick, r)
    ensures Where(Each(rows, become), keep) == Each(rows, pick)
    decreases |rows|
  {
    if rows != [] {
      var n := |rows| - 1;
      var before, r := rows[..n], rows[n];
      EachSeen(before, become, keep, pick);
      assert Sees(become, keep, pick, r);
      EachSnoc(before, r, become);
      EachSnoc(before, r, pick);
      WhereConcat(Each(before, become), become(r), keep);
      assert rows == before + [r];
    }
  }

  lemma {:induction false} PickSame(rows: seq<Row>, keep: Row -> bool)
    ensures Each(rows, Pick(keep, x => x)) == Where(rows, keep)
    decreases |rows|
  {
    if rows != [] {
      var n := |rows| - 1;
      PickSame(rows[..n], keep);
    }
  }

  /** What a header is counted from stays as it is. */
  ghost predicate KeepsCounts(change: Row -> Row) {
    forall r :: change(r).length == r.length && change(r).due == r.due && change(r).priority == r.priority
  }

  lemma {:induction false} PickAlike(rows: seq<Row>, keep: Row -> bool, change: Row -> Row)
    requires KeepsCounts(change)
    ensures Alike(Each(rows, Pick(keep, change)), Where(rows, keep))
    decreases |rows|
  {
    if rows != [] {
      var n := |rows| - 1;
      PickAlike(rows[..n], keep, change);
    }
  }

  // ---------- the state of the table

  /** A table that the repair pass would leave alone, and a split of one of its groups that moves
      order rows under a name that no header has yet. */
  ghost predicate Splits(rows: seq<Row>, h: Row, group: string, ids: set<int>, to: string, newId: int) {
    && ById(rows) && Deduped(rows) == rows
    && group != "" && to != "" && to != group && (forall r :: r in rows ==> r.id < newId)
    && Headers(rows, group) == [h] && Headers(rows, to) == [] && h.id !in ids
    && Off(rows, group, ids) != []
    && NetOf(h, Off(rows, group, ids)) >= 0.0 && NetOf(h, Left(rows, group, ids)) >= 0.0
  }

  lemma SplitsMeans(rows: seq<Row>, h: Row, group: string, ids: set<int>, to: string, newId: int)
    requires Splits(rows, h, group, ids, to, newId)
    ensures h in rows && IsHeader(group)(h) && to != group
    ensures Subs(rows, group) != []
    ensures NoRepeats(rows) && Settled(rows, group) && group in HeaderGroups(rows)
  {
    WhereMeans(rows, IsHeader(group));
    assert h in Headers(rows, group);
    HeaderGroupsMean(rows, group);
    UnchangedExactly(rows);
    SplitKeepsOrders(rows, group, ids);
  }

  function All(change: Row -> Row): Row -> seq<Row> { (r: Row) => [change(r)] }

  lemma {:induction false} PickTwice(rows: seq<Row>, keep: Row -> bool, change: Row -> Row)
    ensures Each(rows, Pick(keep, change)) == Each(Where(rows, keep), All(change))
    decreases |rows|
  {
    if rows != [] {
      var n := |rows| - 1;
      var before, r := rows[..n], rows[n];
      assert rows == before + [r];
      PickTwice(before, keep, change);
      EachSnoc(before, r, Pick(keep, change));
      WhereSnoc(before, r, keep);
      var kept := Where(before, keep);
      if keep(r) { EachSnoc(kept, r, All(change)); } else { assert kept + [] == kept; }
    }
  }

  lemma {:induction false} WhereAgree(rows: seq<Row>, n: nat, p: Row -> bool, q: Row -> bool)
    requires n <= |rows| && forall i :: 0 <= i < |rows| ==> p(rows[i]) == q(rows[i])
    ensures Where(rows[..n], p) == Where(rows[..n], q)
    decreases n
  {
    if n > 0 {
      WhereAgree(rows, n - 1, p, q);
      assert rows[..n][..n - 1] == rows[..n - 1];
    }
  }

  lemma {:induction false} EachAt(rows: seq<Row>, become: Row -> seq<Row>)
    requires forall r :: |become(r)| == 1
    ensures |Each(rows, become)| == |rows|
            && forall i :: 0 <= i < |rows| ==> Each(rows, become)[i] == become(rows[i])[0]
    decreases |rows|
  {
    if rows != [] { EachAt(rows[..|rows| - 1], become); }
  }

  // ---------- groups after the split

  lemma MovingUnseen(h: Row, half: Row, group: string, ids: set<int>, to: string, g: string, r: Row)
    requires h.Header() && half.Header() && h.group == half.group == Some(group) && g != group && g != to
    ensures var become := Moving(h, half, group, ids, to); Unseen(become, IsSub(g), r) && Unseen(become, IsHeader(g), r)
  {
    var x := Moved(h, half, group, ids, to, r);
    WhereOne(r, IsSub(g));
    WhereOne(r, IsHeader(g));
    WhereOne(x, IsSub(g));
    WhereOne(x, IsHeader(g));
  }

  lemma OthersUntouched(rows: seq<Row>, h: Row, group: string, ids: set<int>, to: string, newId: int, g: string)
    requires Splits(rows, h, group, ids, to, newId) && g != group && g != to && Off(rows, group, ids) != []
    ensures var after := AfterSplit(rows, h, group, ids, to, newId);
            Subs(after, g) == Subs(rows, g) && Headers(after, g) == Headers(rows, g)
  {
    SplitsMeans(rows, h, group, ids, to, newId);
    var off, left := Off(rows, group, ids), Left(rows, group, ids);
    var half, made := Half(h, left, off), NewHeader(h, off, left, to, newId);
    var become := Moving(h, half, group, ids, to);
    hide Where, Each, Splits, LotsOf, Share, SurplusOf, EarliestDue, BestPriority;
    forall r ensures Unseen(become, IsSub(g), r) && Unseen(become, IsHeader(g), r) {
      MovingUnseen(h, half, group, ids, to, g, r);
    }
    EachUnseen(rows, become, IsSub(g));
    EachUnseen(rows, become, IsHeader(g));
    WhereSnoc(Each(rows, become), made, IsSub(g));
    WhereSnoc(Each(rows, become), made, IsHeader(g));
  }

  lemma SeesLeft(h: Row, half: Row, group: string, ids: set<int>, to: string, r: Row)
    requires h.Header() && half.Header() && to != group
    ensures Sees(Moving(h, half, group, ids, to), IsSub(group), Pick(IsLeft(group, ids), x => x), r)
  {
    WhereOne(Moved(h, half, group, ids, to, r), IsSub(group));
  }

  lemma SubsLeft(rows: seq<Row>, h: Row, group: string, ids: set<int>, to: string, newId: int)
    requires Splits(rows, h, group, ids, to, newId)
    ensures Subs(AfterSplit(rows, h, group, ids, to, newId), group) == Left(rows, group, ids)
  {
    SplitsMeans(rows, h, group, ids, to, newId);
    var off, left := Off(rows, group, ids), Left(rows, group, ids);
    var made := NewHeader(h, off, left, to, newId);
    var become := Moving(h, Half(h, left, off), group, ids, to);
    var pick := Pick(IsLeft(group, ids), x => x);
    hide Where, Each, Splits, LotsOf, Share, SurplusOf, EarliestDue, BestPriority;
    forall r ensures Sees(become, IsSub(group), pick, r) {
      SeesLeft(h, Half(h, left, off), group, ids, to, r);
    }
    EachSeen(rows, become, IsSub(group), pick);
    PickSame(rows, IsLeft(group, ids));
    WhereSnoc(Each(rows, become), made, IsSub(group));
  }

  function ToGroup(to: string): Row -> Row { (r: Row) => r.(group := Some(to)) }

  function OffOrIn(group: string, ids: set<int>, to: string): Row -> bool {
    (r: Row) => IsOff(group, ids)(r) || IsSub(to)(r)
  }

  lemma SeesMovedOne(h: Row, half: Row, group: string, ids: set<int>, to: string, r: Row)
    requires IsHeader(group)(h) && half.Header() && to != group
    ensures Sees(Moving(h, half, group, ids, to), IsSub(to), Pick(OffOrIn(group, ids, to), ToGroup(to)), r)
  {
    var x := Moved(h, half, group, ids, to, r);
    WhereOne(x, IsSub(to));
    assert Moving(h, half, group, ids, to)(r) == [x];
    assert OffOrIn(group, ids, to)(r) == (IsOff(group, ids)(r) || IsSub(to)(r));
    assert IsOff(group, ids)(r) == (IsSub(group)(r) && r.id in ids);
    assert IsSub(group)(r) == (r.group == Some(group) && r.rank >= 1);
    if r == h {
      assert x.Header() && r.Header();
    } else if IsSub(to)(r) {
      assert x == r == ToGroup(to)(r);
    }
  }

  lemma SeesMoved(h: Row, half: Row, group: string, ids: set<int>, to: string)
    requires IsHeader(group)(h) && half.Header() && to != group
    ensures forall r :: Sees(Moving(h, half, group, ids, to), IsSub(to), Pick(OffOrIn(group, ids, to), ToGroup(to)), r)
  {
    forall r ensures Sees(Moving(h, half, group, ids, to), IsSub(to), Pick(OffOrIn(group, ids, to), ToGroup(to)), r) {
      SeesMovedOne(h, half, group, ids, to, r);
    }
  }

  /** No row bears the name yet. */
  ghost predicate Fresh(rows: seq<Row>, to: string) { forall r :: r in rows ==> r.group != Some(to) }

  /** The order rows that the split moves, and those that bear the new name already, in order. */
  function Joined(rows: seq<Row>, group: string, ids: set<int>, to: string): seq<Row> {
    Each(Where(rows, OffOrIn(group, ids, to)), All(ToGroup(to)))
  }

  lemma NoneInYet(rows: seq<Row>, group: string, ids: set<int>, to: string)
    requires Fresh(rows, to)
    ensures Where(rows, OffOrIn(group, ids, to)) == Off(rows, group, ids)
  {
    WhereAgree(rows, |rows|, OffOrIn(group, ids, to), IsOff(group, ids));
    assert rows[..|rows|] == rows;
  }

  lemma SubsJoined(rows: seq<Row>, h: Row, group: string, ids: set<int>, to: string, newId: int)
    requires Splits(rows, h, group, ids, to, newId)
    ensures Subs(AfterSplit(rows, h, group, ids, to, newId), to) == Joined(rows, group, ids, to)
  {
    SplitsMeans(rows, h, group, ids, to, newId);
    var off, left := Off(rows, group, ids), Left(rows, group, ids);
    var half, made := Half(h, left, off), NewHeader(h, off, left, to, newId);
    var become, keep := Moving(h, half, group, ids, to), OffOrIn(group, ids, to);
    SeesMoved(h, half, group, ids, to);
    EachSeen(rows, become, IsSub(to), Pick(keep, ToGroup(to)));
    PickTwice(rows, keep, ToGroup(to));
    WhereSnoc(Each(rows, become), made, IsSub(to));
  }

  lemma SubsMoved(rows: seq<Row>, h: Row, group: string, ids: set<int>, to: string, newId: int)
    requires Splits(rows, h, group, ids, to, newId) && Fresh(rows, to)
    ensures var moved := Subs(AfterSplit(rows, h, group, ids, to, newId), to);
            Alike(moved, Off(rows, group, ids)) && moved == Each(Off(rows, group, ids), All(ToGroup(to)))
  {
    var keep := OffOrIn(group, ids, to);
    SubsJoined(rows, h, group, ids, to, newId);
    PickAlike(rows, keep, ToGroup(to));
    PickTwice(rows, keep, ToGroup(to));
    NoneInYet(rows, group, ids, to);
  }

  function StaysHeader(group: string, ids: set<int>): Row -> bool { (r: Row) => IsHeader(group)(r) && r.id !in ids }

  function Swap(h: Row, half: Row): Row -> Row { (r: Row) => if r == h then half else r }

  lemma SeesHeader(h: Row, half: Row, group: string, ids: set<int>, to: string)
    requires IsHeader(group)(h) && half.Header() && half.group == h.group && half.id == h.id && to != group
    ensures var pick := Pick(StaysHeader(group, ids), Swap(h, half));
            forall r :: Sees(Moving(h, half, group, ids, to), IsHeader(group), pick, r)
  {
    forall r
      ensures Sees(Moving(h, half, group, ids, to), IsHeader(group), Pick(StaysHeader(group, ids), Swap(h, half)), r)
    {
      WhereOne(Moved(h, half, group, ids, to, r), IsHeader(group));
    }
  }

  lemma OnlyHeader(rows: seq<Row>, h: Row, group: string, ids: set<int>)
    requires Headers(rows, group) == [h] && h.id !in ids
    ensures Where(rows, StaysHeader(group, ids)) == [h]
  {
    WhereMeans(rows, IsHeader(group));
    forall i | 0 <= i < |rows| ensures StaysHeader(group, ids)(rows[i]) == IsHeader(group)(rows[i]) {
      if IsHeader(group)(rows[i]) { assert rows[i] in Headers(rows, group); }
    }
    WhereAgree(rows, |rows|, StaysHeader(group, ids), IsHeader(group));
    assert rows[..|rows|] == rows;
  }

  lemma HeaderLeftBehind(rows: seq<Row>, h: Row, group: string, ids: set<int>, to: string, newId: int)
    requires Splits(rows, h, group, ids, to, newId)
    ensures Headers(AfterSplit(rows, h, group, ids, to, newId), group) ==
            [Half(h, Left(rows, group, ids), Off(rows, group, ids))]
  {
    hide LotsOf, Share, SurplusOf, EarliestDue, BestPriority, Deduped;
    SplitsMeans(rows, h, group, ids, to, newId);
    var off, left := Off(rows, group, ids), Left(rows, group, ids);
    var half, made := Half(h, left, off), NewHeader(h, off, left, to, newId);
    var become := Moving(h, half, group, ids, to);
    SeesHeader(h, half, group, ids, to);
    EachSeen(rows, become, IsHeader(group), Pick(StaysHeader(group, ids), Swap(h, half)));
    PickTwice(rows, StaysHeader(group, ids), Swap(h, half));
    OnlyHeader(rows, h, group, ids);
    EachSnoc([], h, All(Swap(h, half)));
    assert [] + [h] == [h];
    WhereSnoc(Each(rows, become), made, IsHeader(group));
  }

  function GoesHeader(group: string, ids: set<int>, to: string): Row -> bool {
    (r: Row) => IsHeader(to)(r) || (IsHeader(group)(r) && r.id in ids)
  }

  function SwapAndGo(h: Row, half: Row, to: string): Row -> Row {
    (r: Row) => if r == h then half.(group := Some(to)) else r.(group := Some(to))
  }

  lemma SeesMade(h: Row, half: Row, group: string, ids: set<int>, to: string)
    requires IsHeader(group)(h) && half.Header() && half.group == h.group && half.id == h.id && to != group
    ensures var pick := Pick(GoesHeader(group, ids, to), SwapAndGo(h, half, to));
            forall r :: Sees(Moving(h, half, group, ids, to), IsHeader(to), pick, r)
  {
    forall r
      ensures Sees(Moving(h, half, group, ids, to), IsHeader(to),
                   Pick(GoesHeader(group, ids, to), SwapAndGo(h, half, to)), r)
    {
      WhereOne(Moved(h, half, group, ids, to, r), IsHeader(to));
    }
  }

  lemma NoneGoes(rows: seq<Row>, h: Row, group: string, ids: set<int>, to: string)
    requires Headers(rows, group) == [h] && h.id !in ids && Headers(rows, to) == []
    ensures Where(rows, GoesHeader(group, ids, to)) == []
  {
    WhereMeans(rows, IsHeader(group));
    WhereMeans(rows, IsHeader(to));
    forall i | 0 <= i < |rows| ensures !GoesHeader(group, ids, to)(rows[i]) {
      if IsHeader(group)(rows[i]) { assert rows[i] in Headers(rows, group); }
      assert rows[i] !in Headers(rows, to);
    }
    WhereNone(rows, |rows|, GoesHeader(group, ids, to));
    assert rows[..|rows|] == rows;
  }

  lemma HeaderMade(rows: seq<Row>, h: Row, group: string, ids: set<int>, to: string, newId: int)
    requires Splits(rows, h, group, ids, to, newId)
    ensures Headers(AfterSplit(rows, h, group, ids, to, newId), to)
              == [NewHeader(h, Off(rows, group, ids), Left(rows, group, ids), to, newId)]
  {
    hide LotsOf, Share, SurplusOf, EarliestDue, BestPriority, Deduped;
    SplitsMeans(rows, h, group, ids, to, newId);
    var off, left := Off(rows, group, ids), Left(rows, group, ids);
    var half, made := Half(h, left, off), NewHeader(h, off, left, to, newId);
    var become := Moving(h, half, group, ids, to);
    SeesMade(h, half, group, ids, to);
    EachSeen(rows, become, IsHeader(to), Pick(GoesHeader(group, ids, to), SwapAndGo(h, half, to)));
    PickTwice(rows, GoesHeader(group, ids, to), SwapAndGo(h, half, to));
    NoneGoes(rows, h, group, ids, to);
    WhereSnoc(Each(rows, become), made, IsHeader(to));
  }

  // ---------- keys after the split

  /** No row that the split moves has the key of one that bears the new name already. */
  ghost predicate KeysFree(rows: seq<Row>, group: string, ids: set<int>, to: string) {
    forall i, j :: 0 <= i < |rows| && 0 <= j < |rows| && Joins(rows[i], rows[j], group, ids, to) ==>
      KeyOf(rows[i].(group := Some(to))) != KeyOf(rows[j])
  }

  lemma FreshKeys(rows: seq<Row>, group: string, ids: set<int>, to: string)
    requires Fresh(rows, to)
    ensures KeysFree(rows, group, ids, to)
  {
  }

  lemma KeysAfterSplit(rows: seq<Row>, h: Row, group: string, ids: set<int>, to: string, newId: int)
    requires Splits(rows, h, group, ids, to, newId)
    ensures var after := AfterSplit(rows, h, group, ids, to, newId);
            ById(after) && (NoRepeats(after) <==> KeysFree(rows, group, ids, to))
  {
    hide NoRepeats, KeysFree, Each, Where, LotsOf, Share, SurplusOf, EarliestDue, BestPriority, Deduped;
    SplitsMeans(rows, h, group, ids, to, newId);
    var off, left := Off(rows, group, ids), Left(rows, group, ids);
    var half, made := Half(h, left, off), NewHeader(h, off, left, to, newId);
    var moved := Each(rows, Moving(h, half, group, ids, to));
    EachAt(rows, Moving(h, half, group, ids, to));
    forall i | 0 <= i < |rows| ensures moved[i] == Moved(h, half, group, ids, to, rows[i]) && rows[i].id < newId {
      assert rows[i] in rows;
    }
    KeysMoved(rows, moved, h, half, group, ids, to);
    AppendHeader(moved, made);
  }

  lemma AppendHeader(rows: seq<Row>, h: Row)
    requires ById(rows) && h.Header() && forall i :: 0 <= i < |rows| ==> rows[i].id < h.id
    ensures ById(rows + [h]) && (NoRepeats(rows + [h]) <==> NoRepeats(rows))
  {
    var all := rows + [h];
    if NoRepeats(rows) { NoRepeatsGrows(rows, h); }
    if NoRepeats(all) {
      forall i, j | 0 <= i < j < |rows| && Compared(rows[i]) && Compared(rows[j])
        ensures KeyOf(rows[i]) != KeyOf(rows[j])
      {
        assert all[i] == rows[i] && all[j] == rows[j];
      }
    }
  }

  lemma KeysMoved(rows: seq<Row>, moved: seq<Row>, h: Row, half: Row, group: string, ids: set<int>, to: string)
    requires IsHeader(group)(h) && half.Header() && half.id == h.id && |moved| == |rows| && ById(rows)
             && NoRepeats(rows)
    requires forall i :: 0 <= i < |rows| ==> moved[i] == Moved(h, half, group, ids, to, rows[i])
    requires to != group
    ensures ById(moved) && (NoRepeats(moved) <==> KeysFree(rows, group, ids, to))
  {
    if KeysFree(rows, group, ids, to) {
      forall i, j | 0 <= i < j < |moved| && Compared(moved[i]) && Compared(moved[j])
        ensures KeyOf(moved[i]) != KeyOf(moved[j])
      {
        KeyApart(rows[i], rows[j], h, half, group, ids, to);
      }
    }
    if NoRepeats(moved) {
      forall i, j | 0 <= i < |rows| && 0 <= j < |rows| && Joins(rows[i], rows[j], group, ids, to)
        ensures KeyOf(rows[i].(group := Some(to))) != KeyOf(rows[j])
      {
        KeyJoins(rows[i], rows[j], h, half, group, ids, to);
        assert i != j;
      }
    }
  }

  /** Row `a` moves to where `b` is already. */
  predicate Joins(a: Row, b: Row, group: string, ids: set<int>, to: string) {
    Compared(a) && Compared(b) && a.group == Some(group) && a.id in ids && b.group == Some(to)
  }

  lemma KeyJoins(a: Row, b: Row, h: Row, half: Row, group: string, ids: set<int>, to: string)
    requires IsHeader(group)(h) && half.Header() && to != group && Joins(a, b, group, ids, to)
    ensures Moved(h, half, group, ids, to, a) == a.(group := Some(to)) && Moved(h, half, group, ids, to, b) == b
  {
  }

  lemma KeyApart(a: Row, b: Row, h: Row, half: Row, group: string, ids: set<int>, to: string)
    requires IsHeader(group)(h) && half.Header() && to != group
    requires Compared(a) && Compared(b) ==> KeyOf(a) != KeyOf(b)
    requires Joins(a, b, group, ids, to) ==> KeyOf(a.(group := Some(to))) != KeyOf(b)
    requires Joins(b, a, group, ids, to) ==> KeyOf(b.(group := Some(to))) != KeyOf(a)
    ensures var x, y := Moved(h, half, group, ids, to, a), Moved(h, half, group, ids, to, b);
            Compared(x) && Compared(y) ==> KeyOf(x) != KeyOf(y)
  {
  }

  // ---------- the halves and the repair pass

  /** A header made for rows like `subs`, with work to do, is left alone exactly when its minutes are
      what its speed makes of its length. */
  lemma HalfIsSettledExactly(h: Row, part: seq<Row>, other: seq<Row>, subs: seq<Row>, head: Row)
    requires Alike(subs, part) && NetOf(h, part) > 0.0
    requires head == Half(h, part, other).(id := head.id, group := head.group, order := head.order, line := head.line)
    ensures Rebuilt(head, subs, 1) == head <==> h.speed <= 0.0 || head.duration == Some(head.length / h.speed)
  {
    AlikeCounts(subs, part, head.due);
    assert Total([]) == 0.0;
    EarliestDueSame(part, h.due, EarliestDue(part, h.due));
    assert NetOf(head, subs) == NetOf(h, part);
    WorkOfHalf(h, part, head, subs);
    RebuiltIs(head, subs, LotsOf(h, part));
  }

  /** Without work to do it is left alone anyway. */
  lemma IdleHalfIsSettled(h: Row, part: seq<Row>, other: seq<Row>, subs: seq<Row>, head: Row)
    requires Alike(subs, part) && NetOf(h, part) == 0.0
    requires head == Half(h, part, other).(id := head.id, group := head.group, order := head.order, line := head.line)
    ensures Rebuilt(head, subs, 1) == head
  {
    AlikeCounts(subs, part, head.due);
    EarliestDueSame(part, h.due, EarliestDue(part, h.due));
    assert NetOf(head, subs) == NetOf(h, part);
    assert WorkOf(head, subs) == Work(0, 0.0);
    NoTime(Minutes(h), LotsOf(h, other).length);
    if subs != [] {
      if h.speed > 0.0 { assert 0.0 / h.speed == 0.0; }
      RebuiltIs(head, subs, Work(0, 0.0));
    }
  }

  lemma NoTime(m: real, whole: real)
    ensures Share(m, 0.0, 0.0 + whole) == 0.0
  {
    if whole > 0.0 { assert m * 0.0 == 0.0 && 0.0 / whole == 0.0; }
  }

  lemma WorkOfHalf(h: Row, part: seq<Row>, head: Row, subs: seq<Row>)
    requires NetOf(head, subs) == NetOf(h, part) > 0.0 && head.lot == h.lot
    ensures WorkOf(head, subs) == LotsOf(h, part)
    ensures SurplusOf(h, part) == if WorkOf(head, subs).length - NetOf(head, subs) > 0.0
                                  then WorkOf(head, subs).length - NetOf(head, subs) else 0.0
  {
  }

  /** A header whose other columns are right is left alone exactly when its duration is. */
  lemma RebuiltIs(head: Row, subs: seq<Row>, w: Work)
    requires subs != [] && w == WorkOf(head, subs) && head.drums == w.drums && head.length == w.length
    requires head.due == EarliestDue(subs, head.due) && head.priority == BestPriority(subs)
    requires head.surplus == if w.length - NetOf(head, subs) > 0.0 then w.length - NetOf(head, subs) else 0.0
    ensures Rebuilt(head, subs, 1) == head <==> head.speed <= 0.0 || head.duration == Some(head.length / head.speed)
  {
  }

  /** The share of the minutes is the time of the part exactly when the minutes are the time of the whole. */
  lemma ShareIsTime(m: real, speed: real, part: real, other: real)
    requires speed > 0.0 && part > 0.0 && other >= 0.0
    ensures Share(m, part, part + other) == part / speed <==> m * speed == part + other
  {
    var w := part + other;
    var x, y := m * part / w, part / speed;
    assert x * w == m * part && y * speed == part;
    if m * speed == w {
      assert x * w == m * (y * speed) == (m * speed) * y == w * y;
      Cancel(x, y, w);
    }
    if x == y {
      assert part * w == (y * speed) * w == (x * w) * speed == (m * part) * speed == part * (m * speed);
      Cancel(w, m * speed, part);
    }
  }

  lemma Cancel(x: real, y: real, w: real)
    requires w > 0.0 && w * x == w * y
    ensures x == y
  {
    assert w * (x - y) == 0.0;
  }
}
