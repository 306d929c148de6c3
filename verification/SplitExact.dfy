/** The table after a split, row by row and column by column. */
module SplitExact {
  import opened Wrappers
  import opened Batches
  import opened Dedupe
  import opened DedupeExact
  import opened AutoSplit

  // ---------- the headers of the halves

  ghost predicate PartLots(h: Row, net: real, drums: int, length: real) {
    if 0.0 < net && 0.0 < h.lot then length == drums as real * h.lot && (drums - 1) as real * h.lot < net <= length
    else if 0.0 < net then drums == 1 && length == net
    else drums == 0 && length == 0.0
  }

  /** The time in proportion to the length, none if nothing is to be made. */
  ghost function TimeFor(minutes: real, length: real, whole: real): real {
    if 0.0 < whole then minutes * length / whole else 0.0
  }

  /** Row `r` is header `h` made to stand for the order rows `part`, where `whole` metres are to be made of
      both parts: whole lots, their share of the time, what is left over, and the most pressing dates. */
  ghost predicate HalfOf(h: Row, part: seq<Row>, whole: real, r: Row) {
    var net := Total(part) * (if h.cores == 0 then 1 else h.cores) as real;
    var minutes := if h.duration.Some? then h.duration.value else 0.0;
    && r == h.(drums := r.drums, length := r.length, due := r.due, priority := r.priority,
               duration := Some(TimeFor(minutes, r.length, whole)),
               surplus := if net < r.length then r.length - net else 0.0, merges := [])
    && PartLots(h, net, r.drums, r.length)
    && if part == [] then r.due == h.due && r.priority == 99 else MostPressing(h, part, r)
  }

  lemma LotsFollow(h: Row, net: real)
    ensures var w := LotsFor(net, h.lot, Work(0, 0.0)); PartLots(h, net, w.drums, w.length)
  {
    if 0.0 < net && 0.0 < h.lot {
      LotsAreFewest(net, h.lot, Work(0, 0.0));
      var w := LotsFor(net, h.lot, Work(0, 0.0));
      assert Holds(w.drums, h.lot, net) && !Holds(w.drums - 1, h.lot, net);
    }
  }

  lemma ShareMeans(orig: real, part: real, whole: real)
    ensures Share(orig, part, whole) == TimeFor(orig, part, whole)
  {
  }

  lemma HalfFollows(h: Row, part: seq<Row>, other: seq<Row>)
    ensures HalfOf(h, part, LotsOf(h, part).length + LotsOf(h, other).length, Half(h, part, other))
  {
    hide LotsFor, MostPressing, Total, Share, TimeFor, PartLots;
    LotsFollow(h, NetOf(h, part));
    ShareMeans(Minutes(h), LotsOf(h, part).length, LotsOf(h, part).length + LotsOf(h, other).length);
    assert NetOf(h, part) == Total(part) * (if h.cores == 0 then 1 else h.cores) as real;
    if part != [] { PressingFollows(h, part, Half(h, part, other)); } else { NothingPressing(h, part); }
  }

  lemma NothingPressing(h: Row, part: seq<Row>)
    requires part == []
    ensures EarliestDue(part, h.due) == h.due && BestPriority(part) == 99
  {
  }

  // ---------- the table

  /** Order rows of the group that move, and that stay. */
  ghost predicate Goes(rows: seq<Row>, group: string, ids: set<int>, r: Row) {
    r in rows && r.group == Some(group) && 1 <= r.rank && r.id in ids
  }

  ghost predicate Remains(rows: seq<Row>, group: string, ids: set<int>, r: Row) {
    r in rows && r.group == Some(group) && 1 <= r.rank && r.id !in ids
  }

  ghost predicate FirstHeader(rows: seq<Row>, group: string, h: Row) {
    h in rows && HeadsGroup(h, group) && forall o :: o in rows && HeadsGroup(o, group) ==> h.id <= o.id
  }

  /** What the split makes: the header stands for the rows that stay, a new one, which bears the order of
      the first row that moves, for those that move. */
  datatype Made = Made(h: Row, off: seq<Row>, left: seq<Row>, half: Row, other: Row)

  ghost predicate PartsOf(rows: seq<Row>, group: string, ids: set<int>, m: Made) {
    && FirstHeader(rows, group, m.h) && ById(m.off) && ById(m.left) && m.off != []
    && (forall r :: r in m.off <==> Goes(rows, group, ids, r))
    && (forall r :: r in m.left <==> Remains(rows, group, ids, r))
    && HalfOf(m.h, m.left, m.half.length + m.other.length, m.half)
    && HalfOf(m.h, m.off, m.half.length + m.other.length, m.other)
  }

  /** Every row stands where it stood, the header changed, with the new group if its key is listed and it
      was of the group; the new header comes last. */
  ghost predicate RowsMoved(rows: seq<Row>, after: seq<Row>, group: string, ids: set<int>, to: string, newId: int,
                            m: Made)
  {
    && m.off != [] && |after| == |rows| + 1
    && (forall i :: 0 <= i < |rows| ==> MovedAt(rows, after, group, ids, to, m, i))
    && after[|rows|] == m.other.(id := newId, group := Some(to), order := m.off[0].order, line := m.off[0].line)
  }

  ghost predicate MovedAt(rows: seq<Row>, after: seq<Row>, group: string, ids: set<int>, to: string, m: Made, i: nat) {
    && i < |rows| && i < |after|
    && var x := if rows[i] == m.h then m.half else rows[i];
       after[i] == if x.group == Some(group) && x.id in ids then x.(group := Some(to)) else x
  }

  lemma {:induction false} MovedEach(rows: seq<Row>, group: string, ids: set<int>, to: string, m: Made, n: nat)
    requires n <= |rows|
    ensures var after := Each(rows[..n], Moving(m.h, m.half, group, ids, to));
            |after| == n && forall i :: 0 <= i < n ==> MovedAt(rows, after, group, ids, to, m, i)
    decreases n
  {
    if n == 0 {
      assert rows[..0] == [];
    } else {
      MovedEach(rows, group, ids, to, m, n - 1);
      assert rows[..n][..n - 1] == rows[..n - 1];
      var before := Each(rows[..n - 1], Moving(m.h, m.half, group, ids, to));
      var after := Each(rows[..n], Moving(m.h, m.half, group, ids, to));
      assert after == before + [Moved(m.h, m.half, group, ids, to, rows[n - 1])];
      forall i | 0 <= i < n ensures MovedAt(rows, after, group, ids, to, m, i) {
        if i < n - 1 { assert MovedAt(rows, before, group, ids, to, m, i); }
      }
    }
  }

  lemma FirstOfHeaders(rows: seq<Row>, group: string)
    requires ById(rows) && Headers(rows, group) != []
    ensures FirstHeader(rows, group, Headers(rows, group)[0])
  {
    var hs := Headers(rows, group);
    WhereMeans(rows, IsHeader(group));
    WhereById(rows, IsHeader(group));
    assert hs[0] in hs;
    forall o | o in rows && HeadsGroup(o, group) ensures hs[0].id <= o.id {
      assert o in hs;
      var i :| 0 <= i < |hs| && hs[i] == o;
    }
  }

  lemma OffMeans(rows: seq<Row>, group: string, ids: set<int>)
    ensures forall r :: r in Off(rows, group, ids) <==> Goes(rows, group, ids, r)
    ensures ById(rows) ==> ById(Off(rows, group, ids))
  {
    WhereMeans(rows, IsOff(group, ids));
    if ById(rows) { WhereById(rows, IsOff(group, ids)); }
    forall r ensures IsOff(group, ids)(r) <==> r.group == Some(group) && 1 <= r.rank && r.id in ids {
      assert IsSub(group)(r) <==> r.group == Some(group) && 1 <= r.rank;
    }
  }

  lemma LeftMeans(rows: seq<Row>, group: string, ids: set<int>)
    ensures forall r :: r in Left(rows, group, ids) <==> Remains(rows, group, ids, r)
    ensures ById(rows) ==> ById(Left(rows, group, ids))
  {
    WhereMeans(rows, IsLeft(group, ids));
    if ById(rows) { WhereById(rows, IsLeft(group, ids)); }
    forall r ensures IsLeft(group, ids)(r) <==> r.group == Some(group) && 1 <= r.rank && r.id !in ids {
      assert IsSub(group)(r) <==> r.group == Some(group) && 1 <= r.rank;
    }
  }

  lemma PartsAre(rows: seq<Row>, group: string, ids: set<int>)
    requires ById(rows) && Headers(rows, group) != [] && Off(rows, group, ids) != []
    ensures var h, off, left := Headers(rows, group)[0], Off(rows, group, ids), Left(rows, group, ids);
            PartsOf(rows, group, ids, Made(h, off, left, Half(h, left, off), Half(h, off, left)))
  {
    hide HalfOf, Half, FirstHeader, Off, Left, Headers, Goes, Remains, ById;
    FirstOfHeaders(rows, group);
    OffMeans(rows, group, ids);
    LeftMeans(rows, group, ids);
    var h, off, left := Headers(rows, group)[0], Off(rows, group, ids), Left(rows, group, ids);
    HalfFollows(h, left, off);
    HalfFollows(h, off, left);
    HalfLengths(h, left, off);
    HalfLengths(h, off, left);
  }

  lemma HalfLengths(h: Row, part: seq<Row>, other: seq<Row>)
    ensures Half(h, part, other).length == LotsOf(h, part).length
  {
  }

  lemma NothingGoes(rows: seq<Row>, group: string, ids: set<int>)
    ensures Headers(rows, group) == [] <==> forall h :: h in rows ==> !HeadsGroup(h, group)
    ensures Off(rows, group, ids) == [] <==> forall r :: !Goes(rows, group, ids, r)
  {
    WhereMeans(rows, IsHeader(group));
    OffMeans(rows, group, ids);
    hide Goes, Off;
    var hs, off := Headers(rows, group), Off(rows, group, ids);
    assert (hs != [] ==> hs[0] in hs) && (off != [] ==> off[0] in off);
    assert forall h :: HeadsGroup(h, group) && h in rows ==> h in hs;
  }

  /** A split of a table that is listed by key: nothing without keys, without a header, or with no order
      row to move; otherwise the rows with the keys go to the group of that name and suffix under a header
      of their own, and nothing else changes but the header they leave. */
  lemma SplitExactly(before: seq<Row>, after: seq<Row>, group: string, ids: set<int>, suffix: string, newId: int,
                     o: Outcome)
    requires ById(before) && SplitDone(before, after, group, ids, SplitName(group, suffix), newId, o)
    ensures if ids == {} then o == NoIds && after == before
            else if forall h :: h in before ==> !HeadsGroup(h, group) then o == NoHeader && after == before
            else if forall r :: !Goes(before, group, ids, r) then o == NothingToMove && after == before
            else exists m ::
                   && PartsOf(before, group, ids, m) && o == Split(group, group + "_" + suffix, |m.off|)
                   && RowsMoved(before, after, group, ids, group + "_" + suffix, newId, m)
  {
    hide HeadsGroup, Goes, PartsOf, Half;
    NothingGoes(before, group, ids);
    if ids != {} && Headers(before, group) != [] && Off(before, group, ids) != [] {
      var h, off, left := Headers(before, group)[0], Off(before, group, ids), Left(before, group, ids);
      var m := Made(h, off, left, Half(h, left, off), Half(h, off, left));
      PartsAre(before, group, ids);
      RowsAre(before, group, ids, SplitName(group, suffix), newId, m);
    }
  }

  lemma RowsAre(rows: seq<Row>, group: string, ids: set<int>, to: string, newId: int, m: Made)
    requires Off(rows, group, ids) != [] && m.off == Off(rows, group, ids) && m.left == Left(rows, group, ids)
    requires m.half == Half(m.h, m.left, m.off) && m.other == Half(m.h, m.off, m.left)
    ensures RowsMoved(rows, AfterSplit(rows, m.h, group, ids, to, newId), group, ids, to, newId, m)
  {
    hide Half;
    MovedEach(rows, group, ids, to, m, |rows|);
    assert rows[..|rows|] == rows;
    var front := Each(rows, Moving(m.h, m.half, group, ids, to));
    forall i | 0 <= i < |rows|
      ensures MovedAt(rows, AfterSplit(rows, m.h, group, ids, to, newId), group, ids, to, m, i)
    {
      assert MovedAt(rows, front, group, ids, to, m, i);
    }
  }
}
