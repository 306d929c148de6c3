/** What an automatic split keeps, and when the repair pass leaves its halves alone. */
module SplitLaws {
  import opened Wrappers
  import opened Batches
  import opened Dedupe
  import opened AutoSplit

  // ---------- lots

  /** Splitting costs at most one lot, and costs one exactly when the two surpluses make a lot. */
  lemma LotsOfHalves(na: real, nb: real, lot: real)
    requires na >= 0.0 && nb >= 0.0 && na + nb > 0.0 && lot > 0.0
    ensures var none := Work(0, 0.0);
            var a, b, w := LotsFor(na, lot, none), LotsFor(nb, lot, none), LotsFor(na + nb, lot, none);
            && (a.drums + b.drums == w.drums || a.drums + b.drums == w.drums + 1)
            && (a.drums + b.drums == w.drums + 1 <==> (a.length - na) + (b.length - nb) >= lot)
            && (a.drums + b.drums == w.drums <==> a.length + b.length == w.length)
  {
    var none := Work(0, 0.0);
    var a, b, w := LotsFor(na, lot, none), LotsFor(nb, lot, none), LotsFor(na + nb, lot, none);
    HalfLots(na, lot);
    HalfLots(nb, lot);
    HalfLots(na + nb, lot);
    HalvesAgainstWhole(a, b, w, na, nb, lot);
  }

  /** Whole lots that hold `net` metres with less than a lot to spare. */
  ghost predicate Fills(w: Work, net: real, lot: real) {
    w.length == w.drums as real * lot && 0.0 <= w.length - net < lot
  }

  lemma HalvesAgainstWhole(a: Work, b: Work, w: Work, na: real, nb: real, lot: real)
    requires lot > 0.0 && Fills(a, na, lot) && Fills(b, nb, lot) && Fills(w, na + nb, lot)
    ensures a.drums + b.drums == w.drums || a.drums + b.drums == w.drums + 1
    ensures a.drums + b.drums == w.drums + 1 <==> (a.length - na) + (b.length - nb) >= lot
    ensures a.drums + b.drums == w.drums <==> a.length + b.length == w.length
  {
    Distribute(a.drums, b.drums, w.drums, lot);
    NoneOrOne(a.drums + b.drums - w.drums, lot, a.length + b.length - w.length);
  }

  lemma TwoOrMore(x: real, lot: real)
    requires x >= 2.0 && lot > 0.0
    ensures 2.0 * lot <= x * lot
  {
    assert (x - 2.0) * lot >= 0.0;
  }

  lemma OneTooFew(x: real, lot: real)
    requires x <= -1.0 && lot > 0.0
    ensures x * lot <= -lot
  {
    assert (-1.0 - x) * lot >= 0.0;
  }

  lemma NoneOrOne(extra: int, lot: real, more: real)
    requires lot > 0.0 && more == extra as real * lot && -lot < more < 2.0 * lot
    ensures (extra == 0 && more == 0.0) || (extra == 1 && more == lot)
  {
    var x := extra as real;
    if extra >= 2 {
      TwoOrMore(x, lot);
    } else if extra <= -1 {
      OneTooFew(x, lot);
    }
  }

  lemma HalfLots(net: real, lot: real)
    requires net >= 0.0 && lot > 0.0
    ensures Fills(LotsFor(net, lot, Work(0, 0.0)), net, lot)
  {
    if net > 0.0 { LotsAreFewest(net, lot, Work(0, 0.0)); }
  }

  lemma Distribute(a: int, b: int, c: int, lot: real)
    ensures (a + b - c) as real * lot == a as real * lot + b as real * lot - c as real * lot
  {
    assert (a + b - c) as real == a as real + b as real - c as real;
  }

  /** The surplus of a half is what its lots hold beyond its orders, less than one lot. */
  lemma SurplusOfHalf(h: Row, part: seq<Row>)
    requires NetOf(h, part) >= 0.0
    ensures SurplusOf(h, part) == LotsOf(h, part).length - NetOf(h, part) >= 0.0
    ensures if h.lot > 0.0 then SurplusOf(h, part) < h.lot else SurplusOf(h, part) == 0.0
  {
    if h.lot > 0.0 { HalfLots(NetOf(h, part), h.lot); }
  }

  // ---------- durations

  /** The minutes of the two headers add up to those of the one, exactly when there is any work or
      there were no minutes. */
  lemma MinutesAddUp(h: Row, off: seq<Row>, left: seq<Row>)
    requires NetOf(h, off) >= 0.0 && NetOf(h, left) >= 0.0
    ensures Half(h, off, left).duration.Some? && Half(h, left, off).duration.Some?
    ensures (Half(h, off, left).duration.value + Half(h, left, off).duration.value == Minutes(h))
            <==> (NetOf(h, off) + NetOf(h, left) > 0.0 || Minutes(h) == 0.0)
  {
    SurplusOfHalf(h, off);
    SurplusOfHalf(h, left);
    var a, b := LotsOf(h, off).length, LotsOf(h, left).length;
    if a + b > 0.0 { SharesAddUp(Minutes(h), a, b); }
  }

  lemma SharesAddUp(m: real, a: real, b: real)
    requires a + b > 0.0
    ensures Share(m, a, a + b) + Share(m, b, b + a) == m
  {
    var w := a + b;
    assert m * a + m * b == m * w;
    SumOfQuotients(m * a, m * b, w);
    assert m * w / w == m;
  }

  lemma SumOfQuotients(x: real, y: real, w: real)
    requires w > 0.0
    ensures x / w + y / w == (x + y) / w
  {
    var p, q := x / w, y / w;
    assert (p + q) * w == x + y;
  }

  // ---------- the orders

  /** No order is lost and none is counted twice. */
  lemma {:induction false} SplitKeepsOrders(rows: seq<Row>, group: string, ids: set<int>)
    ensures var off, left := Off(rows, group, ids), Left(rows, group, ids);
            && |off| + |left| == |Subs(rows, group)|
            && Total(off) + Total(left) == Total(Subs(rows, group))
            && forall r :: r in Subs(rows, group) <==> (r in off) != (r in left)
    decreases |rows|
  {
    WhereMeans(rows, IsSub(group));
    WhereMeans(rows, IsOff(group, ids));
    WhereMeans(rows, IsLeft(group, ids));
    if rows != [] {
      var n := |rows| - 1;
      var before, r := rows[..n], rows[n];
      SplitKeepsOrders(before, group, ids);
      TotalSnoc(Subs(before, group), r);
      TotalSnoc(Off(before, group, ids), r);
      TotalSnoc(Left(before, group, ids), r);
      assert rows == before + [r];
      WhereSnoc(before, r, IsSub(group));
      WhereSnoc(before, r, IsOff(group, ids));
      WhereSnoc(before, r, IsLeft(group, ids));
    }
  }

  /** The rows of one list stand for those of the other in all that a header is counted from. */
  ghost predicate Alike(a: seq<Row>, b: seq<Row>) {
    && |a| == |b|
    && forall i :: 0 <= i < |a| ==>
         a[i].length == b[i].length && a[i].due == b[i].due && a[i].priority == b[i].priority
  }

  lemma {:induction false} AlikeCounts(a: seq<Row>, b: seq<Row>, other: Option<int>)
    requires Alike(a, b)
    ensures Total(a) == Total(b) && EarliestDue(a, other) == EarliestDue(b, other) && BestPriority(a) == BestPriority(b)
    decreases |a|
  {
    if a != [] { AlikeCounts(a[..|a| - 1], b[..|b| - 1], None); }
  }
}
