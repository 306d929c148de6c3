/** The choice of orders for a pool: exhaustive for few orders, tabulated for many. */
module WipCombo {
  import opened WipKnapsack

  /** Positions of a list. */
  ghost predicate Bounded<T>(q: seq<T>, s: seq<nat>) { forall i :: 0 <= i < |s| ==> s[i] < |q| }

  /** The sum of the quantities at the given positions. */
  function SumAt(q: seq<real>, sel: seq<nat>): real
    requires forall i :: 0 <= i < |sel| ==> sel[i] < |q|
  {
    if sel == [] then 0.0 else q[sel[0]] + SumAt(q, sel[1..])
  }

  /** `sel` names orders, none of them twice. */
  ghost predicate Chosen(q: seq<real>, sel: seq<nat>) {
    && (forall i :: 0 <= i < |sel| ==> sel[i] < |q|)
    && (forall i, j :: 0 <= i < j < |sel| ==> sel[i] != sel[j])
  }

  /** No selection that fits uses more of the pool. */
  ghost predicate UsesMost(q: seq<real>, cap: real, sum: real) {
    forall pick: seq<bool> :: |pick| == |q| && Total(q, pick) <= cap ==> Total(q, pick) <= sum
  }

  // ---------- positions and selections

  lemma {:induction false} TotalFromFront(q: seq<real>, pick: seq<bool>)
    requires |q| == |pick| && q != []
    ensures Total(q, pick) == (if pick[0] then q[0] else 0.0) + Total(q[1..], pick[1..])
    decreases |q|
  {
    var n := |q| - 1;
    if n > 0 {
      TotalFromFront(q[..n], pick[..n]);
      assert q[..n][1..] == q[1..][..n - 1] && pick[..n][1..] == pick[1..][..n - 1];
    } else {
      assert q[1..] == [] && q[..0] == [];
    }
  }

  lemma {:induction false} SumConcat(q: seq<real>, a: seq<nat>, b: seq<nat>)
    requires forall i :: 0 <= i < |a| ==> a[i] < |q|
    requires forall i :: 0 <= i < |b| ==> b[i] < |q|
    ensures (forall i :: 0 <= i < |a + b| ==> (a + b)[i] < |q|) && SumAt(q, a + b) == SumAt(q, a) + SumAt(q, b)
    decreases |a|
  {
    if a == [] {
      assert a + b == b;
    } else {
      SumConcat(q, a[1..], b);
      assert (a + b)[1..] == a[1..] + b;
    }
  }

  lemma ChooseOneMore(q: seq<real>, sel: seq<nat>, x: nat)
    requires Chosen(q, sel) && x < |q| && forall i :: 0 <= i < |sel| ==> sel[i] != x
    ensures Chosen(q, sel + [x]) && SumAt(q, sel + [x]) == SumAt(q, sel) + q[x]
  {
    SumConcat(q, sel, [x]);
    assert [x][1..] == [];
  }

  lemma {:induction false} PositionsChosen(q: seq<real>, pick: seq<bool>, base: nat)
    requires base + |pick| == |q|
    ensures var sel := Positions(pick, base);
            && Chosen(q, sel) && (forall i :: 0 <= i < |sel| ==> base <= sel[i])
    decreases |pick|
  {
    if pick != [] {
      PositionsChosen(q, pick[1..], base + 1);
      if pick[0] { ChooseOneMore(q, Positions(pick[1..], base + 1), base); }
    }
  }

  lemma {:induction false} PositionsSum(q: seq<real>, pick: seq<bool>, base: nat)
    requires base + |pick| == |q|
    ensures Chosen(q, Positions(pick, base)) && SumAt(q, Positions(pick, base)) == Total(q[base..], pick)
    decreases |pick|
  {
    PositionsChosen(q, pick, base);
    if pick != [] {
      hide SumAt, Total;
      PositionsSum(q, pick[1..], base + 1);
      PositionsChosen(q, pick[1..], base + 1);
      TotalFromFront(q[base..], pick);
      assert q[base..][1..] == q[base + 1..];
      var rest := Positions(pick[1..], base + 1);
      if pick[0] { ChooseOneMore(q, rest, base); } else { assert Positions(pick, base) == rest; }
    }
  }

  /** The positions of the chosen orders in order. */
  function Ascending(pick: seq<bool>): seq<nat> {
    if pick == [] then []
    else Ascending(pick[..|pick| - 1]) + if pick[|pick| - 1] then [|pick| - 1] else []
  }

  lemma {:induction false} AscendingChosen(q: seq<real>, pick: seq<bool>)
    requires |pick| <= |q|
    ensures var sel := Ascending(pick);
            && Chosen(q, sel) && (forall i :: 0 <= i < |sel| ==> sel[i] < |pick|)
    decreases |pick|
  {
    if pick != [] {
      var n := |pick| - 1;
      AscendingChosen(q, pick[..n]);
      if pick[n] { ChooseOneMore(q, Ascending(pick[..n]), n); }
    }
  }

  lemma {:induction false} AscendingSum(q: seq<real>, pick: seq<bool>)
    requires |pick| <= |q|
    ensures Chosen(q, Ascending(pick)) && SumAt(q, Ascending(pick)) == Total(q[..|pick|], pick)
    decreases |pick|
  {
    AscendingChosen(q, pick);
    if pick != [] {
      var n := |pick| - 1;
      AscendingSum(q, pick[..n]);
      AscendingChosen(q, pick[..n]);
      assert q[..|pick|][..n] == q[..n];
      var init := Ascending(pick[..n]);
      if pick[n] { ChooseOneMore(q, init, n); } else { assert Ascending(pick) == init; }
    }
  }

  // ---------- dropping the smallest until it fits

  function InsertByQty(x: nat, s: seq<nat>, q: seq<real>): seq<nat>
    requires x < |q| && forall i :: 0 <= i < |s| ==> s[i] < |q|
  {
    if s == [] || q[x] <= q[s[0]] then [x] + s else [s[0]] + InsertByQty(x, s[1..], q)
  }

  lemma {:induction false} InsertMembers(x: nat, s: seq<nat>, q: seq<real>)
    requires (forall i :: 0 <= i < |s| ==> s[i] < |q|) && x < |q|
    ensures forall y :: y in InsertByQty(x, s, q) <==> y == x || y in s
    ensures forall i :: 0 <= i < |InsertByQty(x, s, q)| ==> InsertByQty(x, s, q)[i] < |q|
  {
    if s != [] && q[x] > q[s[0]] {
      InsertMembers(x, s[1..], q);
      assert s == [s[0]] + s[1..];
    }
  }

  lemma {:induction false} InsertMeans(x: nat, s: seq<nat>, q: seq<real>)
    requires Chosen(q, s) && x < |q| && x !in s
    ensures var r := InsertByQty(x, s, q);
            && Chosen(q, r) && SumAt(q, r) == q[x] + SumAt(q, s)
            && (forall y :: y in r <==> y == x || y in s)
  {
    InsertMembers(x, s, q);
    if s != [] && q[x] > q[s[0]] {
      InsertMeans(x, s[1..], q);
      assert s[0] !in s[1..];
      var r := InsertByQty(x, s[1..], q);
      assert s[0] !in r && ([s[0]] + r)[1..] == r;
    } else {
      assert ([x] + s)[1..] == s;
    }
  }

  lemma {:induction false} InsertSorts(x: nat, s: seq<nat>, q: seq<real>)
    requires Chosen(q, s) && x < |q| && x !in s && SmallestFirst(q, s)
    ensures Chosen(q, InsertByQty(x, s, q)) && SmallestFirst(q, InsertByQty(x, s, q))
  {
    InsertMeans(x, s, q);
    if s != [] && q[x] > q[s[0]] {
      TailSorted(q, s, x);
      InsertSorts(x, s[1..], q);
      InsertMeans(x, s[1..], q);
      SmallestPrepends(s[0], InsertByQty(x, s[1..], q), q, s, x);
    }
  }

  lemma TailSorted(q: seq<real>, s: seq<nat>, x: nat)
    requires Chosen(q, s) && SmallestFirst(q, s) && s != [] && x !in s
    ensures Chosen(q, s[1..]) && SmallestFirst(q, s[1..]) && x !in s[1..]
  {
  }

  lemma SmallestPrepends(y: nat, r: seq<nat>, q: seq<real>, s: seq<nat>, x: nat)
    requires Chosen(q, r) && SmallestFirst(q, r) && Chosen(q, s) && SmallestFirst(q, s) && s != [] && y == s[0]
    requires x < |q| && q[y] <= q[x] && (forall z :: z in r ==> z == x || z in s[1..])
    ensures SmallestFirst(q, [y] + r)
  {
    forall i | 0 <= i < |r| ensures q[y] <= q[r[i]] {
      assert r[i] in r;
      if r[i] != x {
        var j :| 0 <= j < |s[1..]| && s[1..][j] == r[i];
        assert s[j + 1] == r[i];
      }
    }
  }

  ghost predicate SmallestFirst(q: seq<real>, s: seq<nat>)
    requires forall i :: 0 <= i < |s| ==> s[i] < |q|
  {
    forall i, j :: 0 <= i < j < |s| ==> q[s[i]] <= q[s[j]]
  }

  /** The positions by quantity, equal ones in the order they came. */
  function SortedByQty(sel: seq<nat>, q: seq<real>): (s: seq<nat>)
    requires Bounded(q, sel)
    ensures Bounded(q, s)
  {
    if sel == [] then []
    else
      var rest := SortedByQty(sel[1..], q);
      InsertMembers(sel[0], rest, q);
      InsertByQty(sel[0], rest, q)
  }

  lemma {:induction false} SortedMeans(sel: seq<nat>, q: seq<real>)
    requires Chosen(q, sel)
    ensures var s := SortedByQty(sel, q);
            && Chosen(q, s) && SmallestFirst(q, s) && SumAt(q, s) == SumAt(q, sel)
            && forall y :: y in s <==> y in sel
    decreases |sel|
  {
    if sel != [] {
      SortedMeans(sel[1..], q);
      var rest := SortedByQty(sel[1..], q);
      assert sel == [sel[0]] + sel[1..] && sel[0] !in sel[1..];
      InsertMeans(sel[0], rest, q);
      InsertSorts(sel[0], rest, q);
    }
  }

  method SortByQty(sel: seq<nat>, q: seq<real>) returns (s: seq<nat>)
    requires Chosen(q, sel)
    ensures s == SortedByQty(sel, q)
    ensures Chosen(q, s) && SmallestFirst(q, s) && SumAt(q, s) == SumAt(q, sel)
    ensures forall y :: y in s <==> y in sel
  {
    s := [];
    assert sel[|sel|..] == [];
    for i := |sel| downto 0
      invariant s == SortedByQty(sel[i..], q)
    {
      assert sel[i..][1..] == sel[i + 1..] && sel[i..][0] == sel[i];
      s := InsertByQty(sel[i], s, q);
    }
    assert sel[0..] == sel;
    SortedMeans(sel, q);
  }

  /** What is left of a list when orders are taken off its front until the rest fits. */
  function Dropped(q: seq<real>, cap: real, s: seq<nat>): (r: seq<nat>)
    requires Bounded(q, s)
    ensures Bounded(q, r)
  {
    if s == [] || SumAt(q, s) <= cap then s else Dropped(q, cap, s[1..])
  }

  /** A selection that does not fit loses its smallest orders until it does. */
  function Trimmed(q: seq<real>, cap: real, sel: seq<nat>): (r: seq<nat>)
    requires Bounded(q, sel)
    ensures Bounded(q, r)
  {
    if SumAt(q, sel) <= cap then sel else Dropped(q, cap, SortedByQty(sel, q))
  }

  /** Order `last` was dropped, is not larger than any that was not, and would not have fitted. */
  ghost predicate LastDropped(q: seq<real>, cap: real, s: seq<nat>, r: seq<nat>, last: nat) {
    && Bounded(q, r) && last < |q| && last in s && last !in r && q[last] + SumAt(q, r) > cap
    && forall y :: y in r ==> y < |q| && q[last] <= q[y]
  }

  ghost predicate MustDrop(q: seq<real>, cap: real, s: seq<nat>, r: seq<nat>) {
    exists last: nat :: LastDropped(q, cap, s, r, last)
  }

  /** Dropping just the smallest was necessary if the rest fits. */
  lemma FirstDropped(q: seq<real>, cap: real, s: seq<nat>)
    requires Chosen(q, s) && SmallestFirst(q, s) && s != [] && SumAt(q, s) > cap
    ensures LastDropped(q, cap, s, s[1..], s[0])
  {
    var rest := s[1..];
    forall y | y in rest ensures y != s[0] && y < |q| && q[s[0]] <= q[y] {
      var j :| 0 <= j < |rest| && rest[j] == y;
      assert s[j + 1] == y;
    }
  }

  lemma DroppedFromRest(q: seq<real>, cap: real, s: seq<nat>, r: seq<nat>)
    requires s != [] && MustDrop(q, cap, s[1..], r)
    ensures MustDrop(q, cap, s, r)
  {
    var last: nat :| LastDropped(q, cap, s[1..], r, last);
    assert s == [s[0]] + s[1..];
    assert LastDropped(q, cap, s, r, last);
  }

  /** Dropping takes smallest orders first, and never one more than it must. */
  lemma {:induction false} DroppedMeans(q: seq<real>, cap: real, s: seq<nat>)
    requires Chosen(q, s) && SmallestFirst(q, s) && 0.0 <= cap
    ensures var r := Dropped(q, cap, s);
            && Chosen(q, r) && SumAt(q, r) <= cap && (forall y :: y in r ==> y in s)
            && (SumAt(q, s) > cap ==> MustDrop(q, cap, s, r))
    decreases |s|
  {
    if s != [] && SumAt(q, s) > cap {
      var rest := s[1..];
      assert s == [s[0]] + rest;
      DroppedMeans(q, cap, rest);
      if SumAt(q, rest) <= cap {
        FirstDropped(q, cap, s);
        assert Dropped(q, cap, s) == rest;
      } else {
        DroppedFromRest(q, cap, s, Dropped(q, cap, rest));
      }
    }
  }

  lemma TrimmedMeans(q: seq<real>, cap: real, sel: seq<nat>)
    requires Chosen(q, sel) && 0.0 <= cap
    ensures var r := Trimmed(q, cap, sel);
            && Chosen(q, r) && SumAt(q, r) <= cap && (forall y :: y in r ==> y in sel)
            && (r == sel || MustDrop(q, cap, sel, r))
  {
    if SumAt(q, sel) > cap {
      var all := SortedByQty(sel, q);
      SortedMeans(sel, q);
      DroppedMeans(q, cap, all);
      var last: nat :| LastDropped(q, cap, all, Dropped(q, cap, all), last);
      assert LastDropped(q, cap, sel, Trimmed(q, cap, sel), last);
    }
  }

  /** Drops the smallest orders until the rest fits; it never drops one more than it must. */
  method Trim(q: seq<real>, cap: real, sel: seq<nat>) returns (r: seq<nat>)
    requires Chosen(q, sel) && 0.0 <= cap
    ensures r == Trimmed(q, cap, sel)
    ensures Chosen(q, r) && SumAt(q, r) <= cap && (forall y :: y in r ==> y in sel)
    ensures SumAt(q, sel) <= cap ==> r == sel
    ensures r != sel ==> MustDrop(q, cap, sel, r)
  {
    TrimmedMeans(q, cap, sel);
    r := sel;
    if SumAt(q, sel) > cap && sel != [] {
      r := SortByQty(sel, q);
      var total := SumAt(q, r);
      while total > cap && r != []
        invariant Bounded(q, r) && total == SumAt(q, r)
        invariant Dropped(q, cap, r) == Trimmed(q, cap, sel)
        decreases |r|
      {
        var removed := r[0];
        r := r[1..];
        total := total - q[removed];
      }
    }
  }

  // ---------- both branches

  /** Quantities that are whole numbers of metres, at least one. */
  ghost predicate Whole(q: seq<real>) {
    forall i :: 0 <= i < |q| ==> q[i] == q[i].Floor as real && 1.0 <= q[i]
  }

  lemma {:induction false} WholeWeight(q: seq<real>, pick: seq<bool>)
    requires Whole(q) && |q| == |pick|
    ensures Weight(DiscreteAll(q), pick) as real == Total(q, pick)
    decreases |q|
  {
    if q != [] {
      var n := |q| - 1;
      WholeWeight(q[..n], pick[..n]);
      assert DiscreteAll(q)[..n] == DiscreteAll(q[..n]);
      assert Discrete(q[n]) as real == q[n];
    }
  }

  /** For whole quantities the table finds the best selection there is. */
  lemma TableIsOptimal(q: seq<real>, cap: real)
    requires Whole(q) && 0.0 <= cap
    ensures Optimal(q, cap, Traced(q, DiscreteAll(q), |q|, cap.Floor))
  {
    var w, c: nat := DiscreteAll(q), cap.Floor;
    var best := Traced(q, w, |q|, c);
    assert q[..|q|] == q && w[..|q|] == w;
    TracedReachesBest(q, w, |q|, c);
    WholeWeight(q, best);
    forall other: seq<bool> | |other| == |q| && Total(q, other) <= cap ensures Total(q, other) <= Total(q, best) {
      WholeWeight(q, other);
      BestIsBest(q, w, |q|, c, other);
    }
  }

  /** What the table leads to: the traced orders, last first, trimmed if they do not fit. */
  function TableChoice(q: seq<real>, cap: real): (sel: seq<nat>)
    requires 0.0 <= cap
    ensures Bounded(q, sel)
  {
    var traced := Positions(Traced(q, DiscreteAll(q), |q|, cap.Floor), 0);
    PositionsChosen(q, Traced(q, DiscreteAll(q), |q|, cap.Floor), 0);
    Trimmed(q, cap, traced)
  }

  lemma TableChoiceFits(q: seq<real>, cap: real)
    requires 0.0 <= cap
    ensures Chosen(q, TableChoice(q, cap)) && SumAt(q, TableChoice(q, cap)) <= cap
  {
    PositionsChosen(q, Traced(q, DiscreteAll(q), |q|, cap.Floor), 0);
    TrimmedMeans(q, cap, Positions(Traced(q, DiscreteAll(q), |q|, cap.Floor), 0));
  }

  /** For whole quantities nothing is trimmed, and the choice is optimal. */
  lemma WholeChoice(q: seq<real>, cap: real)
    requires Whole(q) && 0.0 <= cap
    ensures TableChoice(q, cap) == Positions(Traced(q, DiscreteAll(q), |q|, cap.Floor), 0)
    ensures UsesMost(q, cap, SumAt(q, TableChoice(q, cap)))
  {
    var pick := Traced(q, DiscreteAll(q), |q|, cap.Floor);
    TableIsOptimal(q, cap);
    PositionsSum(q, pick, 0);
    assert q[0..] == q;
  }

  /** What is chosen: the first best selection of few orders, the trimmed trace of the table of many. */
  ghost predicate Choice(q: seq<real>, cap: real, sel: seq<nat>) {
    && 0.0 <= cap
    && if |q| <= EXACT_SEARCH_LIMIT
       then exists pick: seq<bool> :: SearchedFor(q, cap, pick) && sel == Ascending(pick)
       else sel == TableChoice(q, cap)
  }

  ghost predicate SearchedFor(q: seq<real>, cap: real, pick: seq<bool>) {
    |pick| == |q| && Optimal(q, cap, pick) && FirstBest(q, cap, pick)
  }

  /** The choice is of distinct orders that fit; and of few orders, or of whole metres, none that
      fits uses more. */
  lemma ChoiceMeans(q: seq<real>, cap: real, sel: seq<nat>)
    requires Choice(q, cap, sel)
    ensures Chosen(q, sel) && SumAt(q, sel) <= cap
    ensures |q| <= EXACT_SEARCH_LIMIT || Whole(q) ==> UsesMost(q, cap, SumAt(q, sel))
  {
    if |q| <= EXACT_SEARCH_LIMIT {
      var pick: seq<bool> :| SearchedFor(q, cap, pick) && sel == Ascending(pick);
      AscendingSum(q, pick);
      assert q[..|q|] == q;
    } else {
      TableChoiceFits(q, cap);
      if Whole(q) { WholeChoice(q, cap); }
    }
  }

  /** And there is only one. */
  lemma ChoiceIsUnique(q: seq<real>, cap: real, a: seq<nat>, b: seq<nat>)
    requires Choice(q, cap, a) && Choice(q, cap, b)
    ensures a == b
  {
    if |q| <= EXACT_SEARCH_LIMIT {
      var x: seq<bool> :| SearchedFor(q, cap, x) && a == Ascending(x);
      var y: seq<bool> :| SearchedFor(q, cap, y) && b == Ascending(y);
      OneFirstBest(q, cap, x, y);
    }
  }

  /** The orders to serve from a pool of `cap`.  They fit, whatever the quantities; and they use as
      much of the pool as can be used if there are at most 22 orders or all quantities are whole. */
  method FindBestCombo(q: seq<real>, cap: real) returns (sel: seq<nat>)
    requires 0.0 <= cap
    ensures Chosen(q, sel) && SumAt(q, sel) <= cap
    ensures |q| <= EXACT_SEARCH_LIMIT || Whole(q) ==> UsesMost(q, cap, SumAt(q, sel))
    ensures Choice(q, cap, sel)
  {
    if |q| <= EXACT_SEARCH_LIMIT {
      var pick := SearchAll(q, cap);
      assert SearchedFor(q, cap, pick);
      ChoiceMeans(q, cap, Ascending(pick));
      return Ascending(pick);
    }
    var w := DiscreteAll(q);
    var capacity: nat := cap.Floor;
    var selected, pick := SolveTable(q, w, capacity);
    PositionsChosen(q, pick, 0);
    sel := Trim(q, cap, selected);
    ChoiceMeans(q, cap, sel);
  }
}
