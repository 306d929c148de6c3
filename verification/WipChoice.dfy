/** The choice of orders for a pool, without masks or tables. */
module WipChoice {
  import opened Orderings
  import opened WipKnapsack
  import opened WipCombo
  import opened WipRules

  // ---------- which of the best

  /** Of the orders on which the selections differ, `a` leaves out the last. */
  ghost predicate LeavesOutLast(a: seq<bool>, b: seq<bool>) {
    |a| == |b| && exists k :: DifferLastAt(a, b, k)
  }

  ghost predicate DifferLastAt(a: seq<bool>, b: seq<bool>, k: int) {
    0 <= k < |a| && k < |b| && !a[k] && b[k] && a[k + 1..] == b[k + 1..]
  }

  lemma NotBoth(a: seq<bool>, b: seq<bool>)
    requires LeavesOutLast(a, b)
    ensures !LeavesOutLast(b, a) && a != b
  {
    var i :| DifferLastAt(a, b, i);
    forall j ensures !DifferLastAt(b, a, j) {
      if 0 <= j < |a| && i < j { assert a[i + 1..][j - i - 1] == b[i + 1..][j - i - 1]; }
      if 0 <= j < |a| && j < i { assert a[j + 1..][i - j - 1] == a[i] && b[j + 1..][i - j - 1] == b[i]; }
    }
  }

  lemma LastApart(a: seq<bool>, b: seq<bool>, x: bool, y: bool)
    requires |a| == |b|
    ensures LeavesOutLast(a + [x], b + [y]) <==> (!x && y) || (x == y && LeavesOutLast(a, b))
  {
    var n, p, q := |a|, a + [x], b + [y];
    if !x && y { assert DifferLastAt(p, q, n) by { assert p[n + 1..] == q[n + 1..]; } }
    forall k | 0 <= k < n ensures DifferLastAt(p, q, k) <==> x == y && DifferLastAt(a, b, k) {
      assert p[k + 1..] == a[k + 1..] + [x] && q[k + 1..] == b[k + 1..] + [y];
      if p[k + 1..] == q[k + 1..] {
        assert p[k + 1..][n - k - 1] == x && q[k + 1..][n - k - 1] == y;
        assert a[k + 1..] == p[k + 1..][..n - k - 1] && b[k + 1..] == q[k + 1..][..n - k - 1];
      }
    }
    if x == y && LeavesOutLast(a, b) {
      var k :| DifferLastAt(a, b, k);
      assert DifferLastAt(p, q, k);
    }
  }

  /** Among the selections that fit: none has a larger total, and those with the same total take a later
      order that this one leaves out. */
  ghost predicate FirstOfBest(q: seq<real>, fits: seq<bool> -> bool, pick: seq<bool>) {
    && |pick| == |q| && fits(pick)
    && forall other: seq<bool> :: |other| == |q| && fits(other) ==> NotBetter(q, pick, other)
  }

  ghost predicate NotBetter(q: seq<real>, pick: seq<bool>, other: seq<bool>)
    requires |pick| == |other| == |q|
  {
    && Total(q, other) <= Total(q, pick)
    && (Total(q, other) == Total(q, pick) ==> other == pick || LeavesOutLast(pick, other))
  }

  // ---------- the order of the masks

  lemma {:induction false} MasksInOrder(a: nat, b: nat, n: nat)
    requires a < b < Pow2(n)
    ensures LeavesOutLast(Picked(a, n), Picked(b, n))
    decreases n
  {
    if n > 0 {
      var p := Pow2(n - 1);
      var x, y := a >= p, b >= p;
      var low, high: nat := if x then a - p else a, if y then b - p else b;
      HighBit(low, n - 1, x);
      HighBit(high, n - 1, y);
      if x == y { MasksInOrder(low, high, n - 1); }
      LastApart(Picked(low, n - 1), Picked(high, n - 1), x, y);
    }
  }

  ghost function Within(q: seq<real>, cap: real): seq<bool> -> bool {
    (pick: seq<bool>) => |pick| == |q| && Total(q, pick) <= cap
  }

  lemma BelowPow2(q: seq<real>, cap: real, pick: seq<bool>, mask: nat)
    requires |pick| == |q| && Total(q, pick) <= cap && FirstAt(q, cap, pick, mask)
    ensures mask < Pow2(|q|)
  {
    var m := MaskOf(pick);
    assert Picked(m, |q|) == pick;
  }

  /** The first of the masks stands for the selection that comes first in that sense. */
  lemma SearchedExactly(q: seq<real>, cap: real, pick: seq<bool>)
    ensures SearchedFor(q, cap, pick) <==> FirstOfBest(q, Within(q, cap), pick)
  {
    hide Total;
    if SearchedFor(q, cap, pick) {
      var mask: nat :| FirstAt(q, cap, pick, mask);
      BelowPow2(q, cap, pick, mask);
      forall other: seq<bool> | |other| == |q| && Within(q, cap)(other) ensures NotBetter(q, pick, other) {
        var m := MaskOf(other);
        assert Picked(m, |q|) == other;
        if mask < m { MasksInOrder(mask, m, |q|); }
      }
    }
    if FirstOfBest(q, Within(q, cap), pick) {
      var mask := MaskOf(pick);
      forall other: seq<bool> | |other| == |q| && Total(q, other) <= cap ensures Total(q, other) <= Total(q, pick) {
        assert Within(q, cap)(other) && NotBetter(q, pick, other);
      }
      forall m: nat | m < mask && Total(q, Picked(m, |q|)) <= cap ensures Total(q, Picked(m, |q|)) < Total(q, pick) {
        MasksInOrder(m, mask, |q|);
        NotBoth(Picked(m, |q|), pick);
        assert Within(q, cap)(Picked(m, |q|)) && NotBetter(q, pick, Picked(m, |q|));
      }
      assert FirstAt(q, cap, pick, mask);
    }
  }

  // ---------- the table

  ghost function WeighsWithin(w: seq<nat>, c: nat): seq<bool> -> bool {
    (pick: seq<bool>) => |pick| == |w| && Weight(w, pick) <= c
  }

  lemma {:induction false} TracedNotWorse(q: seq<real>, w: seq<nat>, i: nat, c: nat, other: seq<bool>)
    requires i <= |q| == |w| && |other| == i && Weight(w[..i], other) <= c
    ensures NotBetter(q[..i], Traced(q, w, i, c), other)
    decreases i
  {
    if i > 0 {
      var n, t, front := i - 1, Traced(q, w, i, c), other[..i - 1];
      TracedReachesBest(q, w, i, c);
      BestIsBest(q, w, i, c, other);
      assert q[..i][..n] == q[..n] && w[..i][..n] == w[..n];
      assert t == t[..n] + [t[n]] && other == front + [other[n]];
      LastApart(t[..n], front, t[n], other[n]);
      if Keeps(q, w, n, c) {
        if other[n] {
          TracedNotWorse(q, w, n, c - w[n], front);
        } else {
          BestIsBest(q, w, n, c, front);
        }
      } else if !other[n] {
        TracedNotWorse(q, w, n, c, front);
      }
    }
  }

  /** The walk back through the table finds the selection that comes first in the same sense. */
  lemma TracedIsFirst(q: seq<real>, w: seq<nat>, c: nat)
    requires |q| == |w|
    ensures FirstOfBest(q, WeighsWithin(w, c), Traced(q, w, |q|, c))
  {
    assert q[..|q|] == q && w[..|w|] == w;
    TracedReachesBest(q, w, |q|, c);
    forall other: seq<bool> | |other| == |q| && WeighsWithin(w, c)(other)
      ensures NotBetter(q, Traced(q, w, |q|, c), other)
    {
      TracedNotWorse(q, w, |q|, c, other);
    }
  }

  lemma OneFirstOfBest(q: seq<real>, fits: seq<bool> -> bool, a: seq<bool>, b: seq<bool>)
    requires FirstOfBest(q, fits, a) && FirstOfBest(q, fits, b)
    ensures a == b
  {
    assert NotBetter(q, a, b) && NotBetter(q, b, a);
    if a != b { NotBoth(a, b); }
  }

  /** `n` is the nearest number of metres to `x`, the even one of two, and at least 1. */
  ghost predicate Nearest(x: real, n: int) {
    if x < 1.5 then n == 1
    else -0.5 <= x - n as real <= 0.5 && ((x - n as real == 0.5 || x - n as real == -0.5) ==> n % 2 == 0)
  }

  ghost predicate AllNearest(q: seq<real>, w: seq<nat>) {
    |w| == |q| && forall i :: 0 <= i < |q| ==> Nearest(q[i], w[i])
  }

  lemma NearestExactly(x: real, n: nat)
    ensures Nearest(x, n) <==> n == Discrete(x)
  {
    var f := x.Floor;
    if x >= 1.5 && Nearest(x, n) { assert n == f || n == f + 1; }
  }

  lemma WeightsExactly(q: seq<real>, w: seq<nat>)
    ensures AllNearest(q, w) <==> w == DiscreteAll(q)
  {
    hide Discrete, Nearest;
    forall i | 0 <= i < |q| && |w| == |q| ensures Nearest(q[i], w[i]) <==> w[i] == Discrete(q[i]) {
      NearestExactly(q[i], w[i]);
    }
    if AllNearest(q, w) { assert forall i :: 0 <= i < |q| ==> w[i] == DiscreteAll(q)[i]; }
  }

  // ---------- the positions

  /** The positions of the orders taken, each once, upwards or downwards. */
  ghost predicate Upwards(pick: seq<bool>, sel: seq<nat>) {
    && (forall x: nat :: x in sel <==> x < |pick| && pick[x])
    && forall i, j :: 0 <= i < j < |sel| ==> sel[i] < sel[j]
  }

  ghost predicate Downwards(pick: seq<bool>, sel: seq<nat>) {
    && (forall x: nat :: x in sel <==> x < |pick| && pick[x])
    && forall i, j :: 0 <= i < j < |sel| ==> sel[i] > sel[j]
  }

  lemma {:induction false} AscendingMeans(pick: seq<bool>)
    ensures Upwards(pick, Ascending(pick))
    decreases |pick|
  {
    if pick != [] {
      var n := |pick| - 1;
      AscendingMeans(pick[..n]);
      var front, s := Ascending(pick[..n]), Ascending(pick);
      forall i | 0 <= i < |front| ensures front[i] < n { assert front[i] in front; }
      assert s == front + if pick[n] then [n] else [];
      assert forall x: nat :: x in s <==> x in front || (pick[n] && x == n);
    }
  }

  ghost predicate TakenAt(pick: seq<bool>, base: nat, x: int) { base <= x < base + |pick| && pick[x - base] }

  lemma {:induction false} PositionsMean(pick: seq<bool>, base: nat)
    ensures var s := Positions(pick, base);
            && (forall x: nat :: x in s <==> TakenAt(pick, base, x))
            && forall i, j :: 0 <= i < j < |s| ==> s[i] > s[j]
    decreases |pick|
  {
    if pick != [] {
      PositionsMean(pick[1..], base + 1);
      var rest, s := Positions(pick[1..], base + 1), Positions(pick, base);
      forall i | 0 <= i < |rest| ensures rest[i] > base {
        assert rest[i] in rest;
        assert TakenAt(pick[1..], base + 1, rest[i]);
      }
      assert s == rest + if pick[0] then [base] else [];
      assert forall x: nat :: x in s <==> x in rest || (pick[0] && x == base);
      forall x: nat ensures TakenAt(pick, base, x) <==> TakenAt(pick[1..], base + 1, x) || (pick[0] && x == base) {
        if base < x < base + |pick| { assert pick[1..][x - base - 1] == pick[x - base]; }
      }
    }
  }

  lemma DescendingMeans(pick: seq<bool>)
    ensures Downwards(pick, Positions(pick, 0))
  {
    PositionsMean(pick, 0);
    assert forall x: nat :: TakenAt(pick, 0, x) <==> x < |pick| && pick[x];
  }

  // ---------- the trimming

  /** What is left of a selection that does not fit: of its orders, smallest first and else as they came,
      the least number from the front is taken away so that the rest fits. */
  ghost predicate CutDown(q: seq<real>, cap: real, sel: seq<nat>, r: seq<nat>) {
    && Bounded(q, sel)
    && if SumAt(q, sel) <= cap then r == sel else exists sorted: seq<nat>, k :: CutAt(q, cap, sel, sorted, k, r)
  }

  ghost predicate CutAt(q: seq<real>, cap: real, sel: seq<nat>, sorted: seq<nat>, k: int, r: seq<nat>)
    requires Bounded(q, sel)
  {
    && Bounded(q, sorted) && StablySorted(sel, sorted, Smaller(q)) && 0 <= k <= |sorted| && r == sorted[k..]
    && SumAt(q, sorted[k..]) <= cap && forall j :: 0 <= j < k ==> SumAt(q, sorted[j..]) > cap
  }

  lemma {:induction false} DroppedAt(q: seq<real>, cap: real, s: seq<nat>) returns (k: nat)
    requires Bounded(q, s) && 0.0 <= cap
    ensures k <= |s| && Dropped(q, cap, s) == s[k..] && SumAt(q, s[k..]) <= cap
    ensures forall j :: 0 <= j < k ==> SumAt(q, s[j..]) > cap
  {
    if s == [] || SumAt(q, s) <= cap {
      k := 0;
      assert s[0..] == s;
    } else {
      var n := DroppedAt(q, cap, s[1..]);
      k := n + 1;
      assert s[1..][n..] == s[n + 1..] && s[0..] == s;
      forall j | 0 <= j < k ensures SumAt(q, s[j..]) > cap { if j > 0 { assert s[1..][j - 1..] == s[j..]; } }
    }
  }

  lemma CutExactly(q: seq<real>, cap: real, sel: seq<nat>, r: seq<nat>)
    requires Chosen(q, sel) && 0.0 <= cap
    ensures CutDown(q, cap, sel, r) <==> r == Trimmed(q, cap, sel)
  {
    hide StablySorted;
    if SumAt(q, sel) > cap {
      var s := SortedByQty(sel, q);
      SortIsStable(sel, q);
      var k := DroppedAt(q, cap, s);
      assert CutAt(q, cap, sel, s, k, s[k..]);
      if CutDown(q, cap, sel, r) {
        var sorted: seq<nat>, n :| CutAt(q, cap, sel, sorted, n, r);
        SortIsUnique(sel, sorted, s, Smaller(q));
        assert !(n < k) && !(k < n);
      }
    }
  }

  // ---------- the choice

  lemma OneUpwards(pick: seq<bool>, a: seq<nat>, b: seq<nat>)
    requires Upwards(pick, a) && Upwards(pick, b)
    ensures a == b
  {
    SameAscending(a, b, (x: nat, y: nat) => x < y);
  }

  lemma OneDownwards(pick: seq<bool>, a: seq<nat>, b: seq<nat>)
    requires Downwards(pick, a) && Downwards(pick, b)
    ensures a == b
  {
    SameAscending(a, b, (x: nat, y: nat) => x > y);
  }

  /** Up to 22 orders: the selection that comes first among those that fit, its orders as they came. */
  ghost predicate FewChosen(q: seq<real>, cap: real, sel: seq<nat>) {
    exists pick :: FirstOfBest(q, Within(q, cap), pick) && Upwards(pick, sel)
  }

  /** More: the selection that comes first among those whose rounded metres fit, last order first, cut
      down if its true metres do not fit. */
  ghost predicate ManyChosen(q: seq<real>, cap: real, sel: seq<nat>)
    requires 0.0 <= cap
  {
    exists w: seq<nat>, pick, list: seq<nat> ::
      && AllNearest(q, w) && FirstOfBest(q, WeighsWithin(w, cap.Floor), pick)
      && Downwards(pick, list) && CutDown(q, cap, list, sel)
  }

  lemma FewExactly(q: seq<real>, cap: real, sel: seq<nat>)
    ensures FewChosen(q, cap, sel) <==> exists pick: seq<bool> :: SearchedFor(q, cap, pick) && sel == Ascending(pick)
  {
    hide FirstOfBest, SearchedFor;
    forall pick ensures SearchedFor(q, cap, pick) <==> FirstOfBest(q, Within(q, cap), pick) {
      SearchedExactly(q, cap, pick);
    }
    forall pick ensures Upwards(pick, sel) <==> sel == Ascending(pick) {
      AscendingMeans(pick);
      if Upwards(pick, sel) { OneUpwards(pick, sel, Ascending(pick)); }
    }
  }

  lemma ManyExactly(q: seq<real>, cap: real, sel: seq<nat>)
    requires 0.0 <= cap
    ensures ManyChosen(q, cap, sel) <==> sel == TableChoice(q, cap)
  {
    hide FirstOfBest, Trimmed, CutDown, AllNearest, Downwards;
    var w, c: nat := DiscreteAll(q), cap.Floor;
    var pick := Traced(q, w, |q|, c);
    var list := Positions(pick, 0);
    WeightsExactly(q, w);
    TracedIsFirst(q, w, c);
    DescendingMeans(pick);
    PositionsChosen(q, pick, 0);
    CutExactly(q, cap, list, sel);
    if ManyChosen(q, cap, sel) {
      var v: seq<nat>, other, l: seq<nat> :|
        AllNearest(q, v) && FirstOfBest(q, WeighsWithin(v, cap.Floor), other)
        && Downwards(other, l) && CutDown(q, cap, l, sel);
      WeightsExactly(q, v);
      OneFirstOfBest(q, WeighsWithin(w, c), pick, other);
      OneDownwards(pick, list, l);
    }
  }

  /** The choice for a pool, both ways round, with no mask and no table: no selection that fits has a
      larger total, where more than 22 orders count with their rounded metres; of those with the same
      total, the one that leaves out the last order on which they differ. */
  lemma ChoiceExactly(q: seq<real>, cap: real, sel: seq<nat>)
    requires 0.0 <= cap
    ensures Choice(q, cap, sel) <==> if |q| <= 22 then FewChosen(q, cap, sel) else ManyChosen(q, cap, sel)
  {
    hide FewChosen, ManyChosen, SearchedFor, TableChoice;
    FewExactly(q, cap, sel);
    ManyExactly(q, cap, sel);
  }
}
