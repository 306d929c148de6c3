/** Choosing the orders that use up a pool of stock best. */
module WipKnapsack {
  const EXACT_SEARCH_LIMIT := 22

  // ---------- selections and their totals

  /** The sum of the chosen quantities. */
  function Total(q: seq<real>, pick: seq<bool>): real
    requires |q| == |pick|
  {
    if q == [] then 0.0
    else Total(q[..|q| - 1], pick[..|q| - 1]) + if pick[|q| - 1] then q[|q| - 1] else 0.0
  }

  function Weight(w: seq<nat>, pick: seq<bool>): nat
    requires |w| == |pick|
  {
    if w == [] then 0
    else Weight(w[..|w| - 1], pick[..|w| - 1]) + if pick[|w| - 1] then w[|w| - 1] else 0
  }

  /** `pick` uses as much of the pool as any selection that fits in it. */
  ghost predicate Optimal(q: seq<real>, cap: real, pick: seq<bool>)
    requires |q| == |pick|
  {
    && Total(q, pick) <= cap
    && forall other: seq<bool> :: |other| == |q| && Total(q, other) <= cap ==> Total(q, other) <= Total(q, pick)
  }

  // ---------- the exhaustive search

  function Pow2(n: nat): nat { if n == 0 then 1 else 2 * Pow2(n - 1) }

  /** Bit `i` of `mask`. */
  predicate Bit(mask: nat, i: nat) {
    if i == 0 then mask % 2 == 1 else Bit(mask / 2, i - 1)
  }

  function Picked(mask: nat, n: nat): (pick: seq<bool>)
    ensures |pick| == n
  {
    if n == 0 then [] else Picked(mask, n - 1) + [Bit(mask, n - 1)]
  }

  /** Every selection is some mask below 2^n. */
  lemma {:induction false} MaskOf(pick: seq<bool>) returns (mask: nat)
    ensures mask < Pow2(|pick|) && Picked(mask, |pick|) == pick
  {
    var n := |pick|;
    if n == 0 {
      mask := 0;
    } else {
      var low := MaskOf(pick[..n - 1]);
      mask := low + if pick[n - 1] then Pow2(n - 1) else 0;
      HighBit(low, n - 1, pick[n - 1]);
      assert pick == pick[..n - 1] + [pick[n - 1]];
    }
  }

  /** Adding 2^n to a smaller mask sets bit n and no lower one. */
  lemma {:induction false} HighBit(low: nat, n: nat, b: bool)
    requires low < Pow2(n)
    ensures var mask := low + if b then Pow2(n) else 0;
            Bit(mask, n) == b && Picked(mask, n) == Picked(low, n)
  {
    var mask := low + if b then Pow2(n) else 0;
    TopBit(low, n, b);
    SamePicked(mask, low, n, n, b);
  }

  lemma {:induction false} TopBit(low: nat, n: nat, b: bool)
    requires low < Pow2(n)
    ensures Bit(low + if b then Pow2(n) else 0, n) == b
    decreases n
  {
    if n > 0 {
      TopBit(low / 2, n - 1, b);
      assert (low + if b then Pow2(n) else 0) / 2 == low / 2 + if b then Pow2(n - 1) else 0;
    }
  }

  lemma {:induction false} LowBit(low: nat, n: nat, i: nat, b: bool)
    requires low < Pow2(n) && i < n
    ensures Bit(low + if b then Pow2(n) else 0, i) == Bit(low, i)
    decreases n
  {
    if i > 0 {
      LowBit(low / 2, n - 1, i - 1, b);
      assert (low + if b then Pow2(n) else 0) / 2 == low / 2 + if b then Pow2(n - 1) else 0;
    }
  }

  lemma {:induction false} SamePicked(mask: nat, low: nat, n: nat, m: nat, b: bool)
    requires low < Pow2(n) && mask == low + (if b then Pow2(n) else 0) && m <= n
    ensures Picked(mask, m) == Picked(low, m)
    decreases m
  {
    if m > 0 {
      SamePicked(mask, low, n, m - 1, b);
      LowBit(low, n, m - 1, b);
    }
  }

  method MaskTotal(q: seq<real>, mask: nat) returns (total: real)
    ensures total == Total(q, Picked(mask, |q|))
  {
    total := 0.0;
    for i := 0 to |q|
      invariant total == Total(q[..i], Picked(mask, i))
    {
      assert q[..i + 1][..i] == q[..i] && Picked(mask, i + 1)[..i] == Picked(mask, i);
      if TestBit(mask, i) { total := total + q[i]; }
    }
    assert q[..|q|] == q;
  }

  predicate TestBit(mask: nat, i: nat) { Bit(mask, i) }

  /** Of the masks that fit, all before that of `pick` use less. */
  ghost predicate FirstBest(q: seq<real>, cap: real, pick: seq<bool>)
    requires |q| == |pick|
  {
    exists mask: nat :: FirstAt(q, cap, pick, mask)
  }

  ghost predicate FirstAt(q: seq<real>, cap: real, pick: seq<bool>, mask: nat)
    requires |q| == |pick|
  {
    && Picked(mask, |q|) == pick
    && forall m: nat :: m < mask && Total(q, Picked(m, |q|)) <= cap ==> Total(q, Picked(m, |q|)) < Total(q, pick)
  }

  /** There is only one first among the best. */
  lemma OneFirstBest(q: seq<real>, cap: real, a: seq<bool>, b: seq<bool>)
    requires |a| == |q| == |b| && Optimal(q, cap, a) && Optimal(q, cap, b)
    requires FirstBest(q, cap, a) && FirstBest(q, cap, b)
    ensures a == b
  {
    var m: nat :| FirstAt(q, cap, a, m);
    var n: nat :| FirstAt(q, cap, b, n);
    assert Total(q, a) == Total(q, b);
    assert m == n by { assert !(m < n) && !(n < m); }
  }

  /** Tries all masks in turn and keeps the first of the best. */
  method SearchAll(q: seq<real>, cap: real) returns (pick: seq<bool>)
    requires 0.0 <= cap
    ensures |pick| == |q| && Optimal(q, cap, pick) && FirstBest(q, cap, pick)
  {
    var bestUsed, bestMask := 0.0, 0;
    EmptyTotal(q);
    var limit := ShiftLeft(|q|);
    var mask := 1;
    while mask < limit
      invariant 1 <= mask && 0 <= bestMask < mask
      invariant bestUsed == Total(q, Picked(bestMask, |q|)) <= cap
      invariant forall m: nat :: m < mask && Total(q, Picked(m, |q|)) <= cap ==> Total(q, Picked(m, |q|)) <= bestUsed
      invariant forall m: nat :: m < bestMask && Total(q, Picked(m, |q|)) <= cap ==> Total(q, Picked(m, |q|)) < bestUsed
    {
      var total := MaskTotal(q, mask);
      if total <= cap && total > bestUsed {
        bestUsed := total;
        bestMask := mask;
      }
      mask := mask + 1;
    }
    pick := Picked(bestMask, |q|);
    assert FirstAt(q, cap, pick, bestMask);
    forall other: seq<bool> | |other| == |q| && Total(q, other) <= cap ensures Total(q, other) <= Total(q, pick) {
      var m := MaskOf(other);
      assert Picked(m, |q|) == other;
    }
  }

  method ShiftLeft(n: nat) returns (r: nat)
    ensures r == Pow2(n) && r >= 1
  {
    r := 1;
    for i := 0 to n
      invariant r == Pow2(i) && r >= 1
    {
      r := 2 * r;
    }
  }

  lemma {:induction false} EmptyTotal(q: seq<real>)
    ensures Total(q, Picked(0, |q|)) == 0.0
  {
    if q != [] {
      var n := |q| - 1;
      EmptyTotal(q[..n]);
      NoBit(n);
      assert Picked(0, |q|)[..n] == Picked(0, n);
    }
  }

  lemma {:induction false} NoBit(i: nat)
    ensures !Bit(0, i)
  {
    if i > 0 { NoBit(i - 1); }
  }

  // ---------- the dynamic programme

  /** Rounds to the nearest integer, ties to even. */
  function Round(x: real): int {
    var f := x.Floor;
    var d := x - f as real;
    if d < 0.5 then f else if d > 0.5 then f + 1 else if f % 2 == 0 then f else f + 1
  }

  /** The discretised size of a quantity, at least 1. */
  function Discrete(x: real): nat { if Round(x) >= 1 then Round(x) else 1 }

  function DiscreteAll(q: seq<real>): (w: seq<nat>)
    ensures |w| == |q| && forall i :: 0 <= i < |q| ==> w[i] == Discrete(q[i])
  {
    seq(|q|, i requires 0 <= i < |q| => Discrete(q[i]))
  }

  /** The best value the first `i` orders reach within capacity `c`. */
  function Best(q: seq<real>, w: seq<nat>, i: nat, c: nat): real
    requires i <= |q| == |w|
    decreases i, 0
  {
    if i == 0 then 0.0
    else if Keeps(q, w, i - 1, c) then Best(q, w, i - 1, c - w[i - 1]) + q[i - 1]
    else Best(q, w, i - 1, c)
  }

  /** Order `i` is taken at capacity `c`, given the best without it. */
  predicate Keeps(q: seq<real>, w: seq<nat>, i: nat, c: nat)
    requires i < |q| == |w|
    decreases i, 1
  {
    w[i] <= c && Best(q, w, i, c - w[i]) + q[i] > Best(q, w, i, c)
  }

  /** The orders found by walking the table of decisions back. */
  function Traced(q: seq<real>, w: seq<nat>, i: nat, c: nat): (pick: seq<bool>)
    requires i <= |q| == |w|
    ensures |pick| == i
  {
    if i == 0 then []
    else if Keeps(q, w, i - 1, c) then Traced(q, w, i - 1, c - w[i - 1]) + [true]
    else Traced(q, w, i - 1, c) + [false]
  }

  lemma {:induction false} TracedReachesBest(q: seq<real>, w: seq<nat>, i: nat, c: nat)
    requires i <= |q| == |w|
    ensures Total(q[..i], Traced(q, w, i, c)) == Best(q, w, i, c)
    ensures Weight(w[..i], Traced(q, w, i, c)) <= c
    decreases i
  {
    if i > 0 {
      var t := Traced(q, w, i, c);
      assert q[..i][..i - 1] == q[..i - 1] && w[..i][..i - 1] == w[..i - 1];
      if Keeps(q, w, i - 1, c) {
        TracedReachesBest(q, w, i - 1, c - w[i - 1]);
        assert t[..i - 1] == Traced(q, w, i - 1, c - w[i - 1]);
      } else {
        TracedReachesBest(q, w, i - 1, c);
        assert t[..i - 1] == Traced(q, w, i - 1, c);
      }
    }
  }

  /** No selection whose discretised sizes fit does better. */
  lemma {:induction false} BestIsBest(q: seq<real>, w: seq<nat>, i: nat, c: nat, pick: seq<bool>)
    requires i <= |q| == |w| && |pick| == i && Weight(w[..i], pick) <= c
    ensures Total(q[..i], pick) <= Best(q, w, i, c)
    decreases i
  {
    if i > 0 {
      assert q[..i][..i - 1] == q[..i - 1] && w[..i][..i - 1] == w[..i - 1];
      if pick[i - 1] {
        BestIsBest(q, w, i - 1, c - w[i - 1], pick[..i - 1]);
      } else {
        BestIsBest(q, w, i - 1, c, pick[..i - 1]);
      }
    }
  }

  /** Fills the table in place, one order after the other, from the largest capacity down, so that
      no order is taken twice. */
  method FillTable(q: seq<real>, w: seq<nat>, cap: nat) returns (kept: array2<bool>)
    requires |q| == |w|
    ensures kept.Length0 == |q| && kept.Length1 == cap + 1
    ensures forall i, c :: 0 <= i < |q| && 0 <= c <= cap ==> kept[i, c] == Keeps(q, w, i, c)
  {
    var dp := new real[cap + 1](_ => 0.0);
    kept := new bool[|q|, cap + 1]((_, _) => false);
    for i := 0 to |q|
      invariant forall c :: 0 <= c <= cap ==> dp[c] == Best(q, w, i, c)
      invariant forall j, c :: 0 <= j < i && 0 <= c <= cap ==> kept[j, c] == Keeps(q, w, j, c)
      invariant forall j, c :: i <= j < |q| && 0 <= c <= cap ==> !kept[j, c]
    {
      FillRow(q, w, cap, i, dp, kept);
    }
  }

  method FillRow(q: seq<real>, w: seq<nat>, cap: nat, i: nat, dp: array<real>, kept: array2<bool>)
    requires i < |q| == |w| && dp.Length == cap + 1 && kept.Length0 == |q| && kept.Length1 == cap + 1
    requires forall c :: 0 <= c <= cap ==> dp[c] == Best(q, w, i, c) && !kept[i, c]
    modifies dp, kept
    ensures forall c :: 0 <= c <= cap ==> dp[c] == Best(q, w, i + 1, c) && kept[i, c] == Keeps(q, w, i, c)
    ensures forall j, c :: 0 <= j < |q| && j != i && 0 <= c <= cap ==> kept[j, c] == old(kept[j, c])
  {
    var c: int := cap;
    while c >= w[i]
      invariant w[i] - 1 <= c <= cap || (c == cap && cap < w[i])
      invariant forall b :: c < b <= cap ==> dp[b] == Best(q, w, i + 1, b) && kept[i, b] == Keeps(q, w, i, b)
      invariant forall b :: 0 <= b <= c ==> dp[b] == Best(q, w, i, b) && !kept[i, b]
      invariant forall j, b :: 0 <= j < |q| && j != i && 0 <= b <= cap ==> kept[j, b] == old(kept[j, b])
      decreases c
    {
      var val := dp[c - w[i]] + q[i];
      if val > dp[c] {
        dp[c] := val;
        kept[i, c] := true;
      }
      c := c - 1;
    }
  }

  /** The dynamic programme with its walk back: the chosen orders, last first. */
  method SolveTable(q: seq<real>, w: seq<nat>, cap: nat) returns (selected: seq<nat>, ghost pick: seq<bool>)
    requires |q| == |w|
    ensures pick == Traced(q, w, |q|, cap) && selected == Positions(pick, 0)
  {
    var kept := FillTable(q, w, cap);
    selected := [];
    pick := [];
    var c, i := cap, |q|;
    while i > 0
      invariant 0 <= i <= |q| && 0 <= c <= cap
      invariant |pick| == |q| - i && Traced(q, w, |q|, cap) == Traced(q, w, i, c) + pick
      invariant selected == Positions(pick, i)
      invariant forall j, b :: 0 <= j < |q| && 0 <= b <= cap ==> kept[j, b] == Keeps(q, w, j, b)
    {
      i := i - 1;
      assert kept[i, c] == Keeps(q, w, i, c);
      if kept[i, c] {
        pick := [true] + pick;
        selected := selected + [i];
        c := c - w[i];
      } else {
        pick := [false] + pick;
      }
    }
  }

  /** The positions of the chosen orders, the last one first; the first has position `base`. */
  function Positions(pick: seq<bool>, base: nat): seq<nat> {
    if pick == [] then [] else Positions(pick[1..], base + 1) + if pick[0] then [base] else []
  }
}
