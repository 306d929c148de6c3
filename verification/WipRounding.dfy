/** When the table of the matching is exact: quantities that are not whole metres. */
module WipRounding {
  import opened WipKnapsack
  import opened WipCombo

  // ---------- orders that are too big

  ghost predicate TooBig(pad: seq<real>, c: nat) { forall j :: 0 <= j < |pad| ==> Discrete(pad[j]) > c }

  lemma {:induction false} TooBigIsNeverKept(pad: seq<real>, q: seq<real>, i: nat, c: nat)
    requires i <= |pad| && pad <= q && TooBig(pad, c)
    ensures Best(q, DiscreteAll(q), i, c) == 0.0
    decreases i
  {
    if i > 0 {
      TooBigIsNeverKept(pad, q, i - 1, c);
      assert q[i - 1] == pad[i - 1];
    }
  }

  function None(n: nat): (pick: seq<bool>)
    ensures |pick| == n
  {
    seq(n, _ => false)
  }

  lemma {:induction false} TooBigIsNotTraced(pad: seq<real>, q: seq<real>, i: nat, c: nat)
    requires i <= |pad| && pad <= q && TooBig(pad, c)
    ensures Traced(q, DiscreteAll(q), i, c) == None(i)
    decreases i
  {
    if i > 0 {
      TooBigIsNotTraced(pad, q, i - 1, c);
      assert q[i - 1] == pad[i - 1];
    }
  }

  lemma {:induction false} NothingChosen(q: seq<real>)
    ensures Total(q, None(|q|)) == 0.0
    decreases |q|
  {
    if q != [] {
      NothingChosen(q[..|q| - 1]);
      assert None(|q|)[..|q| - 1] == None(|q| - 1);
    }
  }

  lemma {:induction false} NoPositions(n: nat, base: nat)
    ensures Positions(None(n), base) == []
    decreases n
  {
    if n > 0 {
      NoPositions(n - 1, base + 1);
      assert None(n)[1..] == None(n - 1);
    }
  }

  /** The selection of the last order alone. */
  lemma OnlyLast(pad: seq<real>, x: real)
    ensures Total(pad + [x], None(|pad|) + [true]) == x
  {
    var q, pick, n := pad + [x], None(|pad|) + [true], |pad|;
    assert q[..n] == pad && pick[..n] == None(n);
    NothingChosen(pad);
  }

  // ---------- two ways to go wrong

  /** An order that counts for more than its metres is left out of a pool that it fills exactly. */
  lemma RoundedUpIsLeftOut(pad: seq<real>, x: real)
    requires 0.0 < x && x.Floor < Discrete(x) && TooBig(pad, x.Floor)
    ensures TableChoice(pad + [x], x) == [] && !UsesMost(pad + [x], x, 0.0)
  {
    var q := pad + [x];
    var c: nat := x.Floor;
    TooBigIsNotTraced(q, q, |q|, c);
    NoPositions(|q|, 0);
    OnlyLast(pad, x);
    var pick := None(|pad|) + [true];
    assert |pick| == |q| && Total(q, pick) == x;
  }

  /** The table with an order `x` that counts for no more than its whole metres, and after it an
      order of just those metres: it traces `x` alone. */
  lemma TakesTheLarger(pad: seq<real>, x: real)
    requires 1.0 <= x && x.Floor == Discrete(x) && TooBig(pad, x.Floor)
    ensures var q := pad + [x, x.Floor as real];
            Traced(q, DiscreteAll(q), |q|, x.Floor) == None(|pad|) + [true, false]
  {
    var m: nat := x.Floor;
    var q, n := pad + [x, m as real], |pad|;
    var w := DiscreteAll(q);
    assert Discrete(m as real) == m && w[n] == m && w[n + 1] == m;
    TooBigIsNeverKept(pad, q, n, m);
    NothingBelow(pad, q, m);
    assert Keeps(q, w, n, m) && Best(q, w, n + 1, m) == x;
    assert !Keeps(q, w, n + 1, m);
    TooBigIsNotTraced(pad, q, n, 0);
    assert Traced(q, w, n + 1, m) == None(n) + [true];
  }

  /** At capacity 0 nothing is kept. */
  lemma NothingBelow(pad: seq<real>, q: seq<real>, m: nat)
    requires TooBig(pad, m) && |q| == |pad| + 2 && pad <= q
    requires Discrete(q[|pad|]) == m && m > 0
    ensures Best(q, DiscreteAll(q), |pad|, 0) == 0.0 && Best(q, DiscreteAll(q), |pad| + 1, 0) == 0.0
    ensures TooBig(pad, 0)
  {
    TooBigIsNeverKept(pad, q, |pad|, 0);
    assert !Keeps(q, DiscreteAll(q), |pad|, 0);
  }

  /** An order that counts for less than its metres crowds out one that would fill the pool, and is
      trimmed off in the end. */
  lemma RoundedDownIsDropped(pad: seq<real>, x: real)
    requires 1.0 <= x && x.Floor == Discrete(x) && x.Floor as real < x && TooBig(pad, x.Floor)
    ensures var q, cap := pad + [x, x.Floor as real], x.Floor as real;
            TableChoice(q, cap) == [] && !UsesMost(q, cap, 0.0)
  {
    var cap, n := x.Floor as real, |pad|;
    var q := pad + [x, cap];
    TakesTheLarger(pad, x);
    PositionsOfOne(n, 0);
    OneTracedIsDropped(q, cap, n);
    assert q == (pad + [x]) + [cap];
    OnlyLast(pad + [x], cap);
    var pick := None(n + 1) + [true];
    assert |pick| == |q| && Total(q, pick) == cap;
  }

  /** If order `n` alone is traced and does not fit, nothing is chosen. */
  lemma OneTracedIsDropped(q: seq<real>, cap: real, n: nat)
    requires 0.0 <= cap && n < |q| && cap < q[n]
    requires Positions(Traced(q, DiscreteAll(q), |q|, cap.Floor), 0) == [n]
    ensures TableChoice(q, cap) == []
  {
    OneTooMuch(q, cap, n);
  }

  lemma OneTooMuch(q: seq<real>, cap: real, n: nat)
    requires n < |q| && cap < q[n] && 0.0 <= cap
    ensures Trimmed(q, cap, [n]) == []
  {
    var sel: seq<nat> := [n];
    var rest := sel[1..];
    assert rest == [] && SumAt(q, sel) == q[n];
    assert SortedByQty(rest, q) == [] && InsertByQty(n, [], q) == [n] + [];
    assert SortedByQty(sel, q) == sel;
    assert Dropped(q, cap, rest) == rest;
    assert Dropped(q, cap, sel) == rest;
  }

  lemma {:induction false} PositionsOfOne(n: nat, base: nat)
    ensures Positions(None(n) + [true, false], base) == [base + n]
    decreases n
  {
    var pick := None(n) + [true, false];
    if n > 0 {
      PositionsOfOne(n - 1, base + 1);
      assert pick[1..] == None(n - 1) + [true, false];
    } else {
      assert pick == [true, false] && pick[1..] == [false];
      assert [false][1..] == [] && Positions([false], base + 1) == [];
    }
  }

  // ---------- the theorem

  predicate WholeMetres(x: real) { x == x.Floor as real && 1.0 <= x }

  ghost predicate OthersWhole(q: seq<real>, i: nat) {
    i < |q| && forall j :: 0 <= j < |q| && j != i ==> WholeMetres(q[j])
  }

  /** However many orders of whole metres come with an order of `x`, and whatever the pool, the table
      leads to a choice that no choice that fits exceeds. */
  ghost predicate ExactWith(x: real) {
    forall q: seq<real>, i: nat, cap: real ::
      |q| > EXACT_SEARCH_LIMIT && OthersWhole(q, i) && q[i] == x && 0.0 <= cap ==>
      UsesMost(q, cap, SumAt(q, TableChoice(q, cap)))
  }

  function Pad(n: nat, x: real): (pad: seq<real>)
    ensures |pad| == n && forall j :: 0 <= j < n ==> pad[j] == (x.Floor + 1) as real
  {
    seq(n, _ => (x.Floor + 1) as real)
  }

  lemma PadIsTooBig(n: nat, x: real)
    requires 0.0 < x
    ensures TooBig(Pad(n, x), x.Floor) && forall j :: 0 <= j < n ==> WholeMetres(Pad(n, x)[j])
  {
    var b := x.Floor + 1;
    assert Round(b as real) == b;
  }

  lemma RoundsNear(x: real)
    requires 0.0 < x
    ensures x.Floor <= Discrete(x)
    ensures x.Floor == Discrete(x) ==> 1.0 <= x
  {
  }

  lemma WholeIsExact(x: real)
    requires WholeMetres(x)
    ensures ExactWith(x)
  {
    forall q: seq<real>, i: nat, cap: real
      | |q| > EXACT_SEARCH_LIMIT && OthersWhole(q, i) && q[i] == x && 0.0 <= cap
      ensures UsesMost(q, cap, SumAt(q, TableChoice(q, cap)))
    {
      assert Whole(q);
      WholeChoice(q, cap);
    }
  }

  lemma UpIsNotExact(x: real)
    requires 0.0 < x && x.Floor < Discrete(x)
    ensures !ExactWith(x)
  {
    var pad := Pad(EXACT_SEARCH_LIMIT, x);
    var q := pad + [x];
    PadIsTooBig(EXACT_SEARCH_LIMIT, x);
    RoundedUpIsLeftOut(pad, x);
    assert OthersWhole(q, EXACT_SEARCH_LIMIT) && q[EXACT_SEARCH_LIMIT] == x;
    assert SumAt(q, TableChoice(q, x)) == 0.0;
  }

  lemma DownIsNotExact(x: real)
    requires 1.0 <= x && x.Floor == Discrete(x) && x.Floor as real < x
    ensures !ExactWith(x)
  {
    var cap := x.Floor as real;
    var pad := Pad(EXACT_SEARCH_LIMIT, x);
    var q := pad + [x, cap];
    PadIsTooBig(EXACT_SEARCH_LIMIT, x);
    RoundedDownIsDropped(pad, x);
    assert OthersWhole(q, EXACT_SEARCH_LIMIT) && q[EXACT_SEARCH_LIMIT] == x;
    assert SumAt(q, TableChoice(q, cap)) == 0.0;
  }

  /** An order never spoils the choice exactly when its quantity is whole metres, at least one. */
  lemma ExactForWholeMetresOnly(x: real)
    requires 0.0 < x
    ensures ExactWith(x) <==> WholeMetres(x)
  {
    RoundsNear(x);
    if WholeMetres(x) {
      WholeIsExact(x);
    } else if x.Floor < Discrete(x) {
      UpIsNotExact(x);
    } else {
      DownIsNotExact(x);
    }
  }
}
