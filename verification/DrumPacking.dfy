/** Packing the orders of a group onto drums, earliest due date first. */
module DrumPacking {
  import opened Batches

  const FILL_FOR_GAP := 0.8

  /** The rows of all drums, one drum after the other. */
  function Flat(drums: seq<seq<Row>>): seq<Row> {
    if drums == [] then [] else Flat(drums[..|drums| - 1]) + drums[|drums| - 1]
  }

  /** A drum that holds `drum` is closed before `next` is put on it: it would run over, or it is
      nearly full and the next order, of another customer order, is due much later. */
  predicate Closes(drum: seq<Row>, next: Row, lot: real, gapDays: int)
    requires drum != []
  {
    var prev := drum[|drum| - 1];
    || Total(drum) + next.length > lot
    || (&& Total(drum) >= lot * FILL_FOR_GAP
        && prev.order != next.order && prev.due.Some? && next.due.Some?
        && next.due.value - prev.due.value >= gapDays)
  }

  /** Within a drum no row closes what lies before it. */
  ghost predicate Filled(drum: seq<Row>, lot: real, gapDays: int) {
    drum != [] && forall k :: 1 <= k < |drum| ==> !Closes(drum[..k], drum[k], lot, gapDays)
  }

  /** The drums are filled greedily: each is closed by the first row of the next. */
  ghost predicate Greedy(drums: seq<seq<Row>>, lot: real, gapDays: int) {
    && (forall i :: 0 <= i < |drums| ==> Filled(drums[i], lot, gapDays))
    && (forall i, j :: 0 <= i && j == i + 1 && j < |drums| ==> Closes(drums[i], drums[j][0], lot, gapDays))
  }

  lemma FlatSnoc(drums: seq<seq<Row>>, d: seq<Row>)
    ensures Flat(drums + [d]) == Flat(drums) + d
  {
    assert (drums + [d])[..|drums|] == drums;
  }

  lemma {:induction false} FlatConcat(a: seq<seq<Row>>, b: seq<seq<Row>>)
    ensures Flat(a + b) == Flat(a) + Flat(b)
    decreases |b|
  {
    if b == [] {
      assert a + b == a;
    } else {
      var n := |b| - 1;
      var c, d := b[..n], b[n];
      assert b == c + [d] && a + b == (a + c) + [d];
      FlatConcat(a, c);
      FlatSnoc(a + c, d);
      FlatSnoc(c, d);
      Regroup(Flat(a), Flat(c), d);
    }
  }

  lemma FilledGrows(drum: seq<Row>, r: Row, lot: real, gapDays: int)
    requires Filled(drum, lot, gapDays) && !Closes(drum, r, lot, gapDays)
    ensures Filled(drum + [r], lot, gapDays)
  {
    var more := drum + [r];
    forall k | 1 <= k < |more| ensures !Closes(more[..k], more[k], lot, gapDays) {
      if k < |drum| { assert more[..k] == drum[..k]; } else { assert more[..k] == drum; }
    }
  }

  lemma GreedyGrows(drums: seq<seq<Row>>, d: seq<Row>, lot: real, gapDays: int)
    requires Greedy(drums, lot, gapDays) && Filled(d, lot, gapDays)
    requires drums != [] ==> Closes(drums[|drums| - 1], d[0], lot, gapDays)
    ensures Greedy(drums + [d], lot, gapDays)
  {
    var all := drums + [d];
    forall i, j | 0 <= i && j == i + 1 && j < |all| ensures Closes(all[i], all[j][0], lot, gapDays) {
      if j < |drums| { assert Closes(drums[i], drums[j][0], lot, gapDays); }
    }
  }

  /** The first `i` rows are packed: on closed drums and on the current one. */
  ghost predicate Packed(rows: seq<Row>, i: nat, drums: seq<seq<Row>>, current: seq<Row>, lot: real, gapDays: int) {
    && i <= |rows| && Flat(drums) + current == rows[..i] && Greedy(drums, lot, gapDays)
    && (if current == [] then drums == []
        else Filled(current, lot, gapDays) && (drums != [] ==> Closes(drums[|drums| - 1], current[0], lot, gapDays)))
  }

  lemma CloseDrum(drums: seq<seq<Row>>, current: seq<Row>, lot: real, gapDays: int)
    requires Greedy(drums, lot, gapDays) && Filled(current, lot, gapDays)
    requires drums != [] ==> Closes(drums[|drums| - 1], current[0], lot, gapDays)
    ensures Greedy(drums + [current], lot, gapDays) && Flat(drums + [current]) == Flat(drums) + current
  {
    FlatSnoc(drums, current);
    GreedyGrows(drums, current, lot, gapDays);
  }

  lemma NextDrum(rows: seq<Row>, i: nat, drums: seq<seq<Row>>, current: seq<Row>, lot: real, gapDays: int)
    requires i < |rows| && Packed(rows, i, drums, current, lot, gapDays)
    requires current != [] && Closes(current, rows[i], lot, gapDays)
    ensures Packed(rows, i + 1, drums + [current], [rows[i]], lot, gapDays)
  {
    CloseDrum(drums, current, lot, gapDays);
    assert rows[..i + 1] == rows[..i] + [rows[i]];
  }

  lemma SameDrum(rows: seq<Row>, i: nat, drums: seq<seq<Row>>, current: seq<Row>, lot: real, gapDays: int)
    requires i < |rows| && Packed(rows, i, drums, current, lot, gapDays)
    requires current != [] ==> !Closes(current, rows[i], lot, gapDays)
    ensures Packed(rows, i + 1, drums, current + [rows[i]], lot, gapDays)
  {
    var more := current + [rows[i]];
    assert rows[..i + 1] == rows[..i] + [rows[i]];
    assert Flat(drums) + more == (Flat(drums) + current) + [rows[i]];
    if current != [] {
      FilledGrows(current, rows[i], lot, gapDays);
      assert more[0] == current[0];
    }
  }

  lemma LastOfDrum(rows: seq<Row>, i: nat, drums: seq<seq<Row>>, current: seq<Row>, lot: real, gapDays: int)
    requires Packed(rows, i, drums, current, lot, gapDays) && current != []
    ensures i > 0 && rows[i - 1] == current[|current| - 1]
  {
    assert (Flat(drums) + current)[|Flat(drums)| + |current| - 1] == current[|current| - 1];
  }

  lemma NothingPacked(rows: seq<Row>, lot: real, gapDays: int)
    ensures Packed(rows, 0, [], [], lot, gapDays)
  {
  }

  method PackDrums(rows: seq<Row>, lot: real, gapDays: int) returns (drums: seq<seq<Row>>)
    ensures Flat(drums) == rows && Greedy(drums, lot, gapDays)
    ensures forall i :: 0 <= i < |drums| && |drums[i]| >= 2 ==> Total(drums[i]) <= lot
  {
    hide Greedy, Filled;
    drums := [];
    var current: seq<Row>, fill := [], 0.0;
    NothingPacked(rows, lot, gapDays);
    for i := 0 to |rows|
      invariant Packed(rows, i, drums, current, lot, gapDays) && fill == Total(current)
    {
      var b := rows[i];
      if current != [] { LastOfDrum(rows, i, drums, current, lot, gapDays); }
      var closes := current != [] && fill + b.length > lot;
      if !closes && current != [] && i > 0 && fill >= lot * FILL_FOR_GAP {
        var prev := rows[i - 1];
        closes := prev.order != b.order && prev.due.Some? && b.due.Some? && b.due.value - prev.due.value >= gapDays;
      }
      if closes {
        NextDrum(rows, i, drums, current, lot, gapDays);
        TotalOne(b);
        drums := drums + [current];
        current, fill := [b], b.length;
      } else {
        SameDrum(rows, i, drums, current, lot, gapDays);
        TotalSnoc(current, b);
        current := current + [b];
        fill := fill + b.length;
      }
    }
    assert rows[..|rows|] == rows;
    if current != [] {
      CloseDrum(drums, current, lot, gapDays);
      drums := drums + [current];
    }
    SharedDrumsFit(drums, lot, gapDays);
  }

  lemma SharedDrumsFit(drums: seq<seq<Row>>, lot: real, gapDays: int)
    requires Greedy(drums, lot, gapDays)
    ensures forall i :: 0 <= i < |drums| && |drums[i]| >= 2 ==> Total(drums[i]) <= lot
  {
    hide Filled, Total;
    forall i | 0 <= i < |drums| && |drums[i]| >= 2 ensures Total(drums[i]) <= lot {
      SharedDrumFits(drums[i], lot, gapDays);
    }
  }

  // ---------- what greedy packing means

  ghost predicate NonNegative(rows: seq<Row>) { forall i :: 0 <= i < |rows| ==> 0.0 <= rows[i].length }

  lemma {:induction false} TotalConcat(a: seq<Row>, b: seq<Row>)
    ensures Total(a + b) == Total(a) + Total(b)
    decreases |b|
  {
    if b == [] {
      assert a + b == a;
    } else {
      var n := |b| - 1;
      TotalConcat(a, b[..n]);
      assert (a + b)[..|a + b| - 1] == a + b[..n] && (a + b)[|a + b| - 1] == b[n];
    }
  }

  lemma {:induction false} TotalAtLeastFirst(rows: seq<Row>)
    requires NonNegative(rows)
    ensures 0.0 <= Total(rows) && (rows != [] ==> rows[0].length <= Total(rows))
    decreases |rows|
  {
    if rows != [] {
      TotalAtLeastFirst(rows[..|rows| - 1]);
      if |rows| == 1 { assert rows[..0] == []; } else { assert rows[..|rows| - 1][0] == rows[0]; }
    }
  }

  /** A drum with two orders or more is within the lot. */
  lemma SharedDrumFits(drum: seq<Row>, lot: real, gapDays: int)
    requires Filled(drum, lot, gapDays) && |drum| >= 2
    ensures Total(drum) <= lot
  {
    var n := |drum| - 1;
    assert !Closes(drum[..n], drum[n], lot, gapDays);
  }

  /** Two drums in a row hold at least four fifths of a lot. */
  lemma NeighboursFill(drums: seq<seq<Row>>, i: nat, lot: real, gapDays: int)
    requires Greedy(drums, lot, gapDays) && i + 1 < |drums| && NonNegative(drums[i]) && NonNegative(drums[i + 1])
             && lot > 0.0
    ensures Total(drums[i]) + Total(drums[i + 1]) >= FILL_FOR_GAP * lot
  {
    var j := i + 1;
    assert Filled(drums[i], lot, gapDays) && Filled(drums[j], lot, gapDays);
    assert Closes(drums[i], drums[j][0], lot, gapDays);
    TotalAtLeastFirst(drums[j]);
  }

  lemma GreedyPrefix(drums: seq<seq<Row>>, n: nat, lot: real, gapDays: int)
    requires Greedy(drums, lot, gapDays) && n <= |drums|
    ensures Greedy(drums[..n], lot, gapDays)
  {
    forall i, j | 0 <= i && j == i + 1 && j < n ensures Closes(drums[..n][i], drums[..n][j][0], lot, gapDays) {
      assert Closes(drums[i], drums[j][0], lot, gapDays);
    }
  }

  ghost predicate AllNonNegative(drums: seq<seq<Row>>) { forall i :: 0 <= i < |drums| ==> NonNegative(drums[i]) }

  /** Two drums count for at least four fifths of a lot. */
  function Needed(lot: real, drums: nat): real { FILL_FOR_GAP * lot * (drums / 2) as real }

  lemma NeedNothing(lot: real, drums: nat)
    requires drums < 2
    ensures Needed(lot, drums) == 0.0
  {
    assert (drums / 2) as real == 0.0;
  }

  lemma FlatOfOne(drums: seq<seq<Row>>)
    requires |drums| < 2
    ensures Total(Flat(drums)) == if drums == [] then 0.0 else Total(drums[0])
  {
    if drums != [] { FlatOne(drums); }
  }

  lemma TwoDrumsMore(lot: real, drums: nat)
    ensures Needed(lot, drums + 2) == Needed(lot, drums) + FILL_FOR_GAP * lot
  {
    var k := drums / 2;
    assert (drums + 2) / 2 == k + 1 && (k + 1) as real == k as real + 1.0;
    var x := FILL_FOR_GAP * lot;
    assert x * (k as real + 1.0) == x * k as real + x;
  }

  /** So many drums need so much length. */
  lemma {:induction false} DrumsNeedLength(drums: seq<seq<Row>>, lot: real, gapDays: int)
    requires Greedy(drums, lot, gapDays) && AllNonNegative(drums) && lot > 0.0
    ensures Needed(lot, |drums|) <= Total(Flat(drums))
    decreases |drums|
  {
    hide Needed, Total, Flat, Closes, Filled, NonNegative;
    var n := |drums|;
    if n < 2 {
      NeedNothing(lot, n);
      FlatOfOne(drums);
      if n == 1 { TotalAtLeastFirst(drums[0]); }
    } else {
      var rest := drums[..n - 2];
      GreedyPrefix(drums, n - 2, lot, gapDays);
      DrumsNeedLength(rest, lot, gapDays);
      NeighboursFill(drums, n - 2, lot, gapDays);
      LastTwo(drums);
      TwoDrumsMore(lot, |rest|);
    }
  }

  lemma FlatOne(drums: seq<seq<Row>>)
    requires |drums| == 1
    ensures Flat(drums) == drums[0]
  {
    assert [] + [drums[0]] == drums;
    FlatSnoc([], drums[0]);
  }

  lemma LastTwo(drums: seq<seq<Row>>)
    requires |drums| >= 2
    ensures var n := |drums|;
            Total(Flat(drums)) == Total(Flat(drums[..n - 2])) + Total(drums[n - 2]) + Total(drums[n - 1])
  {
    hide Flat, Total;
    var n := |drums|;
    var rest, a, b := drums[..n - 2], drums[n - 2], drums[n - 1];
    assert drums == rest + [a] + [b];
    FlatSnoc(rest, a);
    FlatSnoc(rest + [a], b);
    TotalConcat(Flat(rest), a);
    TotalConcat(Flat(rest + [a]), b);
  }

  // ---------- there is only one greedy packing

  lemma FlatCons(drums: seq<seq<Row>>)
    requires drums != []
    ensures Flat(drums) == drums[0] + Flat(drums[1..])
  {
    assert drums == drums[..1] + drums[1..];
    FlatConcat(drums[..1], drums[1..]);
    FlatOne(drums[..1]);
  }

  /** A filled drum cannot be a proper beginning of another filled drum that it is closed before. */
  lemma SameFirst(a: seq<Row>, b: seq<Row>, x: seq<Row>, y: seq<Row>, lot: real, gapDays: int)
    requires Filled(a, lot, gapDays) && Filled(b, lot, gapDays) && a + x == b + y
    requires x != [] ==> Closes(a, x[0], lot, gapDays)
    requires y != [] ==> Closes(b, y[0], lot, gapDays)
    ensures |a| >= |b|
  {
    if |a| < |b| { ShorterBegins(a, x, b, y); }
  }

  lemma ShorterBegins(a: seq<Row>, x: seq<Row>, b: seq<Row>, y: seq<Row>)
    requires a + x == b + y && |a| < |b|
    ensures x != [] && b[..|a|] == a && b[|a|] == x[0]
  {
    assert (a + x)[|a|] == x[0] && (b + y)[|a|] == b[|a|];
    assert b[..|a|] == (b + y)[..|a|] == (a + x)[..|a|] == a;
  }

  lemma FirstAfter(drums: seq<seq<Row>>, lot: real, gapDays: int)
    requires Greedy(drums, lot, gapDays) && drums != []
    ensures Greedy(drums[1..], lot, gapDays) && Filled(drums[0], lot, gapDays)
    ensures Flat(drums[1..]) != [] ==> Closes(drums[0], Flat(drums[1..])[0], lot, gapDays)
  {
    var rest := drums[1..];
    forall i, j | 0 <= i && j == i + 1 && j < |rest| ensures Closes(rest[i], rest[j][0], lot, gapDays) {
      assert Closes(drums[i + 1], drums[j + 1][0], lot, gapDays);
    }
    if rest != [] {
      FlatCons(rest);
      assert Filled(drums[1], lot, gapDays);
      assert Closes(drums[0], drums[1][0], lot, gapDays);
    }
  }

  /** The rule settles the packing: two greedy packings of the same rows are the same. */
  lemma {:induction false} GreedyIsUnique(a: seq<seq<Row>>, b: seq<seq<Row>>, lot: real, gapDays: int)
    requires Greedy(a, lot, gapDays) && Greedy(b, lot, gapDays) && Flat(a) == Flat(b)
    ensures a == b
    decreases |a|
  {
    if a == [] {
      if b != [] { FlatCons(b); }
    } else {
      FlatCons(a);
      FirstAfter(a, lot, gapDays);
      if b != [] {
        FlatCons(b);
        FirstAfter(b, lot, gapDays);
        SameFirst(a[0], b[0], Flat(a[1..]), Flat(b[1..]), lot, gapDays);
        SameFirst(b[0], a[0], Flat(b[1..]), Flat(a[1..]), lot, gapDays);
        SameRest(a[0], Flat(a[1..]), b[0], Flat(b[1..]));
        GreedyIsUnique(a[1..], b[1..], lot, gapDays);
        assert a == [a[0]] + a[1..] && b == [b[0]] + b[1..];
      }
    }
  }

  lemma SameRest(a: seq<Row>, x: seq<Row>, b: seq<Row>, y: seq<Row>)
    requires a + x == b + y && |a| == |b|
    ensures a == b && x == y
  {
    assert (a + x)[..|a|] == a && (b + y)[..|b|] == b && (a + x)[|a|..] == x && (b + y)[|b|..] == y;
  }
}
