/** One pool of a matching run: which orders it may serve, which it serves and from which items. */
module WipPool {
  import opened Wrappers
  import opened WipKnapsack
  import opened WipCombo
  import opened WipMatching

  /** The limits a pool is matched under, and the checks on product, colour and voltage that are
      not part of this model, as one predicate. */
  datatype Rules = Rules(lossLimit: real, agingThreshold: int, agingBonus: real, compatible: (PoolKey, Order) -> bool)

  function LossLimit(r: Rules, p: Pool): real {
    if p.maxAge > r.agingThreshold then r.lossLimit + r.agingBonus else r.lossLimit
  }

  /** An order that the pool may serve. */
  predicate Candidate(r: Rules, p: Pool, o: Order) {
    && !o.useWip
    && r.compatible(p.key, o)
    && !(0.0 < o.drumLength && p.maxDrum < o.drumLength * (1.0 - LossLimit(r, p)))
    && 0.0 < o.qty
  }

  /** The order after it was given item `id` of a pool. */
  function Served(o: Order, p: Pool, id: int): Order {
    o.(useWip := true, wipType := p.key.stage, wipId := Some(id), actualLength := o.qty)
  }

  function ConvertedAll(orders: seq<Order>): seq<real> {
    seq(|orders|, i requires 0 <= i < |orders| => orders[i].Converted())
  }

  function At(q: seq<real>, sel: seq<nat>): seq<real>
    requires forall i :: 0 <= i < |sel| ==> sel[i] < |q|
  {
    seq(|sel|, i requires 0 <= i < |sel| => q[sel[i]])
  }

  // ---------- one pool

  /** The positions of all candidates, in order. */
  function CandidatesOf(r: Rules, p: Pool, orders: seq<Order>): seq<nat> {
    if orders == [] then []
    else
      var n := |orders| - 1;
      CandidatesOf(r, p, orders[..n]) + if Candidate(r, p, orders[n]) then [n] else []
  }

  lemma AppendLater(before: seq<nat>, n: nat, taken: bool)
    requires InOrder(before) && Distinct(before) && forall i :: 0 <= i < |before| ==> before[i] < n
    ensures var list := before + if taken then [n] else [];
            && InOrder(list) && Distinct(list) && (forall x: nat :: x in list <==> x in before || (taken && x == n))
            && forall i :: 0 <= i < |list| ==> list[i] < n + 1
  {
    assert taken ==> (before + [n])[|before|] == n;
  }

  lemma {:induction false} CandidatesMean(r: Rules, p: Pool, orders: seq<Order>)
    ensures var list := CandidatesOf(r, p, orders);
            && InOrder(list) && Distinct(list)
            && (forall x: nat :: x in list <==> x < |orders| && Candidate(r, p, orders[x]))
            && (forall i :: 0 <= i < |list| ==> list[i] < |orders|)
    decreases |orders|
  {
    hide Candidate;
    if orders != [] {
      var n := |orders| - 1;
      CandidatesMean(r, p, orders[..n]);
      var before := CandidatesOf(r, p, orders[..n]);
      AppendLater(before, n, Candidate(r, p, orders[n]));
    }
  }

  method Candidates(orders: array<Order>, p: Pool, r: Rules) returns (list: seq<nat>)
    ensures list == CandidatesOf(r, p, orders[..])
  {
    list := [];
    for i := 0 to orders.Length
      invariant list == CandidatesOf(r, p, orders[..i])
    {
      assert orders[..i + 1][..i] == orders[..i];
      if Candidate(r, p, orders[i]) { list := list + [i]; }
    }
    assert orders[..orders.Length] == orders[..];
  }

  function Negated(q: seq<real>): (n: seq<real>)
    ensures |n| == |q| && forall i :: 0 <= i < |q| ==> n[i] == -q[i]
  {
    seq(|q|, i requires 0 <= i < |q| => -q[i])
  }

  /** The positions of `sel`, largest quantity first, equal ones in the order they came. */
  function Descending(sel: seq<nat>, q: seq<real>): (s: seq<nat>)
    requires Bounded(q, sel)
    ensures Bounded(q, s)
  {
    SortedByQty(sel, Negated(q))
  }

  lemma DescendingMeans(sel: seq<nat>, q: seq<real>)
    requires Chosen(q, sel)
    ensures var s := Descending(sel, q);
            && Chosen(q, s) && SumAt(q, s) == SumAt(q, sel) && (forall y :: y in s <==> y in sel)
            && (forall i, j :: 0 <= i < j < |s| ==> q[s[i]] >= q[s[j]]) && (sel != [] ==> s != [])
  {
    var n, s := Negated(q), Descending(sel, q);
    SortedMeans(sel, n);
    SumNegated(q, n, sel);
    SumNegated(q, n, s);
    if sel != [] { assert sel[0] in s; }
    forall i, j | 0 <= i < j < |s| ensures q[s[i]] >= q[s[j]] { assert n[s[i]] <= n[s[j]]; }
  }

  method SortDescending(sel: seq<nat>, q: seq<real>) returns (s: seq<nat>)
    requires Chosen(q, sel)
    ensures s == Descending(sel, q)
    ensures Chosen(q, s) && SumAt(q, s) == SumAt(q, sel) && (forall y :: y in s <==> y in sel)
    ensures sel != [] ==> s != []
  {
    s := SortByQty(sel, Negated(q));
    DescendingMeans(sel, q);
  }

  lemma {:induction false} SumNegated(q: seq<real>, n: seq<real>, sel: seq<nat>)
    requires |q| == |n| && (forall i :: 0 <= i < |q| ==> n[i] == -q[i])
    requires forall i :: 0 <= i < |sel| ==> sel[i] < |q|
    ensures SumAt(n, sel) == -SumAt(q, sel)
    decreases |sel|
  {
    if sel != [] { SumNegated(q, n, sel[1..]); }
  }

  lemma {:induction false} SumIsSumAt(q: seq<real>, sel: seq<nat>)
    requires forall i :: 0 <= i < |sel| ==> sel[i] < |q|
    ensures Sum(At(q, sel)) == SumAt(q, sel)
    decreases |sel|
  {
    if sel != [] {
      var n := |sel| - 1;
      SumIsSumAt(q, sel[..n]);
      SumConcat(q, sel[..n], [sel[n]]);
      assert sel == sel[..n] + [sel[n]] && [sel[n]][1..] == [];
      assert At(q, sel)[..n] == At(q, sel[..n]);
    }
  }

  /** The members of `list` at the positions `sel`. */
  function Through(list: seq<nat>, sel: seq<nat>): seq<nat>
    requires Bounded(list, sel)
  {
    seq(|sel|, i requires 0 <= i < |sel| => list[sel[i]])
  }

  /** The chosen candidates as orders: nothing is chosen twice, and the sum stays the same. */
  lemma {:induction false} ThroughList(q: seq<real>, list: seq<nat>, sel: seq<nat>)
    requires Bounded(q, list) && Distinct(list) && Chosen(At(q, list), sel)
    ensures Chosen(q, Through(list, sel)) && SumAt(q, Through(list, sel)) == SumAt(At(q, list), sel)
    decreases |sel|
  {
    var picked := Through(list, sel);
    if sel != [] {
      ThroughList(q, list, sel[1..]);
      assert picked[1..] == Through(list, sel[1..]);
    }
    forall i, j | 0 <= i < j < |picked| ensures picked[i] != picked[j] { assert sel[i] != sel[j]; }
  }

  /** What the pool does: it serves the orders `served`, the i-th from the item `homes[i]`. */
  ghost predicate PoolServed(r: Rules, p: Pool, before: seq<Order>, after: seq<Order>, stock: seq<Wip>,
                             served: seq<nat>, homes: seq<nat>)
    requires |before| == |after|
  {
    && Chosen(ConvertedAll(before), served) && |homes| == |served|
    && SumAt(ConvertedAll(before), served) <= p.total
    && (forall i :: 0 <= i < |served| ==>
          && Candidate(r, p, before[served[i]])
          && homes[i] in p.wips && homes[i] < |stock|
          && after[served[i]] == Served(before[served[i]], p, stock[homes[i]].id))
    && (forall i :: 0 <= i < |before| && i !in served ==> after[i] == before[i])
  }

  /** The pool serves the choice from all its candidates, largest first. */
  ghost predicate Serves(r: Rules, p: Pool, before: seq<Order>, served: seq<nat>) {
    exists sel: seq<nat> :: ServesBy(r, p, before, served, sel)
  }

  ghost predicate ServesBy(r: Rules, p: Pool, before: seq<Order>, served: seq<nat>, sel: seq<nat>) {
    var q, list := ConvertedAll(before), CandidatesOf(r, p, before);
    && Bounded(q, list) && Choice(At(q, list), p.total, sel)
    && Bounded(list, sel) && Bounded(q, Through(list, sel))
    && served == Descending(Through(list, sel), q)
  }

  /** All candidates are considered: of few candidates, or of whole metres, no selection of
      candidates that fits in the pool uses more of it than the orders that are served. */
  lemma ServesMost(r: Rules, p: Pool, before: seq<Order>, served: seq<nat>)
    requires Serves(r, p, before, served)
    ensures var q, list := ConvertedAll(before), CandidatesOf(r, p, before);
            && Bounded(q, list) && Chosen(q, served) && SumAt(q, served) <= p.total
            && (forall y :: y in served ==> y in list)
            && (|list| <= EXACT_SEARCH_LIMIT || Whole(At(q, list)) ==> UsesMost(At(q, list), p.total, SumAt(q, served)))
  {
    var q, list := ConvertedAll(before), CandidatesOf(r, p, before);
    var sel: seq<nat> :| ServesBy(r, p, before, served, sel);
    CandidatesMean(r, p, before);
    ChoiceMeans(At(q, list), p.total, sel);
    ThroughList(q, list, sel);
    DescendingMeans(Through(list, sel), q);
  }

  /** The orders to serve: the choice from all candidates. */
  method ChooseOrders(orders: array<Order>, p: Pool, r: Rules) returns (list: seq<nat>, sel: seq<nat>)
    requires 0.0 <= p.total
    ensures list == CandidatesOf(r, p, orders[..]) && Bounded(ConvertedAll(orders[..]), list)
    ensures Choice(At(ConvertedAll(orders[..]), list), p.total, sel)
  {
    list := Candidates(orders, p, r);
    CandidatesMean(r, p, orders[..]);
    var conv := ReadConverted(orders);
    sel := FindBestCombo(At(conv, list), p.total);
  }

  /** An item has less left than it held exactly when an order was put on it. */
  ghost predicate Drawn(stock: seq<Wip>, drums: seq<nat>, left: seq<real>, homes: seq<nat>) {
    && |left| == |drums|
    && forall k :: 0 <= k < |drums| ==> drums[k] < |stock| && (left[k] < stock[drums[k]].total <==> drums[k] in homes)
  }

  ghost predicate AllPositive(s: seq<real>) { forall i :: 0 <= i < |s| ==> 0.0 < s[i] }

  lemma {:induction false} LessIsDrawn(rem: seq<real>, needs: seq<real>, drums: seq<nat>, k: nat)
    requires |needs| == |drums| && (forall i :: 0 <= i < |drums| ==> drums[i] < |rem|) && AllPositive(needs)
             && k < |rem|
    ensures var r := Left(rem, needs, drums)[k]; r <= rem[k] && (r < rem[k] <==> k in drums)
    decreases |drums|
  {
    if drums != [] {
      var n := |drums| - 1;
      LessIsDrawn(rem, needs[..n], drums[..n], k);
      assert drums == drums[..n] + [drums[n]];
    }
  }

  lemma DrawnByPositions(stock: seq<Wip>, drums: seq<nat>, needs: seq<real>, positions: seq<nat>, homes: seq<nat>)
    requires (forall i :: 0 <= i < |drums| ==> drums[i] < |stock|) && Distinct(drums)
             && |needs| == |positions| == |homes|
    requires forall i :: 0 <= i < |positions| ==> positions[i] < |drums| && homes[i] == drums[positions[i]]
    requires AllPositive(needs)
    ensures Drawn(stock, drums, Left(At(Totals(stock), drums), needs, positions), homes)
  {
    var rem := At(Totals(stock), drums);
    forall k | 0 <= k < |drums|
      ensures Left(rem, needs, positions)[k] < stock[drums[k]].total <==> drums[k] in homes
    {
      LessIsDrawn(rem, needs, positions, k);
      if k in positions {
        var i :| 0 <= i < |positions| && positions[i] == k;
        assert homes[i] == drums[k];
      } else if drums[k] in homes {
        var i :| 0 <= i < |homes| && homes[i] == drums[k];
        assert positions[i] in positions;
        SamePlace(drums, positions[i], k);
      }
    }
  }

  lemma SamePlace(s: seq<nat>, i: nat, j: nat)
    requires Distinct(s) && i < |s| && j < |s| && s[i] == s[j]
    ensures i == j
  {
  }

  /** The served orders go to the items of the pool, fullest first, by the rule for drums. */
  ghost predicate Placed(stock: seq<Wip>, p: Pool, q: seq<real>, served: seq<nat>, homes: seq<nat>, drums: seq<nat>,
                         left: seq<real>) {
    && Bounded(Totals(stock), p.wips) && drums == Descending(p.wips, Totals(stock))
    && exists positions: seq<nat> :: PlacedBy(stock, q, served, homes, drums, left, positions)
  }

  ghost predicate PlacedBy(stock: seq<Wip>, q: seq<real>, served: seq<nat>, homes: seq<nat>, drums: seq<nat>,
                           left: seq<real>, positions: seq<nat>) {
    && Bounded(Totals(stock), drums) && Bounded(q, served)
    && Spread(At(Totals(stock), drums), At(q, served), positions)
    && homes == Through(drums, positions)
    && left == Left(At(Totals(stock), drums), At(q, served), positions)
  }

  /** Where the chosen orders go: the largest first, the drums of the pool fullest first. */
  method PlaceOrders(stock: seq<Wip>, p: Pool, q: seq<real>, picked: seq<nat>)
    returns (served: seq<nat>, homes: seq<nat>, drums: seq<nat>, left: seq<real>)
    requires SoundPool(stock, p) && Chosen(q, picked) && forall i :: 0 <= i < |picked| ==> 0.0 < q[picked[i]]
    ensures served == Descending(picked, q) && Placed(stock, p, q, served, homes, drums, left)
    ensures Chosen(q, served) && SumAt(q, served) == SumAt(q, picked) && (forall y :: y in served <==> y in picked)
    ensures |homes| == |served| && forall i :: 0 <= i < |homes| ==> homes[i] in p.wips
    ensures Chosen(Totals(stock), drums) && (forall y :: y in drums <==> y in p.wips)
    ensures Sum(left) == p.total - SumAt(q, served)
    ensures Drawn(stock, drums, left, homes)
  {
    drums := SortDescending(p.wips, Totals(stock));
    served := SortDescending(picked, q);
    SumIsSumAt(q, served);
    SumIsSumAt(Totals(stock), drums);
    var positions;
    positions, left := SpreadOrders(At(Totals(stock), drums), At(q, served));
    homes := Through(drums, positions);
    assert PlacedBy(stock, q, served, homes, drums, left, positions);
    forall i | 0 <= i < |homes| ensures homes[i] in p.wips { assert drums[positions[i]] in drums; }
    PositiveAt(q, picked, served);
    DrawnByPositions(stock, drums, At(q, served), positions, homes);
  }

  lemma PositiveAt(q: seq<real>, picked: seq<nat>, served: seq<nat>)
    requires Bounded(q, picked) && (forall i :: 0 <= i < |picked| ==> 0.0 < q[picked[i]])
    requires Bounded(q, served) && forall y :: y in served ==> y in picked
    ensures AllPositive(At(q, served))
  {
    forall i | 0 <= i < |served| ensures 0.0 < q[served[i]] { assert served[i] in served && served[i] in picked; }
  }

  method MatchPool(orders: array<Order>, stock: seq<Wip>, p: Pool, r: Rules)
    returns (served: seq<nat>, homes: seq<nat>, drums: seq<nat>, left: seq<real>)
    requires SoundPool(stock, p)
    modifies orders
    ensures PoolServed(r, p, old(orders[..]), orders[..], stock, served, homes)
    ensures Serves(r, p, old(orders[..]), served)
    ensures Placed(stock, p, ConvertedAll(old(orders[..])), served, homes, drums, left)
    ensures Chosen(Totals(stock), drums) && (forall y :: y in drums <==> y in p.wips)
    ensures Sum(left) == p.total - SumAt(ConvertedAll(old(orders[..])), served)
    ensures Drawn(stock, drums, left, homes)
  {
    hide SoundPool, Candidate, SumAt, CandidatesOf, Serves, Placed;
    PoolTotalPositive(stock, p);
    var list, sel := ChooseOrders(orders, p, r);
    var q := ReadConverted(orders);
    PickedAreCandidates(r, p, orders[..], sel);
    var picked := Through(list, sel);
    served, homes, drums, left := PlaceOrders(stock, p, q, picked);
    ServedByChoice(r, p, orders[..], served, sel);
    HomesInStock(stock, p, homes);
    MarkServed(orders, stock, p, served, homes);
  }

  lemma ServedByChoice(r: Rules, p: Pool, orders: seq<Order>, served: seq<nat>, sel: seq<nat>)
    requires var q, list := ConvertedAll(orders), CandidatesOf(r, p, orders);
             && Bounded(q, list) && Choice(At(q, list), p.total, sel)
             && Bounded(list, sel) && Bounded(q, Through(list, sel)) && served == Descending(Through(list, sel), q)
    ensures Serves(r, p, orders, served)
    ensures Chosen(ConvertedAll(orders), served) && SumAt(ConvertedAll(orders), served) <= p.total
    ensures forall i :: 0 <= i < |served| ==> Candidate(r, p, orders[served[i]])
  {
    assert ServesBy(r, p, orders, served, sel);
    ServesMost(r, p, orders, served);
    CandidatesMean(r, p, orders);
    forall i | 0 <= i < |served| ensures Candidate(r, p, orders[served[i]]) { assert served[i] in served; }
  }

  lemma PickedAreCandidates(r: Rules, p: Pool, orders: seq<Order>, sel: seq<nat>)
    requires var q, list := ConvertedAll(orders), CandidatesOf(r, p, orders);
             Bounded(q, list) && Choice(At(q, list), p.total, sel)
    ensures Bounded(CandidatesOf(r, p, orders), sel)
    ensures var q, picked := ConvertedAll(orders), Through(CandidatesOf(r, p, orders), sel);
            Chosen(q, picked) && forall i :: 0 <= i < |picked| ==> 0.0 < q[picked[i]]
  {
    var q, list := ConvertedAll(orders), CandidatesOf(r, p, orders);
    ChoiceMeans(At(q, list), p.total, sel);
    CandidatesMean(r, p, orders);
    ThroughList(q, list, sel);
    var picked := Through(list, sel);
    forall i | 0 <= i < |picked| ensures 0.0 < q[picked[i]] {
      assert list[sel[i]] in list;
      ConvertedPositive(orders[picked[i]]);
    }
  }

  lemma ConvertedPositive(o: Order)
    requires 0.0 < o.qty
    ensures 0.0 < o.Converted()
  {
    assert 1.0 <= (if o.cores > 1 then o.cores else 1) as real;
  }

  lemma HomesInStock(stock: seq<Wip>, p: Pool, homes: seq<nat>)
    requires SoundPool(stock, p) && forall i :: 0 <= i < |homes| ==> homes[i] in p.wips
    ensures forall i :: 0 <= i < |homes| ==> homes[i] < |stock|
  {
  }

  lemma {:induction false} PositiveSum(q: seq<real>, sel: seq<nat>)
    requires (forall i :: 0 <= i < |sel| ==> sel[i] < |q| && 0.0 < q[sel[i]])
    ensures 0.0 <= SumAt(q, sel)
    decreases |sel|
  {
    if sel != [] { PositiveSum(q, sel[1..]); }
  }

  lemma PoolTotalPositive(stock: seq<Wip>, p: Pool)
    requires SoundPool(stock, p)
    ensures 0.0 <= p.total
  {
    PositiveSum(Totals(stock), p.wips);
  }

  method ReadConverted(orders: array<Order>) returns (q: seq<real>)
    ensures q == ConvertedAll(orders[..])
  {
    q := [];
    for i := 0 to orders.Length
      invariant |q| == i && forall j :: 0 <= j < i ==> q[j] == orders[j].Converted()
    {
      q := q + [orders[i].Converted()];
    }
  }

  method MarkServed(orders: array<Order>, stock: seq<Wip>, p: Pool, served: seq<nat>, homes: seq<nat>)
    requires |served| == |homes| && Distinct(served)
    requires forall i :: 0 <= i < |served| ==> served[i] < orders.Length && homes[i] < |stock|
    modifies orders
    ensures forall i :: 0 <= i < |served| ==> orders[served[i]] == Served(old(orders[served[i]]), p, stock[homes[i]].id)
    ensures forall i :: 0 <= i < orders.Length && i !in served ==> orders[i] == old(orders[i])
  {
    for k := 0 to |served|
      invariant forall i :: 0 <= i < k ==> orders[served[i]] == Served(old(orders[served[i]]), p, stock[homes[i]].id)
      invariant forall i :: 0 <= i < orders.Length && i !in served[..k] ==> orders[i] == old(orders[i])
    {
      assert served[k] !in served[..k];
      orders[served[k]] := Served(orders[served[k]], p, stock[homes[k]].id);
      assert served[..k + 1] == served[..k] + [served[k]];
    }
    assert served[..|served|] == served;
  }
}
