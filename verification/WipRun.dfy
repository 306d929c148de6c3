/** A whole matching run: every pool in turn, on orders that earlier pools may have served. */
module WipRun {
  import opened Wrappers
  import opened WipKnapsack
  import opened WipCombo
  import opened WipMatching
  import opened WipPool

  const USED_UP := "사용완료"

  /** Order `order` was given item `item` by pool `pool`. */
  datatype Match = Match(pool: nat, order: nat, item: nat)

  /** The quantity that pool `p` has given away. */
  ghost function UsedBy(q: seq<real>, log: seq<Match>, p: nat): real
    requires forall i :: 0 <= i < |log| ==> log[i].order < |q|
  {
    if log == [] then 0.0
    else (if log[0].pool == p then q[log[0].order] else 0.0) + UsedBy(q, log[1..], p)
  }

  /** One line of the log is true: the order was free and fit for the pool, and now has an item of it. */
  ghost predicate Sound(r: Rules, pools: seq<Pool>, before: seq<Order>, after: seq<Order>, stock: seq<Wip>, m: Match)
    requires |before| == |after|
  {
    && m.pool < |pools| && m.order < |before| && m.item < |stock| && m.item in pools[m.pool].wips
    && Candidate(r, pools[m.pool], before[m.order])
    && after[m.order] == Served(before[m.order], pools[m.pool], stock[m.item].id)
  }

  ghost predicate InLog(log: seq<Match>, k: nat) { exists i :: 0 <= i < |log| && log[i].order == k }

  /** The log explains every order: those in it once, served as it says; the others unchanged. */
  ghost predicate Explains(r: Rules, pools: seq<Pool>, before: seq<Order>, after: seq<Order>, stock: seq<Wip>,
                           log: seq<Match>) {
    && |before| == |after|
    && (forall i :: 0 <= i < |log| ==> Sound(r, pools, before, after, stock, log[i]))
    && (forall i, j :: 0 <= i < j < |log| ==> log[i].order != log[j].order)
    && (forall k :: 0 <= k < |before| && !InLog(log, k) ==> after[k] == before[k])
  }

  /** No pool gives away more than it holds, and what is left on its items is the rest. */
  ghost predicate Balanced(pools: seq<Pool>, before: seq<Order>, log: seq<Match>, left: seq<seq<real>>, n: nat)
    requires n <= |pools| && |left| == n && forall i :: 0 <= i < |log| ==> log[i].order < |before|
  {
    forall p :: 0 <= p < n ==>
      && UsedBy(ConvertedAll(before), log, p) <= pools[p].total
      && Sum(left[p]) == pools[p].total - UsedBy(ConvertedAll(before), log, p)
  }

  /** The lines that a pool adds. */
  function Lines(n: nat, served: seq<nat>, homes: seq<nat>): (log: seq<Match>)
    requires |served| == |homes|
  {
    seq(|served|, i requires 0 <= i < |served| => Match(n, served[i], homes[i]))
  }

  // ---------- sums over the log

  lemma {:induction false} UsedByConcat(q: seq<real>, a: seq<Match>, b: seq<Match>, p: nat)
    requires forall i :: 0 <= i < |a| ==> a[i].order < |q|
    requires forall i :: 0 <= i < |b| ==> b[i].order < |q|
    ensures forall i :: 0 <= i < |a + b| ==> (a + b)[i].order < |q|
    ensures UsedBy(q, a + b, p) == UsedBy(q, a, p) + UsedBy(q, b, p)
    decreases |a|
  {
    if a == [] {
      assert a + b == b;
    } else {
      UsedByConcat(q, a[1..], b, p);
      assert (a + b)[1..] == a[1..] + b && (a + b)[0] == a[0];
    }
  }

  lemma {:induction false} UsedByOthers(q: seq<real>, log: seq<Match>, p: nat)
    requires forall i :: 0 <= i < |log| ==> log[i].order < |q| && log[i].pool != p
    ensures UsedBy(q, log, p) == 0.0
    decreases |log|
  {
    if log != [] { UsedByOthers(q, log[1..], p); }
  }

  lemma {:induction false} UsedByLines(q: seq<real>, n: nat, served: seq<nat>, homes: seq<nat>)
    requires |served| == |homes| && forall i :: 0 <= i < |served| ==> served[i] < |q|
    ensures UsedBy(q, Lines(n, served, homes), n) == SumAt(q, served)
    decreases |served|
  {
    if served != [] {
      UsedByLines(q, n, served[1..], homes[1..]);
      assert Lines(n, served, homes)[1..] == Lines(n, served[1..], homes[1..]);
    }
  }

  // ---------- one more pool

  /** Orders that a pool serves were not served before. */
  lemma ServedOnce(r: Rules, pools: seq<Pool>, before: seq<Order>, mid: seq<Order>, stock: seq<Wip>, log: seq<Match>,
                   p: Pool, k: nat)
    requires Explains(r, pools, before, mid, stock, log) && k < |mid| && Candidate(r, p, mid[k])
    ensures !InLog(log, k) && mid[k] == before[k]
  {
    forall i | 0 <= i < |log| ensures log[i].order != k {
      assert Sound(r, pools, before, mid, stock, log[i]);
    }
  }

  lemma LinesSound(r: Rules, pools: seq<Pool>, before: seq<Order>, mid: seq<Order>, after: seq<Order>, stock: seq<Wip>,
                   log: seq<Match>, n: nat, served: seq<nat>, homes: seq<nat>)
    requires Explains(r, pools, before, mid, stock, log) && n < |pools| && |mid| == |after|
    requires PoolServed(r, pools[n], mid, after, stock, served, homes)
    ensures forall i :: 0 <= i < |served| ==>
              Sound(r, pools, before, after, stock, Lines(n, served, homes)[i]) && !InLog(log, served[i])
  {
    forall i | 0 <= i < |served|
      ensures Sound(r, pools, before, after, stock, Lines(n, served, homes)[i]) && !InLog(log, served[i])
    {
      ServedOnce(r, pools, before, mid, stock, log, pools[n], served[i]);
    }
  }

  lemma NotAgain(log: seq<Match>, served: seq<nat>, i: nat)
    requires i < |log| && forall j :: 0 <= j < |served| ==> !InLog(log, served[j])
    ensures log[i].order !in served
  {
    forall j | 0 <= j < |served| ensures served[j] != log[i].order {
      assert !InLog(log, served[j]);
    }
  }

  lemma OldLinesSound(r: Rules, pools: seq<Pool>, before: seq<Order>, mid: seq<Order>, after: seq<Order>,
                      stock: seq<Wip>, log: seq<Match>, n: nat, served: seq<nat>, homes: seq<nat>)
    requires Explains(r, pools, before, mid, stock, log) && n < |pools| && |mid| == |after|
    requires PoolServed(r, pools[n], mid, after, stock, served, homes)
    ensures forall i :: 0 <= i < |log| ==> Sound(r, pools, before, after, stock, log[i])
  {
    LinesSound(r, pools, before, mid, after, stock, log, n, served, homes);
    forall i | 0 <= i < |log| ensures Sound(r, pools, before, after, stock, log[i]) {
      assert Sound(r, pools, before, mid, stock, log[i]);
      NotAgain(log, served, i);
    }
  }

  lemma PoolExplained(r: Rules, pools: seq<Pool>, before: seq<Order>, mid: seq<Order>, after: seq<Order>,
                      stock: seq<Wip>, log: seq<Match>, n: nat, served: seq<nat>, homes: seq<nat>)
    requires Explains(r, pools, before, mid, stock, log) && n < |pools| && |mid| == |after|
    requires PoolServed(r, pools[n], mid, after, stock, served, homes)
    ensures Explains(r, pools, before, after, stock, log + Lines(n, served, homes))
  {
    var all := log + Lines(n, served, homes);
    LinesSound(r, pools, before, mid, after, stock, log, n, served, homes);
    OldLinesSound(r, pools, before, mid, after, stock, log, n, served, homes);
    forall i, j | 0 <= i < j < |all| ensures all[i].order != all[j].order {
      if i < |log| <= j { assert !InLog(log, served[j - |log|]); }
    }
    forall k | 0 <= k < |before| && !InLog(all, k) ensures after[k] == before[k] {
      Unlogged(log, n, served, homes, k);
    }
  }

  lemma Unlogged(log: seq<Match>, n: nat, served: seq<nat>, homes: seq<nat>, k: nat)
    requires |served| == |homes| && !InLog(log + Lines(n, served, homes), k)
    ensures !InLog(log, k) && k !in served
  {
    var all := log + Lines(n, served, homes);
    forall i | 0 <= i < |log| ensures log[i].order != k { assert log[i] == all[i]; }
    forall i | 0 <= i < |served| ensures served[i] != k { assert served[i] == all[|log| + i].order; }
  }

  lemma ConvertedStays(r: Rules, pools: seq<Pool>, before: seq<Order>, mid: seq<Order>, stock: seq<Wip>,
                       log: seq<Match>)
    requires Explains(r, pools, before, mid, stock, log)
    ensures ConvertedAll(before) == ConvertedAll(mid)
  {
    hide Candidate;
    forall k | 0 <= k < |before| ensures before[k].Converted() == mid[k].Converted() {
      if InLog(log, k) {
        var i :| 0 <= i < |log| && log[i].order == k;
        assert Sound(r, pools, before, mid, stock, log[i]);
      }
    }
  }

  lemma PoolBalanced(pools: seq<Pool>, before: seq<Order>, log: seq<Match>, left: seq<seq<real>>, n: nat,
                     served: seq<nat>, homes: seq<nat>, rest: seq<real>)
    requires n < |pools| && |left| == n && forall i :: 0 <= i < |log| ==> log[i].order < |before| && log[i].pool < n
    requires Balanced(pools, before, log, left, n)
    requires |served| == |homes| && (forall i :: 0 <= i < |served| ==> served[i] < |before|)
    requires SumAt(ConvertedAll(before), served) <= pools[n].total
    requires Sum(rest) == pools[n].total - SumAt(ConvertedAll(before), served)
    ensures forall i :: 0 <= i < |log| + |served| ==> (log + Lines(n, served, homes))[i].order < |before|
    ensures Balanced(pools, before, log + Lines(n, served, homes), left + [rest], n + 1)
  {
    var q := ConvertedAll(before);
    var lines := Lines(n, served, homes);
    forall p | 0 <= p < n + 1
      ensures UsedBy(q, log + lines, p) == if p < n then UsedBy(q, log, p) else SumAt(q, served)
    {
      UsedByConcat(q, log, lines, p);
      if p < n { UsedByOthers(q, lines, p); } else { UsedByOthers(q, log, n); UsedByLines(q, n, served, homes); }
    }
  }

  // ---------- what becomes of the items

  /** The first served order that was put on item `d`. */
  ghost predicate FirstOn(homes: seq<nat>, d: nat, i: nat) {
    && i < |homes| && homes[i] == d && forall j :: 0 <= j < i ==> homes[j] != d
  }

  function Name(o: Order): (string, int) { (o.id, o.line) }

  /** The item afterwards: used up and naming the first order put on it, if there is one. */
  ghost predicate ItemTold(orders: seq<Order>, before: Wip, after: Wip, served: seq<nat>, homes: seq<nat>, d: nat)
    requires |served| == |homes| && forall i :: 0 <= i < |served| ==> served[i] < |orders|
  {
    if d in homes
    then exists i: nat :: FirstOn(homes, d, i)
           && after == before.(status := USED_UP, servedOrder := Some(Name(orders[served[i]])))
    else after == before
  }

  ghost predicate PoolTold(orders: seq<Order>, before: seq<Wip>, after: seq<Wip>, served: seq<nat>, homes: seq<nat>)
    requires |served| == |homes| && forall i :: 0 <= i < |served| ==> served[i] < |orders|
  {
    |after| == |before| && forall d :: 0 <= d < |before| ==> ItemTold(orders, before[d], after[d], served, homes, d)
  }

  method FindFirst(homes: seq<nat>, d: nat) returns (i: nat)
    requires d in homes
    ensures FirstOn(homes, d, i)
  {
    i := 0;
    while homes[i] != d
      invariant i < |homes| && (forall j :: 0 <= j < i ==> homes[j] != d) && d in homes[i..]
      decreases |homes| - i
    {
      assert homes[i..] == [homes[i]] + homes[i + 1..];
      i := i + 1;
    }
  }

  /** Marks the items of a pool that gave something away. `items` is the stock as the run found it. */
  method MarkItems(orders: array<Order>, stock: array<Wip>, items: seq<Wip>, drums: seq<nat>, left: seq<real>,
                   served: seq<nat>, homes: seq<nat>)
    requires |items| == stock.Length && Drawn(items, drums, left, homes) && Distinct(drums)
    requires |served| == |homes| && (forall i :: 0 <= i < |served| ==> served[i] < orders.Length)
    requires forall d :: d in homes ==> d in drums
    modifies stock
    ensures PoolTold(orders[..], old(stock[..]), stock[..], served, homes)
  {
    for k := 0 to |drums|
      invariant forall j :: 0 <= j < k ==>
                  ItemTold(orders[..], old(stock[drums[j]]), stock[drums[j]], served, homes, drums[j])
      invariant forall d :: 0 <= d < stock.Length && d !in drums[..k] ==> stock[d] == old(stock[d])
    {
      var d := drums[k];
      assert d !in drums[..k];
      if 0.0 < items[d].total - left[k] {
        var i := FindFirst(homes, d);
        stock[d] := stock[d].(status := USED_UP, servedOrder := Some(Name(orders[served[i]])));
      }
      assert drums[..k + 1] == drums[..k] + [d];
      assert forall j :: 0 <= j < k ==> drums[j] in drums[..k];
    }
    assert drums[..|drums|] == drums;
    forall d | 0 <= d < stock.Length ensures ItemTold(orders[..], old(stock[d]), stock[d], served, homes, d) {
      if d in drums {
        var k :| 0 <= k < |drums| && drums[k] == d;
      }
    }
  }

  /** Nothing but the status and the order it names ever changes on an item. */
  ghost predicate SameItem(a: Wip, b: Wip) { a == b.(status := a.status, servedOrder := a.servedOrder) }

  ghost predicate Used(log: seq<Match>, d: nat) { exists i :: 0 <= i < |log| && log[i].item == d }

  /** Line `i` is the first that puts an order on item `d`. */
  ghost predicate FirstUse(log: seq<Match>, d: nat, i: nat) {
    i < |log| && log[i].item == d && forall j :: 0 <= j < i ==> log[j].item != d
  }

  /** An item that the run put an order on is used up and names the first; no other is touched. */
  ghost predicate ItemIs(orders: seq<Order>, before: Wip, after: Wip, log: seq<Match>, d: nat) {
    && SameItem(after, before)
    && if Used(log, d)
       then after.status == USED_UP
         && exists i: nat :: FirstUse(log, d, i) && log[i].order < |orders|
              && after.servedOrder == Some(Name(orders[log[i].order]))
       else after == before
  }

  ghost predicate ItemsTold(orders: seq<Order>, before: seq<Wip>, after: seq<Wip>, log: seq<Match>) {
    |before| == |after| && forall d :: 0 <= d < |before| ==> ItemIs(orders, before[d], after[d], log, d)
  }

  lemma UsedGrows(log: seq<Match>, n: nat, served: seq<nat>, homes: seq<nat>, d: nat)
    requires |served| == |homes|
    ensures Used(log + Lines(n, served, homes), d) <==> Used(log, d) || d in homes
  {
    var all := log + Lines(n, served, homes);
    if Used(log, d) {
      var i :| 0 <= i < |log| && log[i].item == d;
      assert all[i].item == d;
    }
    if d in homes {
      var i :| 0 <= i < |homes| && homes[i] == d;
      assert all[|log| + i].item == d;
    }
    if Used(all, d) {
      var i :| 0 <= i < |all| && all[i].item == d;
      if i >= |log| { assert homes[i - |log|] == d; }
    }
  }

  /** An item of this pool that no earlier pool has used. */
  lemma FreshItem(orders: seq<Order>, names: seq<Order>, item: Wip, mid: Wip, after: Wip, log: seq<Match>, n: nat,
                  served: seq<nat>, homes: seq<nat>, d: nat)
    requires |served| == |homes| && (forall i :: 0 <= i < |served| ==> served[i] < |orders|) && |names| == |orders|
    requires forall k :: 0 <= k < |orders| ==> Name(names[k]) == Name(orders[k])
    requires ItemIs(orders, item, mid, log, d) && !Used(log, d) && d in homes
    requires ItemTold(names, mid, after, served, homes, d)
    ensures ItemIs(orders, item, after, log + Lines(n, served, homes), d)
  {
    var all := log + Lines(n, served, homes);
    UsedGrows(log, n, served, homes, d);
    var i: nat :| FirstOn(homes, d, i) && after == mid.(status := USED_UP, servedOrder := Some(Name(names[served[i]])));
    var at := |log| + i;
    assert all[at] == Match(n, served[i], homes[i]);
    forall j | 0 <= j < at ensures all[j].item != d {
      if j < |log| { assert log[j].item != d; } else { assert all[j].item == homes[j - |log|]; }
    }
    assert FirstUse(all, d, at);
  }

  /** An item that this pool does not use. */
  lemma OtherItem(orders: seq<Order>, item: Wip, mid: Wip, log: seq<Match>, n: nat,
                  served: seq<nat>, homes: seq<nat>, d: nat)
    requires |served| == |homes| && ItemIs(orders, item, mid, log, d) && d !in homes
    ensures ItemIs(orders, item, mid, log + Lines(n, served, homes), d)
  {
    var all := log + Lines(n, served, homes);
    UsedGrows(log, n, served, homes, d);
    if Used(log, d) {
      var i: nat :| FirstUse(log, d, i) && log[i].order < |orders|
        && mid.servedOrder == Some(Name(orders[log[i].order]));
      assert forall j :: 0 <= j <= i ==> all[j] == log[j];
      assert FirstUse(all, d, i);
    }
  }

  lemma ItemsStep(orders: seq<Order>, names: seq<Order>, items: seq<Wip>, mid: seq<Wip>, after: seq<Wip>,
                  log: seq<Match>, n: nat, served: seq<nat>, homes: seq<nat>)
    requires |served| == |homes| && (forall i :: 0 <= i < |served| ==> served[i] < |orders|) && |names| == |orders|
    requires forall k :: 0 <= k < |orders| ==> Name(names[k]) == Name(orders[k])
    requires ItemsTold(orders, items, mid, log) && PoolTold(names, mid, after, served, homes)
    requires forall d :: d in homes ==> !Used(log, d)
    ensures ItemsTold(orders, items, after, log + Lines(n, served, homes))
  {
    forall d | 0 <= d < |items| ensures ItemIs(orders, items[d], after[d], log + Lines(n, served, homes), d) {
      assert ItemTold(names, mid[d], after[d], served, homes, d);
      if d in homes {
        FreshItem(orders, names, items[d], mid[d], after[d], log, n, served, homes, d);
      } else {
        OtherItem(orders, items[d], mid[d], log, n, served, homes, d);
      }
    }
  }

  // ---------- the run

  /** One pool of a run: the orders it found, those it served, their items, and the items in the
      order they are filled. */
  datatype Step = Step(before: seq<Order>, served: seq<nat>, homes: seq<nat>, drums: seq<nat>)

  /** The pool made its choice from all its candidates, and placed them by the rule. */
  ghost predicate StepDone(r: Rules, p: Pool, items: seq<Wip>, s: Step, after: seq<Order>, left: seq<real>) {
    && |s.before| == |after| && PoolServed(r, p, s.before, after, items, s.served, s.homes)
    && Serves(r, p, s.before, s.served)
    && Placed(items, p, ConvertedAll(s.before), s.served, s.homes, s.drums, left)
  }

  /** The orders as they are after step `i`. */
  ghost function Next(steps: seq<Step>, after: seq<Order>, i: nat): seq<Order> {
    if i + 1 < |steps| then steps[i + 1].before else after
  }

  ghost predicate AllDone(r: Rules, pools: seq<Pool>, items: seq<Wip>, before: seq<Order>, after: seq<Order>,
                          steps: seq<Step>, left: seq<seq<real>>) {
    && |steps| == |left| <= |pools|
    && (if steps == [] then after == before else steps[0].before == before)
    && forall i :: 0 <= i < |steps| ==> StepDone(r, pools[i], items, steps[i], Next(steps, after, i), left[i])
  }

  /** The lines of all steps. */
  ghost function LogOf(steps: seq<Step>): seq<Match>
    requires forall i :: 0 <= i < |steps| ==> |steps[i].served| == |steps[i].homes|
  {
    if steps == [] then []
    else
      var n := |steps| - 1;
      LogOf(steps[..n]) + Lines(n, steps[n].served, steps[n].homes)
  }

  lemma StepMore(r: Rules, pools: seq<Pool>, items: seq<Wip>, before: seq<Order>, mid: seq<Order>, after: seq<Order>,
                 steps: seq<Step>, left: seq<seq<real>>, s: Step, rest: seq<real>)
    requires AllDone(r, pools, items, before, mid, steps, left) && |steps| < |pools| && s.before == mid
    requires StepDone(r, pools[|steps|], items, s, after, rest)
    ensures AllDone(r, pools, items, before, after, steps + [s], left + [rest])
  {
    hide PoolServed, Serves, Placed;
    var all := steps + [s];
    forall i | 0 <= i < |all| ensures StepDone(r, pools[i], items, all[i], Next(all, after, i), (left + [rest])[i]) {
      if i < |steps| { assert Next(all, after, i) == Next(steps, mid, i); }
    }
  }

  lemma LogMore(steps: seq<Step>, s: Step)
    requires |s.served| == |s.homes| && forall i :: 0 <= i < |steps| ==> |steps[i].served| == |steps[i].homes|
    ensures forall i :: 0 <= i < |steps + [s]| ==> |(steps + [s])[i].served| == |(steps + [s])[i].homes|
    ensures LogOf(steps + [s]) == LogOf(steps) + Lines(|steps|, s.served, s.homes)
  {
    assert (steps + [s])[..|steps|] == steps;
  }

  /** What the log says of the orders. */
  ghost predicate OrdersTold(r: Rules, pools: seq<Pool>, before: seq<Order>, after: seq<Order>, items: seq<Wip>,
                             log: seq<Match>, left: seq<seq<real>>, n: nat) {
    && Explains(r, pools, before, after, items, log)
    && n <= |pools| && |left| == n
    && (forall i :: 0 <= i < |log| ==> log[i].pool < n && log[i].order < |before|)
    && Balanced(pools, before, log, left, n)
  }

  /** The state after the pools of `steps`. */
  ghost predicate RunState(r: Rules, pools: seq<Pool>, before: seq<Order>, after: seq<Order>, items: seq<Wip>,
                           stock: seq<Wip>, log: seq<Match>, left: seq<seq<real>>, steps: seq<Step>) {
    && OrdersTold(r, pools, before, after, items, log, left, |steps|)
    && AllDone(r, pools, items, before, after, steps, left)
    && (forall i :: 0 <= i < |steps| ==> |steps[i].served| == |steps[i].homes|) && log == LogOf(steps)
    && ItemsTold(before, items, stock, log)
  }

  lemma OrdersStep(r: Rules, pools: seq<Pool>, before: seq<Order>, mid: seq<Order>, after: seq<Order>,
                   items: seq<Wip>, log: seq<Match>, left: seq<seq<real>>, n: nat,
                   served: seq<nat>, homes: seq<nat>, rest: seq<real>)
    requires OrdersTold(r, pools, before, mid, items, log, left, n) && n < |pools|
    requires |mid| == |after| && PoolServed(r, pools[n], mid, after, items, served, homes)
    requires Sum(rest) == pools[n].total - SumAt(ConvertedAll(mid), served)
    ensures OrdersTold(r, pools, before, after, items, log + Lines(n, served, homes), left + [rest], n + 1)
  {
    ConvertedStays(r, pools, before, mid, items, log);
    PoolExplained(r, pools, before, mid, after, items, log, n, served, homes);
    PoolBalanced(pools, before, log, left, n, served, homes, rest);
  }

  /** Orders keep their names. */
  lemma NamesStay(r: Rules, pools: seq<Pool>, before: seq<Order>, after: seq<Order>, items: seq<Wip>, log: seq<Match>)
    requires Explains(r, pools, before, after, items, log)
    ensures forall k :: 0 <= k < |before| ==> Name(after[k]) == Name(before[k])
  {
    forall k | 0 <= k < |before| ensures Name(after[k]) == Name(before[k]) {
      if InLog(log, k) {
        var i :| 0 <= i < |log| && log[i].order == k;
        assert Sound(r, pools, before, after, items, log[i]);
      }
    }
  }

  /** The items of one pool are not those of another. */
  lemma ItemsApart(r: Rules, pools: seq<Pool>, before: seq<Order>, mid: seq<Order>, items: seq<Wip>, log: seq<Match>,
                   left: seq<seq<real>>, n: nat, homes: seq<nat>)
    requires Pooled(items, pools, |items|) && OrdersTold(r, pools, before, mid, items, log, left, n) && n < |pools|
    requires forall i :: 0 <= i < |homes| ==> homes[i] in pools[n].wips
    ensures forall d :: d in homes ==> !Used(log, d)
  {
    forall d, i | d in homes && 0 <= i < |log| ensures log[i].item != d {
      assert Sound(r, pools, before, mid, items, log[i]);
      OnePoolEach(items, pools, log[i].pool, n, log[i].item);
    }
  }

  lemma OnePoolEach(items: seq<Wip>, pools: seq<Pool>, a: nat, b: nat, d: nat)
    requires Pooled(items, pools, |items|) && a < b < |pools| && d in pools[a].wips
    ensures d !in pools[b].wips
  {
    assert SoundPool(items, pools[a]) && SoundPool(items, pools[b]);
    forall i, j | 0 <= i < |pools[a].wips| && 0 <= j < |pools[b].wips| ensures pools[a].wips[i] != pools[b].wips[j] {
      assert KeyOf(items[pools[a].wips[i]]) == pools[a].key && KeyOf(items[pools[b].wips[j]]) == pools[b].key;
    }
  }

  lemma HomesAreDrums(p: Pool, homes: seq<nat>, drums: seq<nat>)
    requires (forall i :: 0 <= i < |homes| ==> homes[i] in p.wips) && forall y :: y in drums <==> y in p.wips
    ensures forall d :: d in homes ==> d in drums
  {
  }

  lemma RunStep(r: Rules, pools: seq<Pool>, before: seq<Order>, mid: seq<Order>, after: seq<Order>, items: seq<Wip>,
                found: seq<Wip>, stock: seq<Wip>, log: seq<Match>, left: seq<seq<real>>, steps: seq<Step>,
                s: Step, rest: seq<real>)
    requires Pooled(items, pools, |items|) && RunState(r, pools, before, mid, items, found, log, left, steps)
    requires |steps| < |pools| && s.before == mid && StepDone(r, pools[|steps|], items, s, after, rest)
    requires Sum(rest) == pools[|steps|].total - SumAt(ConvertedAll(mid), s.served)
    requires PoolTold(after, found, stock, s.served, s.homes)
    ensures RunState(r, pools, before, after, items, stock, log + Lines(|steps|, s.served, s.homes),
                     left + [rest], steps + [s])
  {
    var n := |steps|;
    OrdersStep(r, pools, before, mid, after, items, log, left, n, s.served, s.homes, rest);
    StepMore(r, pools, items, before, mid, after, steps, left, s, rest);
    LogMore(steps, s);
    NamesStay(r, pools, before, after, items, log + Lines(n, s.served, s.homes));
    ItemsApart(r, pools, before, mid, items, log, left, n, s.homes);
    ItemsStep(before, after, items, found, stock, log, n, s.served, s.homes);
  }

  /** One pool on the live orders and items. */
  method RunPool(orders: array<Order>, stock: array<Wip>, items: seq<Wip>, p: Pool, r: Rules)
    returns (s: Step, rest: seq<real>)
    requires |items| == stock.Length && SoundPool(items, p)
    modifies orders, stock
    ensures s.before == old(orders[..]) && StepDone(r, p, items, s, orders[..], rest)
    ensures Sum(rest) == p.total - SumAt(ConvertedAll(s.before), s.served)
    ensures PoolTold(orders[..], old(stock[..]), stock[..], s.served, s.homes)
  {
    var before := orders[..];
    var served, homes, drums, left := MatchPool(orders, items, p, r);
    HomesAreDrums(p, homes, drums);
    ghost var after := orders[..];
    MarkItems(orders, stock, items, drums, left, served, homes);
    assert orders[..] == after;
    s, rest := Step(before, served, homes, drums), left;
  }

  /** The whole run. Every pool in turn serves the choice from all orders that are then free and fit
      for it, and places them by the rule. So every order is served at most once, by an item of the
      pool that serves it; no pool gives away more than it holds; and exactly the items that an order
      was put on are marked used up and name the first. */
  method MatchWip(orders: array<Order>, stock: array<Wip>, r: Rules)
    returns (pools: seq<Pool>, log: seq<Match>, left: seq<seq<real>>, steps: seq<Step>)
    modifies orders, stock
    ensures Pooled(old(stock[..]), pools, stock.Length) && |steps| == |pools|
    ensures RunState(r, pools, old(orders[..]), orders[..], old(stock[..]), stock[..], log, left, steps)
    ensures forall k :: 0 <= k < orders.Length ==> (orders[k].useWip && !old(orders[k].useWip) <==> InLog(log, k))
  {
    var items := stock[..];
    pools := BuildPools(items);
    log, left, steps := [], [], [];
    RunStarts(r, pools, orders[..], items);
    for n := 0 to |pools|
      invariant |steps| == n && RunState(r, pools, old(orders[..]), orders[..], items, stock[..], log, left, steps)
    {
      ghost var mid, found := orders[..], stock[..];
      var s, rest := RunPool(orders, stock, items, pools[n], r);
      RunStep(r, pools, old(orders[..]), mid, orders[..], items, found, stock[..], log, left, steps, s, rest);
      log := log + Lines(n, s.served, s.homes);
      left := left + [rest];
      steps := steps + [s];
    }
    forall k | 0 <= k < orders.Length ensures orders[k].useWip && !old(orders[k].useWip) <==> InLog(log, k) {
      MatchedOnce(r, pools, old(orders[..]), orders[..], items, log, left, k);
    }
  }

  lemma RunStarts(r: Rules, pools: seq<Pool>, orders: seq<Order>, items: seq<Wip>)
    ensures RunState(r, pools, orders, orders, items, items, [], [], [])
  {
  }

  /** At its turn a pool leaves nothing better undone: of at most 22 orders that are free and fit for
      it, or of whole metres, no selection that it holds uses more of it than the run gives away. */
  lemma EveryPoolServesMost(r: Rules, pools: seq<Pool>, before: seq<Order>, after: seq<Order>, items: seq<Wip>,
                            stock: seq<Wip>, log: seq<Match>, left: seq<seq<real>>, steps: seq<Step>, i: nat)
    requires RunState(r, pools, before, after, items, stock, log, left, steps) && i < |steps|
    ensures var s := steps[i];
            var q, list := ConvertedAll(s.before), CandidatesOf(r, pools[i], s.before);
            && Bounded(q, list) && Bounded(q, s.served)
            && (forall k: nat :: k in list <==> k < |s.before| && Candidate(r, pools[i], s.before[k]))
            && (|list| <= EXACT_SEARCH_LIMIT || Whole(At(q, list)) ==>
              UsesMost(At(q, list), pools[i].total, SumAt(q, s.served)))
  {
    assert StepDone(r, pools[i], items, steps[i], Next(steps, after, i), left[i]);
    ServesMost(r, pools[i], steps[i].before, steps[i].served);
    CandidatesMean(r, pools[i], steps[i].before);
  }

  /** No order is matched by two pools, and each match is an item of the pool that made it. */
  lemma MatchedOnce(r: Rules, pools: seq<Pool>, before: seq<Order>, after: seq<Order>, items: seq<Wip>,
                    log: seq<Match>, left: seq<seq<real>>, k: nat)
    requires Pooled(items, pools, |items|) && OrdersTold(r, pools, before, after, items, log, left, |pools|)
    requires k < |before|
    ensures after[k].useWip && !before[k].useWip <==> InLog(log, k)
    ensures InLog(log, k) ==>
              exists m: Match :: m in log && m.order == k && after[k].wipId == Some(items[m.item].id)
                && KeyOf(items[m.item]) == pools[m.pool].key
                && forall o: Match :: o in log && o.order == k ==> o == m
  {
    if InLog(log, k) {
      var i :| 0 <= i < |log| && log[i].order == k;
      assert Sound(r, pools, before, after, items, log[i]);
      assert SoundPool(items, pools[log[i].pool]);
      assert log[i] in log;
      forall o: Match | o in log && o.order == k ensures o == log[i] {
        var j :| 0 <= j < |log| && log[j] == o;
      }
    }
  }
}
