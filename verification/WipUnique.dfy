/** A matching run is determined: what it promises leaves no freedom. */
module WipUnique {
  import opened Wrappers
  import opened WipCombo
  import opened WipMatching
  import opened WipPool
  import opened WipRun

  // ---------- the pools

  lemma LastIsLargest(before: seq<nat>, last: nat)
    requires InOrder(before + [last])
    ensures InOrder(before) && (forall i: nat :: i in before ==> i < last)
    ensures forall i: nat :: i in before + [last] <==> i in before || i == last
  {
    var all := before + [last];
    assert all[|before|] == last;
    forall i: nat | i in before ensures i < last {
      var j :| 0 <= j < |before| && before[j] == i;
      assert all[j] == i;
    }
    forall i, j | 0 <= i < j < |before| ensures before[i] < before[j] { assert all[i] < all[j]; }
  }

  lemma FirstIsIn(s: seq<nat>)
    requires s != []
    ensures s[0] in s
  {
  }

  lemma {:induction false} SameMembersSameOrder(a: seq<nat>, b: seq<nat>)
    requires InOrder(a) && InOrder(b) && forall i: nat :: i in a <==> i in b
    ensures a == b
    decreases |a|
  {
    hide InOrder;
    if a == [] {
      if b != [] { FirstIsIn(b); }
    } else {
      assert a[0] in a && a[0] in b;
      var x, y := a[|a| - 1], b[|b| - 1];
      var c, d := a[..|a| - 1], b[..|b| - 1];
      assert a == c + [x] && b == d + [y] && x in a && y in b;
      LastIsLargest(c, x);
      LastIsLargest(d, y);
      assert x in b && y in a;
      assert x <= y && y <= x;
      SameMembersSameOrder(c, d);
    }
  }

  /** The positions of usable items with one key. */
  ghost predicate WithKey(wips: seq<Wip>, key: PoolKey, i: nat) {
    i < |wips| && Usable(wips[i]) && KeyOf(wips[i]) == key
  }

  lemma PoolHasAll(wips: seq<Wip>, pools: seq<Pool>, p: nat)
    requires Pooled(wips, pools, |wips|) && p < |pools|
    ensures forall i: nat :: i in pools[p].wips <==> WithKey(wips, pools[p].key, i)
  {
    hide KeyOf, Usable;
    assert SoundPool(wips, pools[p]);
    forall i: nat ensures i in pools[p].wips <==> WithKey(wips, pools[p].key, i) {
      if i in pools[p].wips {
        var j :| 0 <= j < |pools[p].wips| && pools[p].wips[j] == i;
      }
      if WithKey(wips, pools[p].key, i) {
        assert InSomePool(pools, i);
        var q :| 0 <= q < |pools| && i in pools[q].wips;
        assert SoundPool(wips, pools[q]);
        var j :| 0 <= j < |pools[q].wips| && pools[q].wips[j] == i;
        assert pools[q].key == pools[p].key;
        assert q == p;
      }
    }
  }

  lemma SoundIsUnique(wips: seq<Wip>, a: Pool, b: Pool)
    requires SoundPool(wips, a) && SoundPool(wips, b) && a.key == b.key && a.wips == b.wips
    ensures a == b
  {
    hide KeyOf, Usable, SumAt;
    var i :| 0 <= i < |a.wips| && wips[a.wips[i]].drum == a.maxDrum;
    var j :| 0 <= j < |b.wips| && wips[b.wips[j]].drum == b.maxDrum;
    assert a.maxDrum <= b.maxDrum && b.maxDrum <= a.maxDrum;
    AgeIsUnique(wips, a, b);
  }

  lemma AgeIsUnique(wips: seq<Wip>, a: Pool, b: Pool)
    requires SoundPool(wips, a) && SoundPool(wips, b) && a.wips == b.wips
    ensures a.maxAge == b.maxAge
  {
    hide KeyOf, Usable, SumAt;
    if 0 < a.maxAge {
      var i :| 0 <= i < |a.wips| && wips[a.wips[i]].ageDays == a.maxAge;
      assert wips[b.wips[i]].ageDays <= b.maxAge;
    }
    if 0 < b.maxAge {
      var j :| 0 <= j < |b.wips| && wips[b.wips[j]].ageDays == b.maxAge;
      assert wips[a.wips[j]].ageDays <= a.maxAge;
    }
  }

  /** Each pool of one division is in the other. */
  lemma PoolIsThere(wips: seq<Wip>, a: seq<Pool>, b: seq<Pool>, p: nat) returns (q: nat)
    requires Pooled(wips, a, |wips|) && Pooled(wips, b, |wips|) && p < |a|
    ensures q < |b| && a[p] == b[q]
  {
    hide KeyOf, Usable, Peaks, SumAt;
    assert SoundPool(wips, a[p]);
    var i := a[p].wips[0];
    PoolHasAll(wips, a, p);
    assert i in a[p].wips && InSomePool(b, i);
    q :| q < |b| && i in b[q].wips;
    PoolHasAll(wips, b, q);
    assert SoundPool(wips, b[q]) && a[p].key == b[q].key;
    SameMembersSameOrder(a[p].wips, b[q].wips);
    SoundIsUnique(wips, a[p], b[q]);
  }

  ghost function Firsts(pools: seq<Pool>): seq<nat>
    requires forall p :: 0 <= p < |pools| ==> pools[p].wips != []
  {
    seq(|pools|, p requires 0 <= p < |pools| => pools[p].wips[0])
  }

  lemma FirstsOf(wips: seq<Wip>, pools: seq<Pool>)
    requires Pooled(wips, pools, |wips|)
    ensures forall p :: 0 <= p < |pools| ==> pools[p].wips != []
    ensures InOrder(Firsts(pools))
  {
    forall p | 0 <= p < |pools| ensures pools[p].wips != [] { assert SoundPool(wips, pools[p]); }
  }

  lemma FirstsThere(wips: seq<Wip>, a: seq<Pool>, b: seq<Pool>)
    requires Pooled(wips, a, |wips|) && Pooled(wips, b, |wips|)
    requires (forall p :: 0 <= p < |a| ==> a[p].wips != []) && forall p :: 0 <= p < |b| ==> b[p].wips != []
    ensures forall i: nat :: i in Firsts(a) ==> i in Firsts(b)
  {
    hide Pooled;
    forall i: nat | i in Firsts(a) ensures i in Firsts(b) {
      var p :| 0 <= p < |a| && Firsts(a)[p] == i;
      var q := PoolIsThere(wips, a, b, p);
      assert Firsts(b)[q] == i;
    }
  }

  /** The stock determines its pools. */
  lemma PoolsAreUnique(wips: seq<Wip>, a: seq<Pool>, b: seq<Pool>)
    requires Pooled(wips, a, |wips|) && Pooled(wips, b, |wips|)
    ensures a == b
  {
    hide SoundPool, Covered;
    FirstsOf(wips, a);
    FirstsOf(wips, b);
    FirstsThere(wips, a, b);
    FirstsThere(wips, b, a);
    SameMembersSameOrder(Firsts(a), Firsts(b));
    forall p | 0 <= p < |a| ensures a[p] == b[p] {
      var q := PoolIsThere(wips, a, b, p);
      assert Firsts(a)[p] == Firsts(b)[q] == Firsts(b)[p];
      SameIndex(Firsts(b), p, q);
    }
  }

  lemma SameIndex(s: seq<nat>, p: nat, q: nat)
    requires InOrder(s) && p < |s| && q < |s| && s[p] == s[q]
    ensures p == q
  {
  }

  // ---------- one pool

  /** The rule names one drum for each order. */
  lemma {:induction false} SpreadIsUnique(rem: seq<real>, needs: seq<real>, a: seq<nat>, b: seq<nat>, n: nat)
    requires Spread(rem, needs, a) && Spread(rem, needs, b) && n <= |needs|
    ensures a[..n] == b[..n]
    decreases n
  {
    if n > 0 {
      SpreadIsUnique(rem, needs, a, b, n - 1);
      assert SpreadAt(rem, needs, a, n - 1) && SpreadAt(rem, needs, b, n - 1);
      DrumIsUnique(Left(rem, needs[..n - 1], a[..n - 1]), needs[n - 1], a[n - 1], b[n - 1]);
      assert a[..n] == a[..n - 1] + [a[n - 1]] && b[..n] == b[..n - 1] + [b[n - 1]];
    }
  }

  lemma DrumIsUnique(rem: seq<real>, need: real, a: nat, b: nat)
    requires DrumFor(rem, need, a) && DrumFor(rem, need, b)
    ensures a == b
  {
  }

  lemma PlacedIsUnique(stock: seq<Wip>, p: Pool, q: seq<real>, served: seq<nat>, s: Step, t: Step, left: seq<real>,
                       rest: seq<real>)
    requires s.served == t.served == served
    requires Placed(stock, p, q, served, s.homes, s.drums, left) && Placed(stock, p, q, served, t.homes, t.drums, rest)
    ensures s.homes == t.homes && s.drums == t.drums && left == rest
  {
    hide Spread, Left, Descending;
    var a: seq<nat> :| PlacedBy(stock, q, served, s.homes, s.drums, left, a);
    var b: seq<nat> :| PlacedBy(stock, q, served, t.homes, t.drums, rest, b);
    SamePositions(At(Totals(stock), s.drums), At(q, served), a, b);
  }

  lemma SamePositions(rem: seq<real>, needs: seq<real>, a: seq<nat>, b: seq<nat>)
    requires Spread(rem, needs, a) && Spread(rem, needs, b)
    ensures a == b
  {
    SpreadIsUnique(rem, needs, a, b, |needs|);
    assert a[..|needs|] == a && b[..|needs|] == b;
  }

  lemma ServesIsUnique(r: Rules, p: Pool, before: seq<Order>, a: seq<nat>, b: seq<nat>)
    requires Serves(r, p, before, a) && Serves(r, p, before, b)
    ensures a == b
  {
    hide Choice, Descending, CandidatesOf;
    var x: seq<nat> :| ServesBy(r, p, before, a, x);
    var y: seq<nat> :| ServesBy(r, p, before, b, y);
    ChoiceIsUnique(At(ConvertedAll(before), CandidatesOf(r, p, before)), p.total, x, y);
  }

  lemma AfterIsUnique(r: Rules, p: Pool, before: seq<Order>, a: seq<Order>, b: seq<Order>, stock: seq<Wip>,
                      served: seq<nat>, homes: seq<nat>)
    requires |before| == |a| == |b|
    requires PoolServed(r, p, before, a, stock, served, homes) && PoolServed(r, p, before, b, stock, served, homes)
    ensures a == b
  {
    hide Candidate, SumAt;
    forall i | 0 <= i < |before| ensures a[i] == b[i] {
      if i in served {
        var j :| 0 <= j < |served| && served[j] == i;
        assert a[served[j]] == b[served[j]];
      }
    }
  }

  lemma StepIsUnique(r: Rules, p: Pool, items: seq<Wip>, s: Step, t: Step, a: seq<Order>, b: seq<Order>,
                     left: seq<real>, rest: seq<real>)
    requires s.before == t.before && StepDone(r, p, items, s, a, left) && StepDone(r, p, items, t, b, rest)
    ensures s == t && a == b && left == rest
  {
    hide Serves, Placed, PoolServed;
    ServesIsUnique(r, p, s.before, s.served, t.served);
    PlacedIsUnique(items, p, ConvertedAll(s.before), s.served, s, t, left, rest);
    AfterIsUnique(r, p, s.before, a, b, items, s.served, s.homes);
  }

  // ---------- the run

  lemma StepIsDone(r: Rules, pools: seq<Pool>, items: seq<Wip>, before: seq<Order>, after: seq<Order>,
                   steps: seq<Step>, left: seq<seq<real>>, n: nat)
    requires AllDone(r, pools, items, before, after, steps, left) && n < |steps|
    ensures |steps| == |left| <= |pools| && StepDone(r, pools[n], items, steps[n], Next(steps, after, n), left[n])
    ensures steps[n].before == if n == 0 then before else Next(steps, after, n - 1)
  {
    hide StepDone;
  }

  lemma {:induction false} StepsAreUnique(r: Rules, pools: seq<Pool>, items: seq<Wip>, before: seq<Order>,
                                          a: seq<Order>, b: seq<Order>, s: seq<Step>, t: seq<Step>,
                                          left: seq<seq<real>>, rest: seq<seq<real>>, n: nat)
    requires AllDone(r, pools, items, before, a, s, left) && AllDone(r, pools, items, before, b, t, rest)
    requires n < |s| == |t|
    ensures s[n] == t[n] && left[n] == rest[n] && Next(s, a, n) == Next(t, b, n)
    decreases n
  {
    hide StepDone, AllDone, Next;
    StepIsDone(r, pools, items, before, a, s, left, n);
    StepIsDone(r, pools, items, before, b, t, rest, n);
    if n > 0 { StepsAreUnique(r, pools, items, before, a, b, s, t, left, rest, n - 1); }
    StepIsUnique(r, pools[n], items, s[n], t[n], Next(s, a, n), Next(t, b, n), left[n], rest[n]);
  }

  lemma AllStepsUnique(r: Rules, pools: seq<Pool>, items: seq<Wip>, before: seq<Order>, a: seq<Order>, b: seq<Order>,
                       s: seq<Step>, t: seq<Step>, left: seq<seq<real>>, rest: seq<seq<real>>)
    requires AllDone(r, pools, items, before, a, s, left) && AllDone(r, pools, items, before, b, t, rest)
    requires |s| == |t|
    ensures s == t && left == rest && a == b
  {
    hide StepDone;
    forall n | 0 <= n < |s| ensures s[n] == t[n] && left[n] == rest[n] && Next(s, a, n) == Next(t, b, n) {
      StepsAreUnique(r, pools, items, before, a, b, s, t, left, rest, n);
    }
    if s != [] { assert Next(s, a, |s| - 1) == a && Next(t, b, |t| - 1) == b; }
  }

  lemma ItemIsUnique(orders: seq<Order>, item: Wip, a: Wip, b: Wip, log: seq<Match>, d: nat)
    requires ItemIs(orders, item, a, log, d) && ItemIs(orders, item, b, log, d)
    ensures a == b
  {
    if Used(log, d) {
      var i: nat :| FirstUse(log, d, i) && log[i].order < |orders| && a.servedOrder == Some(Name(orders[log[i].order]));
      var j: nat :| FirstUse(log, d, j) && log[j].order < |orders| && b.servedOrder == Some(Name(orders[log[j].order]));
      assert i == j;
    }
  }

  /** Two runs on the same orders and the same stock are the same: pools, choices, matches, remainders,
      and the orders and items they leave. */
  lemma RunIsUnique(r: Rules, before: seq<Order>, items: seq<Wip>,
                    pools: seq<Pool>, after: seq<Order>, stock: seq<Wip>, log: seq<Match>, left: seq<seq<real>>,
                    steps: seq<Step>,
                    pools': seq<Pool>, after': seq<Order>, stock': seq<Wip>, log': seq<Match>, left': seq<seq<real>>,
                    steps': seq<Step>)
    requires Pooled(items, pools, |items|) && |steps| == |pools|
    requires Pooled(items, pools', |items|) && |steps'| == |pools'|
    requires RunState(r, pools, before, after, items, stock, log, left, steps)
    requires RunState(r, pools', before, after', items, stock', log', left', steps')
    ensures pools == pools' && after == after' && stock == stock' && log == log' && left == left' && steps == steps'
  {
    hide Pooled, AllDone, OrdersTold, LogOf, ItemIs;
    PoolsAreUnique(items, pools, pools');
    AllStepsUnique(r, pools, items, before, after, after', steps, steps', left, left');
    forall d | 0 <= d < |items| ensures stock[d] == stock'[d] {
      assert ItemIs(before, items[d], stock[d], log, d) && ItemIs(before, items[d], stock'[d], log', d);
      ItemIsUnique(before, items[d], stock[d], stock'[d], log, d);
    }
  }
}
