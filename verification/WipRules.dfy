/** What the rules of matching ask of single items and orders. */
module WipRules {
  import opened Orderings
  import opened Wrappers
  import opened WipCombo
  import opened WipMatching
  import opened WipPool

  // ---------- which items share a pool

  ghost predicate StandsAt(s: string, part: string, i: int) {
    0 <= i && i + |part| <= |s| && s[i..i + |part|] == part
  }

  /** The stage says so somewhere in its name. */
  ghost predicate Insulated(w: Wip) { exists i :: StandsAt(w.stage, "절연", i) }

  lemma {:induction false} ContainsMeans(s: string, part: string)
    ensures Contains(s, part) <==> exists i :: StandsAt(s, part, i)
  {
    if part <= s {
      assert StandsAt(s, part, 0);
    } else if s != [] {
      ContainsMeans(s[1..], part);
      forall i ensures StandsAt(s, part, i) <==> StandsAt(s[1..], part, i - 1) { OneLater(s, part, i); }
      if Contains(s, part) {
        var i :| StandsAt(s[1..], part, i);
        assert StandsAt(s, part, i + 1);
      }
    }
  }

  lemma OneLater(s: string, part: string, i: int)
    requires s != [] && !(part <= s)
    ensures StandsAt(s, part, i) <==> StandsAt(s[1..], part, i - 1)
  {
    if 1 <= i && i + |part| <= |s| { assert s[1..][i - 1..i - 1 + |part|] == s[i..i + |part|]; }
    if i == 0 && |part| <= |s| { assert s[..|part|] == s[0..|part|]; }
  }

  /** Alike in cross-section, stage and voltage, and if insulated in colours and product. */
  ghost predicate AlikeItems(a: Wip, b: Wip) {
    && a.sq == b.sq && a.stage == b.stage && a.voltage == b.voltage
    && (Insulated(a) ==> a.colors == b.colors && a.product == b.product)
  }

  lemma SameKeyExactly(a: Wip, b: Wip)
    ensures KeyOf(a) == KeyOf(b) <==> AlikeItems(a, b)
  {
    ContainsMeans(a.stage, "절연");
    ContainsMeans(b.stage, "절연");
  }

  ghost predicate Together(pools: seq<Pool>, i: nat, j: nat) {
    exists p :: 0 <= p < |pools| && i in pools[p].wips && j in pools[p].wips
  }

  /** Items are in a pool if and only if they have a cross-section, metres and a drum; and two of them
      are in the same pool if and only if they are alike. */
  lemma PoolsShareExactly(wips: seq<Wip>, pools: seq<Pool>, i: nat, j: nat)
    requires Pooled(wips, pools, |wips|) && i < |wips| && j < |wips|
    ensures InSomePool(pools, i) <==> wips[i].sq != 0.0 && 0.0 < wips[i].total && 0.0 < wips[i].drum
    ensures InSomePool(pools, i) && InSomePool(pools, j) ==>
              (Together(pools, i, j) <==> AlikeItems(wips[i], wips[j]))
  {
    hide Peaks, SumAt, KeyOf, Chosen, InOrder;
    SameKeyExactly(wips[i], wips[j]);
    if InSomePool(pools, i) {
      var p :| 0 <= p < |pools| && i in pools[p].wips;
      KeyInPool(wips, pools, p, i);
      if InSomePool(pools, j) {
        var r :| 0 <= r < |pools| && j in pools[r].wips;
        KeyInPool(wips, pools, r, j);
        if Together(pools, i, j) {
          var t :| 0 <= t < |pools| && i in pools[t].wips && j in pools[t].wips;
          KeyInPool(wips, pools, t, i);
          KeyInPool(wips, pools, t, j);
        }
      }
    }
  }

  lemma KeyInPool(wips: seq<Wip>, pools: seq<Pool>, p: nat, i: nat)
    requires Pooled(wips, pools, |wips|) && p < |pools| && i in pools[p].wips
    ensures i < |wips| && KeyOf(wips[i]) == pools[p].key && Usable(wips[i])
  {
    hide Peaks, SumAt, KeyOf, Usable, InOrder;
    var k :| 0 <= k < |pools[p].wips| && pools[p].wips[k] == i;
    assert SoundPool(wips, pools[p]);
  }

  // ---------- which orders a pool may serve

  ghost predicate HasOlder(stock: seq<Wip>, p: Pool, days: int)
    requires Bounded(stock, p.wips)
  {
    exists i :: 0 <= i < |p.wips| && stock[p.wips[i]].ageDays > days
  }

  ghost predicate HasDrum(stock: seq<Wip>, p: Pool, length: real)
    requires Bounded(stock, p.wips)
  {
    exists i :: 0 <= i < |p.wips| && stock[p.wips[i]].drum >= length
  }

  /** A pool may serve an order that is free, goes with it and asks for something, if some drum of the
      pool is as long as the order's drums but for the loss allowed: the loss limit, and the bonus on
      top if some item is older than the threshold, which every item is taken to be if that is negative. */
  lemma CandidateExactly(r: Rules, stock: seq<Wip>, p: Pool, o: Order)
    requires SoundPool(stock, p)
    ensures Bounded(stock, p.wips)
    ensures var aged := r.agingThreshold < 0 || HasOlder(stock, p, r.agingThreshold);
            var limit := if aged then r.lossLimit + r.agingBonus else r.lossLimit;
            Candidate(r, p, o) <==>
            && !o.useWip && r.compatible(p.key, o) && 0.0 < o.qty
            && (o.drumLength <= 0.0 || HasDrum(stock, p, o.drumLength * (1.0 - limit)))
  {
    hide SumAt;
    var limit := LossLimit(r, p);
    OldestDecides(stock, p, r.agingThreshold);
    LongestDecides(stock, p, o.drumLength * (1.0 - limit));
  }

  lemma OldestDecides(stock: seq<Wip>, p: Pool, days: int)
    requires SoundPool(stock, p)
    ensures Bounded(stock, p.wips) && (days < p.maxAge <==> days < 0 || HasOlder(stock, p, days))
  {
    if 0 <= days < p.maxAge {
      var i :| 0 <= i < |p.wips| && stock[p.wips[i]].ageDays == p.maxAge;
      assert stock[p.wips[i]].ageDays > days;
    }
  }

  lemma LongestDecides(stock: seq<Wip>, p: Pool, length: real)
    requires SoundPool(stock, p)
    ensures Bounded(stock, p.wips) && (length <= p.maxDrum <==> HasDrum(stock, p, length))
  {
    if length <= p.maxDrum {
      var i :| 0 <= i < |p.wips| && stock[p.wips[i]].drum == p.maxDrum;
      assert stock[p.wips[i]].drum >= length;
    }
  }

  /** An order counts with its metres once for each core, and at least once. */
  ghost predicate MetresCounted(orders: seq<Order>, q: seq<real>) {
    |q| == |orders| && forall i :: 0 <= i < |q| ==>
      q[i] == orders[i].qty * (if 1 <= orders[i].cores then orders[i].cores else 1) as real
  }

  lemma AtLeastOnce(o: Order)
    ensures o.Converted() == o.qty * (if 1 <= o.cores then o.cores else 1) as real
  {
    if o.cores == 1 { assert o.Converted() == o.qty; }
  }

  /** What serving leaves on the orders: each served one is marked, with its own metres, the stage of
      the stock and the item it was put on, which is of this pool. */
  lemma ServedBecome(r: Rules, p: Pool, before: seq<Order>, after: seq<Order>, stock: seq<Wip>, served: seq<nat>,
                     homes: seq<nat>, i: nat)
    requires SoundPool(stock, p) && |before| == |after| && PoolServed(r, p, before, after, stock, served, homes)
    requires i < |served|
    ensures Bounded(before, served) && Bounded(stock, homes) && |homes| == |served| && homes[i] in p.wips
    ensures var o, w := before[served[i]], stock[homes[i]];
            after[served[i]] ==
            Order(o.id, o.line, o.spec, o.qty, o.cores, o.drumLength, true, w.stage, Some(w.id), o.qty)
  {
    hide SumAt, Candidate, Peaks, InOrder, Contains;
    var k :| 0 <= k < |p.wips| && p.wips[k] == homes[i];
    assert KeyOf(stock[p.wips[k]]) == p.key;
  }

  /** The served orders, in single cores, are no more than the items of the pool hold together. */
  lemma ServedFit(r: Rules, p: Pool, before: seq<Order>, after: seq<Order>, stock: seq<Wip>, served: seq<nat>,
                  homes: seq<nat>)
    requires SoundPool(stock, p) && |before| == |after| && PoolServed(r, p, before, after, stock, served, homes)
    ensures Bounded(before, served) && Bounded(Totals(stock), p.wips)
    ensures var q := ConvertedAll(before);
            MetresCounted(before, q) && SumAt(q, served) <= SumAt(Totals(stock), p.wips)
  {
    hide SumAt, Candidate, Peaks, InOrder, KeyOf;
    forall j | 0 <= j < |before| ensures before[j].Converted() ==
      before[j].qty * (if 1 <= before[j].cores then before[j].cores else 1) as real { AtLeastOnce(before[j]); }
  }

  // ---------- in which order

  ghost function QtyAt(q: seq<real>, x: nat): real { if x < |q| then q[x] else 0.0 }

  ghost function Smaller(q: seq<real>): (nat, nat) -> bool { (x: nat, y: nat) => QtyAt(q, x) < QtyAt(q, y) }

  ghost function Larger(q: seq<real>): (nat, nat) -> bool { (x: nat, y: nat) => QtyAt(q, x) > QtyAt(q, y) }

  lemma {:induction false} InsertIsInsert(x: nat, s: seq<nat>, q: seq<real>)
    requires x < |q| && Bounded(q, s)
    ensures InsertByQty(x, s, q) == InsertBefore(x, s, Smaller(q))
    decreases |s|
  {
    if s != [] && q[x] > q[s[0]] { InsertIsInsert(x, s[1..], q); }
  }

  lemma {:induction false} SortIsSort(list: seq<nat>, q: seq<real>)
    requires Bounded(q, list)
    ensures SortedByQty(list, q) == SortBefore(list, Smaller(q))
    decreases |list|
  {
    if list != [] {
      SortIsSort(list[1..], q);
      InsertIsInsert(list[0], SortedByQty(list[1..], q), q);
    }
  }

  /** Smallest first, and as they came where quantities are equal. */
  lemma SortIsStable(list: seq<nat>, q: seq<real>)
    requires Bounded(q, list)
    ensures StablySorted(list, SortedByQty(list, q), Smaller(q))
  {
    SortIsSort(list, q);
    SortBeforeIsStable(list, Smaller(q));
  }

  /** The largest first, and as they came where quantities are equal. */
  lemma DescendingIsStable(list: seq<nat>, q: seq<real>)
    requires Bounded(q, list)
    ensures StablySorted(list, Descending(list, q), Larger(q))
  {
    SortIsStable(list, Negated(q));
    SameOrder(list, Descending(list, q), Smaller(Negated(q)), Larger(q));
  }
}
