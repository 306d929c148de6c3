/** Matching stock to orders: pools of like stock, each spread over the orders it can serve. */
module WipMatching {
  import opened Wrappers
  import opened WipCombo

  datatype Wip = Wip(id: int, sq: real, stage: string, voltage: string, colors: string, product: string,
                     total: real, drum: real, ageDays: int, status: string, servedOrder: Option<(string, int)>)

  /** `drumLength` is the drum length asked for, or the quantity where none is. */
  datatype Order = Order(id: string, line: int, spec: string, qty: real, cores: int, drumLength: real,
                         useWip: bool, wipType: string, wipId: Option<int>, actualLength: real)
  {
    /** The quantity in single cores. */
    function Converted(): real { qty * (if cores > 1 then cores else 1) as real }
  }

  // ---------- pools

  datatype PoolKey = PoolKey(sq: real, stage: string, voltage: string, colors: string, product: string)

  /** `wips` are positions in the list of stock. */
  datatype Pool = Pool(key: PoolKey, wips: seq<nat>, total: real, maxDrum: real, maxAge: int)

  predicate Contains(s: string, part: string) {
    part <= s || (s != [] && Contains(s[1..], part))
  }

  /** Insulated stock is kept apart by colours and product, stranded stock is not. */
  function KeyOf(w: Wip): PoolKey {
    if Contains(w.stage, "절연") then PoolKey(w.sq, w.stage, w.voltage, w.colors, w.product)
    else PoolKey(w.sq, w.stage, w.voltage, "", "")
  }

  predicate Usable(w: Wip) { w.sq != 0.0 && 0.0 < w.total && 0.0 < w.drum }

  function Totals(wips: seq<Wip>): seq<real> {
    seq(|wips|, i requires 0 <= i < |wips| => wips[i].total)
  }

  ghost predicate Distinct(s: seq<nat>) { forall i, j :: 0 <= i < j < |s| ==> s[i] != s[j] }

  ghost predicate InOrder(s: seq<nat>) { forall i, j :: 0 <= i < j < |s| ==> s[i] < s[j] }

  /** The pool knows its largest drum, and its greatest age, or 0 if that is negative. */
  ghost predicate Peaks(wips: seq<Wip>, p: Pool)
    requires forall i :: 0 <= i < |p.wips| ==> p.wips[i] < |wips|
  {
    && (forall i :: 0 <= i < |p.wips| ==> wips[p.wips[i]].drum <= p.maxDrum && wips[p.wips[i]].ageDays <= p.maxAge)
    && (exists i :: 0 <= i < |p.wips| && wips[p.wips[i]].drum == p.maxDrum)
    && 0 <= p.maxAge && (0 < p.maxAge ==> exists i :: 0 <= i < |p.wips| && wips[p.wips[i]].ageDays == p.maxAge)
  }

  /** A pool holds usable stock of its key, each item once and in order, and knows its total and its
      largest and oldest. */
  ghost predicate SoundPool(wips: seq<Wip>, p: Pool) {
    && p.wips != [] && Chosen(Totals(wips), p.wips) && InOrder(p.wips) && Peaks(wips, p)
    && (forall i :: 0 <= i < |p.wips| ==> Usable(wips[p.wips[i]]) && KeyOf(wips[p.wips[i]]) == p.key)
    && p.total == SumAt(Totals(wips), p.wips)
  }

  /** Every usable item among the first `n` is in a pool. */
  ghost predicate Covered(wips: seq<Wip>, pools: seq<Pool>, n: nat)
    requires n <= |wips|
  {
    forall i :: 0 <= i < n && Usable(wips[i]) ==> InSomePool(pools, i)
  }

  ghost predicate InSomePool(pools: seq<Pool>, i: nat) { exists p :: 0 <= p < |pools| && i in pools[p].wips }

  /** The pools split the usable items among the first `n` by key, in the order of their first items. */
  ghost predicate Pooled(wips: seq<Wip>, pools: seq<Pool>, n: nat)
    requires n <= |wips|
  {
    && (forall p :: 0 <= p < |pools| ==> SoundPool(wips, pools[p]))
    && (forall p, r :: 0 <= p < r < |pools| ==> pools[p].key != pools[r].key && pools[p].wips[0] < pools[r].wips[0])
    && Covered(wips, pools, n)
    && (forall p, i :: 0 <= p < |pools| && i in pools[p].wips ==> i < n)
  }

  method BuildPools(wips: seq<Wip>) returns (pools: seq<Pool>)
    ensures Pooled(wips, pools, |wips|)
  {
    pools := [];
    for n := 0 to |wips|
      invariant Pooled(wips, pools, n)
    {
      var w := wips[n];
      if !Usable(w) { continue; }
      var key := KeyOf(w);
      var k := FindPool(pools, key);
      if k == |pools| {
        NewPool(wips, pools, n);
        pools := pools + [Opened(w, n)];
      } else {
        FillPool(wips, pools, n, k);
        pools := pools[k := Filled(pools[k], w, n)];
      }
    }
  }

  method FindPool(pools: seq<Pool>, key: PoolKey) returns (k: nat)
    ensures k <= |pools| && (forall i :: 0 <= i < k ==> pools[i].key != key)
    ensures k < |pools| ==> pools[k].key == key
  {
    k := 0;
    while k < |pools| && pools[k].key != key
      invariant k <= |pools| && forall i :: 0 <= i < k ==> pools[i].key != key
    {
      k := k + 1;
    }
  }

  /** The pool that a first item opens. */
  function Opened(w: Wip, n: nat): Pool { Pool(KeyOf(w), [n], w.total, w.drum, if w.ageDays > 0 then w.ageDays else 0) }

  /** The pool with one item more. */
  function Filled(p: Pool, w: Wip, n: nat): Pool {
    p.(wips := p.wips + [n], total := p.total + w.total,
       maxDrum := if p.maxDrum >= w.drum then p.maxDrum else w.drum,
       maxAge := if w.ageDays > p.maxAge then w.ageDays else p.maxAge)
  }

  lemma OpenedIsSound(wips: seq<Wip>, n: nat)
    requires n < |wips| && Usable(wips[n])
    ensures SoundPool(wips, Opened(wips[n], n))
  {
    var p := Opened(wips[n], n);
    ChooseOneMore(Totals(wips), [], n);
    assert [] + [n] == p.wips && wips[p.wips[0]] == wips[n];
  }

  lemma NewPool(wips: seq<Wip>, pools: seq<Pool>, n: nat)
    requires n < |wips| && Pooled(wips, pools, n) && Usable(wips[n])
    requires forall i :: 0 <= i < |pools| ==> pools[i].key != KeyOf(wips[n])
    ensures Pooled(wips, pools + [Opened(wips[n], n)], n + 1)
  {
    hide Peaks, KeyOf, SumAt, Chosen, Totals, InOrder, Covered;
    var p := Opened(wips[n], n);
    var all := pools + [p];
    OpenedIsSound(wips, n);
    CoverGrows(wips, pools, all, n, |pools|);
    forall i | 0 <= i < |pools| ensures all[i].wips[0] < n {
      assert SoundPool(wips, pools[i]) && pools[i].wips[0] in pools[i].wips;
    }
  }

  lemma CoverGrows(wips: seq<Wip>, pools: seq<Pool>, all: seq<Pool>, n: nat, k: nat)
    requires n < |wips| && Covered(wips, pools, n) && k < |all| && n in all[k].wips
    requires |pools| <= |all| && forall p, i :: 0 <= p < |pools| && i in pools[p].wips ==> i in all[p].wips
    ensures Covered(wips, all, n + 1)
  {
    forall i | 0 <= i < n + 1 && Usable(wips[i]) ensures InSomePool(all, i) {
      if i < n {
        assert InSomePool(pools, i);
        var r :| 0 <= r < |pools| && i in pools[r].wips;
        assert i in all[r].wips;
      }
    }
  }

  lemma FillPool(wips: seq<Wip>, pools: seq<Pool>, n: nat, k: nat)
    requires n < |wips| && Pooled(wips, pools, n) && Usable(wips[n]) && k < |pools| && pools[k].key == KeyOf(wips[n])
    ensures Pooled(wips, pools[k := Filled(pools[k], wips[n], n)], n + 1)
  {
    hide Peaks, KeyOf, SumAt, Chosen, Totals, InOrder, Covered;
    FilledIsSound(wips, pools, n, k);
    CoverGrows(wips, pools, pools[k := Filled(pools[k], wips[n], n)], n, k);
  }

  lemma FilledIsSound(wips: seq<Wip>, pools: seq<Pool>, n: nat, k: nat)
    requires n < |wips| && Pooled(wips, pools, n) && Usable(wips[n]) && k < |pools| && pools[k].key == KeyOf(wips[n])
    ensures SoundPool(wips, Filled(pools[k], wips[n], n))
  {
    var p := pools[k];
    assert SoundPool(wips, p);
    forall i | 0 <= i < |p.wips| ensures p.wips[i] < n { assert p.wips[i] in p.wips; }
    OneMoreIsSound(wips, p, n);
  }

  lemma OneMoreIsSound(wips: seq<Wip>, p: Pool, n: nat)
    requires SoundPool(wips, p) && n < |wips| && Usable(wips[n]) && p.key == KeyOf(wips[n])
    requires forall i :: 0 <= i < |p.wips| ==> p.wips[i] < n
    ensures SoundPool(wips, Filled(p, wips[n], n))
  {
    hide KeyOf, Usable, SumAt, Peaks;
    ChooseOneMore(Totals(wips), p.wips, n);
    PeaksGrow(wips, p, n);
  }

  lemma PeaksGrow(wips: seq<Wip>, p: Pool, n: nat)
    requires (forall i :: 0 <= i < |p.wips| ==> p.wips[i] < |wips|) && n < |wips| && Peaks(wips, p)
    ensures Peaks(wips, Filled(p, wips[n], n))
  {
    var f, last := Filled(p, wips[n], n), |p.wips|;
    assert f.wips[last] == n && forall i :: 0 <= i < last ==> f.wips[i] == p.wips[i];
    if f.maxDrum == p.maxDrum {
      var i :| 0 <= i < |p.wips| && wips[p.wips[i]].drum == p.maxDrum;
      assert wips[f.wips[i]].drum == f.maxDrum;
    } else {
      assert wips[f.wips[last]].drum == f.maxDrum;
    }
    if 0 < f.maxAge == p.maxAge {
      var i :| 0 <= i < |p.wips| && wips[p.wips[i]].ageDays == p.maxAge;
      assert wips[f.wips[i]].ageDays == f.maxAge;
    } else if 0 < f.maxAge {
      assert wips[f.wips[last]].ageDays == f.maxAge;
    }
  }

  // ---------- spreading the chosen orders over the drums

  function Sum(s: seq<real>): real { if s == [] then 0.0 else Sum(s[..|s| - 1]) + s[|s| - 1] }

  lemma {:induction false} SumUpdate(s: seq<real>, i: nat, x: real)
    requires i < |s|
    ensures Sum(s[i := x]) == Sum(s) - s[i] + x
    decreases |s|
  {
    var n := |s| - 1;
    if i < n {
      SumUpdate(s[..n], i, x);
      assert s[i := x][..n] == s[..n][i := x];
    } else {
      assert s[i := x][..n] == s[..n];
    }
  }

  /** The drum an order goes to: the first that holds it, else the first of the fullest. */
  ghost predicate DrumFor(rem: seq<real>, need: real, k: nat) {
    && k < |rem|
    && if exists j :: 0 <= j < |rem| && rem[j] >= need
       then rem[k] >= need && forall j :: 0 <= j < k ==> rem[j] < need
       else (forall j :: 0 <= j < |rem| ==> rem[j] <= rem[k]) && forall j :: 0 <= j < k ==> rem[j] < rem[k]
  }

  method ChooseDrum(rem: seq<real>, need: real) returns (k: nat)
    requires rem != []
    ensures DrumFor(rem, need, k)
  {
    for i := 0 to |rem|
      invariant forall j :: 0 <= j < i ==> rem[j] < need
    {
      if rem[i] >= need { return i; }
    }
    k := 0;
    for i := 1 to |rem|
      invariant k < i && (forall j :: 0 <= j < i ==> rem[j] <= rem[k]) && forall j :: 0 <= j < k ==> rem[j] < rem[k]
    {
      if rem[i] > rem[k] { k := i; }
    }
  }

  /** What is left on each drum after the orders have been taken off it, in order. */
  function Left(rem: seq<real>, needs: seq<real>, drums: seq<nat>): (r: seq<real>)
    requires |needs| == |drums| && forall i :: 0 <= i < |drums| ==> drums[i] < |rem|
    ensures |r| == |rem|
  {
    if drums == [] then rem
    else
      var n := |drums| - 1;
      var before := Left(rem, needs[..n], drums[..n]);
      before[drums[n] := before[drums[n]] - needs[n]]
  }

  /** Order `i` goes to the drum the rule names for what the orders before it have left. */
  ghost predicate SpreadAt(rem: seq<real>, needs: seq<real>, drums: seq<nat>, i: nat)
    requires i < |needs| == |drums| && forall i :: 0 <= i < |drums| ==> drums[i] < |rem|
  {
    DrumFor(Left(rem, needs[..i], drums[..i]), needs[i], drums[i])
  }

  /** Each order in turn goes to the drum the rule names. */
  ghost predicate Spread(rem: seq<real>, needs: seq<real>, drums: seq<nat>) {
    && |needs| == |drums| && (forall i :: 0 <= i < |drums| ==> drums[i] < |rem|)
    && forall i :: 0 <= i < |drums| ==> SpreadAt(rem, needs, drums, i)
  }

  /** Stock is conserved over the pool, whatever happens to single drums. */
  lemma {:induction false} StockIsConserved(rem: seq<real>, needs: seq<real>, drums: seq<nat>)
    requires |needs| == |drums| && forall i :: 0 <= i < |drums| ==> drums[i] < |rem|
    ensures Sum(Left(rem, needs, drums)) == Sum(rem) - Sum(needs)
    decreases |drums|
  {
    if drums != [] {
      var n := |drums| - 1;
      StockIsConserved(rem, needs[..n], drums[..n]);
      var before := Left(rem, needs[..n], drums[..n]);
      SumUpdate(before, drums[n], before[drums[n]] - needs[n]);
    }
  }

  /** A drum is overdrawn by an order exactly when no drum could hold that order. */
  lemma OverdrawnExactly(rem: seq<real>, need: real, k: nat)
    requires DrumFor(rem, need, k)
    ensures rem[k] - need < 0.0 <==> forall j :: 0 <= j < |rem| ==> rem[j] < need
  {
  }

  ghost predicate NoneBelow(s: seq<real>) { forall k :: 0 <= k < |s| ==> 0.0 <= s[k] }

  /** Some item holds order `i` when its turn comes. */
  ghost predicate Held(rem: seq<real>, needs: seq<real>, drums: seq<nat>, i: nat)
    requires i < |needs| == |drums| && forall i :: 0 <= i < |drums| ==> drums[i] < |rem|
  {
    exists j :: 0 <= j < |rem| && Left(rem, needs[..i], drums[..i])[j] >= needs[i]
  }

  /** No item ends below zero exactly when every order found an item that held it. */
  lemma {:induction false} NoneOverdrawnExactly(rem: seq<real>, needs: seq<real>, drums: seq<nat>, n: nat)
    requires Spread(rem, needs, drums) && NoneBelow(rem) && n <= |drums|
    requires forall i :: 0 <= i < |needs| ==> 0.0 < needs[i]
    ensures NoneBelow(Left(rem, needs[..n], drums[..n])) <==> forall i :: 0 <= i < n ==> Held(rem, needs, drums, i)
    decreases n
  {
    if n > 0 {
      hide Left;
      NoneOverdrawnExactly(rem, needs, drums, n - 1);
      assert SpreadAt(rem, needs, drums, n - 1);
      var before, after := Left(rem, needs[..n - 1], drums[..n - 1]), Left(rem, needs[..n], drums[..n]);
      var d, need := drums[n - 1], needs[n - 1];
      LeftStep(rem, needs, drums, n);
      OverdrawnExactly(before, need, d);
      BelowAfter(before, d, need);
      assert Held(rem, needs, drums, n - 1) <==> 0.0 <= before[d] - need;
    }
  }

  lemma LeftStep(rem: seq<real>, needs: seq<real>, drums: seq<nat>, n: nat)
    requires 0 < n <= |drums| == |needs| && forall i :: 0 <= i < |drums| ==> drums[i] < |rem|
    ensures var before := Left(rem, needs[..n - 1], drums[..n - 1]);
            Left(rem, needs[..n], drums[..n]) == before[drums[n - 1] := before[drums[n - 1]] - needs[n - 1]]
  {
    hide Left;
    LastApart(needs, n);
    LastApart(drums, n);
    LeftSnoc(rem, needs[..n - 1], drums[..n - 1], needs[n - 1], drums[n - 1]);
  }

  lemma LastApart<T>(s: seq<T>, n: nat)
    requires 0 < n <= |s|
    ensures s[..n] == s[..n - 1] + [s[n - 1]]
  {
  }

  lemma LeftSnoc(rem: seq<real>, needs: seq<real>, drums: seq<nat>, need: real, k: nat)
    requires |needs| == |drums| && (forall i :: 0 <= i < |drums| ==> drums[i] < |rem|) && k < |rem|
    ensures var r := Left(rem, needs, drums); Left(rem, needs + [need], drums + [k]) == r[k := r[k] - need]
  {
    assert (needs + [need])[..|needs|] == needs && (drums + [k])[..|needs|] == drums;
  }

  lemma BelowAfter(before: seq<real>, d: nat, need: real)
    requires d < |before| && 0.0 < need
    ensures NoneBelow(before[d := before[d] - need]) <==> NoneBelow(before) && 0.0 <= before[d] - need
  {
    var after := before[d := before[d] - need];
    if NoneBelow(after) {
      forall k | 0 <= k < |before| ensures 0.0 <= before[k] { assert 0.0 <= after[k]; }
      assert 0.0 <= after[d];
    }
  }

  lemma SpreadGrows(rem: seq<real>, needs: seq<real>, drums: seq<nat>, need: real, k: nat)
    requires Spread(rem, needs, drums) && DrumFor(Left(rem, needs, drums), need, k)
    ensures Spread(rem, needs + [need], drums + [k])
    ensures var r := Left(rem, needs, drums); Left(rem, needs + [need], drums + [k]) == r[k := r[k] - need]
  {
    var n := |drums|;
    assert (needs + [need])[..n] == needs && (drums + [k])[..n] == drums;
    forall i | 0 <= i < n + 1 ensures SpreadAt(rem, needs + [need], drums + [k], i) {
      SameBefore(rem, needs, drums, need, k, i);
    }
  }

  lemma SameBefore(rem: seq<real>, needs: seq<real>, drums: seq<nat>, need: real, k: nat, i: nat)
    requires Spread(rem, needs, drums) && DrumFor(Left(rem, needs, drums), need, k) && i <= |drums|
    ensures SpreadAt(rem, needs + [need], drums + [k], i)
  {
    assert (needs + [need])[..i] == needs[..i] && (drums + [k])[..i] == drums[..i];
    if i == |drums| {
      assert needs[..i] == needs && drums[..i] == drums;
    } else {
      assert SpreadAt(rem, needs, drums, i);
    }
  }

  method SpreadOrders(rem0: seq<real>, needs: seq<real>) returns (drums: seq<nat>, rem: seq<real>)
    requires rem0 != []
    ensures Spread(rem0, needs, drums) && rem == Left(rem0, needs, drums)
    ensures Sum(rem) == Sum(rem0) - Sum(needs)
  {
    drums, rem := [], rem0;
    for i := 0 to |needs|
      invariant |drums| == i && Spread(rem0, needs[..i], drums) && rem == Left(rem0, needs[..i], drums)
    {
      var k := ChooseDrum(rem, needs[i]);
      SpreadGrows(rem0, needs[..i], drums, needs[i], k);
      assert needs[..i + 1] == needs[..i] + [needs[i]];
      drums := drums + [k];
      rem := rem[k := rem[k] - needs[i]];
    }
    assert needs[..|needs|] == needs;
    StockIsConserved(rem0, needs, drums);
  }
}
