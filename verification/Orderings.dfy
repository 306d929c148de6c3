/** Lists in order: how many there are, and what a stable sort leaves. */
module Orderings {

  ghost predicate Ascends<T>(list: seq<T>, less: (T, T) -> bool) {
    forall i, j :: 0 <= i < j < |list| ==> less(list[i], list[j])
  }

  ghost predicate Asymmetric<T(!new)>(less: (T, T) -> bool) { forall x, y :: less(x, y) ==> !less(y, x) }

  /** There is one way only to put the same elements in a strict order. */
  lemma {:induction false} SameAscending<T(!new)>(a: seq<T>, b: seq<T>, less: (T, T) -> bool)
    requires Asymmetric(less) && Ascends(a, less) && Ascends(b, less) && forall x :: x in a <==> x in b
    ensures a == b
    decreases |a|
  {
    assert (a != [] ==> a[0] in a) && (b != [] ==> b[0] in b);
    if a != [] {
      SameHead(a, b, less);
      assert a == [a[0]] + a[1..] && b == [b[0]] + b[1..];
      HeadOnce(a, less);
      HeadOnce(b, less);
      forall x ensures x in a[1..] <==> x in b[1..] {
        assert (x in a[1..] <==> x in a && x != a[0]) && (x in b[1..] <==> x in b && x != b[0]);
      }
      SameAscending(a[1..], b[1..], less);
    }
  }

  lemma SameHead<T(!new)>(a: seq<T>, b: seq<T>, less: (T, T) -> bool)
    requires Asymmetric(less) && Ascends(a, less) && Ascends(b, less) && a != [] && b != [] && a[0] in b && b[0] in a
    ensures a[0] == b[0]
  {
    var i :| 0 <= i < |a| && a[i] == b[0];
    var j :| 0 <= j < |b| && b[j] == a[0];
  }

  lemma HeadOnce<T(!new)>(a: seq<T>, less: (T, T) -> bool)
    requires Asymmetric(less) && Ascends(a, less) && a != []
    ensures a[0] !in a[1..] && Ascends(a[1..], less)
  {
    forall i | 0 <= i < |a[1..]| ensures a[1..][i] != a[0] { assert less(a[0], a[i + 1]); }
  }

  // ---------- stable sorts

  /** What stands at place `x` comes before what stands at `y`: by the order, and where that does not
      tell them apart, as they stand. */
  ghost predicate Before<T>(list: seq<T>, sooner: (T, T) -> bool, x: nat, y: nat) {
    x < |list| && y < |list| && (sooner(list[x], list[y]) || (!sooner(list[y], list[x]) && x < y))
  }

  ghost function ByPlace<T>(list: seq<T>, sooner: (T, T) -> bool): (nat, nat) -> bool {
    (x: nat, y: nat) => Before(list, sooner, x, y)
  }

  /** `s` takes each element of `list` once, from the places `p`, in that order. */
  ghost predicate SortedFrom<T>(list: seq<T>, s: seq<T>, sooner: (T, T) -> bool, p: seq<nat>) {
    && |p| == |s| == |list| && (forall x: nat :: x in p <==> x < |list|) && Ascends(p, ByPlace(list, sooner))
    && forall i :: 0 <= i < |p| ==> p[i] in p && s[i] == list[p[i]]
  }

  ghost predicate StablySorted<T(!new)>(list: seq<T>, s: seq<T>, sooner: (T, T) -> bool) {
    exists p :: SortedFrom(list, s, sooner, p)
  }

  /** `s` with `x` put in at place `k`. */
  ghost function With<T(!new)>(s: seq<T>, k: nat, x: T): (r: seq<T>)
    requires k <= |s|
    ensures |r| == |s| + 1 && r[k] == x
    ensures forall i :: 0 <= i < k ==> r[i] == s[i]
    ensures forall i :: k < i <= |s| ==> r[i] == s[i - 1]
    ensures forall y :: y in r <==> y == x || y in s
  {
    assert s == s[..k] + s[k..];
    s[..k] + [x] + s[k..]
  }

  lemma AscendsWith<T(!new)>(s: seq<T>, k: nat, x: T, less: (T, T) -> bool)
    requires Ascends(s, less) && k <= |s|
    requires (forall i :: 0 <= i < k ==> less(s[i], x)) && forall i :: k <= i < |s| ==> less(x, s[i])
    ensures Ascends(With(s, k, x), less)
  {
    hide With;
  }

  lemma AscendsLike<T>(s: seq<T>, a: (T, T) -> bool, b: (T, T) -> bool)
    requires Ascends(s, a) && forall i, j :: 0 <= i < j < |s| && a(s[i], s[j]) ==> b(s[i], s[j])
    ensures Ascends(s, b)
  {
  }

  /** `r` is `s` with `x` put in behind all that do not come after it, in front of all that do. */
  ghost predicate PutBehind<T(!new)>(x: T, s: seq<T>, sooner: (T, T) -> bool, k: nat, r: seq<T>) {
    && k <= |s| && r == With(s, k, x)
    && (forall i :: 0 <= i < k ==> !sooner(x, s[i])) && forall i :: k <= i < |s| ==> sooner(x, s[i])
  }

  /** The places in front stay in the order they were in when the list grows. */
  lemma PlacesStay<T(!new)>(list: seq<T>, x: T, sooner: (T, T) -> bool, p: seq<nat>)
    requires Ascends(p, ByPlace(list, sooner))
    ensures Ascends(p, ByPlace(list + [x], sooner))
  {
    forall i, j | 0 <= i < j < |p| ensures ByPlace(list + [x], sooner)(p[i], p[j]) {
      assert ByPlace(list, sooner)(p[i], p[j]);
    }
  }

  lemma PlacesAscend<T(!new)>(list: seq<T>, s: seq<T>, sooner: (T, T) -> bool, p: seq<nat>, x: T, k: nat, r: seq<T>)
    requires SortedFrom(list, s, sooner, p) && PutBehind(x, s, sooner, k, r)
    ensures Ascends<nat>(With<nat>(p, k, |list|), ByPlace(list + [x], sooner))
  {
    hide With, Ascends;
    var n: nat := |list|;
    PlacesStay(list, x, sooner, p);
    forall i | 0 <= i < n
      ensures if i < k then Before(list + [x], sooner, p[i], n) else Before(list + [x], sooner, n, p[i])
    {
      assert p[i] in p && s[i] == list[p[i]];
    }
    AscendsWith<nat>(p, k, n, ByPlace(list + [x], sooner));
  }

  lemma OneMoreSorted<T(!new)>(list: seq<T>, s: seq<T>, sooner: (T, T) -> bool, p: seq<nat>, x: T, k: nat, r: seq<T>)
    requires SortedFrom(list, s, sooner, p) && PutBehind(x, s, sooner, k, r)
    ensures SortedFrom(list + [x], r, sooner, With<nat>(p, k, |list|))
  {
    PlacesAscend(list, s, sooner, p, x, k, r);
    hide With, Ascends, ByPlace;
    var n: nat, all := |list|, list + [x];
    var q := With(p, k, n);
    forall i | 0 <= i <= n ensures q[i] in q && r[i] == all[q[i]] {
      if i < k {
        assert p[i] in p && s[i] == list[p[i]];
      } else if i > k {
        assert p[i - 1] in p && s[i - 1] == list[p[i - 1]];
      }
    }
  }

  ghost function Shifted(p: seq<nat>): (q: seq<nat>)
    ensures |q| == |p| && forall i :: 0 <= i < |p| ==> q[i] == p[i] + 1
  {
    seq(|p|, i requires 0 <= i < |p| => p[i] + 1)
  }

  /** `r` is `s` with `x` put in behind all that come before it, in front of all that do not. */
  ghost predicate PutInFront<T(!new)>(x: T, s: seq<T>, sooner: (T, T) -> bool, k: nat, r: seq<T>) {
    && k <= |s| && r == With(s, k, x)
    && (forall i :: 0 <= i < k ==> sooner(s[i], x)) && forall i :: k <= i < |s| ==> !sooner(s[i], x)
  }

  lemma PlacesShift<T(!new)>(list: seq<T>, x: T, sooner: (T, T) -> bool, p: seq<nat>)
    requires Ascends(p, ByPlace(list, sooner))
    ensures Ascends<nat>(Shifted(p), ByPlace([x] + list, sooner))
  {
    forall i, j | 0 <= i < j < |p| ensures ByPlace([x] + list, sooner)(Shifted(p)[i], Shifted(p)[j]) {
      assert ByPlace(list, sooner)(p[i], p[j]);
    }
  }

  lemma FrontAscends<T(!new)>(list: seq<T>, s: seq<T>, sooner: (T, T) -> bool, p: seq<nat>, x: T, k: nat, r: seq<T>)
    requires SortedFrom(list, s, sooner, p) && PutInFront(x, s, sooner, k, r)
    ensures Ascends<nat>(With<nat>(Shifted(p), k, 0), ByPlace([x] + list, sooner))
  {
    hide With, Ascends;
    var q := Shifted(p);
    PlacesShift(list, x, sooner, p);
    forall i | 0 <= i < |q|
      ensures if i < k then Before([x] + list, sooner, q[i], 0) else Before([x] + list, sooner, 0, q[i])
    {
      assert p[i] in p && s[i] == list[p[i]];
    }
    AscendsWith<nat>(q, k, 0, ByPlace([x] + list, sooner));
  }

  lemma ShiftedMembers(p: seq<nat>, n: nat)
    requires forall x: nat :: x in p <==> x < n
    ensures forall x: nat :: x in Shifted(p) <==> 0 < x <= n
  {
    var q := Shifted(p);
    forall x: nat | 0 < x <= n ensures x in q {
      assert x - 1 in p;
      var i :| 0 <= i < |p| && p[i] == x - 1;
      assert q[i] == x;
    }
    forall x: nat | x in q ensures 0 < x <= n {
      var i :| 0 <= i < |q| && q[i] == x;
      assert p[i] in p;
    }
  }

  lemma FrontElement<T(!new)>(list: seq<T>, s: seq<T>, p: seq<nat>, x: T, k: nat, i: nat)
    requires |p| == |s| == |list| && k <= |s| && i <= |s|
    requires forall i :: 0 <= i < |p| ==> p[i] < |list| && s[i] == list[p[i]]
    ensures var q := With<nat>(Shifted(p), k, 0); q[i] in q && q[i] <= |list| && With(s, k, x)[i] == ([x] + list)[q[i]]
  {
    hide With, Shifted;
    assert ([x] + list)[0] == x && forall j: nat :: j < |list| ==> ([x] + list)[j + 1] == list[j];
  }

  lemma TakenInside<T>(list: seq<T>, s: seq<T>, sooner: (T, T) -> bool, p: seq<nat>)
    requires SortedFrom(list, s, sooner, p)
    ensures |p| == |s| == |list| && forall i :: 0 <= i < |p| ==> p[i] < |list| && s[i] == list[p[i]]
  {
    hide Ascends;
    forall i | 0 <= i < |p| ensures p[i] < |list| && s[i] == list[p[i]] { assert p[i] in p; }
  }

  lemma FrontMembers(p: seq<nat>, k: nat)
    requires k <= |p| && forall x: nat :: x in p <==> x < |p|
    ensures forall x: nat :: x in With<nat>(Shifted(p), k, 0) <==> x <= |p|
  {
    ShiftedMembers(p, |p|);
    hide With, Shifted;
  }

  lemma IsSortedFrom<T>(list: seq<T>, s: seq<T>, sooner: (T, T) -> bool, p: seq<nat>)
    requires |p| == |s| == |list| && (forall x: nat :: x in p <==> x < |list|) && Ascends(p, ByPlace(list, sooner))
    requires forall i :: 0 <= i < |p| ==> p[i] in p && p[i] < |list| && s[i] == list[p[i]]
    ensures SortedFrom(list, s, sooner, p)
  {
    hide Ascends, ByPlace;
  }

  lemma OneMoreInFront<T(!new)>(list: seq<T>, s: seq<T>, sooner: (T, T) -> bool, p: seq<nat>, x: T, k: nat, r: seq<T>)
    requires SortedFrom(list, s, sooner, p) && PutInFront(x, s, sooner, k, r)
    ensures SortedFrom([x] + list, r, sooner, With<nat>(Shifted(p), k, 0))
  {
    FrontAscends(list, s, sooner, p, x, k, r);
    TakenInside(list, s, sooner, p);
    FrontMembers(p, k);
    hide With, Ascends, ByPlace, Shifted;
    var q := With<nat>(Shifted(p), k, 0);
    forall i | 0 <= i < |q| ensures q[i] in q && q[i] <= |list| && r[i] == ([x] + list)[q[i]] {
      FrontElement(list, s, p, x, k, i);
    }
    hide SortedFrom;
    IsSortedFrom([x] + list, r, sooner, q);
  }

  // ---------- insertion sorts

  /** What is not later than itself or both sooner and later, and what lies between two is on one side
      of each other. */
  ghost predicate WeakOrder<T(!new)>(sooner: (T, T) -> bool) {
    Asymmetric(sooner) && forall x, y, z :: sooner(x, z) ==> sooner(x, y) || sooner(y, z)
  }

  /** Each element of the list in turn is put in from the end, behind its equals. */
  ghost function InsertBehind<T>(x: T, s: seq<T>, sooner: (T, T) -> bool): seq<T> {
    if s == [] || !sooner(x, s[|s| - 1]) then s + [x] else InsertBehind(x, s[..|s| - 1], sooner) + [s[|s| - 1]]
  }

  ghost function SortBehind<T>(list: seq<T>, sooner: (T, T) -> bool): seq<T> {
    if list == [] then [] else InsertBehind(list[|list| - 1], SortBehind(list[..|list| - 1], sooner), sooner)
  }

  /** Each element of the list from the last on is put in from the front, before its equals. */
  ghost function InsertBefore<T>(x: T, s: seq<T>, sooner: (T, T) -> bool): seq<T> {
    if s == [] || !sooner(s[0], x) then [x] + s else [s[0]] + InsertBefore(x, s[1..], sooner)
  }

  ghost function SortBefore<T>(list: seq<T>, sooner: (T, T) -> bool): seq<T> {
    if list == [] then [] else InsertBefore(list[0], SortBefore(list[1..], sooner), sooner)
  }

  ghost predicate NoneSooner<T>(s: seq<T>, sooner: (T, T) -> bool) {
    forall i, j :: 0 <= i < j < |s| ==> !sooner(s[j], s[i])
  }

  lemma NothingSooner<T(!new)>(list: seq<T>, s: seq<T>, sooner: (T, T) -> bool)
    requires StablySorted(list, s, sooner) && Asymmetric(sooner)
    ensures NoneSooner(s, sooner)
  {
    var p :| SortedFrom(list, s, sooner, p);
    forall i, j | 0 <= i < j < |s| ensures !sooner(s[j], s[i]) {
      assert ByPlace(list, sooner)(p[i], p[j]);
    }
  }

  lemma {:induction false} InsertBehindPuts<T(!new)>(x: T, s: seq<T>, sooner: (T, T) -> bool) returns (k: nat)
    requires WeakOrder(sooner) && NoneSooner(s, sooner)
    ensures PutBehind(x, s, sooner, k, InsertBehind(x, s, sooner))
    decreases |s|
  {
    if s == [] || !sooner(x, s[|s| - 1]) {
      k := |s|;
      forall i | 0 <= i < |s| ensures !sooner(x, s[i]) { assert i < |s| - 1 ==> !sooner(s[|s| - 1], s[i]); }
      assert InsertBehind(x, s, sooner) == With(s, k, x);
    } else {
      var n := |s| - 1;
      k := InsertBehindPuts(x, s[..n], sooner);
      assert InsertBehind(x, s, sooner) == With(s, k, x);
    }
  }

  lemma {:induction false} InsertBeforePuts<T(!new)>(x: T, s: seq<T>, sooner: (T, T) -> bool) returns (k: nat)
    requires WeakOrder(sooner) && NoneSooner(s, sooner)
    ensures PutInFront(x, s, sooner, k, InsertBefore(x, s, sooner))
    decreases |s|
  {
    if s == [] || !sooner(s[0], x) {
      k := 0;
      forall i | 0 <= i < |s| ensures !sooner(s[i], x) { assert 0 < i ==> !sooner(s[i], s[0]); }
      assert InsertBefore(x, s, sooner) == With(s, k, x);
    } else {
      var n := InsertBeforePuts(x, s[1..], sooner);
      k := n + 1;
      assert InsertBefore(x, s, sooner) == With(s, k, x);
    }
  }

  lemma EmptySorted<T(!new)>(sooner: (T, T) -> bool)
    ensures StablySorted<T>([], [], sooner)
  {
    assert SortedFrom<T>([], [], sooner, []);
  }

  lemma {:induction false} SortBehindIsStable<T(!new)>(list: seq<T>, sooner: (T, T) -> bool)
    requires WeakOrder(sooner)
    ensures StablySorted(list, SortBehind(list, sooner), sooner)
    decreases |list|
  {
    hide SortedFrom, With;
    if list == [] {
      EmptySorted(sooner);
    } else {
      var n := |list| - 1;
      var s := SortBehind(list[..n], sooner);
      SortBehindIsStable(list[..n], sooner);
      NothingSooner(list[..n], s, sooner);
      var p :| SortedFrom(list[..n], s, sooner, p);
      var k := InsertBehindPuts(list[n], s, sooner);
      OneMoreSorted(list[..n], s, sooner, p, list[n], k, SortBehind(list, sooner));
      assert list == list[..n] + [list[n]];
    }
  }

  lemma {:induction false} SortBeforeIsStable<T(!new)>(list: seq<T>, sooner: (T, T) -> bool)
    requires WeakOrder(sooner)
    ensures StablySorted(list, SortBefore(list, sooner), sooner)
    decreases |list|
  {
    hide SortedFrom, With;
    if list == [] {
      EmptySorted(sooner);
    } else {
      var s := SortBefore(list[1..], sooner);
      SortBeforeIsStable(list[1..], sooner);
      NothingSooner(list[1..], s, sooner);
      var p :| SortedFrom(list[1..], s, sooner, p);
      var k := InsertBeforePuts(list[0], s, sooner);
      OneMoreInFront(list[1..], s, sooner, p, list[0], k, SortBefore(list, sooner));
      assert list == [list[0]] + list[1..];
    }
  }

  // ---------- what a stably sorted list tells

  lemma SortedMembers<T(!new)>(list: seq<T>, s: seq<T>, sooner: (T, T) -> bool)
    requires StablySorted(list, s, sooner)
    ensures |s| == |list| && forall x :: x in s <==> x in list
  {
    var p :| SortedFrom(list, s, sooner, p);
    forall k: nat | k < |list| ensures list[k] in s {
      assert k in p;
      var i :| 0 <= i < |p| && p[i] == k;
      assert s[i] == list[k];
    }
    forall i | 0 <= i < |s| ensures s[i] in list { assert p[i] in p && s[i] == list[p[i]]; }
  }

  /** The element that comes before all others, or stands in front of those not told apart from it. */
  ghost predicate Leads<T>(list: seq<T>, sooner: (T, T) -> bool, k: nat) {
    k < |list| && forall j: nat :: j < |list| && j != k ==> Before(list, sooner, k, j)
  }

  lemma FirstLeads<T(!new)>(list: seq<T>, s: seq<T>, sooner: (T, T) -> bool) returns (k: nat)
    requires StablySorted(list, s, sooner) && list != []
    ensures s != [] && Leads(list, sooner, k) && s[0] == list[k]
  {
    var p :| SortedFrom(list, s, sooner, p);
    k := p[0];
    assert p[0] in p;
    forall j: nat | j < |list| && j != k ensures Before(list, sooner, k, j) {
      assert j in p;
      var i :| 0 <= i < |p| && p[i] == j;
      assert ByPlace(list, sooner)(p[0], p[i]);
    }
  }

  lemma SameOrder<T(!new)>(list: seq<T>, s: seq<T>, a: (T, T) -> bool, b: (T, T) -> bool)
    requires StablySorted(list, s, a) && forall x, y :: a(x, y) <==> b(x, y)
    ensures StablySorted(list, s, b)
  {
    var p :| SortedFrom(list, s, a, p);
    AscendsLike(p, ByPlace(list, a), ByPlace(list, b));
    assert SortedFrom(list, s, b, p);
  }

  /** There is one stably sorted form of a list only. */
  lemma SortIsUnique<T(!new)>(list: seq<T>, a: seq<T>, b: seq<T>, sooner: (T, T) -> bool)
    requires StablySorted(list, a, sooner) && StablySorted(list, b, sooner) && Asymmetric(sooner)
    ensures a == b
  {
    var p :| SortedFrom(list, a, sooner, p);
    var q :| SortedFrom(list, b, sooner, q);
    PlacesTellApart(list, sooner);
    assert forall x: nat :: x in p <==> x in q;
    SameAscending<nat>(p, q, ByPlace(list, sooner));
  }

  lemma PlacesTellApart<T(!new)>(list: seq<T>, sooner: (T, T) -> bool)
    requires Asymmetric(sooner)
    ensures Asymmetric<nat>(ByPlace(list, sooner))
  {
  }
}
