/** The order of the lists that a snapshot gives out: sorted, and as listed where keys are equal. */
module SnapshotOrder {
  import opened Wrappers
  import opened Snapshot
  import opened Cascade

  ghost predicate Precedes(s: seq<string>, x: string, y: string) {
    exists i, j :: 0 <= i < j < |s| && s[i] == x && s[j] == y
  }

  /** The elements of `list` stand as in `s`. */
  ghost predicate InOrderOf(list: seq<string>, s: seq<string>) {
    forall i, j :: 0 <= i < j < |list| ==> Precedes(s, list[i], list[j])
  }

  ghost predicate Ranks(key: map<string, int>, s: seq<string>, x: string, y: string) {
    KeyOf(key, x) < KeyOf(key, y) || (KeyOf(key, x) == KeyOf(key, y) && Precedes(s, x, y))
  }

  /** Sorted by key, and as in `s` where keys are equal. */
  ghost predicate Ranked(list: seq<string>, key: map<string, int>, s: seq<string>) {
    forall i, j :: 0 <= i < j < |list| ==> Ranks(key, s, list[i], list[j])
  }

  lemma {:induction false} SelectInOrder(list: seq<string>, keep: set<string>, s: seq<string>)
    requires InOrderOf(list, s)
    ensures InOrderOf(Select(list, keep), s)
  {
    hide Precedes;
    if list != [] {
      SelectInOrder(list[1..], keep, s);
      SelectMeans(list[1..], keep);
      var rest := Select(list[1..], keep);
      forall y | y in rest ensures Precedes(s, list[0], y) {
        var k :| 0 <= k < |list[1..]| && list[1..][k] == y;
        assert list[k + 1] == y;
      }
      forall i | 0 <= i < |rest| ensures Precedes(s, list[0], rest[i]) { assert rest[i] in rest; }
    }
  }

  lemma {:induction false} SelectRanked(list: seq<string>, keep: set<string>, key: map<string, int>, s: seq<string>)
    requires Ranked(list, key, s)
    ensures Ranked(Select(list, keep), key, s)
  {
    hide Ranks;
    if list != [] {
      SelectRanked(list[1..], keep, key, s);
      SelectMeans(list[1..], keep);
      var rest := Select(list[1..], keep);
      forall y | y in rest ensures Ranks(key, s, list[0], y) {
        var k :| 0 <= k < |list[1..]| && list[1..][k] == y;
        assert list[k + 1] == y;
      }
      forall i | 0 <= i < |rest| ensures Ranks(key, s, list[0], rest[i]) { assert rest[i] in rest; }
    }
  }

  lemma {:induction false} InsertRanked(x: string, list: seq<string>, key: map<string, int>, s: seq<string>)
    requires Ranked(list, key, s) && forall y :: y in list ==> Precedes(s, x, y)
    ensures Ranked(InsertByKey(x, list, key), key, s)
  {
    hide Precedes;
    if list == [] || KeyOf(key, x) <= KeyOf(key, list[0]) {
      forall i | 0 <= i < |list| ensures Ranks(key, s, x, list[i]) {
        assert list[i] in list && (0 < i ==> Ranks(key, s, list[0], list[i]));
      }
    } else {
      InsertRanked(x, list[1..], key, s);
      InsertPermutes(x, list[1..], key);
      var t := InsertByKey(x, list[1..], key);
      forall i | 0 <= i < |t| ensures Ranks(key, s, list[0], t[i]) {
        assert t[i] in t;
        if t[i] != x {
          var k :| 0 <= k < |list[1..]| && list[1..][k] == t[i];
          assert Ranks(key, s, list[0], list[k + 1]);
        }
      }
    }
  }

  /** The sort keeps the order of equal keys. */
  lemma {:induction false} SortRanks(list: seq<string>, key: map<string, int>, s: seq<string>)
    requires InOrderOf(list, s)
    ensures Ranked(SortByKey(list, key), key, s)
  {
    hide Precedes;
    if list != [] {
      SortRanks(list[1..], key, s);
      SortMeans(list[1..], key);
      forall y | y in SortByKey(list[1..], key) ensures Precedes(s, list[0], y) {
        var k :| 0 <= k < |list[1..]| && list[1..][k] == y;
        assert Precedes(s, list[0], list[k + 1]);
      }
      InsertRanked(list[0], SortByKey(list[1..], key), key, s);
    }
  }

  lemma AsListed(ids: seq<string>, keep: set<string>)
    ensures InOrderOf(Select(ids, keep), ids)
  {
    SelectInOrder(ids, keep, ids);
  }

  /** By start, and as listed where starts are equal. */
  lemma OverlappingRanked(ids: seq<string>, m: Schedule, t: Task)
    ensures Ranked(SameEquipmentOverlapping(ids, m, t), Starts(m), ids)
  {
    var keep := set i | i in m && m[i].equipment == t.equipment;
    AsListed(ids, keep);
    SortRanks(Select(ids, keep), Starts(m), ids);
    var over := set i | i in m && i != t.id && Overlaps(m[i], t);
    SelectRanked(ByEquipment(ids, m, t.equipment), over, Starts(m), ids);
  }

  lemma SuccessorTasksRanked(ids: seq<string>, m: Schedule, t: Task)
    ensures Ranked(SuccessorTasks(ids, m, t), Starts(m), ids)
  {
    var keep := set i | i in m && i != t.id && SameLine(t, m[i]) && t.end <= m[i].start;
    AsListed(ids, keep);
    SortRanks(Select(ids, keep), Starts(m), ids);
  }

  lemma SuccessorsRanked(ids: seq<string>, m: Schedule, t: Task)
    ensures Ranked(SuccessorsByOriginalOrder(ids, m, t), OriginalStarts(m), ids)
  {
    var keep := set i | i in m && i != t.id && Follows(t, m[i]);
    AsListed(ids, keep);
    SortRanks(Select(ids, keep), OriginalStarts(m), ids);
  }

  // ---------- what is loaded

  /** Row `k` is the last with its id. */
  ghost predicate LastOfId(tasks: seq<Task>, k: nat) {
    k < |tasks| && forall j :: k < j < |tasks| ==> tasks[j].id != tasks[k].id
  }

  /** Row `k` is the first with its id. */
  ghost predicate FirstOfId(tasks: seq<Task>, k: nat) {
    k < |tasks| && forall j :: 0 <= j < k ==> tasks[j].id != tasks[k].id
  }

  lemma {:induction false} LastRowIs(tasks: seq<Task>, id: string)
    ensures LastRow(tasks, id).None? <==> forall t :: t in tasks ==> t.id != id
    ensures LastRow(tasks, id).Some? ==>
              exists k: nat :: LastOfId(tasks, k) && tasks[k].id == id && LastRow(tasks, id) == Some(tasks[k])
    decreases |tasks|
  {
    if tasks != [] {
      var n := |tasks| - 1;
      assert tasks == tasks[..n] + [tasks[n]];
      if tasks[n].id == id {
        assert LastOfId(tasks, n);
      } else {
        LastRowIs(tasks[..n], id);
        if LastRow(tasks, id).Some? {
          var k: nat :| LastOfId(tasks[..n], k) && tasks[..n][k].id == id && LastRow(tasks, id) == Some(tasks[..n][k]);
          assert LastOfId(tasks, k);
        }
      }
    }
  }

  lemma {:induction false} IdsAre(tasks: seq<Task>) returns (firsts: seq<nat>)
    ensures IdsAt(tasks, IdsOf(tasks), firsts)
    decreases |tasks|
  {
    if tasks == [] {
      firsts := [];
    } else {
      var n := |tasks| - 1;
      var p := IdsAre(tasks[..n]);
      firsts := if tasks[n].id in IdsOf(tasks[..n]) then p else p + [n];
      OneIdMore(tasks[..n], IdsOf(tasks[..n]), p, tasks[n]);
      assert tasks == tasks[..n] + [tasks[n]];
    }
  }

  /** `ids` are the ids of the rows at `firsts`, which are the first rows with their ids, from the front. */
  ghost predicate IdsAt(tasks: seq<Task>, ids: seq<string>, firsts: seq<nat>) {
    && |ids| == |firsts| && (forall k: nat :: k in firsts <==> FirstOfId(tasks, k))
    && (forall i, j :: 0 <= i < j < |firsts| ==> firsts[i] < firsts[j])
    && (forall i :: 0 <= i < |firsts| ==> IdAt(tasks, ids, firsts, i))
  }

  ghost predicate IdAt(tasks: seq<Task>, ids: seq<string>, firsts: seq<nat>, i: nat) {
    i < |ids| && i < |firsts| && firsts[i] < |tasks| && ids[i] == tasks[firsts[i]].id
  }

  lemma {:induction false} FirstWith(tasks: seq<Task>, k: nat) returns (j: nat)
    requires k < |tasks|
    ensures j <= k && FirstOfId(tasks, j) && tasks[j].id == tasks[k].id
  {
    if i :| 0 <= i < k && tasks[i].id == tasks[k].id { j := FirstWith(tasks, i); } else { j := k; }
  }

  lemma OneIdMore(tasks: seq<Task>, ids: seq<string>, firsts: seq<nat>, t: Task)
    requires IdsAt(tasks, ids, firsts)
    ensures IdsAt(tasks + [t], if t.id in ids then ids else ids + [t.id],
                  if t.id in ids then firsts else firsts + [|tasks|])
  {
    var all, n := tasks + [t], |tasks|;
    forall k: nat ensures FirstOfId(all, k) <==> FirstOfId(tasks, k) || (k == n && t.id !in ids) {
      if k < n { FirstStays(tasks, t, k); }
      if k == n {
        KnownIds(tasks, ids, firsts, t.id);
        assert forall j :: 0 <= j < n ==> all[j] == tasks[j];
      }
    }
    var more: seq<nat> := if t.id in ids then firsts else firsts + [n];
    var names := if t.id in ids then ids else ids + [t.id];
    forall i | 0 <= i < |firsts| ensures firsts[i] < n { assert IdAt(tasks, ids, firsts, i); }
    forall i | 0 <= i < |more| ensures IdAt(all, names, more, i) {
      if i < |firsts| { assert IdAt(tasks, ids, firsts, i); }
    }
  }

  lemma FirstStays(tasks: seq<Task>, t: Task, k: nat)
    requires k < |tasks|
    ensures FirstOfId(tasks + [t], k) <==> FirstOfId(tasks, k)
  {
    assert forall j :: 0 <= j < |tasks| ==> (tasks + [t])[j] == tasks[j];
  }

  lemma KnownIds(tasks: seq<Task>, ids: seq<string>, firsts: seq<nat>, id: string)
    requires IdsAt(tasks, ids, firsts)
    ensures id in ids <==> exists k: nat :: k < |tasks| && tasks[k].id == id
  {
    if id in ids {
      var i :| 0 <= i < |ids| && ids[i] == id;
      assert IdAt(tasks, ids, firsts, i);
    }
    if k: nat :| k < |tasks| && tasks[k].id == id {
      var j := FirstWith(tasks, k);
      var i :| 0 <= i < |firsts| && firsts[i] == j;
      assert IdAt(tasks, ids, firsts, i);
    }
  }

  /** A snapshot holds for each id the last of its rows, and lists the ids in the order of their first. */
  lemma LoadedExactly(tasks: seq<Task>, ids: seq<string>, m: Schedule)
    requires Loaded(tasks, ids, m)
    ensures forall id :: id in m <==> exists t :: t in tasks && t.id == id
    ensures forall id :: id in m ==> exists k: nat :: LastOfId(tasks, k) && tasks[k].id == id && m[id] == tasks[k]
    ensures exists firsts :: IdsAt(tasks, ids, firsts)
  {
    hide LastRow, IdsOf, IdsAt;
    var firsts := IdsAre(tasks);
    forall id
      ensures LastRow(tasks, id).None? <==> forall t :: t in tasks ==> t.id != id
      ensures LastRow(tasks, id).Some? ==>
                exists k: nat :: LastOfId(tasks, k) && tasks[k].id == id && LastRow(tasks, id) == Some(tasks[k])
    {
      LastRowIs(tasks, id);
    }
  }

  // ---------- the first overlap

  /** A task that was moved and overlaps another on its equipment. */
  ghost predicate MovedInto(m: Schedule, x: string) {
    x in m && m[x].origin.Some? && exists y :: y in m && y != x && Clash(m[y], m[x])
  }

  lemma {:induction false} FirstIn(changed: seq<string>, ids: seq<string>, m: Schedule)
    requires WellFormed(ids, m) && InOrderOf(changed, ids) && forall x :: x in changed ==> x in m && m[x].origin.Some?
    ensures var f := FindSameEqOverlapIn(changed, ids, m);
            && (f.None? ==> forall z :: z in changed ==> !MovedInto(m, z))
            && (f.Some? ==>
                  && MovedInto(m, f.value) && f.value in changed
                  && forall z :: z in changed && MovedInto(m, z) ==> z == f.value || Precedes(ids, f.value, z))
  {
    if changed != [] {
      hide Precedes, Clash;
      var x, rest := changed[0], changed[1..];
      assert changed == [x] + rest;
      forall i, j | 0 <= i < j < |rest| ensures Precedes(ids, rest[i], rest[j]) {
        assert Precedes(ids, changed[i + 1], changed[j + 1]);
      }
      FirstIn(rest, ids, m);
      OverlappingMeans(ids, m, m[x]);
      var list := SameEquipmentOverlapping(ids, m, m[x]);
      assert list != [] ==> list[0] in list;
      forall z | z in rest ensures Precedes(ids, x, z) {
        var k :| 0 <= k < |rest| && rest[k] == z;
        assert Precedes(ids, changed[0], changed[k + 1]);
      }
    }
  }

  /** The check for overlaps finds the first listed task that was moved and overlaps another. */
  lemma FindsFirst(ids: seq<string>, m: Schedule)
    requires WellFormed(ids, m)
    ensures var f := FindSameEqOverlap(ids, m);
            && (f.None? <==> forall z :: !MovedInto(m, z))
            && (f.Some? ==> MovedInto(m, f.value)
                            && forall z :: MovedInto(m, z) ==> z == f.value || Precedes(ids, f.value, z))
  {
    hide Precedes, Clash;
    var moved := set i | i in m && m[i].origin.Some?;
    SelectMeans(ids, moved);
    AsListed(ids, moved);
    FirstIn(ChangedTasks(ids, m), ids, m);
    assert forall z :: MovedInto(m, z) ==> z in ChangedTasks(ids, m);
  }
}
