/**
 * `prune_database` (rail_rank/db.py): find the `(operator, record_date)` groups with more than
 * one performance row, delete in each the rows whose time is below the group's latest time,
 * check again, and commit only when no group has more than one row left.
 */
module Prune {
  import opened Wrappers
  import opened Tables

  /** The inner join with `operator` keeps a row only when some operator has its id. */
  predicate Joined(ops: seq<Operator>, g: Group)
  {
    IdKnown(ops, g.operatorId)
  }

  function Count(perf: seq<Performance>, g: Group): nat
  {
    |GroupRows(perf, g)|
  }

  /** The groups of the rows in `s` that are joined and have more than one row in `all`, once each. */
  function DuplicateScan(ops: seq<Operator>, s: seq<Performance>, all: seq<Performance>): (gs: seq<Group>)
    ensures forall g :: g in gs <==> (exists i :: 0 <= i < |s| && GroupOf(s[i]) == g) && Joined(ops, g) && Count(all, g) > 1
    ensures forall i, j :: 0 <= i < j < |gs| ==> gs[i] != gs[j]
    ensures gs == [] <==> forall i :: 0 <= i < |s| ==> !(Joined(ops, GroupOf(s[i])) && Count(all, GroupOf(s[i])) > 1)
  {
    if s == [] then []
    else
      var rest := DuplicateScan(ops, s[1..], all);
      var g := GroupOf(s[0]);
      assert forall i :: 1 <= i < |s| ==> s[i] == s[1..][i - 1];
      if Joined(ops, g) && Count(all, g) > 1 && g !in rest then [g] + rest else rest
  }

  /**
   * The query `GROUP BY name, record_date HAVING count > 1` over the joined tables. With
   * operator names and ids unique, grouping by name is grouping by operator id.
   */
  function DuplicateGroups(ops: seq<Operator>, perf: seq<Performance>): (gs: seq<Group>)
    ensures forall i, j :: 0 <= i < j < |gs| ==> gs[i] != gs[j]
  {
    DuplicateScan(ops, perf, perf)
  }

  /** The query returns exactly the joined groups with more than one row. */
  lemma DuplicateGroupsMembers(ops: seq<Operator>, perf: seq<Performance>)
    ensures forall g :: g in DuplicateGroups(ops, perf) <==> Joined(ops, g) && Count(perf, g) > 1
  {
    forall g | Count(perf, g) > 1
      ensures exists i :: 0 <= i < |perf| && GroupOf(perf[i]) == g
    {
      GroupRowsMembers(perf, g);
      assert GroupRows(perf, g)[0] in GroupRows(perf, g);
    }
  }

  /** The query returns no row exactly when no joined group has more than one row. */
  lemma NoDuplicates(ops: seq<Operator>, perf: seq<Performance>)
    ensures DuplicateGroups(ops, perf) == [] <==> forall g :: Joined(ops, g) ==> Count(perf, g) <= 1
  {
    forall g | Count(perf, g) > 1
      ensures exists i :: 0 <= i < |perf| && GroupOf(perf[i]) == g
    {
      GroupRowsMembers(perf, g);
      assert GroupRows(perf, g)[0] in GroupRows(perf, g);
    }
  }

  /** A group's rows that no DELETE removes: those whose time is not below `m`. */
  function NotBelow(rows: seq<Performance>, m: Option<int>, timeKey: string -> Option<int>): (out: seq<Performance>)
    ensures |out| <= |rows|
  {
    if rows == [] then []
    else (if Below(rows[0], m, timeKey) then [] else [rows[0]]) + NotBelow(rows[1..], m, timeKey)
  }

  /** What the DELETE leaves of one group: its rows at the latest time and its rows with a NULL time. */
  function Latest(rows: seq<Performance>, timeKey: string -> Option<int>): seq<Performance>
  {
    NotBelow(rows, MaxKey(rows, timeKey), timeKey)
  }

  /** Row `p` is removed by the DELETEs for the groups in `done`, each maximum taken in `orig`. */
  predicate Doomed(p: Performance, orig: seq<Performance>, done: seq<Group>, timeKey: string -> Option<int>)
  {
    GroupOf(p) in done && Below(p, MaxKey(GroupRows(orig, GroupOf(p)), timeKey), timeKey)
  }

  /** The rows of `s` that survive the DELETEs for the groups in `done`. */
  function Survivors(s: seq<Performance>, orig: seq<Performance>, done: seq<Group>, timeKey: string -> Option<int>): (out: seq<Performance>)
    ensures |out| <= |s|
  {
    if s == [] then []
    else (if Doomed(s[0], orig, done, timeKey) then [] else [s[0]]) + Survivors(s[1..], orig, done, timeKey)
  }

  /** The DELETEs only remove rows: every survivor is a row of `s`, at most as often. */
  lemma {:induction false} SurvivorsSubMultiset(s: seq<Performance>, orig: seq<Performance>, done: seq<Group>, timeKey: string -> Option<int>)
    ensures multiset(Survivors(s, orig, done, timeKey)) <= multiset(s)
  {
    if s != [] {
      var rest := Survivors(s[1..], orig, done, timeKey);
      SurvivorsSubMultiset(s[1..], orig, done, timeKey);
      assert s == [s[0]] + s[1..];
      assert multiset(s) == multiset{s[0]} + multiset(s[1..]);
    }
  }

  /** The performance table after the deletion loop. */
  function Pruned(ops: seq<Operator>, perf: seq<Performance>, timeKey: string -> Option<int>): (r: seq<Performance>)
    ensures |r| <= |perf|
  {
    Survivors(perf, perf, DuplicateGroups(ops, perf), timeKey)
  }

  /** Pruning only deletes: every row left is a row of the table, at most as often as before. */
  lemma PrunedOnlyDeletes(ops: seq<Operator>, perf: seq<Performance>, timeKey: string -> Option<int>)
    ensures multiset(Pruned(ops, perf, timeKey)) <= multiset(perf)
  {
    SurvivorsSubMultiset(perf, perf, DuplicateGroups(ops, perf), timeKey);
  }

  lemma {:induction false} DeleteBelowAppend(a: seq<Performance>, b: seq<Performance>, g: Group, m: Option<int>, timeKey: string -> Option<int>)
    ensures DeleteBelow(a + b, g, m, timeKey) == DeleteBelow(a, g, m, timeKey) + DeleteBelow(b, g, m, timeKey)
  {
    if a == [] {
      assert a + b == b;
    } else {
      var head := if GroupOf(a[0]) == g && Below(a[0], m, timeKey) then [] else [a[0]];
      assert (a + b)[0] == a[0] && (a + b)[1..] == a[1..] + b;
      DeleteBelowAppend(a[1..], b, g, m, timeKey);
      assert DeleteBelow(a + b, g, m, timeKey) == head + DeleteBelow(a[1..] + b, g, m, timeKey);
    }
  }

  /** Deleting for one more group `g` extends the surviving set computed so far. */
  lemma {:induction false} DeleteStep(s: seq<Performance>, orig: seq<Performance>, done: seq<Group>, g: Group, timeKey: string -> Option<int>)
    ensures DeleteBelow(Survivors(s, orig, done, timeKey), g, MaxKey(GroupRows(orig, g), timeKey), timeKey)
         == Survivors(s, orig, done + [g], timeKey)
  {
    if s != [] {
      var x := s[0];
      var m := MaxKey(GroupRows(orig, g), timeKey);
      var head := if Doomed(x, orig, done, timeKey) then [] else [x];
      DeleteStep(s[1..], orig, done, g, timeKey);
      DeleteBelowAppend(head, Survivors(s[1..], orig, done, timeKey), g, m, timeKey);
      assert Doomed(x, orig, done + [g], timeKey) <==> Doomed(x, orig, done, timeKey) || (GroupOf(x) == g && Below(x, m, timeKey));
      assert DeleteBelow(head, g, m, timeKey) == if Doomed(x, orig, done + [g], timeKey) then [] else [x];
    }
  }

  /** A group's rows after the DELETEs for `done`: `Latest` of its rows if done, else all of them. */
  lemma {:induction false} SurvivorsOfGroup(s: seq<Performance>, orig: seq<Performance>, done: seq<Group>, g: Group, timeKey: string -> Option<int>)
    ensures GroupRows(Survivors(s, orig, done, timeKey), g)
         == if g in done then NotBelow(GroupRows(s, g), MaxKey(GroupRows(orig, g), timeKey), timeKey) else GroupRows(s, g)
  {
    if s != [] {
      var x := s[0];
      var head := if Doomed(x, orig, done, timeKey) then [] else [x];
      var rest := Survivors(s[1..], orig, done, timeKey);
      SurvivorsOfGroup(s[1..], orig, done, g, timeKey);
      GroupRowsAppend(head, rest, g);
      var m := MaxKey(GroupRows(orig, g), timeKey);
      var ghead := if GroupOf(x) == g then [x] else [];
      NotBelowAppend(ghead, GroupRows(s[1..], g), m, timeKey);
      assert GroupRows(s, g) == ghead + GroupRows(s[1..], g);
    }
  }

  lemma {:induction false} GroupRowsAppend(a: seq<Performance>, b: seq<Performance>, g: Group)
    ensures GroupRows(a + b, g) == GroupRows(a, g) + GroupRows(b, g)
  {
    if a == [] {
      assert a + b == b;
    } else {
      assert (a + b)[1..] == a[1..] + b;
      GroupRowsAppend(a[1..], b, g);
    }
  }

  lemma {:induction false} NotBelowAppend(a: seq<Performance>, b: seq<Performance>, m: Option<int>, timeKey: string -> Option<int>)
    ensures NotBelow(a + b, m, timeKey) == NotBelow(a, m, timeKey) + NotBelow(b, m, timeKey)
  {
    if a == [] {
      assert a + b == b;
    } else {
      var head := if Below(a[0], m, timeKey) then [] else [a[0]];
      assert (a + b)[0] == a[0] && (a + b)[1..] == a[1..] + b;
      NotBelowAppend(a[1..], b, m, timeKey);
      assert NotBelow(a + b, m, timeKey) == head + NotBelow(a[1..] + b, m, timeKey);
    }
  }

  /** No DELETE at all leaves the table as it is. */
  lemma {:induction false} SurvivorsOfNothing(s: seq<Performance>, orig: seq<Performance>, timeKey: string -> Option<int>)
    ensures Survivors(s, orig, [], timeKey) == s
  {
    if s != [] {
      SurvivorsOfNothing(s[1..], orig, timeKey);
    }
  }

  /**
   * What pruning does to one group: a duplicated group keeps exactly its rows at the latest
   * time (and those with a NULL time); every other group, and so every row of it, is untouched.
   */
  lemma PrunedGroup(ops: seq<Operator>, perf: seq<Performance>, timeKey: string -> Option<int>, g: Group)
    ensures GroupRows(Pruned(ops, perf, timeKey), g)
         == if Joined(ops, g) && Count(perf, g) > 1 then Latest(GroupRows(perf, g), timeKey) else GroupRows(perf, g)
  {
    SurvivorsOfGroup(perf, perf, DuplicateGroups(ops, perf), g, timeKey);
    DuplicateGroupsMembers(ops, perf);
  }

  /** The rows `Latest` keeps are exactly the group's rows at its maximum time or with a NULL time. */
  lemma {:induction false} NotBelowMembers(rows: seq<Performance>, m: Option<int>, timeKey: string -> Option<int>)
    ensures forall p :: p in NotBelow(rows, m, timeKey) <==> p in rows && !Below(p, m, timeKey)
  {
    if rows != [] {
      NotBelowMembers(rows[1..], m, timeKey);
      assert forall p :: p in rows <==> p == rows[0] || p in rows[1..];
    }
  }

  lemma LatestMembers(rows: seq<Performance>, timeKey: string -> Option<int>)
    ensures forall p :: p in Latest(rows, timeKey) <==>
              p in rows && (timeKey(p.recordTime).None? || timeKey(p.recordTime) == MaxKey(rows, timeKey))
  {
    NotBelowMembers(rows, MaxKey(rows, timeKey), timeKey);
    MaxKeyIsMax(rows, timeKey);
    var m := MaxKey(rows, timeKey);
    forall p | p in rows && m.Some? && timeKey(p.recordTime).Some?
      ensures timeKey(p.recordTime).value <= m.value
    {
      var i :| 0 <= i < |rows| && rows[i] == p;
    }
  }

  /**
   * The re-check after the deletion loop finds no duplicate exactly when every duplicated group
   * kept at most one row.
   */
  lemma PruneRecheck(ops: seq<Operator>, perf: seq<Performance>, timeKey: string -> Option<int>)
    ensures DuplicateGroups(ops, Pruned(ops, perf, timeKey)) == [] <==>
              forall g :: g in DuplicateGroups(ops, perf) ==> |Latest(GroupRows(perf, g), timeKey)| <= 1
  {
    var after := Pruned(ops, perf, timeKey);
    NoDuplicates(ops, after);
    DuplicateGroupsMembers(ops, perf);
    if DuplicateGroups(ops, after) == [] {
      forall g | g in DuplicateGroups(ops, perf)
        ensures |Latest(GroupRows(perf, g), timeKey)| <= 1
      {
        PrunedGroup(ops, perf, timeKey, g);
      }
    }
    if forall g :: g in DuplicateGroups(ops, perf) ==> |Latest(GroupRows(perf, g), timeKey)| <= 1 {
      forall g | Joined(ops, g)
        ensures Count(after, g) <= 1
      {
        PrunedGroup(ops, perf, timeKey, g);
      }
    }
  }

  /** A group whose rows all have a time and whose latest time is held by one row keeps that row alone. */
  lemma {:induction false} LatestUnique(rows: seq<Performance>, w: nat, timeKey: string -> Option<int>)
    requires w < |rows| && timeKey(rows[w].recordTime).Some?
    requires forall j :: 0 <= j < |rows| && j != w ==>
               timeKey(rows[j].recordTime).Some? && timeKey(rows[j].recordTime).value < timeKey(rows[w].recordTime).value
    ensures Latest(rows, timeKey) == [rows[w]]
  {
    var m := MaxKey(rows, timeKey);
    MaxKeyIsMax(rows, timeKey);
    assert m == timeKey(rows[w].recordTime);
    NotBelowSingle(rows, w, m, timeKey);
  }

  lemma {:induction false} NotBelowSingle(rows: seq<Performance>, w: nat, m: Option<int>, timeKey: string -> Option<int>)
    requires w < |rows| && !Below(rows[w], m, timeKey)
    requires forall j :: 0 <= j < |rows| && j != w ==> Below(rows[j], m, timeKey)
    ensures NotBelow(rows, m, timeKey) == [rows[w]]
  {
    if w == 0 {
      NotBelowNone(rows[1..], m, timeKey);
    } else {
      assert Below(rows[0], m, timeKey);
      NotBelowSingle(rows[1..], w - 1, m, timeKey);
    }
  }

  lemma {:induction false} NotBelowNone(rows: seq<Performance>, m: Option<int>, timeKey: string -> Option<int>)
    requires forall j :: 0 <= j < |rows| ==> Below(rows[j], m, timeKey)
    ensures NotBelow(rows, m, timeKey) == []
  {
    if rows != [] {
      assert Below(rows[0], m, timeKey);
      NotBelowNone(rows[1..], m, timeKey);
    }
  }

  /** Two rows of a group at its latest time, or with a NULL time, both survive the DELETE. */
  lemma {:induction false} LatestTie(rows: seq<Performance>, i: nat, j: nat, timeKey: string -> Option<int>)
    requires i < j < |rows|
    requires !Below(rows[i], MaxKey(rows, timeKey), timeKey) && !Below(rows[j], MaxKey(rows, timeKey), timeKey)
    ensures |Latest(rows, timeKey)| >= 2
  {
    NotBelowKeeps(rows, i, j, MaxKey(rows, timeKey), timeKey);
  }

  lemma {:induction false} NotBelowKeeps(rows: seq<Performance>, i: nat, j: nat, m: Option<int>, timeKey: string -> Option<int>)
    requires i < j < |rows| && !Below(rows[i], m, timeKey) && !Below(rows[j], m, timeKey)
    ensures |NotBelow(rows, m, timeKey)| >= 2
  {
    if i == 0 {
      NotBelowKeepsOne(rows[1..], j - 1, m, timeKey);
    } else {
      NotBelowKeeps(rows[1..], i - 1, j - 1, m, timeKey);
    }
  }

  lemma {:induction false} NotBelowKeepsOne(rows: seq<Performance>, j: nat, m: Option<int>, timeKey: string -> Option<int>)
    requires j < |rows| && !Below(rows[j], m, timeKey)
    ensures |NotBelow(rows, m, timeKey)| >= 1
  {
    if j > 0 {
      NotBelowKeepsOne(rows[1..], j - 1, m, timeKey);
    }
  }

  /** Pruning a table that has no duplicated group deletes nothing, so pruning twice is pruning once. */
  lemma PruneIdempotent(ops: seq<Operator>, perf: seq<Performance>, timeKey: string -> Option<int>)
    requires DuplicateGroups(ops, perf) == []
    ensures Pruned(ops, perf, timeKey) == perf
  {
    SurvivorsOfNothing(perf, perf, timeKey);
  }

  /** One pass of the deletion loop over distinct groups, with the maximum taken on the current table. */
  lemma PruneStep(orig: seq<Performance>, groups: seq<Group>, i: nat, timeKey: string -> Option<int>)
    requires i < |groups| && forall a, b :: 0 <= a < b < |groups| ==> groups[a] != groups[b]
    ensures var now := Survivors(orig, orig, groups[..i], timeKey);
      DeleteBelow(now, groups[i], MaxKey(GroupRows(now, groups[i]), timeKey), timeKey)
        == Survivors(orig, orig, groups[..i + 1], timeKey)
  {
    var g := groups[i];
    assert g !in groups[..i];
    SurvivorsOfGroup(orig, orig, groups[..i], g, timeKey);
    DeleteStep(orig, orig, groups[..i], g, timeKey);
    assert groups[..i + 1] == groups[..i] + [g];
  }

  /**
   * Two rows for one operator and day at the same time: both survive the DELETE, whatever
   * `TIME()` makes of the time, so the re-check still finds the group and pruning fails.
   */
  lemma TiedRowsSurvive(timeKey: string -> Option<int>)
    ensures var ops := [Operator(1, "OperatorX")];
      var perf := [Performance(1, "80", "2024-02-02", "07:00:00"), Performance(1, "81", "2024-02-02", "07:00:00")];
      Pruned(ops, perf, timeKey) == perf && DuplicateGroups(ops, Pruned(ops, perf, timeKey)) != []
  {
    var ops := [Operator(1, "OperatorX")];
    var perf := [Performance(1, "80", "2024-02-02", "07:00:00"), Performance(1, "81", "2024-02-02", "07:00:00")];
    var g := Group(1, "2024-02-02");
    assert Joined(ops, g) by { assert ops[0].id == 1; }
    assert GroupRows(perf, g) == perf;
    assert Count(perf, g) > 1;
    DuplicateGroupsMembers(ops, perf);
    assert DuplicateGroups(ops, perf) == [g];
    MaxKeyIsMax(perf, timeKey);
    assert Survivors(perf[1..], perf, [g], timeKey) == [perf[1]];
    assert Pruned(ops, perf, timeKey) == perf;
  }

  /** The same two rows an hour apart: the earlier one is deleted and pruning succeeds. */
  lemma LaterRowKept(timeKey: string -> Option<int>)
    requires timeKey("07:00:00").Some? && timeKey("08:00:00").Some?
    requires timeKey("07:00:00").value < timeKey("08:00:00").value
    ensures var ops := [Operator(1, "OperatorX")];
      var perf := [Performance(1, "80", "2024-02-02", "07:00:00"), Performance(1, "81", "2024-02-02", "08:00:00")];
      Pruned(ops, perf, timeKey) == [perf[1]] && DuplicateGroups(ops, Pruned(ops, perf, timeKey)) == []
  {
    var ops := [Operator(1, "OperatorX")];
    var perf := [Performance(1, "80", "2024-02-02", "07:00:00"), Performance(1, "81", "2024-02-02", "08:00:00")];
    var g := Group(1, "2024-02-02");
    assert Joined(ops, g) by { assert ops[0].id == 1; }
    assert GroupRows(perf, g) == perf;
    DuplicateGroupsMembers(ops, perf);
    assert DuplicateGroups(ops, perf) == [g];
    assert Pruned(ops, perf, timeKey) == [perf[1]];
    NoDuplicates(ops, [perf[1]]);
  }

  datatype PruneError = DuplicatesRemain

  /**
   * `prune_database`. Without duplicated groups it returns at once. Otherwise it runs the
   * DELETE for every duplicated group and checks again: the outcome is an error, with nothing
   * committed, exactly when some group still has more than one row; on success it commits.
   */
  method PruneDatabase(db: Database, timeKey: string -> Option<int>) returns (r: Result<(), PruneError>)
    requires db.Valid()
    modifies db
    ensures db.Valid() && db.operators == old(db.operators)
    ensures DuplicateGroups(old(db.operators), old(db.performance)) == [] ==>
              r.Ok? && db.performance == old(db.performance)
              && db.committedOperators == old(db.committedOperators) && db.committedPerformance == old(db.committedPerformance)
    ensures db.performance == Pruned(old(db.operators), old(db.performance), timeKey)
    ensures r.Ok? <==> DuplicateGroups(db.operators, db.performance) == []
    ensures r.Ok? && DuplicateGroups(old(db.operators), old(db.performance)) != [] ==>
              db.committedOperators == db.operators && db.committedPerformance == db.performance
    ensures r.Err? ==> db.committedOperators == old(db.committedOperators) && db.committedPerformance == old(db.committedPerformance)
  {
    var groups := DuplicateGroups(db.operators, db.performance);
    if groups == [] {
      PruneIdempotent(db.operators, db.performance, timeKey);
      return Ok(());
    }
    ghost var orig := db.performance;
    SurvivorsOfNothing(orig, orig, timeKey);
    for i := 0 to |groups|
      invariant db.Valid() && db.operators == old(db.operators)
      invariant db.committedOperators == old(db.committedOperators) && db.committedPerformance == old(db.committedPerformance)
      invariant db.performance == Survivors(orig, orig, groups[..i], timeKey)
    {
      PruneStep(orig, groups, i, timeKey);
      db.DeleteBelowMax(groups[i], timeKey);
    }
    assert groups[..|groups|] == groups;
    if DuplicateGroups(db.operators, db.performance) != [] {
      return Err(DuplicatesRemain);
    }
    db.Commit();
    r := Ok(());
  }
}
