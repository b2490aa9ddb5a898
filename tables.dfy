/**
 * The two tables of the store, `operator(id, name UNIQUE)` and
 * `performance(operator_id, ppm, record_date, record_time)`, the SQL statements the pipeline
 * runs on them, and the transaction: statements change the working tables, `commit` makes them
 * the committed ones, and a connection closed without commit leaves the committed ones as they were.
 */
module Tables {
  import opened Wrappers

  datatype Operator = Operator(id: int, name: string)
  datatype Performance = Performance(operatorId: int, ppm: string, recordDate: string, recordTime: string)

  /** `SELECT id FROM operator WHERE name = ?`. */
  function LookupId(ops: seq<Operator>, name: string): (r: Option<int>)
    ensures r.None? <==> forall i :: 0 <= i < |ops| ==> ops[i].name != name
  {
    if ops == [] then None
    else if ops[0].name == name then Some(ops[0].id)
    else LookupId(ops[1..], name)
  }

  /** Where `LookupId` found its answer: the first row with the name. */
  function LookupIndex(ops: seq<Operator>, name: string): (i: nat)
    requires LookupId(ops, name).Some?
    ensures i < |ops| && ops[i].name == name && LookupId(ops, name) == Some(ops[i].id)
    ensures forall j :: 0 <= j < i ==> ops[j].name != name
  {
    if ops[0].name == name then 0 else 1 + LookupIndex(ops[1..], name)
  }

  /** Rows appended after the first match do not change the answer. */
  lemma {:induction false} LookupIdExtend(a: seq<Operator>, b: seq<Operator>, name: string)
    requires LookupId(a, name).Some?
    ensures LookupId(a + b, name) == LookupId(a, name)
  {
    if a[0].name != name {
      assert (a + b)[1..] == a[1..] + b;
      LookupIdExtend(a[1..], b, name);
    }
  }

  /** Whether some operator has this id (the inner join of `prune_database`). */
  predicate IdKnown(ops: seq<Operator>, id: int)
  {
    exists i :: 0 <= i < |ops| && ops[i].id == id
  }

  ghost predicate NamesUnique(ops: seq<Operator>)
  {
    forall i, j :: 0 <= i < j < |ops| ==> ops[i].name != ops[j].name
  }

  ghost predicate IdsUnique(ops: seq<Operator>)
  {
    forall i, j :: 0 <= i < j < |ops| ==> ops[i].id != ops[j].id
  }

  /** The id the store gives a new operator: one more than the largest id, 1 in an empty table. */
  function NextId(ops: seq<Operator>): (r: int)
    ensures forall i :: 0 <= i < |ops| ==> ops[i].id < r
  {
    if ops == [] then 1
    else if |ops| == 1 then ops[0].id + 1
    else
      var rest := NextId(ops[1..]);
      if ops[0].id + 1 > rest then ops[0].id + 1 else rest
  }

  /** One pass of the insert loop: `INSERT INTO operator (name)` unless a row has the name. */
  function AddName(ops: seq<Operator>, name: string): (r: seq<Operator>)
    ensures |ops| <= |r| <= |ops| + 1
  {
    if LookupId(ops, name).Some? then ops else ops + [Operator(NextId(ops), name)]
  }

  /** The operator table after the insert loop has run over `names`, in order. */
  function AddNames(ops: seq<Operator>, names: seq<string>): (r: seq<Operator>)
    ensures |ops| <= |r| <= |ops| + |names|
  {
    if names == [] then ops else AddName(AddNames(ops, names[..|names| - 1]), names[|names| - 1])
  }

  /** One pass of the loop: the table grows by at most the one missing name, with a fresh id. */
  lemma AddNameStep(ops: seq<Operator>, name: string)
    ensures var r := AddName(ops, name);
      && |ops| <= |r| <= |ops| + 1 && r[..|ops|] == ops
      && LookupId(r, name).Some?
      && (|r| == |ops| + 1 ==> r[|ops|].name == name && LookupId(ops, name).None?)
    ensures NamesUnique(ops) ==> NamesUnique(AddName(ops, name))
    ensures IdsUnique(ops) ==> IdsUnique(AddName(ops, name))
  {
    if LookupId(ops, name).None? {
      var r := ops + [Operator(NextId(ops), name)];
      assert r[..|ops|] == ops;
      assert r[|ops|].name == name;
    }
  }

  /** The insert loop never inserts a name twice nor reuses an id. */
  lemma {:induction false} AddNamesUnique(ops: seq<Operator>, names: seq<string>)
    ensures NamesUnique(ops) ==> NamesUnique(AddNames(ops, names))
    ensures IdsUnique(ops) ==> IdsUnique(AddNames(ops, names))
  {
    if names != [] {
      AddNamesUnique(ops, names[..|names| - 1]);
      AddNameStep(AddNames(ops, names[..|names| - 1]), names[|names| - 1]);
    }
  }

  /** The insert loop keeps every existing operator as it was and adds only names that were missing. */
  lemma {:induction false} AddNamesKeeps(ops: seq<Operator>, names: seq<string>)
    ensures var r := AddNames(ops, names);
      && |ops| <= |r| && r[..|ops|] == ops
      && (forall i :: |ops| <= i < |r| ==> r[i].name in names && LookupId(ops, r[i].name).None?)
  {
    if names != [] {
      var init := names[..|names| - 1];
      var last := names[|names| - 1];
      AddNamesKeeps(ops, init);
      var before := AddNames(ops, init);
      var r := AddNames(ops, names);
      AddNameStep(before, last);
      assert r[..|ops|] == before[..|before|][..|ops|];
      forall i | |ops| <= i < |r|
        ensures r[i].name in names && LookupId(ops, r[i].name).None?
      {
        if i < |before| {
          assert r[i] == before[i];
          assert before[i].name in init;
        } else {
          assert r[i].name == last;
        }
      }
    }
  }

  /** After the insert loop every name of `names` has a row. */
  lemma {:induction false} AddNamesCovers(ops: seq<Operator>, names: seq<string>)
    ensures forall n :: n in names ==> LookupId(AddNames(ops, names), n).Some?
  {
    if names != [] {
      var init := names[..|names| - 1];
      var last := names[|names| - 1];
      AddNamesCovers(ops, init);
      var before := AddNames(ops, init);
      var r := AddNames(ops, names);
      AddNameStep(before, last);
      forall n | n in names
        ensures LookupId(r, n).Some?
      {
        if n != last {
          assert n in init;
          LookupIdExtend(before, r[|before|..], n);
          assert before + r[|before|..] == r;
        }
      }
    }
  }

  /** When every name is already there, the insert loop inserts nothing. */
  lemma {:induction false} AddNamesNothingNew(ops: seq<Operator>, names: seq<string>)
    requires forall n :: n in names ==> LookupId(ops, n).Some?
    ensures AddNames(ops, names) == ops
  {
    if names != [] {
      AddNamesNothingNew(ops, names[..|names| - 1]);
    }
  }

  /** Running the insert loop twice over the same names is running it once. */
  lemma AddNamesIdempotent(ops: seq<Operator>, names: seq<string>)
    ensures AddNames(AddNames(ops, names), names) == AddNames(ops, names)
  {
    AddNamesCovers(ops, names);
    AddNamesNothingNew(AddNames(ops, names), names);
  }

  /** A performance row's `(operator, record_date)` group. */
  datatype Group = Group(operatorId: int, recordDate: string)

  function GroupOf(p: Performance): Group
  {
    Group(p.operatorId, p.recordDate)
  }

  /** The rows of group `g`, in table order. */
  function GroupRows(perf: seq<Performance>, g: Group): (rows: seq<Performance>)
    ensures |rows| <= |perf|
  {
    if perf == [] then []
    else (if GroupOf(perf[0]) == g then [perf[0]] else []) + GroupRows(perf[1..], g)
  }

  /** A group's rows are the table's rows of that group. */
  lemma {:induction false} GroupRowsMembers(perf: seq<Performance>, g: Group)
    ensures forall p :: p in GroupRows(perf, g) <==> p in perf && GroupOf(p) == g
  {
    if perf != [] {
      GroupRowsMembers(perf[1..], g);
      assert forall p :: p in perf <==> p == perf[0] || p in perf[1..];
    }
  }

  /**
   * `MAX(TIME(record_time))` over `rows`, where `timeKey` stands for SQLite's `TIME()`
   * (`None` is NULL): NULLs are ignored, and the maximum of no value is NULL.
   */
  function MaxKey(rows: seq<Performance>, timeKey: string -> Option<int>): Option<int>
  {
    if rows == [] then None
    else
      var rest := MaxKey(rows[1..], timeKey);
      var k := timeKey(rows[0].recordTime);
      if k.None? || (rest.Some? && rest.value > k.value) then rest else k
  }

  /**
   * The maximum is NULL exactly when every time is NULL; otherwise it is one of the times and
   * no time exceeds it.
   */
  lemma {:induction false} MaxKeyIsMax(rows: seq<Performance>, timeKey: string -> Option<int>)
    ensures var m := MaxKey(rows, timeKey);
      && (m.None? <==> forall i :: 0 <= i < |rows| ==> timeKey(rows[i].recordTime).None?)
      && (m.Some? ==> forall i :: 0 <= i < |rows| && timeKey(rows[i].recordTime).Some? ==>
                        timeKey(rows[i].recordTime).value <= m.value)
      && (m.Some? ==> exists i :: 0 <= i < |rows| && timeKey(rows[i].recordTime) == m)
  {
    if rows != [] {
      MaxKeyIsMax(rows[1..], timeKey);
      assert forall i :: 1 <= i < |rows| ==> rows[i] == rows[1..][i - 1];
      var rest := MaxKey(rows[1..], timeKey);
      if rest.Some? && MaxKey(rows, timeKey) == rest {
        var i :| 0 <= i < |rows[1..]| && timeKey(rows[1..][i].recordTime) == rest;
        assert timeKey(rows[i + 1].recordTime) == rest;
      }
    }
  }

  /** `TIME(record_time) < m`; a comparison with NULL on either side is not true. */
  predicate Below(p: Performance, m: Option<int>, timeKey: string -> Option<int>)
  {
    m.Some? && timeKey(p.recordTime).Some? && timeKey(p.recordTime).value < m.value
  }

  /** The table after the DELETE for group `g` whose maximum is `m`. */
  function DeleteBelow(perf: seq<Performance>, g: Group, m: Option<int>, timeKey: string -> Option<int>): seq<Performance>
  {
    if perf == [] then []
    else
      (if GroupOf(perf[0]) == g && Below(perf[0], m, timeKey) then [] else [perf[0]])
      + DeleteBelow(perf[1..], g, m, timeKey)
  }

  /** The committed store and the working tables of the open transaction. */
  class Database {
    var operators: seq<Operator>
    var performance: seq<Performance>
    var committedOperators: seq<Operator>
    var committedPerformance: seq<Performance>

    /** `name` is UNIQUE and `id` is the key. */
    ghost predicate Valid()
      reads this
    {
      NamesUnique(operators) && IdsUnique(operators)
    }

    constructor (operators: seq<Operator>, performance: seq<Performance>)
      requires NamesUnique(operators) && IdsUnique(operators)
      ensures Valid()
      ensures this.operators == operators && this.performance == performance
      ensures committedOperators == operators && committedPerformance == performance
    {
      this.operators := operators;
      this.performance := performance;
      this.committedOperators := operators;
      this.committedPerformance := performance;
    }

    /** `INSERT INTO operator (name) VALUES (?)` for a name the table lacks. */
    method InsertOperator(name: string)
      requires Valid() && LookupId(operators, name).None?
      modifies this
      ensures Valid()
      ensures operators == old(operators) + [Operator(NextId(old(operators)), name)]
      ensures performance == old(performance)
      ensures committedOperators == old(committedOperators) && committedPerformance == old(committedPerformance)
    {
      operators := operators + [Operator(NextId(operators), name)];
    }

    /**
     * The loop over `ppm_df["name"].unique()`: look each name up and insert it when missing. The
     * table afterwards is `AddNames(old table, names)`; `AddNamesKeeps` and `AddNamesCovers` say
     * what that keeps and adds.
     */
    method EnsureOperators(names: seq<string>)
      requires Valid()
      modifies this
      ensures Valid()
      ensures operators == AddNames(old(operators), names)
      ensures performance == old(performance)
      ensures committedOperators == old(committedOperators) && committedPerformance == old(committedPerformance)
    {
      for i := 0 to |names|
        invariant Valid()
        invariant operators == AddNames(old(operators), names[..i])
        invariant performance == old(performance)
        invariant committedOperators == old(committedOperators) && committedPerformance == old(committedPerformance)
      {
        assert names[..i + 1][..i] == names[..i];
        if LookupId(operators, names[i]).None? {
          InsertOperator(names[i]);
        }
      }
      assert names[..|names|] == names;
    }

    /** `DataFrame.to_sql("performance", if_exists="append")`: the rows go after the existing ones. */
    method AppendPerformance(rows: seq<Performance>)
      modifies this
      ensures performance == old(performance) + rows
      ensures operators == old(operators)
      ensures committedOperators == old(committedOperators) && committedPerformance == old(committedPerformance)
    {
      performance := performance + rows;
    }

    /**
     * The `DELETE` of `prune_database` for one group: drop its rows whose time is below the
     * group's maximum time, computed on the table as it stands.
     */
    method DeleteBelowMax(g: Group, timeKey: string -> Option<int>)
      modifies this
      ensures performance == DeleteBelow(old(performance), g, MaxKey(GroupRows(old(performance), g), timeKey), timeKey)
      ensures operators == old(operators)
      ensures committedOperators == old(committedOperators) && committedPerformance == old(committedPerformance)
    {
      performance := DeleteBelow(performance, g, MaxKey(GroupRows(performance, g), timeKey), timeKey);
    }

    /** `commit()`: the working tables become the committed ones. */
    method Commit()
      modifies this
      ensures committedOperators == operators == old(operators)
      ensures committedPerformance == performance == old(performance)
    {
      committedOperators := operators;
      committedPerformance := performance;
    }
  }
}
