/** The abstract database the plugin talks to, the trace of what it asks of
    the database and the dump file, and the memory guard. */
module Store {
  import opened Wrappers
  import opened Text
  import opened Rows
  import Codec

  /** The database: the names `SHOW TABLES` lists, in its order, and the rows
      of every table in store order. A table missing from `tables` is empty. */
  datatype Db = Db(listing: seq<string>, tables: map<string, seq<Row>>)

  function RowsOf(db: Db, table: string): seq<Row> {
    if table in db.tables then db.tables[table] else []
  }

  /** `DELETE FROM table WHERE cond`. */
  function DeleteWhere(db: Db, table: string, c: Cond): (r: Db)
    ensures r.listing == db.listing
    ensures RowsOf(r, table) == Reject(RowsOf(db, table), c)
    ensures forall u :: u != table ==> RowsOf(r, u) == RowsOf(db, u)
  {
    db.(tables := db.tables[table := Reject(RowsOf(db, table), c)])
  }

  /** `LIMIT offset, count` with no ORDER BY: up to `count` rows from
      position `offset`, in store order. The window is the leading part of
      the rows from the offset on; it holds `count` rows unless it reaches
      the end, and it is empty past the end. */
  function Window(rows: seq<Row>, offset: nat, count: nat): (r: seq<Row>)
    ensures |r| <= count
    ensures offset <= |rows| ==> offset + |r| <= |rows| && r == rows[offset..offset + |r|]
    ensures |r| < count ==> offset + |r| >= |rows|
    ensures offset >= |rows| ==> r == []
  {
    if offset >= |rows| then []
    else if offset + count <= |rows| then rows[offset..offset + count]
    else rows[offset..]
  }

  /** A full window is followed by the rest of the rows. */
  lemma WindowSplit(rows: seq<Row>, offset: nat, count: nat)
    requires offset <= |rows|
    requires |Window(rows, offset, count)| >= count
    ensures offset + count <= |rows|
    ensures rows[offset..] == Window(rows, offset, count) + rows[offset + count..]
  {
  }

  /** A short window is everything from the offset on. */
  lemma WindowShort(rows: seq<Row>, offset: nat, count: nat)
    requires offset <= |rows|
    requires |Window(rows, offset, count)| < count
    ensures rows[offset..] == Window(rows, offset, count)
    ensures |rows| < offset + count
  {
  }

  /** Which rows a fetch asks for. */
  datatype Span = All | Range(offset: nat, count: nat)

  /** What the plugin asks of the database and the dump file, in order. */
  datatype Event =
    | Fetch(table: string, cond: Cond, span: Span)
    | Dump(table: string, rows: seq<Row>)
    | Delete(table: string, cond: Cond)

  /** The row batches dumped for `table`, in order. */
  function Batches(log: seq<Event>, table: string): seq<seq<Row>>
    decreases |log|
  {
    if |log| == 0 then []
    else (if log[0].Dump? && log[0].table == table then [log[0].rows] else []) + Batches(log[1..], table)
  }

  /** Every row dumped for `table`, in dump order. */
  function Dumped(log: seq<Event>, table: string): seq<Row> {
    Flatten(Batches(log, table))
  }

  /** The spans of the fetches, in order. */
  function Fetches(log: seq<Event>): seq<Span>
    decreases |log|
  {
    if |log| == 0 then []
    else (if log[0].Fetch? then [log[0].span] else []) + Fetches(log[1..])
  }

  /** The deletes issued, as (table, condition) pairs, in order. */
  function Deletes(log: seq<Event>): seq<(string, Cond)>
    decreases |log|
  {
    if |log| == 0 then []
    else (if log[0].Delete? then [(log[0].table, log[0].cond)] else []) + Deletes(log[1..])
  }

  /** The lines the dump file receives: one INSERT statement per dumped row.
      Every line is a data statement. */
  function Output(log: seq<Event>): (r: seq<string>)
    ensures forall k :: 0 <= k < |r| ==> StartsWith(r[k], "INSERT INTO ")
  {
    LinesInserts(log);
    FlatMap(log, Lines)
  }

  /** What one event writes to the file. */
  function Lines(e: Event): seq<string> {
    if e.Dump? then Codec.Dump(e.table, e.rows) else []
  }

  lemma {:induction false} FlattenAppend<T>(a: seq<seq<T>>, b: seq<seq<T>>)
    ensures Flatten(a + b) == Flatten(a) + Flatten(b)
    decreases |a|
  {
    if |a| == 0 {
      assert a + b == b;
    } else {
      FlattenAppend(a[1..], b);
      assert (a + b)[1..] == a[1..] + b;
      assert (a + b)[0] == a[0];
      var h := a[0];
      assert Flatten(a + b) == h + Flatten(a[1..] + b);
      assert Flatten(a) == h + Flatten(a[1..]);
    }
  }

  lemma {:induction false} BatchesAppend(a: seq<Event>, b: seq<Event>, t: string)
    ensures Batches(a + b, t) == Batches(a, t) + Batches(b, t)
    decreases |a|
  {
    if |a| == 0 {
      assert a + b == b;
    } else {
      BatchesAppend(a[1..], b, t);
      assert (a + b)[1..] == a[1..] + b;
      assert (a + b)[0] == a[0];
      var h := if a[0].Dump? && a[0].table == t then [a[0].rows] else [];
      assert Batches(a + b, t) == h + Batches(a[1..] + b, t);
      assert Batches(a, t) == h + Batches(a[1..], t);
    }
  }

  lemma {:induction false} FetchesAppend(a: seq<Event>, b: seq<Event>)
    ensures Fetches(a + b) == Fetches(a) + Fetches(b)
    decreases |a|
  {
    if |a| == 0 {
      assert a + b == b;
    } else {
      FetchesAppend(a[1..], b);
      assert (a + b)[1..] == a[1..] + b;
      assert (a + b)[0] == a[0];
      var h := if a[0].Fetch? then [a[0].span] else [];
      assert Fetches(a + b) == h + Fetches(a[1..] + b);
      assert Fetches(a) == h + Fetches(a[1..]);
    }
  }

  lemma {:induction false} DeletesAppend(a: seq<Event>, b: seq<Event>)
    ensures Deletes(a + b) == Deletes(a) + Deletes(b)
    decreases |a|
  {
    if |a| == 0 {
      assert a + b == b;
    } else {
      DeletesAppend(a[1..], b);
      assert (a + b)[1..] == a[1..] + b;
      assert (a + b)[0] == a[0];
      var h := if a[0].Delete? then [(a[0].table, a[0].cond)] else [];
      assert Deletes(a + b) == h + Deletes(a[1..] + b);
      assert Deletes(a) == h + Deletes(a[1..]);
    }
  }

  lemma OutputAppend(a: seq<Event>, b: seq<Event>)
    ensures Output(a + b) == Output(a) + Output(b)
  {
    FlatMapAppend(a, b, Lines);
  }

  /** Fetches and deletes write nothing. */
  lemma {:induction false} OutputQuiet(log: seq<Event>)
    requires forall i :: 0 <= i < |log| ==> !log[i].Dump?
    ensures Output(log) == []
    decreases |log|
  {
    if |log| > 0 {
      OutputHead(log);
      assert forall i :: 0 <= i < |log[1..]| ==> !log[1..][i].Dump?;
      OutputQuiet(log[1..]);
    }
  }

  /** Every line the events write is an INSERT statement. */
  lemma {:induction false} LinesInserts(log: seq<Event>)
    ensures forall k :: 0 <= k < |FlatMap(log, Lines)| ==> StartsWith(FlatMap(log, Lines)[k], "INSERT INTO ")
    decreases |log|
  {
    if |log| > 0 {
      LinesInserts(log[1..]);
      var lines, more := Lines(log[0]), FlatMap(log[1..], Lines);
      assert FlatMap(log, Lines) == lines + more;
      forall k | 0 <= k < |lines + more|
        ensures StartsWith((lines + more)[k], "INSERT INTO ")
      {
        if k >= |lines| {
          assert (lines + more)[k] == more[k - |lines|];
        }
      }
    }
  }

  /** One step of `Output`: the first event's lines, then the rest. */
  lemma OutputHead(log: seq<Event>)
    requires |log| > 0
    ensures Output(log) == Lines(log[0]) + Output(log[1..])
  {
  }

  /** Every projection of a trace distributes over concatenation. */
  lemma ProjectAppend(a: seq<Event>, b: seq<Event>)
    ensures forall t :: Batches(a + b, t) == Batches(a, t) + Batches(b, t)
    ensures forall t :: Dumped(a + b, t) == Dumped(a, t) + Dumped(b, t)
    ensures Fetches(a + b) == Fetches(a) + Fetches(b)
    ensures Deletes(a + b) == Deletes(a) + Deletes(b)
    ensures Output(a + b) == Output(a) + Output(b)
  {
    forall t
      ensures Batches(a + b, t) == Batches(a, t) + Batches(b, t)
      ensures Dumped(a + b, t) == Dumped(a, t) + Dumped(b, t)
    {
      BatchesAppend(a, b, t);
      FlattenAppend(Batches(a, t), Batches(b, t));
    }
    FetchesAppend(a, b);
    DeletesAppend(a, b);
    OutputAppend(a, b);
  }

  /** The output file is exactly the dumped batches rendered in order. */
  lemma {:induction false} OutputOfBatch(table: string, rows: seq<Row>)
    ensures Output([Dump(table, rows)]) == Codec.Dump(table, rows)
    ensures Batches([Dump(table, rows)], table) == [rows]
    ensures Dumped([Dump(table, rows)], table) == rows
  {
    assert [Dump(table, rows)][1..] == [];
    assert Flatten([rows]) == rows + [];
    OutputHead([Dump(table, rows)]);
    assert Output([]) == [];
  }

  /** The memory guard: how many more checks pass before one aborts the run. */
  datatype Guard = Unlimited | Remaining(checks: nat)

  /** One check of the guard: the guard left afterwards, or None to abort. */
  function Check(g: Guard): (r: Option<Guard>)
    ensures g.Unlimited? ==> r == Some(Unlimited)
    ensures g.Remaining? ==> (r.Some? <==> g.checks > 0)
    ensures g.Remaining? && r.Some? ==> r.value == Remaining(g.checks - 1)
  {
    match g
    case Unlimited => Some(Unlimited)
    case Remaining(n) => if n == 0 then None else Some(Remaining(n - 1))
  }

  /** `k` checks in a row: the guard left after all of them, or None when
      one of them aborts. */
  function Checks(g: Guard, k: nat): Option<Guard>
    decreases k
  {
    if k == 0 then Some(g)
    else match Check(g)
      case None => None
      case Some(h) => Checks(h, k - 1)
  }

  /** Without a memory limit every run of checks passes. With one, `k`
      checks in a row pass exactly when `k` is at most the checks remaining,
      and use up `k` of them. */
  lemma {:induction false} ChecksPass(g: Guard, k: nat)
    ensures g.Unlimited? ==> Checks(g, k) == Some(Unlimited)
    ensures g.Remaining? ==> (Checks(g, k).Some? <==> k <= g.checks)
    ensures g.Remaining? && k <= g.checks ==> Checks(g, k) == Some(Remaining(g.checks - k))
    decreases k
  {
    if k > 0 {
      match Check(g)
      case None =>
      case Some(h) =>
        ChecksPass(h, k - 1);
    }
  }

  /** Where a run stands: the database, the trace so far, the guard. */
  datatype State = State(db: Db, log: seq<Event>, guard: Guard)

  /** How a run ends: normally with a count, or aborted by the guard with the
      state it had reached (nothing is rolled back). */
  datatype Run = Completed(st: State, count: nat) | Aborted(st: State)

  /** `later` continued `earlier`: its trace extends the earlier trace. */
  predicate Extends(earlier: State, later: State) {
    |earlier.log| <= |later.log| && later.log[..|earlier.log|] == earlier.log
  }

  /** The events `later` added to `earlier`. */
  function Added(earlier: State, later: State): seq<Event>
    requires Extends(earlier, later)
  {
    later.log[|earlier.log|..]
  }

  lemma AddedSplit(earlier: State, later: State)
    requires Extends(earlier, later)
    ensures later.log == earlier.log + Added(earlier, later)
  {
  }

  lemma ExtendsTrans(a: State, b: State, c: State)
    requires Extends(a, b) && Extends(b, c)
    ensures Extends(a, c)
    ensures Added(a, c) == Added(a, b) + Added(b, c)
  {
    assert c.log[..|b.log|][..|a.log|] == c.log[..|a.log|];
  }

  /** No row has left a table of `db0` without having been dumped for that
      table first. */
  ghost predicate NoLoss(db0: Db, st: State) {
    forall t, r :: r in RowsOf(db0, t) && r !in RowsOf(st.db, t) ==> r in Dumped(st.log, t)
  }

  /** A trace that only grows keeps every row it has dumped. */
  lemma DumpedGrows(earlier: State, later: State, t: string, r: Row)
    requires Extends(earlier, later)
    requires r in Dumped(earlier.log, t)
    ensures r in Dumped(later.log, t)
  {
    AddedSplit(earlier, later);
    ProjectAppend(earlier.log, Added(earlier, later));
  }

  /** Steps that leave the database alone keep the invariant. */
  lemma NoLossKeep(db0: Db, st: State, next: State)
    requires NoLoss(db0, st)
    requires Extends(st, next)
    requires next.db == st.db
    ensures NoLoss(db0, next)
  {
    forall t, r | r in RowsOf(db0, t) && r !in RowsOf(next.db, t)
      ensures r in Dumped(next.log, t)
    {
      DumpedGrows(st, next, t, r);
    }
  }

  /** A delete keeps the invariant when every row it removes has already
      been dumped for that table. */
  lemma NoLossDelete(db0: Db, st: State, next: State, table: string, c: Cond)
    requires NoLoss(db0, st)
    requires Extends(st, next)
    requires next.db == DeleteWhere(st.db, table, c)
    requires forall r :: r in RowsOf(st.db, table) && Matches(c, r) ==> r in Dumped(next.log, table)
    ensures NoLoss(db0, next)
  {
    forall t, r | r in RowsOf(db0, t) && r !in RowsOf(next.db, t)
      ensures r in Dumped(next.log, t)
    {
      if r !in RowsOf(st.db, t) {
        DumpedGrows(st, next, t, r);
      } else if t == table {
        RejectHas(RowsOf(st.db, t), c, r);
      }
    }
  }
}
