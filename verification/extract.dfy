/** `DbMysql::executeDump`: one bounded pass over the visit log and the three
    tables that hang off a visit. */
module Extract {
  import opened Wrappers
  import opened Text
  import opened Rows
  import opened Store
  import opened Selection
  import opened SubTable

  const VisitTable: string := "log_visit"
  const LinkTable: string := "log_link_visit_action"
  const ConversionTable: string := "log_conversion"
  const ItemTable: string := "log_conversion_item"

  /** Visit ids per round of dependent-table work. */
  const DependentSlice: nat := 40
  /** Visit ids per DELETE on the visit table. */
  const VisitDeleteSlice: nat := 50

  predicate IsDependent(t: string) {
    t == LinkTable || t == ConversionTable || t == ItemTable
  }

  /** `throwExceptionIfLackOfResources()` after a step: one more check of the
      guard, which aborts the run when it fails. */
  function Guarded(r: Run): (g: Run)
    ensures g.st.db == r.st.db && g.st.log == r.st.log
    ensures r.Aborted? ==> g == r
    ensures g.Completed? ==> r.Completed?
    ensures r.Completed? && r.st.guard.Unlimited? ==> g.Completed? && g.st.guard.Unlimited?
  {
    match r
    case Aborted(_) => r
    case Completed(s, n) =>
      match Check(s.guard)
      case None => Aborted(s)
      case Some(g) => Completed(s.(guard := g), n)
  }

  /** One round of the STEP2 loop: the three dependent tables in their fixed
      order, each followed by a resource check. */
  function SliceWork(st: State, slice: seq<Value>, size: nat): (r: Run)
    requires size > 0
    ensures Extends(st, r.st)
    ensures st.guard.Unlimited? ==> r.Completed? && r.st.guard.Unlimited?
  {
    var r1 := Guarded(DumpSubTable(st, LinkTable, slice, size));
    match r1
    case Aborted(_) => r1
    case Completed(s1, _) =>
      var r2 := Guarded(DumpSubTable(s1, ConversionTable, slice, size));
      match r2
      case Aborted(_) => ExtendsTrans(st, s1, r2.st); r2
      case Completed(s2, _) =>
        var r3 := Guarded(DumpSubTable(s2, ItemTable, slice, size));
        ExtendsTrans(st, s1, s2);
        ExtendsTrans(st, s2, r3.st);
        r3
  }

  /** The deletes one round of dependent work issues for each slice. */
  function DependentDeletes(slices: seq<seq<Value>>): seq<(string, Cond)>
    decreases |slices|
  {
    if |slices| == 0 then []
    else [(LinkTable, VisitIn(slices[0])), (ConversionTable, VisitIn(slices[0])),
          (ItemTable, VisitIn(slices[0]))] + DependentDeletes(slices[1..])
  }

  /** The next slice boundary of `for ($t = 0; $t < count; $t += size)`. */
  function NextCut(t: nat, size: nat, n: nat): (r: nat)
    requires t < n && size > 0
    ensures t < r <= n
  {
    if t + size <= n then t + size else n
  }

  /** STEP2 of `executeDump` from slice offset `t` on. */
  function DependentLoop(st: State, ids: seq<Value>, t: nat, size: nat): (r: Run)
    requires t <= |ids| && size > 0
    ensures Extends(st, r.st)
    ensures st.guard.Unlimited? ==> r.Completed? && r.st.guard.Unlimited?
    decreases |ids| - t
  {
    if t == |ids| then
      Completed(st, 0)
    else
      var next := NextCut(t, DependentSlice, |ids|);
      match SliceWork(st, ids[t..next], size)
      case Aborted(s) => Aborted(s)
      case Completed(s, _) =>
        var r := DependentLoop(s, ids, next, size);
        ExtendsTrans(st, s, r.st);
        r
  }

  /** The deletes STEP4 issues: one per slice of visit ids. */
  function VisitDeletes(slices: seq<seq<Value>>): (r: seq<(string, Cond)>)
    ensures |r| == |slices|
    ensures forall k :: 0 <= k < |slices| ==> r[k] == (VisitTable, VisitIn(slices[k]))
  {
    seq(|slices|, k requires 0 <= k < |slices| => (VisitTable, VisitIn(slices[k])))
  }

  /** Every event of `log` is a delete on the visit table. */
  predicate AllVisitDeletes(log: seq<Event>) {
    forall i :: 0 <= i < |log| ==> log[i].Delete? && log[i].table == VisitTable
  }

  /** STEP4 of `executeDump` from offset `t` on: the visits are deleted in
      slices of fifty ids. No resource check is made here. */
  function DeleteVisits(st: State, ids: seq<Value>, t: nat): (r: State)
    requires t <= |ids|
    ensures Extends(st, r)
    ensures r.guard == st.guard
    ensures AllVisitDeletes(Added(st, r))
    ensures forall u :: u != VisitTable ==> RowsOf(r.db, u) == RowsOf(st.db, u)
    decreases |ids| - t
  {
    if t == |ids| then
      assert Added(st, st) == [];
      st
    else
      var next := NextCut(t, VisitDeleteSlice, |ids|);
      var slice := ids[t..next];
      var del := Delete(VisitTable, VisitIn(slice));
      var st1 := State(DeleteWhere(st.db, VisitTable, VisitIn(slice)), st.log + [del], st.guard);
      var r := DeleteVisits(st1, ids, next);
      ExtendsTrans(st, st1, r);
      assert Added(st, st1) == [del];
      r
  }

  /** STEP4 deletes the visit ids slice by slice, fifty at a time, in order. */
  lemma {:induction false} DeleteVisitsOrder(st: State, ids: seq<Value>, t: nat)
    requires t <= |ids|
    ensures var r := DeleteVisits(st, ids, t);
      Deletes(Added(st, r)) == VisitDeletes(Slices(ids[t..], VisitDeleteSlice))
    decreases |ids| - t
  {
    var r := DeleteVisits(st, ids, t);
    if t == |ids| {
      assert Added(st, st) == [];
    } else {
      var next := NextCut(t, VisitDeleteSlice, |ids|);
      var slice := ids[t..next];
      var del := Delete(VisitTable, VisitIn(slice));
      var st1 := State(DeleteWhere(st.db, VisitTable, VisitIn(slice)), st.log + [del], st.guard);
      DeleteVisitsOrder(st1, ids, next);
      assert r == DeleteVisits(st1, ids, next);
      ExtendsTrans(st, st1, r);
      assert Added(st, st1) == [del];
      DeletesAppend([del], Added(st1, r));
      assert Deletes([del]) == [(VisitTable, VisitIn(slice))] by {
        assert [del][1..] == [];
      }
      CutSlices(ids, t, VisitDeleteSlice);
      VisitDeletesCons(slice, Slices(ids[next..], VisitDeleteSlice));
    }
  }

  lemma VisitDeletesCons(slice: seq<Value>, rest: seq<seq<Value>>)
    ensures VisitDeletes([slice] + rest) == [(VisitTable, VisitIn(slice))] + VisitDeletes(rest)
  {
    var l, r := VisitDeletes([slice] + rest), [(VisitTable, VisitIn(slice))] + VisitDeletes(rest);
    forall k | 0 <= k < |l|
      ensures l[k] == r[k]
    {
      if k > 0 {
        assert ([slice] + rest)[k] == rest[k - 1];
      }
    }
  }

  /** STEP4 leaves exactly the visits whose id is not in the list. */
  lemma {:induction false} DeleteVisitsRows(st: State, ids: seq<Value>, t: nat)
    requires t <= |ids|
    ensures var r := DeleteVisits(st, ids, t);
      RowsOf(r.db, VisitTable) == Reject(RowsOf(st.db, VisitTable), VisitIn(ids[t..]))
    decreases |ids| - t
  {
    if t == |ids| {
      SelectNone(RowsOf(st.db, VisitTable), VisitIn(ids[t..]));
    } else {
      var next := NextCut(t, VisitDeleteSlice, |ids|);
      var slice := ids[t..next];
      var del := Delete(VisitTable, VisitIn(slice));
      var st1 := State(DeleteWhere(st.db, VisitTable, VisitIn(slice)), st.log + [del], st.guard);
      DeleteVisitsRows(st1, ids, next);
      assert DeleteVisits(st, ids, t) == DeleteVisits(st1, ids, next);
      assert ids[t..] == slice + ids[next..];
      RejectTwice(RowsOf(st.db, VisitTable), slice, ids[next..]);
    }
  }

  /** `g` continues `s` by dumping and then deleting the rows of `d` that
      belong to `slice`, and by nothing else. */
  ghost predicate StepEffect(s: State, g: State, d: string, slice: seq<Value>) {
    && Extends(s, g)
    && (forall u :: RowsOf(g.db, u) == if u == d then Reject(RowsOf(s.db, u), VisitIn(slice)) else RowsOf(s.db, u))
    && (forall u :: Dumped(Added(s, g), u) == if u == d then Matching(s.db, d, slice) else [])
    && Deletes(Added(s, g)) == [(d, VisitIn(slice))]
  }

  /** One completed `dumpSubTable` call plus its resource check, seen from
      every table: only `d` loses rows, and only the rows it dumped. */
  lemma SubTableStep(s: State, d: string, slice: seq<Value>, size: nat)
    requires size > 0 && |slice| > 0
    requires Guarded(DumpSubTable(s, d, slice, size)).Completed?
    ensures StepEffect(s, Guarded(DumpSubTable(s, d, slice, size)).st, d, slice)
  {
    var r := DumpSubTable(s, d, slice, size);
    var g := Guarded(r).st;
    assert Added(s, g) == Added(s, r.st);
    forall u | u != d
      ensures Dumped(Added(s, g), u) == []
    {
      OnTableElsewhere(Added(s, r.st), d, u);
    }
  }

  /** The three steps of a completed round. */
  lemma SliceWorkSteps(st: State, slice: seq<Value>, size: nat)
    requires size > 0 && |slice| > 0
    ensures SliceWork(st, slice, size).Completed? ==>
      var s1 := Guarded(DumpSubTable(st, LinkTable, slice, size)).st;
      var s2 := Guarded(DumpSubTable(s1, ConversionTable, slice, size)).st;
      && StepEffect(st, s1, LinkTable, slice)
      && StepEffect(s1, s2, ConversionTable, slice)
      && StepEffect(s2, SliceWork(st, slice, size).st, ItemTable, slice)
  {
    if SliceWork(st, slice, size).Completed? {
      var s1 := Guarded(DumpSubTable(st, LinkTable, slice, size)).st;
      SubTableStep(st, LinkTable, slice, size);
      var s2 := Guarded(DumpSubTable(s1, ConversionTable, slice, size)).st;
      SubTableStep(s1, ConversionTable, slice, size);
      SubTableStep(s2, ItemTable, slice, size);
    }
  }

  /** Three steps on three different tables add up to one round: what one
      table lost. */
  lemma ComposeRowsAt(st: State, s1: State, s2: State, s3: State, slice: seq<Value>, u: string)
    requires StepEffect(st, s1, LinkTable, slice)
    requires StepEffect(s1, s2, ConversionTable, slice)
    requires StepEffect(s2, s3, ItemTable, slice)
    ensures RowsOf(s3.db, u) == if IsDependent(u) then Reject(RowsOf(st.db, u), VisitIn(slice)) else RowsOf(st.db, u)
  {
    assert RowsOf(s1.db, u) == if u == LinkTable then Reject(RowsOf(st.db, u), VisitIn(slice)) else RowsOf(st.db, u);
    assert RowsOf(s2.db, u) == if u == ConversionTable then Reject(RowsOf(s1.db, u), VisitIn(slice)) else RowsOf(s1.db, u);
    assert RowsOf(s3.db, u) == if u == ItemTable then Reject(RowsOf(s2.db, u), VisitIn(slice)) else RowsOf(s2.db, u);
  }

  /** Three steps on three different tables add up to one round: what was
      dumped for one table. */
  lemma ComposeDumpedAt(st: State, s1: State, s2: State, s3: State, slice: seq<Value>, u: string)
    requires StepEffect(st, s1, LinkTable, slice)
    requires StepEffect(s1, s2, ConversionTable, slice)
    requires StepEffect(s2, s3, ItemTable, slice)
    ensures Extends(st, s3)
    ensures Dumped(Added(st, s3), u) == if IsDependent(u) then Matching(st.db, u, slice) else []
  {
    ExtendsTrans(st, s1, s2);
    ExtendsTrans(st, s2, s3);
    var a1, a2, a3 := Added(st, s1), Added(s1, s2), Added(s2, s3);
    assert Added(st, s3) == (a1 + a2) + a3;
    BatchesAppend(a1, a2, u);
    BatchesAppend(a1 + a2, a3, u);
    FlattenAppend(Batches(a1, u), Batches(a2, u));
    FlattenAppend(Batches(a1 + a2, u), Batches(a3, u));
    var d1, d2, d3 := Dumped(a1, u), Dumped(a2, u), Dumped(a3, u);
    assert Dumped(Added(st, s3), u) == d1 + d2 + d3;
    assert d1 == if u == LinkTable then Matching(st.db, u, slice) else [];
    assert d2 == if u == ConversionTable then Matching(s1.db, u, slice) else [];
    assert d3 == if u == ItemTable then Matching(s2.db, u, slice) else [];
    assert RowsOf(s1.db, ConversionTable) == RowsOf(st.db, ConversionTable);
    assert RowsOf(s2.db, ItemTable) == RowsOf(s1.db, ItemTable) == RowsOf(st.db, ItemTable);
  }

  /** Three steps on three different tables add up to one round: the
      deletes. */
  lemma ComposeDeletes(st: State, s1: State, s2: State, s3: State, slice: seq<Value>)
    requires StepEffect(st, s1, LinkTable, slice)
    requires StepEffect(s1, s2, ConversionTable, slice)
    requires StepEffect(s2, s3, ItemTable, slice)
    ensures Extends(st, s3)
    ensures Deletes(Added(st, s3)) == DependentDeletes([slice])
  {
    ExtendsTrans(st, s1, s2);
    ExtendsTrans(st, s2, s3);
    var a1, a2, a3 := Added(st, s1), Added(s1, s2), Added(s2, s3);
    assert Added(st, s3) == (a1 + a2) + a3;
    DeletesAppend(a1, a2);
    DeletesAppend(a1 + a2, a3);
    assert DependentDeletes([slice][1..]) == [];
  }

  /** A completed round of dependent work: each of the three tables has lost
      exactly its rows for the slice, after dumping exactly those rows;
      every other table is untouched; the deletes came in the fixed order. */
  lemma SliceWorkEffect(st: State, slice: seq<Value>, size: nat)
    requires size > 0 && |slice| > 0
    ensures SliceWork(st, slice, size).Completed? ==>
      var r := SliceWork(st, slice, size).st;
      && Extends(st, r)
      && (forall u :: RowsOf(r.db, u) ==
            if IsDependent(u) then Reject(RowsOf(st.db, u), VisitIn(slice)) else RowsOf(st.db, u))
      && (forall u :: Dumped(Added(st, r), u) ==
            if IsDependent(u) then Matching(st.db, u, slice) else [])
      && Deletes(Added(st, r)) == DependentDeletes([slice])
  {
    if SliceWork(st, slice, size).Completed? {
      SliceWorkSteps(st, slice, size);
      var s1 := Guarded(DumpSubTable(st, LinkTable, slice, size)).st;
      var s2 := Guarded(DumpSubTable(s1, ConversionTable, slice, size)).st;
      ComposeSteps(st, s1, s2, SliceWork(st, slice, size).st, slice);
    }
  }

  /** The three steps of a round, composed. */
  lemma ComposeSteps(st: State, s1: State, s2: State, s3: State, slice: seq<Value>)
    requires StepEffect(st, s1, LinkTable, slice)
    requires StepEffect(s1, s2, ConversionTable, slice)
    requires StepEffect(s2, s3, ItemTable, slice)
    ensures Extends(st, s3)
    ensures forall u ::
      RowsOf(s3.db, u) == if IsDependent(u) then Reject(RowsOf(st.db, u), VisitIn(slice)) else RowsOf(st.db, u)
    ensures forall u ::
      Dumped(Added(st, s3), u) == if IsDependent(u) then Matching(st.db, u, slice) else []
    ensures Deletes(Added(st, s3)) == DependentDeletes([slice])
  {
    ComposeDeletes(st, s1, s2, s3, slice);
    forall u
      ensures RowsOf(s3.db, u) == if IsDependent(u) then Reject(RowsOf(st.db, u), VisitIn(slice)) else RowsOf(st.db, u)
      ensures Dumped(Added(st, s3), u) == if IsDependent(u) then Matching(st.db, u, slice) else []
    {
      ComposeRowsAt(st, s1, s2, s3, slice, u);
      ComposeDumpedAt(st, s1, s2, s3, slice, u);
    }
  }

  lemma DependentDeletesCons(slice: seq<Value>, rest: seq<seq<Value>>)
    ensures DependentDeletes([slice] + rest) == DependentDeletes([slice]) + DependentDeletes(rest)
  {
    assert ([slice] + rest)[1..] == rest;
    assert [slice][1..] == [];
  }

  /** The slice boundary splits the remaining ids into the first slice and
      the slices of the rest. */
  lemma CutSlices(ids: seq<Value>, t: nat, size: nat)
    requires t < |ids| && size > 0
    ensures var next := NextCut(t, size, |ids|);
      && ids[t..] == ids[t..next] + ids[next..]
      && Slices(ids[t..], size) == [ids[t..next]] + Slices(ids[next..], size)
  {
    var next := NextCut(t, size, |ids|);
    assert ids[t..][..next - t] == ids[t..next] && ids[t..][next - t..] == ids[next..];
    SlicesUnfold(ids[t..], size, next - t);
  }

  /** One unfolding of a completed STEP2 loop: a completed round on the
      first slice, then the loop on the rest. */
  lemma DependentLoopUnfold(st: State, ids: seq<Value>, t: nat, size: nat)
    requires t < |ids| && size > 0
    ensures DependentLoop(st, ids, t, size).Completed? ==>
      var next := NextCut(t, DependentSlice, |ids|);
      var w := SliceWork(st, ids[t..next], size);
      && w.Completed?
      && DependentLoop(st, ids, t, size) == DependentLoop(w.st, ids, next, size)
      && ids[t..] == ids[t..next] + ids[next..]
      && Slices(ids[t..], DependentSlice) == [ids[t..next]] + Slices(ids[next..], DependentSlice)
  {
    if DependentLoop(st, ids, t, size).Completed? {
      CutSlices(ids, t, DependentSlice);
      var next := NextCut(t, DependentSlice, |ids|);
      match SliceWork(st, ids[t..next], size)
      case Aborted(_) =>
      case Completed(_, _) =>
    }
  }

  /** STEP2 deletes, round after round, the three dependent tables' rows
      for each slice of forty visit ids. */
  lemma {:induction false} DependentLoopDeletes(st: State, ids: seq<Value>, t: nat, size: nat)
    requires t <= |ids| && size > 0
    ensures DependentLoop(st, ids, t, size).Completed? ==>
      Deletes(Added(st, DependentLoop(st, ids, t, size).st))
         == DependentDeletes(Slices(ids[t..], DependentSlice))
    decreases |ids| - t
  {
    if DependentLoop(st, ids, t, size).Completed? {
      var r := DependentLoop(st, ids, t, size);
      if t == |ids| {
        assert Added(st, st) == [];
      } else {
        var next := NextCut(t, DependentSlice, |ids|);
        var slice := ids[t..next];
        DependentLoopUnfold(st, ids, t, size);
        SliceWorkEffect(st, slice, size);
        var s := SliceWork(st, slice, size).st;
        DependentLoopDeletes(s, ids, next, size);
        ExtendsTrans(st, s, r.st);
        DeletesAppend(Added(st, s), Added(s, r.st));
        DependentDeletesCons(slice, Slices(ids[next..], DependentSlice));
      }
    }
  }

  /** STEP2 leaves in each dependent table exactly the rows of visits not in
      the list, and leaves every other table alone. */
  lemma {:induction false} DependentLoopRows(st: State, ids: seq<Value>, t: nat, size: nat)
    requires t <= |ids| && size > 0
    ensures DependentLoop(st, ids, t, size).Completed? ==>
      var db := DependentLoop(st, ids, t, size).st.db;
      forall u ::
        RowsOf(db, u) == if IsDependent(u) then Reject(RowsOf(st.db, u), VisitIn(ids[t..])) else RowsOf(st.db, u)
    decreases |ids| - t
  {
    if DependentLoop(st, ids, t, size).Completed? {
      if t == |ids| {
        forall u | IsDependent(u)
          ensures RowsOf(st.db, u) == Reject(RowsOf(st.db, u), VisitIn(ids[t..]))
        {
          SelectNone(RowsOf(st.db, u), VisitIn(ids[t..]));
        }
      } else {
        var next := NextCut(t, DependentSlice, |ids|);
        var slice := ids[t..next];
        DependentLoopUnfold(st, ids, t, size);
        SliceWorkEffect(st, slice, size);
        var s := SliceWork(st, slice, size).st;
        DependentLoopRows(s, ids, next, size);
        forall u | IsDependent(u)
          ensures Reject(RowsOf(s.db, u), VisitIn(ids[next..])) == Reject(RowsOf(st.db, u), VisitIn(ids[t..]))
        {
          RejectTwice(RowsOf(st.db, u), slice, ids[next..]);
        }
      }
    }
  }

  /** STEP2 dumps, for each dependent table, every row of the listed visits
      exactly once, and nothing for any other table. */
  lemma {:induction false} DependentLoopDumped(st: State, ids: seq<Value>, t: nat, size: nat)
    requires t <= |ids| && size > 0
    ensures DependentLoop(st, ids, t, size).Completed? ==>
      var a := Added(st, DependentLoop(st, ids, t, size).st);
      forall u :: IsDependent(u) ==> multiset(Dumped(a, u)) == multiset(Matching(st.db, u, ids[t..]))
    ensures DependentLoop(st, ids, t, size).Completed? ==>
      var a := Added(st, DependentLoop(st, ids, t, size).st);
      forall u :: !IsDependent(u) ==> Dumped(a, u) == []
    decreases |ids| - t
  {
    if DependentLoop(st, ids, t, size).Completed? {
      var r := DependentLoop(st, ids, t, size);
      if t == |ids| {
        assert Added(st, st) == [];
        forall u | IsDependent(u)
          ensures Matching(st.db, u, ids[t..]) == []
        {
          SelectNone(RowsOf(st.db, u), VisitIn(ids[t..]));
        }
      } else {
        var next := NextCut(t, DependentSlice, |ids|);
        var slice := ids[t..next];
        DependentLoopUnfold(st, ids, t, size);
        SliceWorkEffect(st, slice, size);
        var s := SliceWork(st, slice, size).st;
        DependentLoopDumped(s, ids, next, size);
        ExtendsTrans(st, s, r.st);
        ProjectAppend(Added(st, s), Added(s, r.st));
        forall u | IsDependent(u)
          ensures multiset(Dumped(Added(st, r.st), u)) == multiset(Matching(st.db, u, ids[t..]))
        {
          SelectAfterReject(RowsOf(st.db, u), slice, ids[next..]);
        }
      }
    }
  }

  /** A resource check changes neither the database nor the trace. */
  lemma GuardedNoLoss(db0: Db, r: Run)
    requires NoLoss(db0, r.st)
    ensures NoLoss(db0, Guarded(r).st)
  {
  }

  /** A round of dependent work, completed or not, deletes nothing it has
      not dumped. */
  lemma SliceWorkNoLoss(db0: Db, st: State, slice: seq<Value>, size: nat)
    requires size > 0
    requires NoLoss(db0, st)
    ensures NoLoss(db0, SliceWork(st, slice, size).st)
  {
    var r1 := DumpSubTable(st, LinkTable, slice, size);
    DumpSubTableNoLoss(db0, st, LinkTable, slice, size);
    GuardedNoLoss(db0, r1);
    match Guarded(r1)
    case Aborted(_) =>
    case Completed(s1, _) =>
      var r2 := DumpSubTable(s1, ConversionTable, slice, size);
      DumpSubTableNoLoss(db0, s1, ConversionTable, slice, size);
      GuardedNoLoss(db0, r2);
      match Guarded(r2)
      case Aborted(_) =>
      case Completed(s2, _) =>
        DumpSubTableNoLoss(db0, s2, ItemTable, slice, size);
        GuardedNoLoss(db0, DumpSubTable(s2, ItemTable, slice, size));
  }

  /** STEP2, completed or aborted, deletes nothing it has not dumped. */
  lemma {:induction false} DependentLoopNoLoss(db0: Db, st: State, ids: seq<Value>, t: nat, size: nat)
    requires t <= |ids| && size > 0
    requires NoLoss(db0, st)
    ensures NoLoss(db0, DependentLoop(st, ids, t, size).st)
    decreases |ids| - t
  {
    if t < |ids| {
      var next := NextCut(t, DependentSlice, |ids|);
      SliceWorkNoLoss(db0, st, ids[t..next], size);
      match SliceWork(st, ids[t..next], size)
      case Aborted(_) =>
      case Completed(s, _) =>
        DependentLoopNoLoss(db0, s, ids, next, size);
    }
  }

  /** STEP4 deletes nothing it has not dumped, provided every visit row of
      the remaining ids was dumped before. */
  lemma {:induction false} DeleteVisitsNoLoss(db0: Db, st: State, ids: seq<Value>, t: nat)
    requires t <= |ids|
    requires NoLoss(db0, st)
    requires forall r :: r in RowsOf(st.db, VisitTable) && Matches(VisitIn(ids[t..]), r) ==>
      r in Dumped(st.log, VisitTable)
    ensures NoLoss(db0, DeleteVisits(st, ids, t))
    decreases |ids| - t
  {
    if t < |ids| {
      var next := NextCut(t, VisitDeleteSlice, |ids|);
      var slice := ids[t..next];
      var del := Delete(VisitTable, VisitIn(slice));
      var st1 := State(DeleteWhere(st.db, VisitTable, VisitIn(slice)), st.log + [del], st.guard);
      assert ids[t..] == slice + ids[next..];
      assert Extends(st, st1);
      forall r | r in RowsOf(st.db, VisitTable) && Matches(VisitIn(slice), r)
        ensures r in Dumped(st1.log, VisitTable)
      {
        InBoth(r, slice, ids[next..]);
        DumpedGrows(st, st1, VisitTable, r);
      }
      NoLossDelete(db0, st, st1, VisitTable, VisitIn(slice));
      forall r | r in RowsOf(st1.db, VisitTable) && Matches(VisitIn(ids[next..]), r)
        ensures r in Dumped(st1.log, VisitTable)
      {
        RejectHas(RowsOf(st.db, VisitTable), VisitIn(slice), r);
        InBoth(r, slice, ids[next..]);
        DumpedGrows(st, st1, VisitTable, r);
      }
      DeleteVisitsNoLoss(db0, st1, ids, next);
      assert DeleteVisits(st, ids, t) == DeleteVisits(st1, ids, next);
    }
  }

  /** STEP1's query: `SELECT * FROM log_visit WHERE where() LIMIT limit`. */
  function VisitFetch(c: Config): Event {
    Fetch(VisitTable, Where(c), Range(0, VisitLimit(c)))
  }

  /** The visits STEP1 fetches: the first `limit` matching visits in store
      order. */
  function Visits(c: Config, db: Db): (vs: seq<Row>)
    ensures |vs| == if VisitLimit(c) <= |Select(RowsOf(db, VisitTable), Where(c))|
                    then VisitLimit(c) else |Select(RowsOf(db, VisitTable), Where(c))|
    ensures forall k :: 0 <= k < |vs| ==> vs[k] == Select(RowsOf(db, VisitTable), Where(c))[k]
  {
    Window(Select(RowsOf(db, VisitTable), Where(c)), 0, VisitLimit(c))
  }

  /** `executeDump($fp)`: fetch a chunk of visits; if there are none, stop
      with 0; otherwise dump and delete their dependent rows slice by slice,
      dump the visits, delete them, and return how many there were. */
  function ExecuteDump(c: Config, st: State): (r: Run)
    ensures Extends(st, r.st)
    ensures st.guard.Unlimited? ==> r.Completed?
    ensures r.Completed? ==> r.count == |Visits(c, st.db)|
    ensures r.Completed? ==> r.count <= VisitLimit(c)
    ensures r.Completed? && r.count == 0 ==> r.st.db == st.db && Added(st, r.st) == [VisitFetch(c)]
    ensures |Visits(c, st.db)| == 0 ==> r == Completed(AfterFetch(c, st), 0)
    ensures |Added(st, r.st)| > 0 && Added(st, r.st)[0] == VisitFetch(c)
  {
    var vs := Visits(c, st.db);
    var st1 := AfterFetch(c, st);
    assert Added(st, st1) == [VisitFetch(c)];
    if |vs| == 0 then
      Completed(st1, 0)
    else
      var ids := Ids(vs);
      match DependentLoop(st1, ids, 0, PageSize(c))
      case Aborted(s) =>
        ExtendsTrans(st, st1, s);
        Aborted(s)
      case Completed(s, _) =>
        var s2 := s.(log := s.log + [Dump(VisitTable, vs)]);
        var s3 := DeleteVisits(s2, ids, 0);
        ExtendsTrans(st, st1, s);
        ExtendsTrans(st, s, s2);
        ExtendsTrans(st, s2, s3);
        assert Added(st, s3) == [VisitFetch(c)] + Added(st1, s) + Added(s, s2) + Added(s2, s3);
        Completed(s3, |ids|)
  }

  /** `executeDump` completed and returned a positive count: it found
      visits, and the guard let all of the dependent work through. */
  predicate Productive(c: Config, st: State) {
    ExecuteDump(c, st).Completed? && ExecuteDump(c, st).count > 0
  }

  /** The state STEP2 starts from: the visit fetch appended to the trace. */
  function AfterFetch(c: Config, st: State): State {
    st.(log := st.log + [VisitFetch(c)])
  }

  /** The state STEP4 starts from: the visits dumped after STEP2. */
  function AfterVisitDump(s: State, vs: seq<Row>): State {
    s.(log := s.log + [Dump(VisitTable, vs)])
  }

  /** The pieces of a run that returned a positive count. */
  lemma ExecuteDumpUnfold(c: Config, st: State)
    ensures Productive(c, st) ==>
      var vs := Visits(c, st.db);
      var w := DependentLoop(AfterFetch(c, st), Ids(vs), 0, PageSize(c));
      && |vs| > 0
      && w.Completed?
      && ExecuteDump(c, st).st == DeleteVisits(AfterVisitDump(w.st, vs), Ids(vs), 0)
  {
  }

  /** Four phases: one event, a stretch, one event, a stretch. */
  lemma PhasesAdded(st: State, st1: State, s: State, s2: State, s3: State, f: Event, d: Event)
    requires st1.log == st.log + [f] && Extends(st1, s)
    requires s2.log == s.log + [d] && Extends(s2, s3)
    ensures Extends(st, s3)
    ensures Added(st, s3) == [f] + Added(st1, s) + [d] + Added(s2, s3)
  {
    AddedSplit(st1, s);
    AddedSplit(s2, s3);
    assert s3.log == st.log + ([f] + Added(st1, s) + [d] + Added(s2, s3));
  }

  /** Deletes seen through the two single events between the phases. */
  lemma DeletesOfPhases(f: Event, a: seq<Event>, d: Event, b: seq<Event>)
    requires !f.Delete? && !d.Delete?
    ensures Deletes([f] + a + [d] + b) == Deletes(a) + Deletes(b)
  {
    DeletesAppend([f], a);
    DeletesAppend([f] + a, [d]);
    DeletesAppend([f] + a + [d], b);
    assert [f][1..] == [] && [d][1..] == [];
  }

  /** A trace of deletes only has one delete per event. */
  lemma {:induction false} DeletesOfDeletes(log: seq<Event>)
    requires AllVisitDeletes(log)
    ensures |Deletes(log)| == |log|
    decreases |log|
  {
    if |log| > 0 {
      DeletesOfDeletes(log[1..]);
    }
  }

  /** The deletes of a run that returned a positive count: the dependent
      tables slice by slice (forty ids), then the visits slice by slice
      (fifty ids). */
  lemma ExecuteDumpDeletes(c: Config, st: State)
    ensures Productive(c, st) ==>
      var ids := Ids(Visits(c, st.db));
      Deletes(Added(st, ExecuteDump(c, st).st))
        == DependentDeletes(Slices(ids, DependentSlice)) + VisitDeletes(Slices(ids, VisitDeleteSlice))
  {
    if Productive(c, st) {
      ExecuteDumpUnfold(c, st);
      var vs := Visits(c, st.db);
      var ids := Ids(vs);
      var st1 := AfterFetch(c, st);
      var s := DependentLoop(st1, ids, 0, PageSize(c)).st;
      var s2 := AfterVisitDump(s, vs);
      PhasesAdded(st, st1, s, s2, ExecuteDump(c, st).st, VisitFetch(c), Dump(VisitTable, vs));
      assert ids[0..] == ids;
      DependentLoopDeletes(st1, ids, 0, PageSize(c));
      DeleteVisitsOrder(s2, ids, 0);
      DeletesOfPhases(VisitFetch(c), Added(st1, s), Dump(VisitTable, vs), Added(s2, ExecuteDump(c, st).st));
    }
  }

  /** A run that returned a positive count leaves the visit table and the
      three dependent tables without any row of the fetched visits, and
      every other table as it was. */
  lemma ExecuteDumpRows(c: Config, st: State)
    ensures Productive(c, st) ==>
      var ids := Ids(Visits(c, st.db));
      var db := ExecuteDump(c, st).st.db;
      forall u ::
        RowsOf(db, u) == if IsDependent(u) || u == VisitTable then Reject(RowsOf(st.db, u), VisitIn(ids)) else RowsOf(st.db, u)
  {
    if Productive(c, st) {
      ExecuteDumpUnfold(c, st);
      var vs := Visits(c, st.db);
      var ids := Ids(vs);
      var st1 := AfterFetch(c, st);
      var s := DependentLoop(st1, ids, 0, PageSize(c)).st;
      var s2 := AfterVisitDump(s, vs);
      assert ids[0..] == ids;
      DependentLoopRows(st1, ids, 0, PageSize(c));
      DeleteVisitsRows(s2, ids, 0);
    }
  }

  /** A trace of deletes dumps nothing. */
  lemma {:induction false} NoDumpsInDeletes(log: seq<Event>, u: string)
    requires AllVisitDeletes(log)
    ensures Batches(log, u) == [] && Dumped(log, u) == []
    decreases |log|
  {
    if |log| > 0 {
      NoDumpsInDeletes(log[1..], u);
    }
  }

  /** Dumps seen through the two single events between the phases. */
  lemma DumpedOfPhases(f: Event, a: seq<Event>, d: Event, b: seq<Event>, u: string)
    requires !f.Dump?
    ensures Dumped([f] + a + [d] + b, u) == Dumped(a, u) + Dumped([d], u) + Dumped(b, u)
  {
    var x := [f] + a;
    var y := x + [d];
    BatchesAppend([f], a, u);
    BatchesAppend(x, [d], u);
    BatchesAppend(y, b, u);
    assert [f][1..] == [];
    assert Batches([f], u) == [];
    assert Batches(x, u) == Batches(a, u);
    FlattenAppend(Batches(x, u), Batches([d], u));
    FlattenAppend(Batches(y, u), Batches(b, u));
    assert Dumped(x, u) == Dumped(a, u);
  }

  /** What the four phases dump: STEP2's rows, then the visits. */
  lemma DumpedOfRun(a: seq<Event>, f: Event, a1: seq<Event>, vs: seq<Row>, a3: seq<Event>)
    requires a == [f] + a1 + [Dump(VisitTable, vs)] + a3
    requires !f.Dump? && AllVisitDeletes(a3)
    ensures Dumped(a, VisitTable) == Dumped(a1, VisitTable) + vs
    ensures forall u :: u != VisitTable ==> Dumped(a, u) == Dumped(a1, u)
  {
    OutputOfBatch(VisitTable, vs);
    forall u
      ensures Dumped(a, u) == Dumped(a1, u) + Dumped([Dump(VisitTable, vs)], u)
    {
      DumpedOfPhases(f, a1, Dump(VisitTable, vs), a3, u);
      NoDumpsInDeletes(a3, u);
    }
    forall u | u != VisitTable
      ensures Dumped([Dump(VisitTable, vs)], u) == []
    {
      var one := [Dump(VisitTable, vs)];
      assert one[1..] == [];
      assert Batches(one, u) == [] + Batches(one[1..], u);
      assert Flatten<Row>([]) == [];
    }
  }

  /** The phases' dumps, given what STEP2 dumped. */
  lemma DumpedOfRunAt(a: seq<Event>, f: Event, a1: seq<Event>, vs: seq<Row>, a3: seq<Event>,
                      db: Db, ids: seq<Value>, u: string)
    requires a == [f] + a1 + [Dump(VisitTable, vs)] + a3
    requires !f.Dump? && AllVisitDeletes(a3)
    requires IsDependent(u) ==> multiset(Dumped(a1, u)) == multiset(Matching(db, u, ids))
    requires !IsDependent(u) ==> Dumped(a1, u) == []
    ensures u == VisitTable ==> Dumped(a, u) == vs
    ensures IsDependent(u) ==> multiset(Dumped(a, u)) == multiset(Matching(db, u, ids))
    ensures !IsDependent(u) && u != VisitTable ==> Dumped(a, u) == []
  {
    DumpedOfRun(a, f, a1, vs, a3);
    if u == VisitTable {
      assert Dumped(a1, u) + vs == vs;
    }
  }

  /** What a run that returned a positive count dumped: the fetched visits,
      once, for the visit table; every row of those visits, once, for each
      dependent table; nothing for any other table. */
  lemma ExecuteDumpDumped(c: Config, st: State)
    ensures Productive(c, st) ==>
      var a := Added(st, ExecuteDump(c, st).st);
      Dumped(a, VisitTable) == Visits(c, st.db)
    ensures Productive(c, st) ==>
      var a := Added(st, ExecuteDump(c, st).st);
      forall u :: IsDependent(u) ==>
        multiset(Dumped(a, u)) == multiset(Matching(st.db, u, Ids(Visits(c, st.db))))
    ensures Productive(c, st) ==>
      var a := Added(st, ExecuteDump(c, st).st);
      forall u :: !IsDependent(u) && u != VisitTable ==> Dumped(a, u) == []
  {
    if Productive(c, st) {
      ExecuteDumpUnfold(c, st);
      var vs := Visits(c, st.db);
      var ids := Ids(vs);
      var st1 := AfterFetch(c, st);
      var s := DependentLoop(st1, ids, 0, PageSize(c)).st;
      var s2 := AfterVisitDump(s, vs);
      var s3 := ExecuteDump(c, st).st;
      PhasesAdded(st, st1, s, s2, s3, VisitFetch(c), Dump(VisitTable, vs));
      assert ids[0..] == ids;
      DependentLoopDumped(st1, ids, 0, PageSize(c));
      var a, a1, a3 := Added(st, s3), Added(st1, s), Added(s2, s3);
      forall u
        ensures u == VisitTable ==> Dumped(a, u) == vs
        ensures IsDependent(u) ==> multiset(Dumped(a, u)) == multiset(Matching(st.db, u, ids))
        ensures !IsDependent(u) && u != VisitTable ==> Dumped(a, u) == []
      {
        DumpedOfRunAt(a, VisitFetch(c), a1, vs, a3, st.db, ids, u);
      }
    }
  }

  lemma TailOfRun(a: seq<Event>, f: Event, a1: seq<Event>, d: Event, a3: seq<Event>)
    requires a == [f] + a1 + [d] + a3
    ensures |a| > |a3|
    ensures a[|a| - |a3| - 1] == d
    ensures a[|a| - |a3|..] == a3
    ensures a[..|a| - |a3| - 1] == [f] + a1
  {
  }

  /** STEP3 before STEP4: a run that returned a positive count ends with the
      dump of the visits followed only by the visit deletes, and every
      delete before that dump is a dependent-table delete of STEP2. */
  lemma ExecuteDumpOrder(c: Config, st: State)
    ensures Productive(c, st) ==>
      var a := Added(st, ExecuteDump(c, st).st);
      var ids := Ids(Visits(c, st.db));
      var n := |Slices(ids, VisitDeleteSlice)|;
      && |a| > n
      && a[|a| - n - 1] == Dump(VisitTable, Visits(c, st.db))
      && AllVisitDeletes(a[|a| - n..])
      && Deletes(a[..|a| - n - 1]) == DependentDeletes(Slices(ids, DependentSlice))
  {
    if Productive(c, st) {
      ExecuteDumpUnfold(c, st);
      var vs := Visits(c, st.db);
      var ids := Ids(vs);
      var st1 := AfterFetch(c, st);
      var s := DependentLoop(st1, ids, 0, PageSize(c)).st;
      var s2 := AfterVisitDump(s, vs);
      var s3 := ExecuteDump(c, st).st;
      PhasesAdded(st, st1, s, s2, s3, VisitFetch(c), Dump(VisitTable, vs));
      var a1, a3 := Added(st1, s), Added(s2, s3);
      assert ids[0..] == ids;
      DeleteVisitsOrder(s2, ids, 0);
      DeletesOfDeletes(a3);
      TailOfRun(Added(st, s3), VisitFetch(c), a1, Dump(VisitTable, vs), a3);
      DependentLoopDeletes(st1, ids, 0, PageSize(c));
      DeletesAppend([VisitFetch(c)], a1);
      assert [VisitFetch(c)][1..] == [];
    }
  }

  /** `idvisit` is the visit table's primary key: two visit rows with the
      same id number are the same row. */
  predicate UniqueVisitIds(rows: seq<Row>) {
    forall a, b :: a in rows && b in rows && KeyNumber(IdOf(a)).Some? && KeyNumber(IdOf(a)) == KeyNumber(IdOf(b)) ==> a == b
  }

  /** With unique ids, a delete by the ids of rows taken from the table
      removes only those rows. */
  lemma DeletedVisitsWereFetched(table: seq<Row>, vs: seq<Row>, r: Row)
    requires UniqueVisitIds(table)
    requires forall k :: 0 <= k < |vs| ==> vs[k] in table
    requires r in table
    requires Matches(VisitIn(Ids(vs)), r)
    ensures r in vs
  {
    var n := KeyNumber(IdOf(r)).value;
    NumbersHas(Ids(vs), n);
    var k :| 0 <= k < |vs| && KeyNumber(Ids(vs)[k]) == Some(n);
    assert vs[k] in table;
  }

  /** The fetched visits are rows of the visit table. */
  lemma VisitsFromTable(c: Config, db: Db)
    ensures forall k :: 0 <= k < |Visits(c, db)| ==> Visits(c, db)[k] in RowsOf(db, VisitTable)
  {
    var vs := Visits(c, db);
    var sel := Select(RowsOf(db, VisitTable), Where(c));
    forall k | 0 <= k < |vs|
      ensures vs[k] in RowsOf(db, VisitTable)
    {
      assert vs[k] == sel[k];
      SelectHas(RowsOf(db, VisitTable), Where(c), vs[k]);
    }
  }

  /** STEP2 and STEP3, completed, keep the invariant, and leave every visit
      row STEP4 is about to delete dumped. */
  lemma BeforeVisitDeletes(db0: Db, c: Config, st: State)
    requires NoLoss(db0, st)
    requires UniqueVisitIds(RowsOf(st.db, VisitTable))
    requires |Visits(c, st.db)| > 0
    ensures DependentLoop(AfterFetch(c, st), Ids(Visits(c, st.db)), 0, PageSize(c)).Completed? ==>
      var s := DependentLoop(AfterFetch(c, st), Ids(Visits(c, st.db)), 0, PageSize(c)).st;
      var s2 := AfterVisitDump(s, Visits(c, st.db));
      && NoLoss(db0, s2)
      && forall r :: r in RowsOf(s2.db, VisitTable) && Matches(VisitIn(Ids(Visits(c, st.db))[0..]), r) ==>
           r in Dumped(s2.log, VisitTable)
  {
    if DependentLoop(AfterFetch(c, st), Ids(Visits(c, st.db)), 0, PageSize(c)).Completed? {
      var vs := Visits(c, st.db);
      var ids := Ids(vs);
      var st1 := AfterFetch(c, st);
      var s := DependentLoop(st1, ids, 0, PageSize(c)).st;
      var s2 := AfterVisitDump(s, vs);
      NoLossKeep(db0, st, st1);
      DependentLoopNoLoss(db0, st1, ids, 0, PageSize(c));
      NoLossKeep(db0, s, s2);
      DependentLoopRows(st1, ids, 0, PageSize(c));
      assert RowsOf(s2.db, VisitTable) == RowsOf(st.db, VisitTable);
      ProjectAppend(s.log, [Dump(VisitTable, vs)]);
      OutputOfBatch(VisitTable, vs);
      assert ids[0..] == ids;
      VisitsFromTable(c, st.db);
      forall r | r in RowsOf(s2.db, VisitTable) && Matches(VisitIn(ids), r)
        ensures r in Dumped(s2.log, VisitTable)
      {
        DeletedVisitsWereFetched(RowsOf(st.db, VisitTable), vs, r);
      }
    }
  }

  /** `executeDump`, however it ends, never deletes a row it has not dumped
      for that table first. */
  lemma ExecuteDumpNoLoss(db0: Db, c: Config, st: State)
    requires NoLoss(db0, st)
    requires UniqueVisitIds(RowsOf(st.db, VisitTable))
    ensures NoLoss(db0, ExecuteDump(c, st).st)
  {
    var vs := Visits(c, st.db);
    var ids := Ids(vs);
    var st1 := AfterFetch(c, st);
    NoLossKeep(db0, st, st1);
    if |vs| > 0 {
      DependentLoopNoLoss(db0, st1, ids, 0, PageSize(c));
      match DependentLoop(st1, ids, 0, PageSize(c))
      case Aborted(_) =>
      case Completed(s, _) =>
        BeforeVisitDeletes(db0, c, st);
        DeleteVisitsNoLoss(db0, AfterVisitDump(s, vs), ids, 0);
    }
  }
}
