/** `DbMysql::dumpSubTable`: page through the rows of a dependent table that
    belong to a list of visits, dump every page, then delete those rows. */
module SubTable {
  import opened Text
  import opened Rows
  import opened Store

  /** The rows of `table` whose `idvisit` is one of `ids`, in store order. */
  function Matching(db: Db, table: string, ids: seq<Value>): seq<Row> {
    Select(RowsOf(db, table), VisitIn(ids))
  }

  /** Every event of `log` concerns `table`. */
  predicate OnTable(log: seq<Event>, table: string) {
    forall i :: 0 <= i < |log| ==> log[i].table == table
  }

  /** A trace about one table dumps nothing for any other. */
  lemma {:induction false} OnTableElsewhere(log: seq<Event>, table: string, u: string)
    requires OnTable(log, table)
    requires u != table
    ensures Batches(log, u) == []
    ensures Dumped(log, u) == []
    decreases |log|
  {
    if |log| > 0 {
      OnTableElsewhere(log[1..], table, u);
    }
  }

  /** Page batches as the loop leaves them: at least one page, every page but
      the last full, the last one short. */
  predicate FullThenShort(pages: seq<seq<Row>>, size: nat) {
    && |pages| > 0
    && (forall j :: 0 <= j < |pages| - 1 ==> |pages[j]| == size)
    && |pages[|pages| - 1]| < size
  }

  lemma {:induction false} MulMono(a: int, b: int, s: nat)
    requires a <= b
    ensures a * s <= b * s
    decreases b - a
  {
    if a < b {
      MulMono(a, b - 1, s);
      assert b * s == (b - 1) * s + s;
    }
  }

  lemma DivFromBounds(n: int, size: int, q: int)
    requires size > 0
    requires q * size <= n < (q + 1) * size
    ensures n / size == q
  {
    var d, m := n / size, n % size;
    assert n == d * size + m && 0 <= m < size;
    if d < q {
      MulMono(d + 1, q, size);
      assert false;
    } else if d > q {
      MulMono(q + 1, d, size);
      assert false;
    }
  }

  /** The projections of one fetched-and-dumped page. */
  lemma OnePage(table: string, c: Cond, span: Span, rows: seq<Row>, rest: seq<Event>)
    ensures var log := [Fetch(table, c, span), Dump(table, rows)] + rest;
      && Batches(log, table) == [rows] + Batches(rest, table)
      && Dumped(log, table) == rows + Dumped(rest, table)
      && Fetches(log) == [span] + Fetches(rest)
      && Deletes(log) == Deletes(rest)
  {
    var log := [Fetch(table, c, span), Dump(table, rows)] + rest;
    var tail := log[1..];
    assert log[0] == Fetch(table, c, span);
    assert tail[0] == Dump(table, rows) && tail[1..] == rest;
    assert Batches(tail, table) == [rows] + Batches(rest, table);
    assert Batches(log, table) == Batches(tail, table);
    assert Fetches(tail) == Fetches(rest);
    assert Deletes(tail) == Deletes(rest);
    var b := [rows] + Batches(rest, table);
    assert b[0] == rows && b[1..] == Batches(rest, table);
  }

  /** The `j`-th fetch asks for `size` rows at offset `(page + j) * size`. */
  predicate SteppedFrom(fs: seq<Span>, page: nat, size: nat) {
    forall j :: 0 <= j < |fs| ==> fs[j] == Range((page + j) * size, size)
  }

  /** Offsets of later pages, seen from one page earlier. */
  lemma ShiftOffsets(holds: bool, first: Span, rest: seq<Span>, page: nat, size: nat)
    requires first == Range(page * size, size)
    requires holds ==> SteppedFrom(rest, page + 1, size)
    ensures holds ==> SteppedFrom([first] + rest, page, size)
  {
    if holds {
      forall j | 0 <= j < |[first] + rest|
        ensures ([first] + rest)[j] == Range((page + j) * size, size)
      {
        if j > 0 {
          assert ([first] + rest)[j] == rest[j - 1];
          assert page + 1 + (j - 1) == page + j;
        }
      }
    }
  }

  /** The loop `while ($count >= $limit)` from page `page` on. The guard is
      checked before every fetch; a page is fetched at offset
      `page * size`, dumped, and the loop goes on while the page was full.
      The database does not change while the pages are read. */
  function Pages(st: State, table: string, ids: seq<Value>, size: nat, page: nat): (r: Run)
    requires size > 0
    requires page * size <= |Matching(st.db, table, ids)|
    ensures r.st.db == st.db
    ensures Extends(st, r.st)
    ensures st.guard.Unlimited? ==> r.Completed? && r.st.guard.Unlimited?
    ensures OnTable(Added(st, r.st), table)
    ensures Deletes(Added(st, r.st)) == []
    decreases |Matching(st.db, table, ids)| - page * size
  {
    match Check(st.guard)
    case None => Aborted(st)
    case Some(g) =>
      var m := Matching(st.db, table, ids);
      var off := page * size;
      var rows := Window(m, off, size);
      var step := [Fetch(table, VisitIn(ids), Range(off, size)), Dump(table, rows)];
      var next := State(st.db, st.log + step, g);
      OnePage(table, VisitIn(ids), Range(off, size), rows, []);
      if |rows| < size then
        assert Added(st, next) == step + [];
        Completed(next, 0)
      else
        assert (page + 1) * size == off + size;
        var r := Pages(next, table, ids, size, page + 1);
        ExtendsTrans(st, next, r.st);
        var rest := Added(next, r.st);
        assert Added(st, r.st) == step + rest;
        OnePage(table, VisitIn(ids), Range(off, size), rows, rest);
        r
  }

  /** The state after the page at `page` has been fetched and dumped. */
  ghost function NextPage(st: State, table: string, ids: seq<Value>, size: nat, page: nat): State
    requires Check(st.guard).Some?
  {
    var rows := Window(Matching(st.db, table, ids), page * size, size);
    State(st.db, st.log + [Fetch(table, VisitIn(ids), Range(page * size, size)), Dump(table, rows)],
          Check(st.guard).value)
  }

  /** A short page ends the loop: its fetch and dump are all it adds, and it
      holds every matching row from its offset on. */
  lemma PagesShortFacts(st: State, table: string, ids: seq<Value>, size: nat, page: nat)
    requires size > 0
    requires page * size <= |Matching(st.db, table, ids)|
    requires Check(st.guard).Some?
    requires |Window(Matching(st.db, table, ids), page * size, size)| < size
    ensures var m := Matching(st.db, table, ids);
      var rows := Window(m, page * size, size);
      var r := Pages(st, table, ids, size, page);
      && r.Completed?
      && Added(st, r.st) == [Fetch(table, VisitIn(ids), Range(page * size, size)), Dump(table, rows)]
      && rows == m[page * size..]
      && |m| < page * size + size
  {
    var m := Matching(st.db, table, ids);
    var off := page * size;
    var step := [Fetch(table, VisitIn(ids), Range(off, size)), Dump(table, Window(m, off, size))];
    assert st.log + step == NextPage(st, table, ids, size, page).log;
    WindowShort(m, off, size);
  }

  /** A full page leaves room for the next one, and the rows from its
      offset on are the page followed by the rows after it. */
  lemma FullPage(m: seq<Row>, size: nat, page: nat)
    requires size > 0
    requires page * size <= |m|
    requires |Window(m, page * size, size)| >= size
    ensures (page + 1) * size <= |m|
    ensures m[page * size..] == Window(m, page * size, size) + m[(page + 1) * size..]
  {
    assert (page + 1) * size == page * size + size;
    WindowSplit(m, page * size, size);
  }

  /** A full page is followed by the loop from the next page on. */
  lemma PagesLongFacts(st: State, table: string, ids: seq<Value>, size: nat, page: nat)
    requires size > 0
    requires Check(st.guard).Some?
    requires page * size <= |Matching(st.db, table, ids)|
    requires |Window(Matching(st.db, table, ids), page * size, size)| >= size
    requires (page + 1) * size <= |Matching(NextPage(st, table, ids, size, page).db, table, ids)|
    ensures var next := NextPage(st, table, ids, size, page);
      var rows := Window(Matching(st.db, table, ids), page * size, size);
      && Pages(st, table, ids, size, page) == Pages(next, table, ids, size, page + 1)
      && Extends(st, next)
      && Added(st, Pages(st, table, ids, size, page).st)
         == [Fetch(table, VisitIn(ids), Range(page * size, size)), Dump(table, rows)]
            + Added(next, Pages(next, table, ids, size, page + 1).st)
  {
    var next := NextPage(st, table, ids, size, page);
    var r := Pages(next, table, ids, size, page + 1);
    ExtendsTrans(st, next, r.st);
  }

  /** The next page's precondition, from a full page. */
  lemma NextPageFits(st: State, table: string, ids: seq<Value>, size: nat, page: nat)
    requires size > 0
    requires Check(st.guard).Some?
    requires page * size <= |Matching(st.db, table, ids)|
    requires |Window(Matching(st.db, table, ids), page * size, size)| >= size
    ensures (page + 1) * size <= |Matching(NextPage(st, table, ids, size, page).db, table, ids)|
  {
    FullPage(Matching(st.db, table, ids), size, page);
  }

  /** Read together, the pages of a completed loop are the matching rows from
      the starting offset on, each dumped once and in store order. */
  lemma {:induction false} PagesCover(st: State, table: string, ids: seq<Value>, size: nat, page: nat)
    requires size > 0
    requires page * size <= |Matching(st.db, table, ids)|
    ensures PagesCovered(st, table, ids, size, page)
    decreases |Matching(st.db, table, ids)| - page * size
  {
    if Check(st.guard).Some? {
      if |Window(Matching(st.db, table, ids), page * size, size)| < size {
        PagesCoverShort(st, table, ids, size, page);
      } else {
        NextPageFits(st, table, ids, size, page);
        PagesCover(NextPage(st, table, ids, size, page), table, ids, size, page + 1);
        PagesCoverLong(st, table, ids, size, page);
      }
    }
  }

  /** What `PagesCover` proves from page `page` on: a completed loop dumped
      the matching rows from offset `page * size` on, in store order. */
  ghost predicate PagesCovered(st: State, table: string, ids: seq<Value>, size: nat, page: nat)
    requires size > 0
    requires page * size <= |Matching(st.db, table, ids)|
  {
    var r := Pages(st, table, ids, size, page);
    r.Completed? ==> Dumped(Added(st, r.st), table) == Matching(st.db, table, ids)[page * size..]
  }

  /** `PagesCover` when the page at `page` is short and ends the loop. */
  lemma PagesCoverShort(st: State, table: string, ids: seq<Value>, size: nat, page: nat)
    requires size > 0
    requires page * size <= |Matching(st.db, table, ids)|
    requires Check(st.guard).Some?
    requires |Window(Matching(st.db, table, ids), page * size, size)| < size
    ensures PagesCovered(st, table, ids, size, page)
  {
    PagesShortFacts(st, table, ids, size, page);
    var rows := Window(Matching(st.db, table, ids), page * size, size);
    OnePage(table, VisitIn(ids), Range(page * size, size), rows, []);
    assert [Fetch(table, VisitIn(ids), Range(page * size, size)), Dump(table, rows)] + [] ==
           [Fetch(table, VisitIn(ids), Range(page * size, size)), Dump(table, rows)];
  }

  /** `PagesCover` when the page at `page` is full: the page, then the rest. */
  lemma PagesCoverLong(st: State, table: string, ids: seq<Value>, size: nat, page: nat)
    requires size > 0
    requires page * size <= |Matching(st.db, table, ids)|
    requires Check(st.guard).Some?
    requires |Window(Matching(st.db, table, ids), page * size, size)| >= size
    requires (page + 1) * size <= |Matching(NextPage(st, table, ids, size, page).db, table, ids)|
    requires PagesCovered(NextPage(st, table, ids, size, page), table, ids, size, page + 1)
    ensures PagesCovered(st, table, ids, size, page)
  {
    var m := Matching(st.db, table, ids);
    var rows := Window(m, page * size, size);
    var next := NextPage(st, table, ids, size, page);
    var r := Pages(next, table, ids, size, page + 1);
    PagesLongFacts(st, table, ids, size, page);
    if r.Completed? {
      CoverFullPage(Added(st, r.st), Added(next, r.st), table, ids, size, page, m);
    }
  }

  /** A full page in front of pages that dumped the rest of `m` dumps `m`
      from the page on. */
  lemma CoverFullPage(log: seq<Event>, rest: seq<Event>, table: string, ids: seq<Value>, size: nat,
                      page: nat, m: seq<Row>)
    requires size > 0
    requires page * size <= |m|
    requires |Window(m, page * size, size)| >= size
    requires log == [Fetch(table, VisitIn(ids), Range(page * size, size)), Dump(table, Window(m, page * size, size))] + rest
    requires (page + 1) * size <= |m| ==> Dumped(rest, table) == m[(page + 1) * size..]
    ensures Dumped(log, table) == m[page * size..]
  {
    FullPage(m, size, page);
    CoverStep(log, table, VisitIn(ids), Range(page * size, size), Window(m, page * size, size), rest,
              m[(page + 1) * size..], m[page * size..]);
  }

  /** A page in front of pages that dumped `tail` dumps the page, then `tail`. */
  lemma CoverStep(log: seq<Event>, table: string, c: Cond, span: Span, rows: seq<Row>, rest: seq<Event>,
                  tail: seq<Row>, whole: seq<Row>)
    requires log == [Fetch(table, c, span), Dump(table, rows)] + rest
    requires Dumped(rest, table) == tail
    requires whole == rows + tail
    ensures Dumped(log, table) == whole
  {
    OnePage(table, c, span, rows, rest);
  }

  /** Every page of a completed loop but the last is full and the last is
      short: the loop stops at the first short page. */
  lemma {:induction false} PagesShape(st: State, table: string, ids: seq<Value>, size: nat, page: nat)
    requires size > 0
    requires page * size <= |Matching(st.db, table, ids)|
    ensures PagesShaped(st, table, ids, size, page)
    decreases |Matching(st.db, table, ids)| - page * size
  {
    if Check(st.guard).Some? {
      if |Window(Matching(st.db, table, ids), page * size, size)| < size {
        PagesShapeShort(st, table, ids, size, page);
      } else {
        NextPageFits(st, table, ids, size, page);
        PagesShape(NextPage(st, table, ids, size, page), table, ids, size, page + 1);
        PagesShapeLong(st, table, ids, size, page);
      }
    }
  }

  /** What `PagesShape` proves from page `page` on. */
  ghost predicate PagesShaped(st: State, table: string, ids: seq<Value>, size: nat, page: nat)
    requires size > 0
    requires page * size <= |Matching(st.db, table, ids)|
  {
    var r := Pages(st, table, ids, size, page);
    r.Completed? ==> FullThenShort(Batches(Added(st, r.st), table), size)
  }

  /** `PagesShape` when the page at `page` is short and ends the loop. */
  lemma PagesShapeShort(st: State, table: string, ids: seq<Value>, size: nat, page: nat)
    requires size > 0
    requires page * size <= |Matching(st.db, table, ids)|
    requires Check(st.guard).Some?
    requires |Window(Matching(st.db, table, ids), page * size, size)| < size
    ensures PagesShaped(st, table, ids, size, page)
  {
    PagesShortFacts(st, table, ids, size, page);
    var rows := Window(Matching(st.db, table, ids), page * size, size);
    OnePage(table, VisitIn(ids), Range(page * size, size), rows, []);
    assert [Fetch(table, VisitIn(ids), Range(page * size, size)), Dump(table, rows)] + [] ==
           [Fetch(table, VisitIn(ids), Range(page * size, size)), Dump(table, rows)];
  }

  /** `PagesShape` when the page at `page` is full and the loop goes on. */
  lemma PagesShapeLong(st: State, table: string, ids: seq<Value>, size: nat, page: nat)
    requires size > 0
    requires page * size <= |Matching(st.db, table, ids)|
    requires Check(st.guard).Some?
    requires |Window(Matching(st.db, table, ids), page * size, size)| >= size
    requires (page + 1) * size <= |Matching(NextPage(st, table, ids, size, page).db, table, ids)|
    requires PagesShaped(NextPage(st, table, ids, size, page), table, ids, size, page + 1)
    ensures PagesShaped(st, table, ids, size, page)
  {
    var rows := Window(Matching(st.db, table, ids), page * size, size);
    var next := NextPage(st, table, ids, size, page);
    var r := Pages(next, table, ids, size, page + 1);
    PagesLongFacts(st, table, ids, size, page);
    OnePage(table, VisitIn(ids), Range(page * size, size), rows, Added(next, r.st));
    if r.Completed? {
      FullFirst(rows, Batches(Added(next, r.st), table), size);
    }
  }

  /** A full page in front keeps the full-then-short shape. */
  lemma FullFirst(rows: seq<Row>, rest: seq<seq<Row>>, size: nat)
    requires |rows| == size
    requires FullThenShort(rest, size)
    ensures FullThenShort([rows] + rest, size)
  {
    var all := [rows] + rest;
    forall j | 0 <= j < |all| - 1
      ensures |all[j]| == size
    {
      if j > 0 {
        assert all[j] == rest[j - 1];
      }
    }
    assert all[|all| - 1] == rest[|rest| - 1];
  }

  /** A completed loop fetched at offsets `page * size`, `(page + 1) * size`,
      ... with `size` rows each. */
  lemma {:induction false} PagesOffsets(st: State, table: string, ids: seq<Value>, size: nat, page: nat)
    requires size > 0
    requires page * size <= |Matching(st.db, table, ids)|
    ensures PagesStepped(st, table, ids, size, page)
    decreases |Matching(st.db, table, ids)| - page * size
  {
    if Check(st.guard).Some? {
      if |Window(Matching(st.db, table, ids), page * size, size)| < size {
        PagesOffsetsShort(st, table, ids, size, page);
      } else {
        NextPageFits(st, table, ids, size, page);
        PagesOffsets(NextPage(st, table, ids, size, page), table, ids, size, page + 1);
        PagesOffsetsLong(st, table, ids, size, page);
      }
    }
  }

  /** What `PagesOffsets` proves from page `page` on. */
  ghost predicate PagesStepped(st: State, table: string, ids: seq<Value>, size: nat, page: nat)
    requires size > 0
    requires page * size <= |Matching(st.db, table, ids)|
  {
    var r := Pages(st, table, ids, size, page);
    r.Completed? ==> SteppedFrom(Fetches(Added(st, r.st)), page, size)
  }

  /** `PagesOffsets` when the page at `page` is short and ends the loop. */
  lemma PagesOffsetsShort(st: State, table: string, ids: seq<Value>, size: nat, page: nat)
    requires size > 0
    requires page * size <= |Matching(st.db, table, ids)|
    requires Check(st.guard).Some?
    requires |Window(Matching(st.db, table, ids), page * size, size)| < size
    ensures PagesStepped(st, table, ids, size, page)
  {
    PagesShortFacts(st, table, ids, size, page);
    var rows := Window(Matching(st.db, table, ids), page * size, size);
    OnePage(table, VisitIn(ids), Range(page * size, size), rows, []);
    assert [Fetch(table, VisitIn(ids), Range(page * size, size)), Dump(table, rows)] + [] ==
           [Fetch(table, VisitIn(ids), Range(page * size, size)), Dump(table, rows)];
    assert SteppedFrom([Range(page * size, size)], page, size);
  }

  /** `PagesOffsets` when the page at `page` is full and the loop goes on. */
  lemma PagesOffsetsLong(st: State, table: string, ids: seq<Value>, size: nat, page: nat)
    requires size > 0
    requires page * size <= |Matching(st.db, table, ids)|
    requires Check(st.guard).Some?
    requires |Window(Matching(st.db, table, ids), page * size, size)| >= size
    requires (page + 1) * size <= |Matching(NextPage(st, table, ids, size, page).db, table, ids)|
    requires PagesStepped(NextPage(st, table, ids, size, page), table, ids, size, page + 1)
    ensures PagesStepped(st, table, ids, size, page)
  {
    var rows := Window(Matching(st.db, table, ids), page * size, size);
    var next := NextPage(st, table, ids, size, page);
    var r := Pages(next, table, ids, size, page + 1);
    PagesLongFacts(st, table, ids, size, page);
    OnePage(table, VisitIn(ids), Range(page * size, size), rows, Added(next, r.st));
    ShiftOffsets(r.Completed?, Range(page * size, size), Fetches(Added(next, r.st)), page, size);
  }

  /** A completed loop made `|m| / size - page + 1` fetches: one per full
      page and one more for the short page that ends it. */
  lemma {:induction false} PagesCount(st: State, table: string, ids: seq<Value>, size: nat, page: nat)
    requires size > 0
    requires page * size <= |Matching(st.db, table, ids)|
    ensures PagesCounted(st, table, ids, size, page)
    decreases |Matching(st.db, table, ids)| - page * size
  {
    if Check(st.guard).Some? {
      if |Window(Matching(st.db, table, ids), page * size, size)| < size {
        PagesCountShort(st, table, ids, size, page);
      } else {
        NextPageFits(st, table, ids, size, page);
        PagesCount(NextPage(st, table, ids, size, page), table, ids, size, page + 1);
        PagesCountLong(st, table, ids, size, page);
      }
    }
  }

  /** What `PagesCount` proves from page `page` on. */
  ghost predicate PagesCounted(st: State, table: string, ids: seq<Value>, size: nat, page: nat)
    requires size > 0
    requires page * size <= |Matching(st.db, table, ids)|
  {
    var r := Pages(st, table, ids, size, page);
    r.Completed? ==> |Fetches(Added(st, r.st))| == |Matching(st.db, table, ids)| / size - page + 1
  }

  /** `PagesCount` when the page at `page` is short and ends the loop. */
  lemma PagesCountShort(st: State, table: string, ids: seq<Value>, size: nat, page: nat)
    requires size > 0
    requires page * size <= |Matching(st.db, table, ids)|
    requires Check(st.guard).Some?
    requires |Window(Matching(st.db, table, ids), page * size, size)| < size
    ensures PagesCounted(st, table, ids, size, page)
  {
    PagesShortFacts(st, table, ids, size, page);
    var m := Matching(st.db, table, ids);
    FetchCountStep(table, VisitIn(ids), Range(page * size, size), Window(m, page * size, size), [], 0);
    LastPage(|m|, size, page);
  }

  /** `PagesCount` when the page at `page` is full and the loop goes on. */
  lemma PagesCountLong(st: State, table: string, ids: seq<Value>, size: nat, page: nat)
    requires size > 0
    requires page * size <= |Matching(st.db, table, ids)|
    requires Check(st.guard).Some?
    requires |Window(Matching(st.db, table, ids), page * size, size)| >= size
    requires (page + 1) * size <= |Matching(NextPage(st, table, ids, size, page).db, table, ids)|
    requires PagesCounted(NextPage(st, table, ids, size, page), table, ids, size, page + 1)
    ensures PagesCounted(st, table, ids, size, page)
  {
    PagesLongFacts(st, table, ids, size, page);
    var m := Matching(st.db, table, ids);
    var next := NextPage(st, table, ids, size, page);
    var r := Pages(next, table, ids, size, page + 1);
    if r.Completed? {
      FetchCountStep(table, VisitIn(ids), Range(page * size, size), Window(m, page * size, size), Added(next, r.st),
                     |m| / size - page);
    }
  }

  /** A short page at `page` means `page` full pages came before it. */
  lemma LastPage(n: nat, size: nat, page: nat)
    requires size > 0
    requires page * size <= n < page * size + size
    ensures n / size == page
  {
    assert (page + 1) * size == page * size + size;
    DivFromBounds(n, size, page);
  }

  /** One page adds one fetch to whatever the later pages fetched. */
  lemma FetchCountStep(table: string, c: Cond, span: Span, rows: seq<Row>, rest: seq<Event>, k: int)
    requires |Fetches(rest)| == k
    ensures |Fetches([Fetch(table, c, span), Dump(table, rows)] + rest)| == k + 1
    ensures |Fetches([Fetch(table, c, span), Dump(table, rows)])| == 1
  {
    OnePage(table, c, span, rows, rest);
    OnePage(table, c, span, rows, []);
    assert [Fetch(table, c, span), Dump(table, rows)] + [] == [Fetch(table, c, span), Dump(table, rows)];
  }

  /** `dumpSubTable($fp, $table, $ids)`: nothing at all for an empty id list;
      otherwise every page, then one delete of the same rows. */
  function DumpSubTable(st: State, table: string, ids: seq<Value>, size: nat): (r: Run)
    requires size > 0
    ensures |ids| == 0 ==> r == Completed(st, 0)
    ensures Extends(st, r.st)
    ensures st.guard.Unlimited? ==> r.Completed? && r.st.guard.Unlimited?
    ensures OnTable(Added(st, r.st), table)
    ensures r.Aborted? ==> r.st.db == st.db && Deletes(Added(st, r.st)) == []
    ensures r.Completed? && |ids| > 0 ==> r.st.db == DeleteWhere(st.db, table, VisitIn(ids))
    ensures r.Completed? ==> Dumped(Added(st, r.st), table) == Matching(st.db, table, ids)
    ensures r.Completed? && |ids| > 0 ==>
      && Deletes(Added(st, r.st)) == [(table, VisitIn(ids))]
      && Added(st, r.st)[|Added(st, r.st)| - 1] == Delete(table, VisitIn(ids))
  {
    if |ids| == 0 then
      assert Added(st, st) == [];
      SelectNone(RowsOf(st.db, table), VisitIn(ids));
      Completed(st, 0)
    else
      match Pages(st, table, ids, size, 0)
      case Aborted(s) => Aborted(s)
      case Completed(s, _) =>
        PagesCover(st, table, ids, size, 0);
        var done := State(DeleteWhere(s.db, table, VisitIn(ids)), s.log + [Delete(table, VisitIn(ids))], s.guard);
        DeleteAfterPages(st, s, done, table, VisitIn(ids));
        Completed(done, 0)
  }

  /** The delete that closes `dumpSubTable`: one more event, on the same
      table, adding a delete and no dump. */
  lemma DeleteAfterPages(st: State, s: State, done: State, table: string, c: Cond)
    requires Extends(st, s)
    requires OnTable(Added(st, s), table)
    requires Deletes(Added(st, s)) == []
    requires done.log == s.log + [Delete(table, c)]
    ensures Extends(st, done)
    ensures Added(st, done) == Added(st, s) + [Delete(table, c)]
    ensures OnTable(Added(st, done), table)
    ensures Deletes(Added(st, done)) == [(table, c)]
    ensures Dumped(Added(st, done), table) == Dumped(Added(st, s), table)
  {
    var del := Delete(table, c);
    assert Extends(s, done);
    ExtendsTrans(st, s, done);
    assert Added(s, done) == [del];
    DeletesAppend(Added(st, s), [del]);
    BatchesAppend(Added(st, s), [del], table);
    FlattenAppend(Batches(Added(st, s), table), Batches([del], table));
    assert Deletes([del]) == [(table, c)];
    assert Batches([del], table) == [];
  }

  /** The paging of a completed `dumpSubTable` on a non-empty id list: the
      fetches ask for `size` rows at offsets 0, `size`, `2 * size`, ...;
      every dumped page but the last is full and the last is short; and
      there is one fetch per full page plus the short one that ends the
      loop. */
  lemma DumpSubTablePaging(st: State, table: string, ids: seq<Value>, size: nat)
    requires size > 0 && |ids| > 0
    requires DumpSubTable(st, table, ids, size).Completed?
    ensures var a := Added(st, DumpSubTable(st, table, ids, size).st);
      && SteppedFrom(Fetches(a), 0, size)
      && FullThenShort(Batches(a, table), size)
      && |Fetches(a)| == |Matching(st.db, table, ids)| / size + 1
  {
    var r := DumpSubTable(st, table, ids, size);
    var s := Pages(st, table, ids, size, 0).st;
    var done := State(DeleteWhere(s.db, table, VisitIn(ids)), s.log + [Delete(table, VisitIn(ids))], s.guard);
    assert r.st == done;
    DeleteAfterPages(st, s, done, table, VisitIn(ids));
    PagesOffsets(st, table, ids, size, 0);
    PagesShape(st, table, ids, size, 0);
    PagesCount(st, table, ids, size, 0);
    ProjectAppend(Added(st, s), [Delete(table, VisitIn(ids))]);
    assert Fetches([Delete(table, VisitIn(ids))]) == [];
    assert Batches([Delete(table, VisitIn(ids))], table) == [];
  }

  /** `dumpSubTable` never deletes a row it has not dumped. */
  lemma DumpSubTableNoLoss(db0: Db, st: State, table: string, ids: seq<Value>, size: nat)
    requires size > 0
    requires NoLoss(db0, st)
    ensures NoLoss(db0, DumpSubTable(st, table, ids, size).st)
  {
    var r := DumpSubTable(st, table, ids, size);
    if r.Aborted? || |ids| == 0 {
      NoLossKeep(db0, st, r.st);
    } else {
      AddedSplit(st, r.st);
      ProjectAppend(st.log, Added(st, r.st));
      SelectMembers(RowsOf(st.db, table), VisitIn(ids));
      NoLossDelete(db0, st, r.st, table, VisitIn(ids));
    }
  }
}
