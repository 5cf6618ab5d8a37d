/** `DbMysql::execute`: one run of the plugin, an `executeDump` pass and, in
    website mode once the site's visits are gone, the site cleanup. */
module Execution {
  import opened Rows
  import opened Store
  import opened Selection
  import opened Extract
  import opened Cleanup

  /** `execute($fp)`. A positive count from `executeDump` is returned as it
      is; a zero count ends the run when the site id is 0 (or absent), and
      otherwise starts the cleanup of that site and returns 0. A negative
      site id reaches the cleanup too, as `$siteId == null` is false for it. */
  function Execute(c: Config, st: State): (r: Run)
    ensures Extends(st, r.st)
    ensures st.guard.Unlimited? ==> r.Completed?
    ensures r.Completed? ==> r.count == |Visits(c, st.db)|
    ensures |Visits(c, st.db)| > 0 ==> r == ExecuteDump(c, st)
    ensures |Visits(c, st.db)| == 0 && SiteId(c) == 0 ==>
      r.Completed? && r.st.db == st.db && Added(st, r.st) == [VisitFetch(c)]
  {
    match ExecuteDump(c, st)
    case Aborted(s) => Aborted(s)
    case Completed(s, n) =>
      if n > 0 then Completed(s, n)
      else if SiteId(c) == 0 then Completed(s, 0)
      else
        var done := CleanSite(s, SiteTables(s.db.listing), SiteId(c));
        ExtendsTrans(st, s, done);
        Completed(done, 0)
  }

  /** The cleanup branch, from the caller's side: after the visit fetch, the
      archive tables in listing order and then the four fixed tables are each
      dumped for the site and cleared of it; nothing else changes. */
  lemma ExecuteCleanup(c: Config, st: State)
    requires |Visits(c, st.db)| == 0 && SiteId(c) != 0
    ensures var r := Execute(c, st);
      var tables := SiteTables(st.db.listing);
      && r.Completed? && r.count == 0
      && Deletes(Added(st, r.st)) == SiteDeletes(tables, SiteId(c))
      && (forall u :: RowsOf(r.st.db, u) ==
            if u in tables then Reject(RowsOf(st.db, u), SiteIs(SiteId(c))) else RowsOf(st.db, u))
      && (forall u :: Dumped(Added(st, r.st), u) ==
            if u in tables then Select(RowsOf(st.db, u), SiteIs(SiteId(c))) else [])
  {
    var s := AfterFetch(c, st);
    var tables := SiteTables(st.db.listing);
    var done := CleanSite(s, tables, SiteId(c));
    CleanupShape(c, st);
    FetchFirst(c, Added(s, done));
    CleanSiteDeletes(s, tables, SiteId(c));
    CleanSiteRows(s, tables, SiteId(c));
    CleanSiteDumped(s, tables, SiteId(c));
  }

  /** A run that found no visits and has a site to clean is the visit fetch
      followed by the cleanup of the listing's tables. */
  lemma CleanupShape(c: Config, st: State)
    requires |Visits(c, st.db)| == 0 && SiteId(c) != 0
    ensures var s := AfterFetch(c, st);
      var done := CleanSite(s, SiteTables(st.db.listing), SiteId(c));
      && s.db == st.db
      && Execute(c, st) == Completed(done, 0)
      && Extends(st, done)
      && Added(st, done) == [VisitFetch(c)] + Added(s, done)
  {
    var s := AfterFetch(c, st);
    assert ExecuteDump(c, st) == Completed(s, 0);
    var done := CleanSite(s, SiteTables(st.db.listing), SiteId(c));
    ExtendsTrans(st, s, done);
    assert Added(st, s) == [VisitFetch(c)];
  }

  /** The visit fetch in front of a trace adds no delete and no dump. */
  lemma FetchFirst(c: Config, rest: seq<Event>)
    ensures Deletes([VisitFetch(c)] + rest) == Deletes(rest)
    ensures forall u :: Dumped([VisitFetch(c)] + rest, u) == Dumped(rest, u)
  {
    ProjectAppend([VisitFetch(c)], rest);
    assert Deletes([VisitFetch(c)]) == [];
    forall u
      ensures Dumped([VisitFetch(c)], u) == []
    {
      assert Batches([VisitFetch(c)], u) == [];
    }
  }

  /** A whole run, however it ends, never deletes a row it has not dumped
      for that table first. */
  lemma ExecuteNoLoss(db0: Db, c: Config, st: State)
    requires NoLoss(db0, st)
    requires UniqueVisitIds(RowsOf(st.db, VisitTable))
    ensures NoLoss(db0, Execute(c, st).st)
  {
    ExecuteDumpNoLoss(db0, c, st);
    match ExecuteDump(c, st)
    case Aborted(_) =>
    case Completed(s, n) =>
      CleanSiteNoLoss(db0, s, SiteTables(s.db.listing), SiteId(c));
  }
}
