/** The website-mode tail of `DbMysql::execute`: once a site's visits are
    gone, its archive tables and four configuration tables are dumped and
    cleared for that site. */
module Cleanup {
  import opened Wrappers
  import opened Text
  import opened Rows
  import opened Store

  /** The name test `preg_match('/archive_/', $tabname)`. */
  predicate IsArchive(name: string) {
    Contains(name, "archive_")
  }

  /** The `archive_` tables of a `SHOW TABLES` listing, in listing order. */
  function ArchiveTables(listing: seq<string>): (r: seq<string>)
    ensures forall t :: t in r <==> t in listing && IsArchive(t)
    ensures |r| <= |listing|
    decreases |listing|
  {
    if |listing| == 0 then []
    else (if IsArchive(listing[0]) then [listing[0]] else []) + ArchiveTables(listing[1..])
  }

  /** The filter keeps the listing's order: filtering two listings one after
      the other is filtering their concatenation. */
  lemma {:induction false} ArchiveTablesAppend(a: seq<string>, b: seq<string>)
    ensures ArchiveTables(a + b) == ArchiveTables(a) + ArchiveTables(b)
    decreases |a|
  {
    if |a| == 0 {
      assert a + b == b;
    } else {
      ArchiveTablesAppend(a[1..], b);
      assert (a + b)[1..] == a[1..] + b;
      assert (a + b)[0] == a[0];
      var h := if IsArchive(a[0]) then [a[0]] else [];
      assert ArchiveTables(a + b) == h + ArchiveTables(a[1..] + b);
      assert ArchiveTables(a) == h + ArchiveTables(a[1..]);
    }
  }

  /** The site-related tables every site cleanup covers after the archives. */
  const FixedTables: seq<string> := ["goal", "site_url", "access", "site"]

  /** `$dumpTables`: the archive tables, then the four fixed tables. */
  function SiteTables(listing: seq<string>): (r: seq<string>)
    ensures |r| == |ArchiveTables(listing)| + 4
    ensures r[|r| - 4..] == FixedTables
    ensures forall t :: t in r <==> (t in listing && IsArchive(t)) || t in FixedTables
  {
    ArchiveTables(listing) + FixedTables
  }

  /** One table of the cleanup: `SELECT *` of the site's rows, their dump,
      then `DELETE` of the same rows. */
  function SiteStep(st: State, table: string, site: int): (r: State)
    ensures Extends(st, r)
    ensures r.guard == st.guard
    ensures RowsOf(r.db, table) == Reject(RowsOf(st.db, table), SiteIs(site))
    ensures forall u :: u != table ==> RowsOf(r.db, u) == RowsOf(st.db, u)
    ensures Added(st, r) ==
      [Fetch(table, SiteIs(site), All), Dump(table, Select(RowsOf(st.db, table), SiteIs(site))),
       Delete(table, SiteIs(site))]
  {
    var rows := Select(RowsOf(st.db, table), SiteIs(site));
    var step := [Fetch(table, SiteIs(site), All), Dump(table, rows), Delete(table, SiteIs(site))];
    State(DeleteWhere(st.db, table, SiteIs(site)), st.log + step, st.guard)
  }

  /** The `foreach ($dumpTables as $tablename)` loop over `tables`. */
  function CleanSite(st: State, tables: seq<string>, site: int): (r: State)
    ensures Extends(st, r)
    ensures r.guard == st.guard
    ensures r.db.listing == st.db.listing
    decreases |tables|
  {
    if |tables| == 0 then
      st
    else
      var s := SiteStep(st, tables[0], site);
      var r := CleanSite(s, tables[1..], site);
      ExtendsTrans(st, s, r);
      r
  }

  /** The deletes of a cleanup: one per table, in table order. */
  function SiteDeletes(tables: seq<string>, site: int): (r: seq<(string, Cond)>)
    ensures |r| == |tables|
    ensures forall k :: 0 <= k < |tables| ==> r[k] == (tables[k], SiteIs(site))
  {
    seq(|tables|, k requires 0 <= k < |tables| => (tables[k], SiteIs(site)))
  }

  /** The projections of a fetch, a dump and a delete on one table. */
  lemma StepTrace(table: string, c: Cond, rows: seq<Row>)
    ensures var a := [Fetch(table, c, All), Dump(table, rows), Delete(table, c)];
      && Deletes(a) == [(table, c)]
      && Dumped(a, table) == rows
      && forall u :: u != table ==> Dumped(a, u) == []
  {
    var a := [Fetch(table, c, All), Dump(table, rows), Delete(table, c)];
    assert a[1..] == [Dump(table, rows), Delete(table, c)];
    assert a[1..][1..] == [Delete(table, c)];
    assert a[1..][1..][1..] == [];
    assert Deletes(a[1..][1..]) == [(table, c)] + Deletes(a[1..][1..][1..]);
    assert Deletes(a[1..]) == Deletes(a[1..][1..]);
    forall u
      ensures Batches(a, u) == if u == table then [rows] else []
    {
      assert Batches(a[1..][1..], u) == [];
    }
    assert Flatten([rows]) == rows + Flatten<Row>([]);
  }

  /** The projections of one table's step. */
  lemma SiteStepTrace(st: State, table: string, site: int)
    ensures var a := Added(st, SiteStep(st, table, site));
      && Deletes(a) == [(table, SiteIs(site))]
      && Dumped(a, table) == Select(RowsOf(st.db, table), SiteIs(site))
      && forall u :: u != table ==> Dumped(a, u) == []
  {
    StepTrace(table, SiteIs(site), Select(RowsOf(st.db, table), SiteIs(site)));
  }

  lemma SiteDeletesCons(tables: seq<string>, site: int)
    requires |tables| > 0
    ensures SiteDeletes(tables, site) == [(tables[0], SiteIs(site))] + SiteDeletes(tables[1..], site)
  {
    var l, r := SiteDeletes(tables, site), [(tables[0], SiteIs(site))] + SiteDeletes(tables[1..], site);
    assert |l| == |r|;
    forall k | 0 <= k < |l|
      ensures l[k] == r[k]
    {
      if k > 0 {
        assert r[k] == SiteDeletes(tables[1..], site)[k - 1];
      }
    }
  }

  /** The cleanup deletes the site's rows table by table, in table order. */
  lemma {:induction false} CleanSiteDeletes(st: State, tables: seq<string>, site: int)
    ensures Deletes(Added(st, CleanSite(st, tables, site))) == SiteDeletes(tables, site)
    decreases |tables|
  {
    var r := CleanSite(st, tables, site);
    if |tables| == 0 {
      assert Added(st, st) == [];
    } else {
      var s := SiteStep(st, tables[0], site);
      CleanSiteDeletes(s, tables[1..], site);
      assert r == CleanSite(s, tables[1..], site);
      ExtendsTrans(st, s, r);
      SiteStepTrace(st, tables[0], site);
      DeletesAppend(Added(st, s), Added(s, r));
      SiteDeletesCons(tables, site);
    }
  }

  /** The cleanup leaves no row of the site in any of the tables and touches
      no other table. */
  lemma {:induction false} CleanSiteRows(st: State, tables: seq<string>, site: int)
    ensures var db := CleanSite(st, tables, site).db;
      forall u ::
        RowsOf(db, u) == if u in tables then Reject(RowsOf(st.db, u), SiteIs(site)) else RowsOf(st.db, u)
    decreases |tables|
  {
    if |tables| > 0 {
      var t := tables[0];
      var s := SiteStep(st, t, site);
      CleanSiteRows(s, tables[1..], site);
      assert CleanSite(st, tables, site) == CleanSite(s, tables[1..], site);
      assert forall u :: u in tables <==> u == t || u in tables[1..];
      RejectSettled(RowsOf(st.db, t), SiteIs(site));
    }
  }

  /** The cleanup dumps, for each of the tables, exactly the site's rows it
      deletes, and nothing for any other table. */
  lemma CleanSiteDumped(st: State, tables: seq<string>, site: int)
    ensures var a := Added(st, CleanSite(st, tables, site));
      forall u ::
        Dumped(a, u) == if u in tables then Select(RowsOf(st.db, u), SiteIs(site)) else []
  {
    forall u
      ensures Dumped(Added(st, CleanSite(st, tables, site)), u)
              == if u in tables then Select(RowsOf(st.db, u), SiteIs(site)) else []
    {
      CleanSiteDumpedAt(st, tables, site, u);
    }
  }

  /** `CleanSiteDumped` for one table name `u`. */
  lemma {:induction false} CleanSiteDumpedAt(st: State, tables: seq<string>, site: int, u: string)
    ensures Dumped(Added(st, CleanSite(st, tables, site)), u)
            == if u in tables then Select(RowsOf(st.db, u), SiteIs(site)) else []
    decreases |tables|
  {
    var r := CleanSite(st, tables, site);
    if |tables| == 0 {
      assert Added(st, st) == [];
    } else {
      var t := tables[0];
      var s := SiteStep(st, t, site);
      CleanSiteDumpedAt(s, tables[1..], site, u);
      assert r == CleanSite(s, tables[1..], site);
      ExtendsTrans(st, s, r);
      SiteStepTrace(st, t, site);
      ProjectAppend(Added(st, s), Added(s, r));
      assert Dumped(Added(st, r), u) == Dumped(Added(st, s), u) + Dumped(Added(s, r), u);
      assert u in tables <==> u == t || u in tables[1..];
      if u == t {
        RejectSettled(RowsOf(st.db, t), SiteIs(site));
      }
    }
  }

  /** The cleanup never deletes a row it has not dumped for that table. */
  lemma {:induction false} CleanSiteNoLoss(db0: Db, st: State, tables: seq<string>, site: int)
    requires NoLoss(db0, st)
    ensures NoLoss(db0, CleanSite(st, tables, site))
    decreases |tables|
  {
    if |tables| > 0 {
      var t := tables[0];
      var s := SiteStep(st, t, site);
      SiteStepTrace(st, t, site);
      AddedSplit(st, s);
      ProjectAppend(st.log, Added(st, s));
      SelectMembers(RowsOf(st.db, t), SiteIs(site));
      NoLossDelete(db0, st, s, t, SiteIs(site));
      CleanSiteNoLoss(db0, s, tables[1..], site);
    }
  }
}
