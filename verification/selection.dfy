/** Run configuration and the arithmetic that decides what one run touches:
    `where()`, the dependent-table page size, and the id slices. */
module Selection {
  import opened Wrappers
  import opened Text
  import opened Rows

  /** The plugin's settings as `getConfig` sees them. `cutoff` is the `until`
      timestamp already rendered by `date('Y-m-d H:i:s', $until)`. */
  datatype Config = Config(idsite: Option<int>, cutoff: seq<byte>, limit: Option<nat>)

  /** `getConfig('idsite', 0)`. */
  function SiteId(c: Config): int {
    c.idsite.GetOr(0)
  }

  /** `where()`: site mode for a positive site id, retention mode otherwise. */
  function Where(c: Config): (r: Cond)
    ensures r.SiteIs? <==> SiteId(c) > 0
    ensures r.SiteIs? ==> r.site == SiteId(c)
    ensures r.ActedBefore? ==> r.cutoff == c.cutoff
  {
    if SiteId(c) > 0 then SiteIs(SiteId(c)) else ActedBefore(c.cutoff)
  }

  /** What the condition of `where()` selects, row by row. In site mode a
      row is selected when its `idsite` holds the site id, whether the
      driver typed the column as an int or returned its decimal text, and a
      row without an `idsite` column is never selected. */
  lemma WhereSelects(c: Config, row: Row)
    ensures SiteId(c) > 0 ==>
      (Matches(Where(c), row) <==> KeyNumber(Lookup(row, "idsite").GetOr(Null)) == Some(SiteId(c)))
    ensures SiteId(c) > 0 && Lookup(row, "idsite") == Some(Int(SiteId(c))) ==> Matches(Where(c), row)
    ensures SiteId(c) > 0 && Lookup(row, "idsite") == Some(KeyText(SiteId(c))) ==> Matches(Where(c), row)
    ensures SiteId(c) > 0 && Lookup(row, "idsite") == None ==> !Matches(Where(c), row)
    ensures SiteId(c) <= 0 ==>
      (Matches(Where(c), row) <==> Matches(ActedBefore(c.cutoff), row))
  {
  }

  /** `getConfig('limit', 500)`: how many visits one run fetches. */
  function VisitLimit(c: Config): nat {
    c.limit.GetOr(500)
  }

  function Clamp(x: int, lo: int, hi: int): int
    requires lo <= hi
  {
    if x < lo then lo else if x > hi then hi else x
  }

  /** `intVal(min(200, max(5, $limit / 10)))`, with PHP's float division. */
  function FencedPageSize(limit: int): (r: int)
    ensures 5 <= r <= 200
    ensures r == Clamp(limit / 10, 5, 200)
  {
    var q := limit as real / 10.0;
    var atLeast := if q > 5.0 then q else 5.0;
    var atMost := if atLeast < 200.0 then atLeast else 200.0;
    assert atMost.Floor == Clamp(limit / 10, 5, 200) by {
      // Dividing by ten as a float and rounding down is integer division.
      var d, m := limit / 10, limit % 10;
      assert limit == 10 * d + m;
      assert q == d as real + m as real / 10.0;
      assert d as real <= q < (d + 1) as real;
    }
    atMost.Floor
  }

  /** The page size `dumpSubTable` uses: `getConfig('limit', 200)` fenced. */
  function PageSize(c: Config): (r: int)
    ensures 5 <= r <= 200
  {
    FencedPageSize(c.limit.GetOr(200))
  }

  /** `array_slice($ids, $t, $size)` for `$t = 0, size, 2*size, ...`. */
  function Slices<T>(xs: seq<T>, size: nat): (r: seq<seq<T>>)
    requires size > 0
    decreases |xs|
  {
    if |xs| == 0 then []
    else if |xs| <= size then [xs]
    else [xs[..size]] + Slices(xs[size..], size)
  }

  /** The first slice, then the slices of what follows it. */
  lemma SlicesUnfold<T>(xs: seq<T>, size: nat, cut: nat)
    requires size > 0 && 0 < cut <= |xs|
    requires cut == size || (cut == |xs| && |xs| <= size)
    ensures Slices(xs, size) == [xs[..cut]] + Slices(xs[cut..], size)
  {
    if cut == |xs| {
      assert xs[..cut] == xs;
      assert Slices(xs[cut..], size) == [];
    }
  }

  /** The slices cover the list in order. */
  lemma {:induction false} SlicesCover<T>(xs: seq<T>, size: nat)
    requires size > 0
    ensures Flatten(Slices(xs, size)) == xs
    decreases |xs|
  {
    if |xs| > size {
      SlicesCover(xs[size..], size);
      assert xs[..size] + xs[size..] == xs;
    } else if |xs| > 0 {
      assert Flatten([xs]) == xs + [];
    }
  }

  /** Each slice holds between one and `size` elements, and every one but
      the last holds exactly `size`. */
  lemma {:induction false} SlicesSizes<T>(xs: seq<T>, size: nat)
    requires size > 0
    ensures forall k :: 0 <= k < |Slices(xs, size)| ==> 0 < |Slices(xs, size)[k]| <= size
    ensures forall k :: 0 <= k < |Slices(xs, size)| - 1 ==> |Slices(xs, size)[k]| == size
    decreases |xs|
  {
    if |xs| > size {
      SlicesSizes(xs[size..], size);
    }
  }

  /** There are `ceil(|xs| / size)` slices: just enough to hold the list. */
  lemma {:induction false} SlicesCount<T>(xs: seq<T>, size: nat)
    requires size > 0
    ensures (|Slices(xs, size)| - 1) * size < |xs| <= |Slices(xs, size)| * size || |xs| == |Slices(xs, size)| == 0
    decreases |xs|
  {
    if |xs| > size {
      SlicesCount(xs[size..], size);
      var k := |Slices(xs[size..], size)|;
      assert |Slices(xs, size)| == k + 1;
      assert (k + 1) * size == k * size + size;
    }
  }
}
