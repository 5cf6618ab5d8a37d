/** Rows as the database hands them to the plugin, and the WHERE conditions
    the plugin puts on them. */
module Rows {
  import opened Wrappers
  import opened Text
  import Decimal

  /** A column value after the driver has typed it. Every value that is
      neither NULL nor a PHP int is a byte string. */
  datatype Value = Null | Int(n: int) | Str(bytes: seq<byte>)

  /** One column of a row, in the order the database returned it. */
  datatype Field = Field(key: string, value: Value)

  type Row = seq<Field>

  /** Column `i` is the first one named `key`. */
  predicate FirstNamed(row: Row, key: string, i: int) {
    0 <= i < |row| && row[i].key == key && forall j :: 0 <= j < i ==> row[j].key != key
  }

  /** `$row[$key]`: the value of the first column named `key`, if any; see
      `LookupFirst` for which column wins. */
  function Lookup(row: Row, key: string): (r: Option<Value>)
    ensures r.Some? <==> exists i :: 0 <= i < |row| && row[i].key == key
    decreases |row|
  {
    if |row| == 0 then None
    else if row[0].key == key then Some(row[0].value)
    else Lookup(row[1..], key)
  }

  /** When several columns share a name, the first one wins. */
  lemma {:induction false} LookupFirst(row: Row, key: string, i: int)
    requires FirstNamed(row, key, i)
    ensures Lookup(row, key) == Some(row[i].value)
    decreases i
  {
    if i > 0 {
      assert row[0].key != key;
      LookupFirst(row[1..], key, i - 1);
    }
  }

  /** `$v['idvisit']`: NULL when the column is missing. */
  function IdOf(row: Row): Value {
    Lookup(row, "idvisit").GetOr(Null)
  }

  /** The number MySQL sees in an integer key column (`idsite`, `idvisit`)
      when it compares the column with an integer: the int itself, or the
      decimal text a driver hands back for such a column. NULL and text that
      is not a decimal integer hold no key number. */
  function KeyNumber(v: Value): Option<int> {
    match v
    case Null => None
    case Int(n) => Some(n)
    case Str(bs) => Decimal.ParseInt(TextOf(bs))
  }

  /** The decimal text of `n`, as a driver returns an integer column. */
  function KeyText(n: int): (r: Value)
    ensures r.Str? && KeyNumber(r) == Some(n)
  {
    var t := Decimal.IntText(n);
    assert IsNarrow(t);
    TextOfNarrow(t);
    Decimal.ParseIntText(n);
    Str(NarrowBytes(t))
  }

  /** The key numbers of an id list, in list order; ids without one (NULL,
      non-numeric text) contribute nothing. */
  function Numbers(ids: seq<Value>): (r: seq<int>)
    decreases |ids|
  {
    if |ids| == 0 then []
    else (match KeyNumber(ids[0]) case Some(k) => [k] case None => []) + Numbers(ids[1..])
  }

  /** A number is in the list exactly when some id holds it. */
  lemma {:induction false} NumbersHas(ids: seq<Value>, k: int)
    ensures k in Numbers(ids) <==> exists i :: 0 <= i < |ids| && KeyNumber(ids[i]) == Some(k)
    decreases |ids|
  {
    if |ids| > 0 {
      NumbersHas(ids[1..], k);
      if exists i :: 0 <= i < |ids[1..]| && KeyNumber(ids[1..][i]) == Some(k) {
        var i :| 0 <= i < |ids[1..]| && KeyNumber(ids[1..][i]) == Some(k);
        assert KeyNumber(ids[i + 1]) == Some(k);
      }
      if exists i :: 0 <= i < |ids| && KeyNumber(ids[i]) == Some(k) {
        var i :| 0 <= i < |ids| && KeyNumber(ids[i]) == Some(k);
        if i > 0 {
          assert KeyNumber(ids[1..][i - 1]) == Some(k);
        }
      }
    }
  }

  lemma {:induction false} NumbersAppend(a: seq<Value>, b: seq<Value>)
    ensures Numbers(a + b) == Numbers(a) + Numbers(b)
    decreases |a|
  {
    if |a| == 0 {
      assert a + b == b;
    } else {
      NumbersAppend(a[1..], b);
      assert (a + b)[1..] == a[1..] + b;
    }
  }

  /** The visit ids of a batch, in batch order. */
  function Ids(rows: seq<Row>): (r: seq<Value>)
    ensures |r| == |rows|
    ensures forall i :: 0 <= i < |rows| ==> r[i] == IdOf(rows[i])
  {
    seq(|rows|, i requires 0 <= i < |rows| => IdOf(rows[i]))
  }

  /** Byte-wise lexicographic order, which is the order of MySQL datetime
      text of the fixed form `Y-m-d H:i:s`. */
  predicate LexLess(a: seq<byte>, b: seq<byte>)
    decreases |a|
  {
    if |b| == 0 then false
    else if |a| == 0 then true
    else if a[0] != b[0] then a[0] < b[0]
    else LexLess(a[1..], b[1..])
  }

  /** The WHERE conditions the plugin issues. */
  datatype Cond =
    | SiteIs(site: int)             // idsite = n
    | ActedBefore(cutoff: seq<byte>) // visit_last_action_time < 'cutoff'
    | VisitIn(ids: seq<Value>)       // idvisit IN (ids)

  predicate Matches(c: Cond, row: Row) {
    match c
    case SiteIs(n) => KeyNumber(Lookup(row, "idsite").GetOr(Null)) == Some(n)
    case ActedBefore(cutoff) =>
      (match Lookup(row, "visit_last_action_time")
       case Some(Str(t)) => LexLess(t, cutoff)
       case _ => false)
    case VisitIn(ids) =>
      (match KeyNumber(IdOf(row)) case Some(k) => k in Numbers(ids) case None => false)
  }

  /** `SELECT *` with a condition: the matching rows in store order. */
  function Select(rows: seq<Row>, c: Cond): (r: seq<Row>)
    ensures |r| <= |rows|
    decreases |rows|
  {
    if |rows| == 0 then []
    else (if Matches(c, rows[0]) then [rows[0]] else []) + Select(rows[1..], c)
  }

  /** What a `DELETE` with a condition leaves behind: the other rows, in order. */
  function Reject(rows: seq<Row>, c: Cond): (r: seq<Row>)
    ensures |r| <= |rows|
    decreases |rows|
  {
    if |rows| == 0 then []
    else (if Matches(c, rows[0]) then [] else [rows[0]]) + Reject(rows[1..], c)
  }

  /** A row is selected exactly when it is in the table and matches. */
  lemma {:induction false} SelectHas(rows: seq<Row>, c: Cond, row: Row)
    ensures row in Select(rows, c) <==> row in rows && Matches(c, row)
    decreases |rows|
  {
    if |rows| > 0 {
      SelectHas(rows[1..], c, row);
      assert rows == [rows[0]] + rows[1..];
    }
  }

  /** A row survives a delete exactly when it is in the table and does not
      match. */
  lemma {:induction false} RejectHas(rows: seq<Row>, c: Cond, row: Row)
    ensures row in Reject(rows, c) <==> row in rows && !Matches(c, row)
    decreases |rows|
  {
    if |rows| > 0 {
      RejectHas(rows[1..], c, row);
      assert rows == [rows[0]] + rows[1..];
    }
  }

  lemma SelectMembers(rows: seq<Row>, c: Cond)
    ensures forall row :: row in Select(rows, c) <==> row in rows && Matches(c, row)
  {
    forall row
      ensures row in Select(rows, c) <==> row in rows && Matches(c, row)
    {
      SelectHas(rows, c, row);
    }
  }

  lemma RejectMembers(rows: seq<Row>, c: Cond)
    ensures forall row :: row in Reject(rows, c) <==> row in rows && !Matches(c, row)
  {
    forall row
      ensures row in Reject(rows, c) <==> row in rows && !Matches(c, row)
    {
      RejectHas(rows, c, row);
    }
  }

  /** The rows a delete removes and the rows it keeps are, together, the
      table as it was. */
  lemma {:induction false} SelectRejectSplit(rows: seq<Row>, c: Cond)
    ensures multiset(Select(rows, c)) + multiset(Reject(rows, c)) == multiset(rows)
    decreases |rows|
  {
    if |rows| > 0 {
      var x, rest := rows[0], rows[1..];
      assert rows == [x] + rest;
      SelectRejectSplit(rest, c);
      RejectCons(x, rest, c);
      var s, r := Select(rest, c), Reject(rest, c);
      assert multiset(rows) == multiset{x} + multiset(rest);
      if Matches(c, x) {
        assert multiset(Select(rows, c)) == multiset{x} + multiset(s);
        assert multiset(Reject(rows, c)) == multiset(r);
      } else {
        assert multiset(Select(rows, c)) == multiset(s);
        assert multiset(Reject(rows, c)) == multiset{x} + multiset(r);
      }
    }
  }

  lemma {:induction false} SelectAppend(a: seq<Row>, b: seq<Row>, c: Cond)
    ensures Select(a + b, c) == Select(a, c) + Select(b, c)
    decreases |a|
  {
    if |a| == 0 {
      assert a + b == b;
    } else {
      var x := a[0];
      SelectAppend(a[1..], b, c);
      assert a + b == [x] + (a[1..] + b);
      assert a == [x] + a[1..];
      RejectCons(x, a[1..] + b, c);
      RejectCons(x, a[1..], c);
      AppendAssoc(if Matches(c, x) then [x] else [], Select(a[1..], c), Select(b, c));
    }
  }

  /** One step of a delete: the head row is dropped or kept by itself. */
  lemma RejectCons(x: Row, rest: seq<Row>, c: Cond)
    ensures Reject([x] + rest, c) == (if Matches(c, x) then [] else [x]) + Reject(rest, c)
    ensures Select([x] + rest, c) == (if Matches(c, x) then [x] else []) + Select(rest, c)
  {
    assert ([x] + rest)[0] == x;
    assert ([x] + rest)[1..] == rest;
  }

  lemma InBoth(x: Row, a: seq<Value>, b: seq<Value>)
    ensures Matches(VisitIn(a + b), x) <==> Matches(VisitIn(a), x) || Matches(VisitIn(b), x)
  {
    NumbersAppend(a, b);
  }

  /** Deleting with two id lists in turn is deleting with their concatenation. */
  lemma {:induction false} RejectTwice(rows: seq<Row>, a: seq<Value>, b: seq<Value>)
    ensures Reject(Reject(rows, VisitIn(a)), VisitIn(b)) == Reject(rows, VisitIn(a + b))
    decreases |rows|
  {
    if |rows| > 0 {
      var x, rest := rows[0], rows[1..];
      assert rows == [x] + rest;
      RejectTwice(rest, a, b);
      InBoth(x, a, b);
      RejectCons(x, rest, VisitIn(a));
      RejectCons(x, rest, VisitIn(a + b));
      var r := Reject(rest, VisitIn(a));
      if Matches(VisitIn(a), x) {
        assert Reject(rows, VisitIn(a)) == r;
        assert Reject(rows, VisitIn(a + b)) == Reject(rest, VisitIn(a + b));
      } else {
        assert Reject(rows, VisitIn(a)) == [x] + r;
        RejectCons(x, r, VisitIn(b));
        if Matches(VisitIn(b), x) {
          assert Reject(rows, VisitIn(a + b)) == Reject(rest, VisitIn(a + b));
        } else {
          assert Reject(rows, VisitIn(a + b)) == [x] + Reject(rest, VisitIn(a + b));
        }
      }
    }
  }

  /** Selecting the ids `b` after the ids `a` were deleted picks up exactly
      the rows of `a + b` that the selection of `a` did not: no row twice,
      none lost. */
  lemma {:induction false} SelectAfterReject(rows: seq<Row>, a: seq<Value>, b: seq<Value>)
    ensures multiset(Select(rows, VisitIn(a))) + multiset(Select(Reject(rows, VisitIn(a)), VisitIn(b)))
         == multiset(Select(rows, VisitIn(a + b)))
    decreases |rows|
  {
    if |rows| > 0 {
      var x, rest := rows[0], rows[1..];
      assert rows == [x] + rest;
      SelectAfterReject(rest, a, b);
      if Matches(VisitIn(a), x) {
        AfterRejectFirst(x, rest, a, b);
      } else {
        AfterRejectLater(x, rest, a, b);
      }
    }
  }

  /** The count `SelectAfterReject` keeps: rows of `a`, then rows of `b`
      among the survivors, are the rows of `a + b`. */
  ghost predicate AfterRejectCounted(rows: seq<Row>, a: seq<Value>, b: seq<Value>) {
    multiset(Select(rows, VisitIn(a))) + multiset(Select(Reject(rows, VisitIn(a)), VisitIn(b)))
      == multiset(Select(rows, VisitIn(a + b)))
  }

  /** Induction step when the head row is among the ids `a`. */
  lemma AfterRejectFirst(x: Row, rest: seq<Row>, a: seq<Value>, b: seq<Value>)
    requires Matches(VisitIn(a), x)
    requires AfterRejectCounted(rest, a, b)
    ensures AfterRejectCounted([x] + rest, a, b)
  {
    var sa, r, sab := Select(rest, VisitIn(a)), Reject(rest, VisitIn(a)), Select(rest, VisitIn(a + b));
    var sb := Select(r, VisitIn(b));
    InBoth(x, a, b);
    RejectCons(x, rest, VisitIn(a));
    RejectCons(x, rest, VisitIn(a + b));
    assert Select([x] + rest, VisitIn(a)) == [x] + sa;
    assert Reject([x] + rest, VisitIn(a)) == [] + r == r;
    assert Select([x] + rest, VisitIn(a + b)) == [x] + sab;
    HeadCounted(x, sa, sb, sab);
  }

  /** Induction step when the head row is not among the ids `a`. */
  lemma AfterRejectLater(x: Row, rest: seq<Row>, a: seq<Value>, b: seq<Value>)
    requires !Matches(VisitIn(a), x)
    requires AfterRejectCounted(rest, a, b)
    ensures AfterRejectCounted([x] + rest, a, b)
  {
    var sa, r, sab := Select(rest, VisitIn(a)), Reject(rest, VisitIn(a)), Select(rest, VisitIn(a + b));
    var sb := Select(r, VisitIn(b));
    InBoth(x, a, b);
    RejectCons(x, rest, VisitIn(a));
    RejectCons(x, rest, VisitIn(a + b));
    RejectCons(x, r, VisitIn(b));
    assert Select([x] + rest, VisitIn(a)) == [] + sa == sa;
    assert Reject([x] + rest, VisitIn(a)) == [x] + r;
    if Matches(VisitIn(b), x) {
      assert Select([x] + r, VisitIn(b)) == [x] + sb;
      assert Select([x] + rest, VisitIn(a + b)) == [x] + sab;
      HeadCounted(x, sb, sa, sab);
    } else {
      assert Select([x] + r, VisitIn(b)) == [] + sb == sb;
      assert Select([x] + rest, VisitIn(a + b)) == [] + sab == sab;
    }
  }

  /** A row counted on one side of a multiset sum is counted on the other. */
  lemma HeadCounted(x: Row, s1: seq<Row>, s2: seq<Row>, s3: seq<Row>)
    requires multiset(s1) + multiset(s2) == multiset(s3)
    ensures multiset([x] + s1) + multiset(s2) == multiset([x] + s3)
    ensures multiset(s2) + multiset([x] + s1) == multiset([x] + s3)
  {
  }

  /** A condition no row meets selects nothing and deletes nothing. */
  lemma {:induction false} SelectNone(rows: seq<Row>, c: Cond)
    requires forall k :: 0 <= k < |rows| ==> !Matches(c, rows[k])
    ensures Select(rows, c) == []
    ensures Reject(rows, c) == rows
    decreases |rows|
  {
    if |rows| > 0 {
      SelectNone(rows[1..], c);
      assert [rows[0]] + rows[1..] == rows;
    }
  }

  /** After a delete, the same condition matches nothing: selecting again
      finds no row and deleting again changes nothing. */
  lemma RejectSettled(rows: seq<Row>, c: Cond)
    ensures Select(Reject(rows, c), c) == []
    ensures Reject(Reject(rows, c), c) == Reject(rows, c)
  {
    var kept := Reject(rows, c);
    RejectMembers(rows, c);
    assert forall k :: 0 <= k < |kept| ==> kept[k] in kept;
    SelectNone(kept, c);
  }
}
