/** The value codec and the INSERT statement writer of `DbMysql::dump`. */
module Codec {
  import opened Wrappers
  import opened Text
  import Hex
  import Decimal
  import opened Quote
  import opened Rows

  /** `preg_match('/archive_blob/', $tableName)`. */
  predicate IsArchiveBlob(table: string) {
    Contains(table, "archive_blob")
  }

  /** Columns the dumper knows to hold raw binary data. */
  predicate IsBinaryField(table: string, key: string) {
    (IsArchiveBlob(table) && key == "value")
    || key == "idvisitor" || key == "config_id" || key == "location_ip"
  }

  /** The bytes `bin2hex` is given: an int is first turned into its decimal text. */
  function RawBytes(v: Value): (r: seq<byte>)
    requires !v.Null?
  {
    match v
    case Str(bs) => bs
    case Int(n) =>
      var t := Decimal.IntText(n);
      assert IsNarrow(t);
      NarrowBytes(t)
  }

  /** `'0x' . bin2hex($value)`. */
  function HexLiteral(bs: seq<byte>): (r: string)
    ensures |r| == 2 + 2 * |bs|
    ensures r[..2] == "0x"
    ensures Hex.FromHex(r[2..]) == Some(bs)
  {
    Hex.FromToHex(bs);
    assert ("0x" + Hex.ToHex(bs))[2..] == Hex.ToHex(bs);
    "0x" + Hex.ToHex(bs)
  }

  /** The four literal forms of a dump, told apart by their first characters. */
  datatype Form = NullForm | HexForm | DecimalForm | QuotedForm

  function FormOf(lit: string): Form {
    if lit == "NULL" then NullForm
    else if StartsWith(lit, "0x") then HexForm
    else if StartsWith(lit, "'") then QuotedForm
    else DecimalForm
  }

  /** The form a field must take: NULL first, then the binary columns (even
      when the value is an int), then ints, then everything else quoted. */
  function FormFor(table: string, key: string, v: Value): Form {
    if v.Null? then NullForm
    else if IsBinaryField(table, key) then HexForm
    else if v.Int? then DecimalForm
    else QuotedForm
  }

  /** The literal written for one field. */
  function Encode(table: string, key: string, v: Value): (r: string)
    ensures FormOf(r) == FormFor(table, key, v)
  {
    if v.Null? then "NULL"
    else if IsBinaryField(table, key) then HexLiteral(RawBytes(v))
    else if v.Int? then
      var t := Decimal.IntText(v.n);
      assert t[0] == '-' || '0' <= t[0] <= '9';
      assert t != "NULL" && !StartsWith(t, "'");
      assert |t| >= 2 ==> t[1] != 'x';
      assert !StartsWith(t, "0x");
      t
    else Quoted(v.bytes)
  }

  /** How MySQL reads one literal of a dump back into a value. A bare `0x`
      with no digits is not a hexadecimal literal (MySQL reads it as a
      column name), so it gives no value. */
  function DecodeLiteral(lit: string): Option<Value> {
    match FormOf(lit)
    case NullForm => Some(Null)
    case HexForm =>
      if lit == "0x" then None
      else (match Hex.FromHex(lit[2..])
       case Some(bs) => Some(Str(bs))
       case None => None)
    case QuotedForm =>
      (match ReadQuoted(lit)
       case Some(bs) => Some(Str(bs))
       case None => None)
    case DecimalForm =>
      (match Decimal.ParseInt(lit)
       case Some(n) => Some(Int(n))
       case None => None)
  }

  /** The value the database holds after replaying a field's literal: binary
      columns come back as byte strings, everything else as it was. */
  function Stored(table: string, key: string, v: Value): Value {
    if v.Null? then Null
    else if IsBinaryField(table, key) then Str(RawBytes(v))
    else v
  }

  /** Text that is quoted (not binary) must be free of backslashes to
      survive, and binary text must not be empty. */
  predicate Replayable(table: string, key: string, v: Value) {
    && (v.Str? && !IsBinaryField(table, key) ==> HasNoBackslash(v.bytes))
    && (v.Str? && IsBinaryField(table, key) ==> |v.bytes| > 0)
  }

  /** Reading back a field's literal gives the stored value. */
  lemma DecodeEncode(table: string, key: string, v: Value)
    requires Replayable(table, key, v)
    ensures DecodeLiteral(Encode(table, key, v)) == Some(Stored(table, key, v))
  {
    var lit := Encode(table, key, v);
    match FormFor(table, key, v)
    case NullForm =>
    case HexForm =>
      assert |lit| == 2 + 2 * |RawBytes(v)| > 2;
    case DecimalForm =>
      Decimal.ParseIntText(v.n);
    case QuotedForm =>
      ReadQuotedRoundTrip(v.bytes);
  }

  /** An empty binary value is written as a bare `0x`, which does not read
      back as a value: the replayed statement fails. */
  lemma EmptyBinaryUnreadable(table: string, key: string)
    requires IsBinaryField(table, key)
    ensures Encode(table, key, Str([])) == "0x"
    ensures DecodeLiteral(Encode(table, key, Str([]))) == None
  {
    assert Hex.ToHex([]) == "";
  }

  /** A parsed INSERT statement: the table and the two parallel lists. */
  datatype Insert = Insert(table: string, columns: seq<string>, literals: seq<string>)

  function Backticked(name: string): string {
    "`" + name + "`"
  }

  /** The statement built for one row: column names and literals in the
      row's own field order. */
  function InsertOf(table: string, row: Row): (ins: Insert)
    ensures ins.table == table
    ensures |ins.columns| == |ins.literals| == |row|
  {
    Insert(table,
           seq(|row|, i requires 0 <= i < |row| => Backticked(row[i].key)),
           seq(|row|, i requires 0 <= i < |row| => Encode(table, row[i].key, row[i].value)))
  }

  /** The head of every INSERT line of table `table`. */
  function InsertHead(table: string): string {
    "INSERT INTO `" + table + "` ("
  }

  /** The text before the first `c` of `s`, or None when `c` does not occur. */
  function UpTo(s: string, c: char): (r: Option<string>)
    ensures r.Some? ==> |r.value| < |s|
    decreases |s|
  {
    if |s| == 0 then None
    else if s[0] == c then Some("")
    else match UpTo(s[1..], c)
      case Some(p) => Some([s[0]] + p)
      case None => None
  }

  lemma {:induction false} UpToFree(p: string, c: char, tail: string)
    requires Free(p, c)
    ensures UpTo(p + [c] + tail, c) == Some(p)
    decreases |p|
  {
    if |p| > 0 {
      UpToFree(p[1..], c, tail);
      assert (p + [c] + tail)[1..] == p[1..] + [c] + tail;
      assert [p[0]] + p[1..] == p;
    } else {
      assert p + [c] + tail == [c] + tail;
    }
  }

  /** Reads the table name back from a statement: the text after
      "INSERT INTO `" up to the next backtick. */
  function TableOf(line: string): Option<string> {
    if StartsWith(line, "INSERT INTO `") then UpTo(line[13..], '`') else None
  }

  /** `sprintf("INSERT INTO `%s` (%s) values (%s);", ...)`: a statement that
      opens with its table's head, closes with `);`, and names its table so
      that it reads back, as long as the name holds no backtick. */
  function Render(ins: Insert): (r: string)
    ensures StartsWith(r, "INSERT INTO ")
    ensures StartsWith(r, InsertHead(ins.table))
    ensures |r| >= 2 && r[|r| - 2..] == ");"
    ensures Free(ins.table, '`') ==> TableOf(r) == Some(ins.table)
  {
    var cols, lits := Join(ins.columns, ','), Join(ins.literals, ',');
    StatementShape(ins.table, cols, lits);
    InsertHead(ins.table) + cols + ") values (" + lits + ");"
  }

  /** The shape of a statement with the given column and literal text. */
  lemma StatementShape(table: string, cols: string, lits: string)
    ensures var r := InsertHead(table) + cols + ") values (" + lits + ");";
      && StartsWith(r, "INSERT INTO ")
      && StartsWith(r, InsertHead(table))
      && |r| >= 2 && r[|r| - 2..] == ");"
      && (Free(table, '`') ==> TableOf(r) == Some(table))
  {
    var head := InsertHead(table);
    var r := head + cols + ") values (" + lits + ");";
    assert head[..|head|] == head;
    StartsWithMore(head, head, cols);
    StartsWithMore(head + cols, head, ") values (");
    StartsWithMore(head + cols + ") values (", head, lits);
    StartsWithMore(head + cols + ") values (" + lits, head, ");");
    EndsWithTail(head + cols + ") values (" + lits, ");");
    assert r[..12] == head[..12] == "INSERT INTO ";
    if Free(table, '`') {
      var tail := " (" + cols + ") values (" + lits + ");";
      assert r == "INSERT INTO `" + (table + ['`'] + tail);
      assert r[..13] == "INSERT INTO `";
      assert r[13..] == table + ['`'] + tail;
      UpToFree(table, '`', tail);
    }
  }

  function InsertLine(table: string, row: Row): string {
    Render(InsertOf(table, row))
  }

  /** The column list of a statement splits back into the backticked column
      names, provided no column name holds a comma. */
  lemma ColumnsRoundTrip(table: string, row: Row)
    requires |row| > 0
    requires forall i :: 0 <= i < |row| ==> Free(row[i].key, ',')
    ensures Split(Join(InsertOf(table, row).columns, ','), ',') == InsertOf(table, row).columns
  {
    var cols := InsertOf(table, row).columns;
    forall k | 0 <= k < |cols|
      ensures Free(cols[k], ',')
    {
      assert cols[k] == "`" + row[k].key + "`";
    }
    SplitJoin(cols, ',');
  }

  /** Strips the backticks around a column name. */
  function Unbacktick(col: string): Option<string> {
    if |col| >= 2 && col[0] == '`' && col[|col| - 1] == '`' then Some(col[1..|col| - 1])
    else None
  }

  /** Reads a statement's two lists back into a row, pairing them up. */
  function RowOf(columns: seq<string>, literals: seq<string>): Option<Row>
    decreases |columns|
  {
    if |columns| != |literals| then None
    else if |columns| == 0 then Some([])
    else
      match (Unbacktick(columns[0]), DecodeLiteral(literals[0]), RowOf(columns[1..], literals[1..]))
      case (Some(k), Some(v), Some(rest)) => Some([Field(k, v)] + rest)
      case _ => None
  }

  /** The row as the database holds it after the statement is replayed. */
  function StoredRow(table: string, row: Row): (r: Row)
    ensures |r| == |row|
  {
    seq(|row|, i requires 0 <= i < |row| => Field(row[i].key, Stored(table, row[i].key, row[i].value)))
  }

  lemma {:induction false} RowOfSuffix(table: string, row: Row)
    requires forall i :: 0 <= i < |row| ==> Replayable(table, row[i].key, row[i].value)
    ensures RowOf(InsertOf(table, row).columns, InsertOf(table, row).literals) == Some(StoredRow(table, row))
    decreases |row|
  {
    var ins := InsertOf(table, row);
    if |row| > 0 {
      RowOfSuffix(table, row[1..]);
      var tail := InsertOf(table, row[1..]);
      var f := row[0];
      assert ins.columns[1..] == tail.columns;
      assert ins.literals[1..] == tail.literals;
      assert ins.columns[0] == Backticked(f.key) && ins.literals[0] == Encode(table, f.key, f.value);
      UnbacktickBackticked(f.key);
      DecodeEncode(table, f.key, f.value);
      RowOfCons(ins.columns, ins.literals, f.key, Stored(table, f.key, f.value), StoredRow(table, row[1..]));
      StoredRowCons(table, row);
    }
  }

  lemma UnbacktickBackticked(name: string)
    ensures Unbacktick(Backticked(name)) == Some(name)
  {
    var col := Backticked(name);
    assert col[1..|col| - 1] == name;
  }

  /** One step of `RowOf`: the head column and literal, then the rest. */
  lemma RowOfCons(columns: seq<string>, literals: seq<string>, k: string, v: Value, rest: Row)
    requires |columns| == |literals| > 0
    requires Unbacktick(columns[0]) == Some(k)
    requires DecodeLiteral(literals[0]) == Some(v)
    requires RowOf(columns[1..], literals[1..]) == Some(rest)
    ensures RowOf(columns, literals) == Some([Field(k, v)] + rest)
  {
  }

  lemma StoredRowCons(table: string, row: Row)
    requires |row| > 0
    ensures StoredRow(table, row)
            == [Field(row[0].key, Stored(table, row[0].key, row[0].value))] + StoredRow(table, row[1..])
  {
    var l, r := StoredRow(table, row),
                [Field(row[0].key, Stored(table, row[0].key, row[0].value))] + StoredRow(table, row[1..]);
    forall i | 0 <= i < |l|
      ensures l[i] == r[i]
    {
      if i > 0 {
        assert r[i] == StoredRow(table, row[1..])[i - 1];
      }
    }
  }

  /** Every statement carries its row: the i-th column names the i-th field
      and the i-th literal reads back as that field's stored value. */
  lemma InsertRoundTrip(table: string, row: Row)
    requires forall i :: 0 <= i < |row| ==> Replayable(table, row[i].key, row[i].value)
    ensures var ins := InsertOf(table, row);
      RowOf(ins.columns, ins.literals) == Some(StoredRow(table, row))
  {
    RowOfSuffix(table, row);
  }

  /** `dump($fp, $table, $rowset)`: one statement per row, in rowset order. */
  function Dump(table: string, rows: seq<Row>): (r: seq<string>)
    ensures |r| == |rows|
    ensures forall i :: 0 <= i < |rows| ==> r[i] == InsertLine(table, rows[i])
    decreases |rows|
  {
    if |rows| == 0 then [] else [InsertLine(table, rows[0])] + Dump(table, rows[1..])
  }

  /** Dumping two batches in turn writes what dumping them at once writes. */
  lemma DumpAppend(table: string, a: seq<Row>, b: seq<Row>)
    ensures Dump(table, a + b) == Dump(table, a) + Dump(table, b)
  {
    var l, r := Dump(table, a + b), Dump(table, a) + Dump(table, b);
    forall i | 0 <= i < |l|
      ensures l[i] == r[i]
    {
      if i < |a| {
        assert (a + b)[i] == a[i];
      } else {
        assert (a + b)[i] == b[i - |a|];
      }
    }
  }
}
