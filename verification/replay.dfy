/** How MySQL reads a statement of the dump file back: the table, the
    backticked column list and the value list, each read from the text of
    the line itself. */
module Replay {
  import opened Wrappers
  import opened Text
  import opened Quote
  import opened Rows
  import opened Codec

  /** The text of an unquoted literal: everything up to the next `,` or `)`. */
  function Token(s: string): (t: string)
    ensures |t| <= |s| && t == s[..|t|]
    decreases |s|
  {
    if |s| == 0 || s[0] == ',' || s[0] == ')' then "" else [s[0]] + Token(s[1..])
  }

  /** Text that cannot end an unquoted literal early. */
  predicate Plain(t: string) {
    forall i :: 0 <= i < |t| ==> t[i] != ',' && t[i] != ')'
  }

  /** One literal of a value list and the text after it. A quoted literal
      runs to its closing quote; any other runs to the next `,` or `)`. */
  function ReadLiteral(s: string): (r: Option<(Value, string)>)
    ensures r.Some? ==> |r.value.1| < |s|
  {
    if |s| > 0 && s[0] == '\'' then
      match Scan(s[1..])
      case Some((bs, rest)) => Some((Str(bs), rest))
      case None => None
    else
      var t := Token(s);
      if t == "" then None
      else match DecodeLiteral(t)
        case Some(v) => Some((v, s[|t|..]))
        case None => None
  }

  /** A non-empty value list closed by `)`, and the text after the `)`. */
  function ReadValues(s: string): Option<(seq<Value>, string)>
    decreases |s|
  {
    match ReadLiteral(s)
    case None => None
    case Some((v, rest)) =>
      if |rest| > 0 && rest[0] == ')' then Some(([v], rest[1..]))
      else if |rest| > 0 && rest[0] == ',' then
        match ReadValues(rest[1..])
        case Some((vs, after)) => Some(([v] + vs, after))
        case None => None
      else None
  }

  /** A non-empty list of backticked names closed by `)`, and the text after
      the `)`. */
  function ReadNames(s: string): Option<(seq<string>, string)>
    decreases |s|
  {
    if |s| == 0 || s[0] != '`' then None
    else match UpTo(s[1..], '`')
      case None => None
      case Some(n) =>
        var rest := s[|n| + 2..];
        if |rest| > 0 && rest[0] == ')' then Some(([n], rest[1..]))
        else if |rest| > 0 && rest[0] == ',' then
          match ReadNames(rest[1..])
          case Some((ns, after)) => Some(([n] + ns, after))
          case None => None
        else None
  }

  /** Pairs the column names with the values, position by position. */
  function Pair(names: seq<string>, values: seq<Value>): (row: Row)
    requires |names| == |values|
    ensures |row| == |names|
    ensures forall i :: 0 <= i < |row| ==> row[i] == Field(names[i], values[i])
  {
    seq(|names|, i requires 0 <= i < |names| => Field(names[i], values[i]))
  }

  /** A list closed by `)` that may be empty. */
  function ReadNameList(s: string): Option<(seq<string>, string)> {
    match ReadNames(s)
    case Some(r) => Some(r)
    case None => if |s| > 0 && s[0] == ')' then Some(([], s[1..])) else None
  }

  function ReadValueList(s: string): Option<(seq<Value>, string)> {
    match ReadValues(s)
    case Some(r) => Some(r)
    case None => if |s| > 0 && s[0] == ')' then Some(([], s[1..])) else None
  }

  /** Reads one line of the dump file as MySQL replays it: the table the
      statement inserts into and the row it inserts, or None when the line is
      not an INSERT statement of the dump's shape. */
  function ReadStatement(line: string): Option<(string, Row)> {
    if !StartsWith(line, "INSERT INTO `") then None
    else match UpTo(line[13..], '`')
      case None => None
      case Some(t) => ReadColumnPart(t, line[13 + |t| + 1..])
  }

  /** The part of a statement after its table name: ` (`, the column list. */
  function ReadColumnPart(table: string, s: string): Option<(string, Row)> {
    if !StartsWith(s, " (") then None
    else match ReadNameList(s[2..])
      case None => None
      case Some((names, rest)) => ReadValuePart(table, names, rest)
  }

  /** The part of a statement after its column list: ` values (`, the value
      list, `;`, and as many values as columns. */
  function ReadValuePart(table: string, names: seq<string>, s: string): Option<(string, Row)> {
    if !StartsWith(s, " values (") then None
    else match ReadValueList(s[9..])
      case None => None
      case Some((values, rest)) =>
        if rest == ";" && |names| == |values| then Some((table, Pair(names, values)))
        else None
  }

  /** The column names of a row, in field order. */
  function Keys(row: Row): (r: seq<string>)
    ensures |r| == |row|
  {
    seq(|row|, i requires 0 <= i < |row| => row[i].key)
  }

  /** The values of a row, in field order. */
  function Values(row: Row): (r: seq<Value>)
    ensures |r| == |row|
  {
    seq(|row|, i requires 0 <= i < |row| => row[i].value)
  }

  /** An unquoted literal is read up to the `,` or `)` that follows it. */
  lemma {:induction false} TokenOf(t: string, tail: string)
    requires Plain(t)
    requires tail == "" || tail[0] == ',' || tail[0] == ')'
    ensures Token(t + tail) == t
    decreases |t|
  {
    if |t| == 0 {
      assert t + tail == tail;
    } else {
      TokenOf(t[1..], tail);
      assert (t + tail)[1..] == t[1..] + tail;
      assert [t[0]] + t[1..] == t;
    }
  }

  /** The NULL, hexadecimal and decimal literals hold no `,` or `)` and do
      not open with a quote. */
  lemma EncodePlain(table: string, key: string, v: Value)
    requires FormFor(table, key, v) != QuotedForm
    ensures var lit := Encode(table, key, v);
      |lit| > 0 && lit[0] != '\'' && Plain(lit)
  {
    var lit := Encode(table, key, v);
    if !v.Null? && IsBinaryField(table, key) {
      var h := Hex.ToHex(RawBytes(v));
      Hex.ToHexDigits(RawBytes(v));
      assert lit == "0x" + h;
      forall i | 2 <= i < |lit|
        ensures lit[i] != ',' && lit[i] != ')'
      {
        assert lit[i] == h[i - 2];
        assert Hex.ValueOf(h[i - 2]).Some?;
      }
    }
  }

  /** Every literal the dumper writes reads back, from the text of the value
      list, as the stored value, leaving the `,` or `)` after it. */
  lemma ReadLiteralEncode(table: string, key: string, v: Value, tail: string)
    requires Replayable(table, key, v)
    requires |tail| > 0 && (tail[0] == ',' || tail[0] == ')')
    ensures ReadLiteral(Encode(table, key, v) + tail) == Some((Stored(table, key, v), tail))
  {
    var lit := Encode(table, key, v);
    var s := lit + tail;
    if FormFor(table, key, v) == QuotedForm {
      var e := Escape(v.bytes) + "'";
      assert lit == "'" + e;
      assert s == "'" + (e + tail);
      assert s[1..] == e + tail;
      ScanEscape(v.bytes, tail);
    } else {
      EncodePlain(table, key, v);
      TokenOf(lit, tail);
      DecodeEncode(table, key, v);
      assert s[0] == lit[0];
      assert s[|lit|..] == tail;
    }
  }

  /** The last literal of a value list, closed by `)`. */
  lemma ReadValuesLast(table: string, key: string, v: Value, tail: string)
    requires Replayable(table, key, v)
    ensures ReadValues(Encode(table, key, v) + (")" + tail)) == Some(([Stored(table, key, v)], tail))
  {
    ReadLiteralEncode(table, key, v, ")" + tail);
    assert (")" + tail)[1..] == tail;
  }

  /** A literal of a value list followed by `,` and the rest of the list. */
  lemma ReadValuesNext(table: string, key: string, v: Value, more: string, vs: seq<Value>, tail: string)
    requires Replayable(table, key, v)
    requires ReadValues(more) == Some((vs, tail))
    ensures ReadValues(Encode(table, key, v) + ("," + more)) == Some(([Stored(table, key, v)] + vs, tail))
  {
    ReadLiteralEncode(table, key, v, "," + more);
    assert ("," + more)[1..] == more;
  }

  /** The statement of a row is the statement of its first field followed by
      that of the rest. */
  lemma InsertOfCons(table: string, row: Row)
    requires |row| > 0
    ensures var ins, tail := InsertOf(table, row), InsertOf(table, row[1..]);
      && ins.literals[0] == Encode(table, row[0].key, row[0].value)
      && ins.literals[1..] == tail.literals
      && Values(StoredRow(table, row))
         == [Stored(table, row[0].key, row[0].value)] + Values(StoredRow(table, row[1..]))
  {
    var ins, tail := InsertOf(table, row), InsertOf(table, row[1..]);
    assert ins.literals[1..] == tail.literals;
    StoredRowCons(table, row);
    var sr := StoredRow(table, row);
    assert Values(sr) == [sr[0].value] + Values(sr[1..]);
  }

  /** The value list of a row's statement reads back as the values the
      database stores. */
  lemma {:induction false} ReadValuesRow(table: string, row: Row, tail: string)
    requires |row| > 0
    requires forall i :: 0 <= i < |row| ==> Replayable(table, row[i].key, row[i].value)
    ensures ReadValues(Join(InsertOf(table, row).literals, ',') + (")" + tail))
            == Some((Values(StoredRow(table, row)), tail))
    decreases |row|
  {
    var lits := InsertOf(table, row).literals;
    var f := row[0];
    InsertOfCons(table, row);
    JoinCons(lits, ',', ")" + tail);
    if |row| == 1 {
      ReadValuesLast(table, f.key, f.value, tail);
      assert Join(lits, ',') + (")" + tail) == Encode(table, f.key, f.value) + (")" + tail);
      assert Values(StoredRow(table, row[1..])) == [];
      assert Values(StoredRow(table, row)) == [Stored(table, f.key, f.value)];
    } else {
      ReadValuesRow(table, row[1..], tail);
      ReadValuesNext(table, f.key, f.value, Join(lits[1..], ',') + (")" + tail),
                     Values(StoredRow(table, row[1..])), tail);
    }
  }

  /** The backticked form of each name, as the column list writes them. */
  function Columns(names: seq<string>): (r: seq<string>)
    ensures |r| == |names|
  {
    seq(|names|, i requires 0 <= i < |names| => Backticked(names[i]))
  }

  /** One backticked name, read up to its closing backtick. */
  lemma ReadNamesHead(n: string, rest: string)
    requires Free(n, '`')
    ensures var s := "`" + n + "`" + rest;
      |s| > 0 && s[0] == '`' && UpTo(s[1..], '`') == Some(n) && s[|n| + 2..] == rest
  {
    var s := "`" + n + "`" + rest;
    assert s[1..] == n + ['`'] + rest;
    UpToFree(n, '`', rest);
  }

  /** A comma-joined list of backticked names reads back as the names,
      provided no name holds a backtick. */
  lemma {:induction false} ReadNamesJoin(names: seq<string>, tail: string)
    requires |names| > 0
    requires forall i :: 0 <= i < |names| ==> Free(names[i], '`')
    ensures ReadNames(Join(Columns(names), ',') + (")" + tail)) == Some((names, tail))
    decreases |names|
  {
    var cols := Columns(names);
    var n := names[0];
    assert cols[0] == "`" + n + "`";
    JoinCons(cols, ',', ")" + tail);
    if |names| > 1 {
      var more := Join(cols[1..], ',') + (")" + tail);
      ReadNamesHead(n, "," + more);
      assert ("," + more)[1..] == more;
      assert cols[1..] == Columns(names[1..]);
      ReadNamesJoin(names[1..], tail);
      assert names == [n] + names[1..];
    } else {
      ReadNamesHead(n, ")" + tail);
      assert (")" + tail)[1..] == tail;
      assert names == [n];
    }
  }

  lemma ReadStatementHead(table: string, rest: string)
    requires Free(table, '`')
    ensures ReadStatement("INSERT INTO `" + table + "`" + rest) == ReadColumnPart(table, rest)
  {
    var line := "INSERT INTO `" + table + "`" + rest;
    assert line[..13] == "INSERT INTO `";
    assert line[13..] == table + ['`'] + rest;
    UpToFree(table, '`', rest);
    assert line[13 + |table| + 1..] == rest;
  }

  lemma ReadColumnPartHead(table: string, rest: string)
    ensures ReadColumnPart(table, " (" + rest) == match ReadNameList(rest)
      case None => None
      case Some((names, after)) => ReadValuePart(table, names, after)
  {
    assert (" (" + rest)[..2] == " (";
    assert (" (" + rest)[2..] == rest;
  }

  lemma ReadValuePartHead(table: string, names: seq<string>, rest: string, vals: seq<Value>)
    requires ReadValueList(rest) == Some((vals, ";"))
    requires |names| == |vals|
    ensures ReadValuePart(table, names, " values (" + rest) == Some((table, Pair(names, vals)))
  {
    assert (" values (" + rest)[..9] == " values (";
    assert (" values (" + rest)[9..] == rest;
  }

  /** The text of a statement, regrouped around its table name. */
  lemma StatementText(table: string, cols: string, lits: string)
    ensures InsertHead(table) + cols + ") values (" + lits + ");"
            == "INSERT INTO `" + table + "`" + (" (" + (cols + (")" + (" values (" + (lits + ");")))))
  {
    var tailV := lits + ");";
    var v := " values (" + tailV;
    var c := cols + (")" + v);
    var p := "INSERT INTO `" + table + "`";
    var h := InsertHead(table);
    assert h == p + " (";
    AppendAssoc(h + cols + ") values (", lits, ");");
    AppendAssoc(h + cols, ") values (", tailV);
    assert ") values (" + tailV == ")" + v;
    AppendAssoc(h, cols, ")" + v);
    AppendAssoc(p, " (", c);
  }

  /** A statement of the dump's shape reads back as its table and the pairs
      of its two lists. */
  lemma StatementRead(table: string, cols: string, lits: string, names: seq<string>, vals: seq<Value>)
    requires Free(table, '`')
    requires ReadNameList(cols + (")" + (" values (" + (lits + ");"))))
             == Some((names, " values (" + (lits + ");")))
    requires ReadValueList(lits + ");") == Some((vals, ";"))
    requires |names| == |vals|
    ensures ReadStatement(InsertHead(table) + cols + ") values (" + lits + ");") == Some((table, Pair(names, vals)))
  {
    var tailV := lits + ");";
    var v := " values (" + tailV;
    var c := cols + (")" + v);
    StatementText(table, cols, lits);
    ReadStatementHead(table, " (" + c);
    ReadColumnPartHead(table, c);
    ReadValuePartHead(table, names, tailV, vals);
  }

  /** Replaying the line written for a row inserts, into the same table, the
      row as the database stores it: the column list and the value list of
      the text pair up field by field. This holds when the table and column
      names hold no backtick and every field survives its literal. */
  lemma ReadInsertLine(table: string, row: Row)
    requires Free(table, '`')
    requires forall i :: 0 <= i < |row| ==> Free(row[i].key, '`')
    requires forall i :: 0 <= i < |row| ==> Replayable(table, row[i].key, row[i].value)
    ensures ReadStatement(InsertLine(table, row)) == Some((table, StoredRow(table, row)))
  {
    var ins := InsertOf(table, row);
    var cols, lits := Join(ins.columns, ','), Join(ins.literals, ',');
    var sr := StoredRow(table, row);
    var names, vals := Keys(row), Values(sr);
    var v := " values (" + (lits + ");");
    if |row| == 0 {
      assert cols == "" && lits == "";
      assert cols + (")" + v) == ")" + v;
      assert (")" + v)[1..] == v;
      assert lits + ");" == ");";
      assert ");"[1..] == ";";
      assert Pair([], []) == sr;
    } else {
      assert ins.columns == Columns(names);
      ReadNamesJoin(names, v);
      ReadValuesRow(table, row, ";");
      assert ")" + ";" == ");";
      assert Pair(names, vals) == sr;
    }
    StatementRead(table, cols, lits, names, vals);
  }

  /** Every line of a dump replays as the stored form of its row. */
  lemma ReplayDump(table: string, rows: seq<Row>)
    requires Free(table, '`')
    requires forall j, i :: 0 <= j < |rows| && 0 <= i < |rows[j]| ==> Free(rows[j][i].key, '`')
    requires forall j, i :: 0 <= j < |rows| && 0 <= i < |rows[j]| ==>
      Replayable(table, rows[j][i].key, rows[j][i].value)
    ensures forall j :: 0 <= j < |rows| ==>
      ReadStatement(Dump(table, rows)[j]) == Some((table, StoredRow(table, rows[j])))
  {
    forall j | 0 <= j < |rows|
      ensures ReadStatement(Dump(table, rows)[j]) == Some((table, StoredRow(table, rows[j])))
    {
      ReadInsertLine(table, rows[j]);
    }
  }
}
