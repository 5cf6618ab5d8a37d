/** The quoted-string literal the dumper writes for text values, and the way
    a MySQL server reads such a literal back.

    The dumper only turns each `'` into `\'`; it leaves backslashes alone.
    MySQL, however, treats a backslash inside a quoted literal as an escape
    character, so text that holds a backslash is not read back unchanged. */
module Quote {
  import opened Wrappers
  import opened Text

  const QuoteByte: byte := 39
  const BackslashByte: byte := 92

  /** `str_replace("'", "\'", value)` on the bytes of a value. No quote is
      left bare: the text never opens with one, and every quote in it follows
      a backslash. */
  function Escape(bs: seq<byte>): (r: string)
    ensures |r| > 0 ==> r[0] != '\''
    ensures forall i :: 0 < i < |r| && r[i] == '\'' ==> r[i - 1] == '\\'
    decreases |bs|
  {
    if |bs| == 0 then ""
    else (if bs[0] == QuoteByte then "\\'" else [CharOf(bs[0])]) + Escape(bs[1..])
  }

  /** Reads escaped text back left to right: `\'` stands for a quote and
      every other character for its own byte. None on a character that is
      not a byte. */
  function UnescapeQuotes(s: string): (r: Option<seq<byte>>)
    decreases |s|
  {
    if |s| == 0 then Some([])
    else if |s| >= 2 && s[0] == '\\' && s[1] == '\'' then
      match UnescapeQuotes(s[2..])
      case Some(rest) => Some([QuoteByte] + rest)
      case None => None
    else if s[0] as int < 256 then
      match UnescapeQuotes(s[1..])
      case Some(rest) => Some([s[0] as int as byte] + rest)
      case None => None
    else None
  }

  /** Escaping loses nothing: undoing each `\'` gives the value back, for
      every value, backslashes included. */
  lemma {:induction false} UnescapeEscape(bs: seq<byte>)
    ensures UnescapeQuotes(Escape(bs)) == Some(bs)
    decreases |bs|
  {
    if |bs| > 0 {
      var rest := Escape(bs[1..]);
      UnescapeEscape(bs[1..]);
      var s := Escape(bs);
      if bs[0] == QuoteByte {
        assert s == "\\'" + rest;
        assert s[2..] == rest;
      } else {
        assert s == [CharOf(bs[0])] + rest;
        assert s[1..] == rest;
        assert |s| >= 2 ==> s[1] == rest[0] != '\'';
      }
      assert [bs[0]] + bs[1..] == bs;
    }
  }

  /** The literal written for a text value: the escaped bytes between quotes. */
  function Quoted(bs: seq<byte>): (r: string)
    ensures |r| >= 2 && r[0] == '\'' && r[|r| - 1] == '\''
  {
    "'" + Escape(bs) + "'"
  }

  /** Number of occurrences of `b` in `bs`. */
  function Occurrences(bs: seq<byte>, b: byte): nat
    decreases |bs|
  {
    if |bs| == 0 then 0 else (if bs[0] == b then 1 else 0) + Occurrences(bs[1..], b)
  }

  predicate HasNoBackslash(bs: seq<byte>) {
    forall i :: 0 <= i < |bs| ==> bs[i] != BackslashByte
  }

  /** Escaping adds exactly one character per quote in the value. */
  lemma {:induction false} EscapeLength(bs: seq<byte>)
    ensures |Escape(bs)| == |bs| + Occurrences(bs, QuoteByte)
    ensures |Quoted(bs)| == |bs| + Occurrences(bs, QuoteByte) + 2
    decreases |bs|
  {
    if |bs| > 0 {
      EscapeLength(bs[1..]);
    }
  }

  /** The byte MySQL stores for the escape sequence `\c`: section "String
      Literals" of the MySQL Reference Manual. `\%` and `\_` keep their
      backslash; for any other character the backslash is dropped. */
  function Unescaped(c: char): (r: Option<seq<byte>>)
  {
    if c == '0' then Some([0])
    else if c == 'b' then Some([8])
    else if c == 'n' then Some([10])
    else if c == 'r' then Some([13])
    else if c == 't' then Some([9])
    else if c == 'Z' then Some([26])
    else if c == '%' then Some([BackslashByte, 37])
    else if c == '_' then Some([BackslashByte, 95])
    else if c as int < 256 then Some([c as int as byte])
    else None
  }

  /** Reads the body of a quoted literal whose opening quote has already been
      consumed. Returns the stored bytes and the text after the closing quote,
      or None when the literal is never closed or holds a non-byte character.
      A doubled quote stands for one quote. */
  function Scan(s: string): (r: Option<(seq<byte>, string)>)
    ensures r.Some? ==> |r.value.1| < |s|
    decreases |s|
  {
    if |s| == 0 then None
    else if s[0] == '\\' then
      if |s| == 1 then None
      else match (Unescaped(s[1]), Scan(s[2..]))
        case (Some(head), Some((body, rest))) => Some((head + body, rest))
        case _ => None
    else if s[0] == '\'' then
      if |s| >= 2 && s[1] == '\'' then
        match Scan(s[2..])
        case Some((body, rest)) => Some(([QuoteByte] + body, rest))
        case None => None
      else Some(([], s[1..]))
    else if s[0] as int < 256 then
      match Scan(s[1..])
      case Some((body, rest)) => Some(([s[0] as int as byte] + body, rest))
      case None => None
    else None
  }

  /** The bytes MySQL stores for text that is exactly one quoted literal. */
  function ReadQuoted(s: string): Option<seq<byte>> {
    if |s| > 0 && s[0] == '\'' then
      match Scan(s[1..])
      case Some((body, rest)) => if rest == "" then Some(body) else None
      case None => None
    else None
  }

  lemma {:induction false} ScanEscape(bs: seq<byte>, tail: string)
    requires HasNoBackslash(bs)
    requires tail == "" || tail[0] != '\''
    ensures Scan(Escape(bs) + "'" + tail) == Some((bs, tail))
    decreases |bs|
  {
    var s := Escape(bs) + "'" + tail;
    if |bs| == 0 {
      assert s == "'" + tail;
      assert s[1..] == tail;
    } else {
      ScanEscape(bs[1..], tail);
      var rest := Escape(bs[1..]) + "'" + tail;
      assert [bs[0]] + bs[1..] == bs;
      if bs[0] == QuoteByte {
        assert s == "\\'" + rest;
        assert s[2..] == rest;
      } else {
        assert s == [CharOf(bs[0])] + rest;
        assert s[1..] == rest;
      }
    }
  }

  /** A value with no backslash is read back by MySQL exactly as it was. */
  lemma ReadQuotedRoundTrip(bs: seq<byte>)
    requires HasNoBackslash(bs)
    ensures ReadQuoted(Quoted(bs)) == Some(bs)
  {
    ScanEscape(bs, "");
    assert Quoted(bs)[1..] == Escape(bs) + "'" + "";
  }

  /** A value that ends in a backslash yields a literal whose closing quote is
      escaped away, so the literal never ends. */
  lemma TrailingBackslashUnterminated()
    ensures Quoted([67, 92]) == "'C\\'"
    ensures ReadQuoted(Quoted([67, 92])) == None
  {
    var s := Quoted([67, 92]);
    assert s[1..] == "C\\'";
    assert "C\\'"[1..] == "\\'";
    assert "\\'"[2..] == "";
  }

  /** A backslash followed by `n` in a value is stored back as a newline. */
  lemma BackslashSequenceAltered()
    ensures ReadQuoted(Quoted([92, 110])) == Some([10])
  {
    var s := Quoted([92, 110]);
    assert s[1..] == "\\n'";
    assert "\\n'"[2..] == "'";
    assert Scan("'") == Some(([], ""));
    assert Unescaped('n') == Some([10]);
    assert [10] + [] == [10 as byte];
    assert Scan("\\n'") == Some(([10], ""));
  }
}
