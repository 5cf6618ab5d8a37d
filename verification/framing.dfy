/** `DbMysql::preamble` and `DbMysql::appendix`: the fixed lines around the
    INSERT statements of a dump file. The clock and the Piwik version are
    parameters. */
module Framing {
  import opened Text
  import opened Rows
  import opened Store
  import Codec

  /** A comment line of the dump: `--` and the text after it. */
  function Comment(text: string): string {
    "--" + text
  }

  /** A statement inside a MySQL version comment, run by servers from
      version 4.1.1 on and skipped as a comment by others. */
  function Versioned(statement: string): string {
    "/*!40101 " + statement + " */;"
  }

  /** The lines `preamble()` puts, `created` standing for `date('c')`: no
      data line among them, whatever the time and version text. */
  function Preamble(created: string, piwikVersion: string): (r: seq<string>)
    ensures |r| == 16
    ensures Inserts(r) == []
  {
    var lines := [ Comment(" "),
      Comment("  Piwik Mysql Dump"),
      Comment("  created ") + created,
      Comment("  generated by DBCleaner Plugin http://plugin.suenkel.org/"),
      Comment("  Version 0.3.1"),
      Comment("  Piwik-Version: ") + piwikVersion,
      Comment(" "),
      "",
      "SET SQL_MODE=\"NO_AUTO_VALUE_ON_ZERO\";",
      "SET FOREIGN_KEY_CHECKS=0;",
      "",
      Versioned("SET @OLD_CHARACTER_SET_CLIENT=@@CHARACTER_SET_CLIENT"),
      Versioned("SET @OLD_CHARACTER_SET_RESULTS=@@CHARACTER_SET_RESULTS"),
      Versioned("SET @OLD_COLLATION_CONNECTION=@@COLLATION_CONNECTION"),
      Versioned("SET NAMES utf8"),
      "" ];
    NoInserts(lines);
    lines
  }

  /** The lines `appendix()` puts, `ended` standing for `date('c')`: no
      data line among them, whatever the time text. */
  function Appendix(ended: string): (r: seq<string>)
    ensures |r| == 8
    ensures Inserts(r) == []
  {
    var lines := [ "",
      Versioned("SET CHARACTER_SET_CLIENT=@OLD_CHARACTER_SET_CLIENT"),
      Versioned("SET CHARACTER_SET_RESULTS=@OLD_CHARACTER_SET_RESULTS"),
      Versioned("SET COLLATION_CONNECTION=@OLD_COLLATION_CONNECTION"),
      "",
      Comment(" "),
      Comment(" Mysql Dump End ") + ended,
      Comment(" ") ];
    NoInserts(lines);
    lines
  }

  /** A data line of the dump. */
  predicate IsInsert(line: string) {
    StartsWith(line, "INSERT INTO ")
  }

  /** The data lines of a file, in file order. */
  function Inserts(lines: seq<string>): (r: seq<string>)
    ensures forall l :: l in r <==> l in lines && IsInsert(l)
    decreases |lines|
  {
    if |lines| == 0 then []
    else (if IsInsert(lines[0]) then [lines[0]] else []) + Inserts(lines[1..])
  }

  lemma {:induction false} InsertsAppend(a: seq<string>, b: seq<string>)
    ensures Inserts(a + b) == Inserts(a) + Inserts(b)
    decreases |a|
  {
    if |a| == 0 {
      assert a + b == b;
    } else {
      InsertsAppend(a[1..], b);
      assert (a + b)[1..] == a[1..] + b;
      assert (a + b)[0] == a[0];
      var h := if IsInsert(a[0]) then [a[0]] else [];
      assert Inserts(a + b) == h + Inserts(a[1..] + b);
      assert Inserts(a) == h + Inserts(a[1..]);
    }
  }

  /** Lines that are all data lines, or none of them, filter to themselves
      or to nothing. */
  lemma {:induction false} InsertsAllOrNone(lines: seq<string>, all: bool)
    requires forall l :: l in lines ==> IsInsert(l) == all
    ensures Inserts(lines) == if all then lines else []
    decreases |lines|
  {
    if |lines| > 0 {
      InsertsAllOrNone(lines[1..], all);
      assert lines == [lines[0]] + lines[1..];
    }
  }

  /** A line that does not open with `I` is no data line. */
  lemma NotInsert(line: string)
    requires |line| == 0 || line[0] != 'I'
    ensures !IsInsert(line)
  {
  }

  /** Lines none of which opens with `I` hold no data line. */
  lemma NoInserts(lines: seq<string>)
    requires forall k :: 0 <= k < |lines| ==> |lines[k]| == 0 || lines[k][0] != 'I'
    ensures Inserts(lines) == []
  {
    forall l | l in lines
      ensures !IsInsert(l)
    {
      NotInsert(l);
    }
    InsertsAllOrNone(lines, false);
  }

  /** A dump file: the preamble, the lines of the runs, the appendix. */
  function DumpFile(created: string, piwikVersion: string, log: seq<Event>, ended: string): seq<string> {
    Preamble(created, piwikVersion) + Output(log) + Appendix(ended)
  }

  /** The framing adds no data line and loses none: the data lines of the
      file are exactly the INSERT statements of the runs, in order. */
  lemma DumpFileInserts(created: string, piwikVersion: string, log: seq<Event>, ended: string)
    ensures Inserts(DumpFile(created, piwikVersion, log, ended)) == Output(log)
  {
    BetweenFrames(Preamble(created, piwikVersion), Output(log), Appendix(ended));
  }

  /** Data lines between two blocks that hold none are all the file's data
      lines. */
  lemma BetweenFrames(pre: seq<string>, body: seq<string>, app: seq<string>)
    requires Inserts(pre) == [] && Inserts(app) == []
    requires forall k :: 0 <= k < |body| ==> IsInsert(body[k])
    ensures Inserts(pre + body + app) == body
  {
    assert forall l :: l in body ==> IsInsert(l);
    InsertsAllOrNone(body, true);
    InsertsAppend(pre, body);
    InsertsAppend(pre + body, app);
  }
}
