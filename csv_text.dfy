/** The text of data/metadata.csv as the append and clear handlers rewrite it:
    the separator put before an appended row, the first-line split, and the
    content each operation leaves behind. */
module CsvText {
  import opened Wrappers

  predicate EndsWith(s: string, suffix: string) {
    |suffix| <= |s| && s[|s| - |suffix|..] == suffix
  }

  /** What goes between the old content and a new row: a newline exactly
      when the content is non-empty and its last character is not LF (the
      extra check for a CRLF ending can never decide anything). */
  function Separator(content: string): (sep: string)
    ensures sep == "\n" <==> content != [] && content[|content| - 1] != '\n'
    ensures sep == "" <==> content == [] || content[|content| - 1] == '\n'
  {
    if |content| > 0 then
      (if EndsWith(content, "\n") || EndsWith(content, "\r\n") then "" else "\n")
    else ""
  }

  /** The file after appending `line`: an absent file reads as empty and is
      created by the append. */
  function AppendedContent(file: Option<string>, line: string): string {
    var content := file.GetOr("");
    content + (Separator(content) + line)
  }

  /** `content.split(/\r?\n/)`: the lines, cut at each LF or CRLF, which are
      dropped. A CR not followed by LF stays in its line. */
  function SplitLines(s: string): (lines: seq<string>)
    ensures |lines| >= 1
    ensures '\n' !in lines[0]
    decreases |s|
  {
    if s == [] then [""]
    else if s[0] == '\n' then [""] + SplitLines(s[1..])
    else if |s| >= 2 && s[0] == '\r' && s[1] == '\n' then [""] + SplitLines(s[2..])
    else
      var lines := SplitLines(s[1..]);
      [[s[0]] + lines[0]] + lines[1..]
  }

  /** `lines[0]`: the header line. */
  function FirstLine(content: string): string {
    SplitLines(content)[0]
  }

  /** The file after deleting all rows: the first line and one LF. */
  function ClearedContent(content: string): string {
    FirstLine(content) + "\n"
  }

  /** Appending only extends the file: the old content is kept as a prefix,
      the new row begins a line of its own, and nothing is written before it
      in an absent or empty file (no header is added). */
  lemma AppendExtends(file: Option<string>, line: string)
    ensures var prev := file.GetOr(""); var r := AppendedContent(file, line);
      |prev| + |line| <= |r| && r[..|prev|] == prev && r[|r| - |line|..] == line &&
      (r[..|r| - |line|] == [] || r[|r| - |line| - 1] == '\n') &&
      (prev == [] ==> r == line) &&
      (prev != [] && prev[|prev| - 1] == '\n' ==> r == prev + line)
  {
    var prev := file.GetOr("");
    var r := AppendedContent(file, line);
    var pre := prev + Separator(prev);
    assert r == pre + line;
    assert r[..|r| - |line|] == pre;
    assert r[..|prev|] == prev;
  }

  /** `f` is what `content.split(/\r?\n/)` puts first: the text before
      the first LF, less a CR just before that LF; with no LF, the whole
      content. */
  ghost predicate IsFirstLineOf(f: string, content: string) {
    |f| <= |content| && content[..|f|] == f && '\n' !in f &&
    ('\n' !in content ==> f == content) &&
    ('\n' in content ==>
       (|f| + 1 < |content| && content[|f|] == '\r' && content[|f| + 1] == '\n') ||
       (|f| < |content| && content[|f|] == '\n' && (f == [] || f[|f| - 1] != '\r')))
  }

  /** The first line is what precedes the first LF, less a CR just before
      that LF; with no LF it is the whole content. */
  lemma {:induction false} FirstLineIsPrefix(content: string)
    ensures IsFirstLineOf(FirstLine(content), content)
    decreases |content|
  {
    var s := content;
    if s == [] {
    } else if s[0] == '\n' {
    } else if |s| >= 2 && s[0] == '\r' && s[1] == '\n' {
    } else {
      FirstLineIsPrefix(s[1..]);
      assert FirstLine(s) == [s[0]] + FirstLine(s[1..]);
      FirstLineStep(s, FirstLine(s[1..]));
    }
  }

  /** A character that does not start a line break joins the first line. */
  lemma FirstLineStep(s: string, g: string)
    requires s != [] && s[0] != '\n' && !(|s| >= 2 && s[0] == '\r' && s[1] == '\n')
    requires IsFirstLineOf(g, s[1..])
    ensures IsFirstLineOf([s[0]] + g, s)
  {
    var f := [s[0]] + g;
    assert s[..|f|] == [s[0]] + s[1..][..|g|];
    assert '\n' !in f;
    assert '\n' in s <==> '\n' in s[1..] by {
      if '\n' in s {
        var k :| 0 <= k < |s| && s[k] == '\n';
        assert s[1..][k - 1] == '\n';
      }
      forall c | c in s[1..] ensures c in s { }
    }
    if '\n' !in s {
      assert [s[0]] + s[1..] == s;
    }
  }

  /** Reading the first line of a line already ended by LF gives it back,
      except that a CR at its end is taken for part of a CRLF. */
  lemma {:induction false} FirstLineOfTerminated(x: string)
    requires '\n' !in x
    ensures FirstLine(x + "\n") == if x != [] && x[|x| - 1] == '\r' then x[..|x| - 1] else x
    decreases |x|
  {
    var s := x + "\n";
    if x == [] {
      assert s[0] == '\n' && s[1..] == [];
    } else if |x| == 1 && x[0] == '\r' {
      assert s == "\r\n";
      assert s[2..] == [];
    } else {
      assert x[0] in x;
      assert !(|s| >= 2 && s[0] == '\r' && s[1] == '\n') by {
        if |x| >= 2 { assert x[1] in x; }
      }
      assert '\n' !in x[1..] by {
        forall c | c in x[1..] ensures c in x { }
      }
      FirstLineOfTerminated(x[1..]);
      assert s[1..] == x[1..] + "\n";
      assert FirstLine(s) == [x[0]] + FirstLine(x[1..] + "\n");
      if x[|x| - 1] == '\r' {
        assert [x[0]] + x[1..][..|x[1..]| - 1] == x[..|x| - 1];
      } else {
        assert [x[0]] + x[1..] == x;
      }
    }
  }

  /** After clearing, the file holds exactly one LF, as its last character. */
  lemma ClearedShape(content: string)
    ensures var r := ClearedContent(content);
      |r| >= 1 && r[|r| - 1] == '\n' && '\n' !in r[..|r| - 1] &&
      Separator(r) == ""
  {
    FirstLineIsPrefix(content);
    var f := FirstLine(content);
    assert ClearedContent(content)[..|f|] == f;
  }

  /** The first line of a header followed by LF or CRLF is that header. */
  lemma {:induction false} FirstLineOfHeader(header: string, rest: string)
    requires '\n' !in header && '\r' !in header
    requires (|rest| >= 1 && rest[0] == '\n') || (|rest| >= 2 && rest[0] == '\r' && rest[1] == '\n')
    ensures FirstLine(header + rest) == header
    decreases |header|
  {
    var s := header + rest;
    if header == [] {
      assert s == rest;
    } else {
      assert header[0] in header;
      assert '\n' !in header[1..] && '\r' !in header[1..] by {
        forall c | c in header[1..] ensures c in header { }
      }
      FirstLineOfHeader(header[1..], rest);
      assert s[1..] == header[1..] + rest;
      assert [header[0]] + header[1..] == header;
    }
  }

  /** Clearing keeps the header line, whether the header ends in LF or CRLF
      and whatever rows follow it. */
  lemma ClearKeepsHeader(header: string, terminator: string, rows: string)
    requires '\n' !in header && '\r' !in header
    requires terminator == "\n" || terminator == "\r\n"
    ensures ClearedContent(header + terminator + rows) == header + "\n"
  {
    assert header + terminator + rows == header + (terminator + rows);
    FirstLineOfHeader(header, terminator + rows);
  }

  /** An append followed by a clear leaves only the header line. */
  lemma ClearAfterAppend(header: string, terminator: string, rows: string, line: string)
    requires '\n' !in header && '\r' !in header
    requires terminator == "\n" || terminator == "\r\n"
    ensures ClearedContent(AppendedContent(Some(header + terminator + rows), line)) == header + "\n"
  {
    var prev := header + terminator + rows;
    assert AppendedContent(Some(prev), line) == header + terminator + (rows + Separator(prev) + line);
    ClearKeepsHeader(header, terminator, rows + Separator(prev) + line);
  }

  /** A header ended by a lone CR, as in `Filename,Title,Keywords\r`: the
      first clear keeps the CR and adds LF, and the second clear reads that
      CRLF as a line break and drops the CR. */
  lemma ClearTwiceDropsCR(header: string)
    requires '\n' !in header && '\r' !in header
    ensures ClearedContent(header + "\r") == header + "\r\n"
    ensures ClearedContent(ClearedContent(header + "\r")) == header + "\n"
    ensures ClearedContent(ClearedContent(header + "\r")) != ClearedContent(header + "\r")
  {
    var content := header + "\r";
    assert '\n' !in content by {
      forall i | 0 <= i < |content| ensures content[i] != '\n' {
        if i < |header| { assert content[i] == header[i] && header[i] in header; }
      }
    }
    FirstLineIsPrefix(content);
    assert header + "\r" + "\n" == header + "\r\n";
    ClearKeepsHeader(header, "\r\n", "");
    assert header + "\r\n" + "" == header + "\r\n";
  }

  /** Clearing twice gives what clearing once gives exactly when the kept
      first line does not end in CR: such a CR is taken for part of a CRLF,
      and dropped, by the next clear. */
  lemma ClearIdempotentIff(content: string)
    ensures ClearedContent(ClearedContent(content)) == ClearedContent(content) <==>
            !EndsWith(FirstLine(content), "\r")
  {
    var f := FirstLine(content);
    FirstLineIsPrefix(content);
    FirstLineOfTerminated(f);
    if f != [] && f[|f| - 1] == '\r' {
      assert EndsWith(f, "\r");
      assert |ClearedContent(ClearedContent(content))| < |ClearedContent(content)|;
    } else {
      assert !EndsWith(f, "\r");
    }
  }
}
