/** data/metadata.csv as the server keeps it: the file is a field of a class,
    absent or holding text, and the append and delete-all-rows handlers
    rewrite it in place. */
module MetadataStore {
  import opened Wrappers
  import opened CsvField
  import opened CsvRecord
  import opened CsvText

  /** Outcomes the handlers report besides success. */
  datatype Error = InvalidJson | NotFound

  class MetadataFile {
    /** The file's content; `None` when the file does not exist. */
    var file: Option<string>

    constructor (initial: Option<string>)
      ensures file == initial
    {
      file := initial;
    }

    /** PUT /append-row: writes the projected, escaped row after the current
        content (preceded by LF when the content does not end in one) and
        returns the header-to-written-field object. */
    method AppendRow(data: map<string, string>) returns (appended: map<string, string>)
      modifies this
      ensures file == Some(AppendedContent(old(file), Row(data)))
      ensures appended.Keys == set h | h in Headers
      ensures forall i :: 0 <= i < |Headers| ==> appended[Headers[i]] == EscapedFields(data)[i]
    {
      var newRowValues := EscapedFields(data);
      var newLine := Join(newRowValues);
      var content := if file.Some? then file.value else "";
      var toAppend := Separator(content) + newLine;
      file := Some(content + toAppend);
      appended := BuildAppendedObject(newRowValues);
    }

    /** DELETE /deleteallrows: not found when the file is absent; otherwise the
        file is rewritten to its first line followed by LF. */
    method ClearRows() returns (outcome: Outcome<Error>)
      modifies this
      ensures old(file).None? ==> outcome == Fail(NotFound) && file == old(file)
      ensures old(file).Some? ==> outcome == Pass && file == Some(ClearedContent(old(file).value))
    {
      if file.None? {
        return Fail(NotFound);
      }
      var lines := SplitLines(file.value);
      file := Some(lines[0] + "\n");
      outcome := Pass;
    }

    /** GET /getFile: the whole content, unchanged, or not found. */
    method GetFile() returns (r: Result<string, Error>)
      ensures file.None? <==> r == Failure(NotFound)
      ensures file.Some? ==> r == Success(file.value)
    {
      if file.None? {
        return Failure(NotFound);
      }
      r := Success(file.value);
    }
  }

  /** The file after an append, whether or not it existed, ends with a row
      that reads back as the request's Filename, Title and Keywords, and the
      text before that row is the old content, possibly followed by LF. */
  lemma AppendThenRead(file: Option<string>, data: map<string, string>)
    ensures var r := AppendedContent(file, Row(data));
      exists pre :: r == pre + Row(data) && pre[..|file.GetOr("")|] == file.GetOr("") &&
                    (pre == [] || pre[|pre| - 1] == '\n')
    ensures ParseRecord(Row(data)) == Some(Project(data))
  {
    var r := AppendedContent(file, Row(data));
    AppendExtends(file, Row(data));
    var pre := r[..|r| - |Row(data)|];
    assert r == pre + Row(data);
    assert pre[..|file.GetOr("")|] == file.GetOr("");
    RowRoundTrip(data);
  }

  /** The request of the example below. */
  const ExampleRequest: map<string, string> :=
    map["Filename" := "a.txt", "Title" := "Hi, there", "Keywords" := "x"]

  /** The row appended to a table holding only its header line (such as
      `Filename,Title,Keywords`), for a request naming all three columns with
      a comma in the title: the row follows the header directly. */
  lemma AppendScenario(header: string)
    ensures AppendedContent(Some(header + "\n"), Row(ExampleRequest))
            == header + "\n" + "a.txt,\"Hi, there\",x"
  {
    var content := header + "\n";
    assert content[|content| - 1] == '\n';
    AppendExtends(Some(content), Row(ExampleRequest));
    RowScenario();
  }

  /** Only the title, which holds a comma, is quoted. */
  lemma RowScenario()
    ensures Row(ExampleRequest) == "a.txt,\"Hi, there\",x"
  {
    ProjectScenario();
    ScenarioEscapes();
    var fields := EscapedFields(ExampleRequest);
    assert fields == ["a.txt", "\"" + "Hi, there" + "\"", "x"];
    assert Join(fields) == "a.txt" + "," + ("\"" + "Hi, there" + "\"" + "," + "x");
    ScenarioRowText();
  }

  lemma ProjectScenario()
    ensures Project(ExampleRequest) == ["a.txt", "Hi, there", "x"]
  {
    var values := Project(ExampleRequest);
    assert values[0] == "a.txt";
    assert values[1] == "Hi, there";
    assert values[2] == "x";
  }

  lemma ScenarioEscapes()
    ensures Escape(Some("a.txt")) == "a.txt" && Escape(Some("x")) == "x"
    ensures Escape(Some("Hi, there")) == "\"" + "Hi, there" + "\""
  {
    assert !NeedsQuoting("a.txt") && !NeedsQuoting("x");
    assert NeedsQuoting("Hi, there") by { assert "Hi, there"[2] == ','; }
    DoubleQuotesNoQuote("Hi, there");
  }

  lemma ScenarioRowText()
    ensures "a.txt" + "," + ("\"" + "Hi, there" + "\"" + "," + "x") == "a.txt,\"Hi, there\",x"
  {
    var row := "a.txt" + "," + ("\"" + "Hi, there" + "\"" + "," + "x");
    var expected := "a.txt,\"Hi, there\",x";
    assert |row| == |expected|;
    forall i | 0 <= i < |expected| ensures row[i] == expected[i] { }
  }
}
