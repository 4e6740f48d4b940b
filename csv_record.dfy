/** One row of the metadata table: projection of the request's mapping onto
    the fixed header list, escaping, joining with commas, and an RFC 4180
    record reader that recovers the projected values from the joined line. */
module CsvRecord {
  import opened Wrappers
  import opened CsvField

  /** `CSV_HEADERS`: the columns of data/metadata.csv, in order. */
  const Headers: seq<string> := ["Filename", "Title", "Keywords"]

  /** `data[h] || ''`: a missing or empty value becomes the empty string. */
  function ValueFor(data: map<string, string>, h: string): (v: string)
    ensures h in data ==> v == data[h]
    ensures h !in data ==> v == ""
  {
    if h in data && data[h] != "" then data[h] else ""
  }

  /** The request's mapping read in header order; other keys are ignored. */
  function Project(data: map<string, string>): (values: seq<string>)
    ensures |values| == |Headers|
    ensures forall i :: 0 <= i < |Headers| ==>
              (Headers[i] in data ==> values[i] == data[Headers[i]]) &&
              (Headers[i] !in data ==> values[i] == "")
  {
    seq(|Headers|, i requires 0 <= i < |Headers| => ValueFor(data, Headers[i]))
  }

  /** Every value of `values` escaped, position by position. */
  function EscapeAll(values: seq<string>): (fields: seq<string>)
    ensures |fields| == |values|
  {
    seq(|values|, i requires 0 <= i < |values| => Escape(Some(values[i])))
  }

  /** `newRowValues`: the escaped fields of the new row. */
  function EscapedFields(data: map<string, string>): (fields: seq<string>)
    ensures |fields| == |Headers|
  {
    EscapeAll(Project(data))
  }

  /** `Array.prototype.join(',')`. */
  function Join(fields: seq<string>): string {
    if |fields| == 0 then ""
    else if |fields| == 1 then fields[0]
    else fields[0] + "," + Join(fields[1..])
  }

  /** `newLine`: the text of the new row. */
  function Row(data: map<string, string>): string {
    Join(EscapedFields(data))
  }

  /** Splits a record into its fields (quoted or not) at the commas that lie
      outside quotes; `None` when the line is not a well-formed record. */
  function ParseRecord(line: string): (r: Option<seq<string>>)
    ensures r.Some? ==> |r.value| >= 1
    decreases |line|
  {
    match ParseField(line)
    case None => None
    case Some((f, rest)) =>
      if rest == [] then Some([f])
      else
        match ParseRecord(rest[1..])
        case None => None
        case Some(fs) => Some([f] + fs)
  }

  /** Keys outside the header list have no effect on the projected row. */
  lemma ProjectIgnoresUnknownKeys(data: map<string, string>, k: string, v: string)
    requires k !in Headers
    ensures Project(data[k := v]) == Project(data)
  {
    var a, b := Project(data[k := v]), Project(data);
    forall i | 0 <= i < |Headers| ensures a[i] == b[i] {
      assert Headers[i] in Headers;
    }
  }

  /** An empty value and a missing key give the same row. */
  lemma ProjectEmptyIsMissing(data: map<string, string>, h: string)
    requires h in data && data[h] == ""
    ensures Project(data) == Project(data - {h})
  {
    var a, b := Project(data), Project(data - {h});
    forall i | 0 <= i < |Headers| ensures a[i] == b[i] { }
  }

  /** Joining escaped fields and reading the line back as a record gives the
      unescaped values, one per field, in order. */
  lemma {:induction false} JoinEscapedRoundTrip(values: seq<string>)
    requires |values| >= 1
    ensures ParseRecord(Join(EscapeAll(values))) == Some(values)
    decreases |values|
  {
    var fields := EscapeAll(values);
    if |values| == 1 {
      assert Join(fields) == Escape(Some(values[0])) + [];
      EscapeRoundTrip(values[0], []);
      ParseRecordLast(Join(fields), values[0]);
      assert [values[0]] == values;
    } else {
      var tail := Join(EscapeAll(values[1..]));
      assert fields[1..] == EscapeAll(values[1..]);
      assert Join(fields) == Escape(Some(values[0])) + ("," + tail);
      EscapeRoundTrip(values[0], "," + tail);
      JoinEscapedRoundTrip(values[1..]);
      ParseRecordCons(Join(fields), values[0], tail, values[1..]);
      assert [values[0]] + values[1..] == values;
    }
  }

  /** A line that is one whole field is a one-field record. */
  lemma ParseRecordLast(line: string, v: string)
    requires ParseField(line) == Some((v, []))
    ensures ParseRecord(line) == Some([v])
  {
  }

  /** A field, a comma and a record make a record one field longer. */
  lemma ParseRecordCons(line: string, v: string, tail: string, vs: seq<string>)
    requires ParseField(line) == Some((v, "," + tail))
    requires ParseRecord(tail) == Some(vs)
    ensures ParseRecord(line) == Some([v] + vs)
  {
    assert ("," + tail)[1..] == tail;
  }

  /** The written row is a record of exactly three fields, separated by the
      two commas outside quotes, holding the Filename, Title and Keywords
      values of the request in that order. */
  lemma RowRoundTrip(data: map<string, string>)
    ensures ParseRecord(Row(data)) == Some(Project(data))
  {
    JoinEscapedRoundTrip(Project(data));
  }

  /** `CSV_HEADERS.forEach((h, i) => appendedObject[h] = newRowValues[i])`. */
  method BuildAppendedObject(values: seq<string>) returns (obj: map<string, string>)
    requires |values| == |Headers|
    ensures obj.Keys == set h | h in Headers
    ensures forall i :: 0 <= i < |Headers| ==> obj[Headers[i]] == values[i]
  {
    obj := map[];
    var i := 0;
    while i < |Headers|
      invariant 0 <= i <= |Headers|
      invariant obj.Keys == set j | 0 <= j < i :: Headers[j]
      invariant forall j :: 0 <= j < i ==> obj[Headers[j]] == values[j]
    {
      assert forall j :: 0 <= j < i ==> Headers[j] != Headers[i] by {
        assert Headers[0][0] != Headers[1][0] && Headers[0][0] != Headers[2][0] && Headers[1][0] != Headers[2][0];
      }
      obj := obj[Headers[i] := values[i]];
      i := i + 1;
    }
    assert (set j | 0 <= j < |Headers| :: Headers[j]) == set h | h in Headers;
  }
}
