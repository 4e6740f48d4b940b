/** Dispatch of the server's requests: exact (method, URL) pairs select a
    handler, anything else is not found. */
module Router {
  import opened Wrappers
  import opened CsvRecord
  import opened CsvText
  import opened MetadataStore

  /** The handlers of the server. */
  datatype Operation = Append | ClearAll | Download | Unmatched

  /** Which handler answers a request line. */
  function Route(verb: string, url: string): (op: Operation)
    ensures op == Append <==> verb == "PUT" && url == "/append-row"
    ensures op == ClearAll <==> verb == "DELETE" && url == "/deleteallrows"
    ensures op == Download <==> verb == "GET" && url == "/getFile"
  {
    if verb == "PUT" && url == "/append-row" then Append
    else if verb == "DELETE" && url == "/deleteallrows" then ClearAll
    else if verb == "GET" && url == "/getFile" then Download
    else Unmatched
  }

  /** A request; `body` is the parsed JSON object, `None` when the body is
      not valid JSON. */
  datatype Request = Request(verb: string, url: string, body: Option<map<string, string>>)

  /** What the server answers, status and message text aside. */
  datatype Response =
    | Appended(row: map<string, string>)
    | Cleared
    | FileContent(content: string)
    | Failed(error: Error)

  /** Handles one request against the metadata file, as one atomic step. */
  method Serve(store: MetadataFile, req: Request) returns (resp: Response)
    modifies store
    ensures Route(req.verb, req.url) == Append && req.body.None? ==>
              resp == Failed(InvalidJson) && store.file == old(store.file)
    ensures Route(req.verb, req.url) == Append && req.body.Some? ==>
              resp.Appended? && resp.row.Keys == (set h | h in Headers) &&
              (forall i :: 0 <= i < |Headers| ==> resp.row[Headers[i]] == EscapedFields(req.body.value)[i]) &&
              store.file == Some(AppendedContent(old(store.file), Row(req.body.value)))
    ensures Route(req.verb, req.url) == ClearAll ==>
              if old(store.file).None? then resp == Failed(NotFound) && store.file == old(store.file)
              else resp == Cleared && store.file == Some(ClearedContent(old(store.file).value))
    ensures Route(req.verb, req.url) == Download ==>
              store.file == old(store.file) &&
              resp == if store.file.None? then Failed(NotFound) else FileContent(store.file.value)
    ensures Route(req.verb, req.url) == Unmatched ==>
              resp == Failed(NotFound) && store.file == old(store.file)
  {
    match Route(req.verb, req.url)
    case Append =>
      if req.body.None? {
        resp := Failed(InvalidJson);
      } else {
        var row := store.AppendRow(req.body.value);
        resp := Appended(row);
      }
    case ClearAll =>
      var outcome := store.ClearRows();
      resp := if outcome.Pass? then Cleared else Failed(outcome.error);
    case Download =>
      var r := store.GetFile();
      resp := if r.Success? then FileContent(r.value) else Failed(r.error);
    case Unmatched =>
      resp := Failed(NotFound);
  }
}
