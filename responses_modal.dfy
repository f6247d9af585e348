/**
 * The state of the responses dialog: the decoded response records, the table columns
 * and the error message. Fetching is reduced to its outcome, the error message or the
 * CSV text the server sent.
 */
module ResponsesModal {
  import opened Options
  import opened JsText
  import opened JsObject
  import opened CsvCodec

  /** The columns shown when there is nothing to show. */
  const DefaultColumns: seq<string> := ["Response ID", "Submitted At"]

  datatype FetchOutcome = Failed(message: string) | Received(csvText: string)

  /** The columns chosen for a list of records: the keys of the first record, in order,
      or the default pair when there is none. */
  function ColumnsFor(records: seq<Object>): (columns: seq<string>)
    ensures |records| == 0 ==> columns == DefaultColumns
    ensures |records| > 0 ==> |columns| == |records[0]|
    ensures (|records| == 0 || WellFormed(records[0])) ==> Distinct(columns)
  {
    if |records| > 0 then Keys(records[0]) else DefaultColumns
  }

  /** The columns shown for received text are its distinct header names, in order of
      first appearance, whenever the text has a data record. */
  lemma ColumnsAreHeaders(text: string)
    requires |DecodeTable(text)| > 0
    ensures ColumnsFor(DecodeTable(text)) == Dedup(HeaderRow(text))
    ensures forall c :: c in ColumnsFor(DecodeTable(text)) <==> c in HeaderRow(text)
  {
    TableKeys(text);
    assert DecodeTable(text)[0] in DecodeTable(text);
    DedupFacts(HeaderRow(text));
  }

  class ResponsesView {
    var responses: seq<Object>
    var columns: seq<string>
    var error: Option<string>

    constructor ()
      ensures responses == [] && columns == [] && error == None
    {
      responses := [];
      columns := [];
      error := None;
    }

    /** The part of `fetchResponses` after the request: a failure keeps the table and
        records the message; blank text empties the table and shows the default columns;
        other text is decoded, and the columns are those of the first record, or the
        default pair when no record was decoded. */
    method ShowResponses(outcome: FetchOutcome)
      modifies this
      ensures outcome.Failed? ==> responses == old(responses) && columns == old(columns) && error == Some(outcome.message)
      ensures outcome.Received? ==> error == None
      ensures outcome.Received? && Trim(outcome.csvText) == [] ==> responses == [] && columns == DefaultColumns
      ensures outcome.Received? && Trim(outcome.csvText) != [] ==>
        responses == DecodeTable(outcome.csvText) && columns == ColumnsFor(responses)
    {
      error := None;
      match outcome
      case Failed(message) =>
        error := Some(message);
      case Received(csvText) =>
        if Trim(csvText) == [] {
          responses := [];
          columns := DefaultColumns;
          return;
        }
        var parsedData := ParseCsv(csvText);
        responses := parsedData;
        if |parsedData| > 0 {
          columns := Keys(parsedData[0]);
        } else {
          columns := DefaultColumns;
        }
    }

    /** The text `downloadCSV` saves, or nothing when there are no responses. */
    method DownloadCsv() returns (csv: Option<string>)
      ensures csv == ExportCsv(columns, responses)
      ensures csv.None? <==> responses == []
    {
      if |responses| == 0 {
        return None;
      }
      var header := Join(columns, ',');
      var lines := EncodeRows(columns, responses);
      csv := Some(header + ['\n'] + Join(lines, '\n'));
    }
  }
}
