/**
 * The CSV codec of the admin responses modal
 * (src/app/admin/dashboard/ResponsesModal.tsx): the row tokenizer `parseCSVLine`,
 * the table decoder `parseCSV` and the cell and row encoder of `downloadCSV`.
 *
 * It follows the doubled-quote convention of section 2 of RFC 4180 with the
 * deviations of the original: every field is trimmed, the text is split on `\n`
 * before any row is tokenized (so a quoted newline ends the row), an unterminated
 * quote simply runs to the end of the line, and the header row is written without
 * escaping.
 */
module CsvCodec {
  import opened Options
  import opened JsText
  import opened JsObject

  // ---------------------------------------------------------------------------
  // Row tokenizer

  /** The raw (untrimmed) fields still to come when the rest of the line is `s`, the
      field being accumulated is `cur` and `quoted` tells whether the scanner is inside
      quotes. Inside quotes `""` adds one `"`; any other `"` only toggles quoted mode; a
      comma outside quotes ends the field; every other character is added. There is
      always at least one field (FieldCount gives the exact number). */
  function Scan(s: string, cur: string, quoted: bool): (fields: seq<string>)
    ensures |fields| >= 1
    decreases |s|
  {
    if s == [] then [cur]
    else if s[0] == '"' then
      if quoted && |s| > 1 && s[1] == '"' then Scan(s[2..], cur + ['"'], true)
      else Scan(s[1..], cur, !quoted)
    else if s[0] == ',' && !quoted then [cur] + Scan(s[1..], "", false)
    else Scan(s[1..], cur + [s[0]], quoted)
  }

  /** `trim()` applied to every element. */
  function TrimAll(parts: seq<string>): (r: seq<string>)
    ensures |r| == |parts|
    ensures forall k :: 0 <= k < |r| ==> r[k] == Trim(parts[k])
  {
    if parts == [] then [] else [Trim(parts[0])] + TrimAll(parts[1..])
  }

  /** The fields of one line, as `parseCSVLine` returns them: one more than the
      separating commas, each with its whitespace border removed. */
  function LineFields(line: string): (fields: seq<string>)
    ensures |fields| == 1 + SeparatorCommas(line, false)
    ensures forall k :: 0 <= k < |fields| ==> Trimmed(fields[k])
  {
    FieldCount(line, "", false);
    TrimAll(Scan(line, "", false))
  }

  /** `parseCSVLine`: one left-to-right pass tracking whether it is inside quotes. */
  method ParseLine(line: string) returns (fields: seq<string>)
    ensures fields == LineFields(line)
  {
    fields := [];
    var current := "";
    var inQuotes := false;
    var i := 0;
    while i < |line|
      invariant 0 <= i <= |line|
      invariant LineFields(line) == fields + TrimAll(Scan(line[i..], current, inQuotes))
    {
      var c := line[i];
      ghost var rest := line[i..];
      assert rest[0] == c && rest[1..] == line[i + 1..];
      if c == '"' {
        if inQuotes && i + 1 < |line| && line[i + 1] == '"' {
          assert rest[1] == '"' && rest[2..] == line[i + 2..];
          current := current + ['"'];
          i := i + 1;
        } else {
          inQuotes := !inQuotes;
        }
      } else if c == ',' && !inQuotes {
        fields := fields + [Trim(current)];
        current := "";
      } else {
        current := current + [c];
      }
      i := i + 1;
    }
    fields := fields + [Trim(current)];
  }

  /** The commas that separate fields: those reached after an even number of quote
      characters, counted without any look-ahead. */
  function SeparatorCommas(s: string, open: bool): nat
    decreases |s|
  {
    if s == [] then 0
    else if s[0] == '"' then SeparatorCommas(s[1..], !open)
    else (if s[0] == ',' && !open then 1 else 0) + SeparatorCommas(s[1..], open)
  }

  /** The tokenizer yields one field more than there are separating commas; in
      particular never an empty list. */
  lemma {:induction false} FieldCount(s: string, cur: string, quoted: bool)
    ensures |Scan(s, cur, quoted)| == 1 + SeparatorCommas(s, quoted)
    decreases |s|
  {
    if s == [] {
    } else if s[0] == '"' {
      if quoted && |s| > 1 && s[1] == '"' {
        FieldCount(s[2..], cur + ['"'], true);
        assert s[1..][1..] == s[2..];
      } else {
        FieldCount(s[1..], cur, !quoted);
      }
    } else if s[0] == ',' && !quoted {
      FieldCount(s[1..], "", false);
    } else {
      FieldCount(s[1..], cur + [s[0]], quoted);
    }
  }

  /** A character other than `"` that is in neither the rest of the line nor the
      pending field is in no field: fields are made of the line's own characters,
      plus the `"` that a doubled quote yields. */
  lemma {:induction false} FieldsDrawFrom(s: string, cur: string, quoted: bool, c: char)
    requires c != '"' && c !in s && c !in cur
    ensures forall k :: 0 <= k < |Scan(s, cur, quoted)| ==> c !in Scan(s, cur, quoted)[k]
    decreases |s|
  {
    if s == [] {
    } else if s[0] == '"' {
      if quoted && |s| > 1 && s[1] == '"' {
        FieldsDrawFrom(s[2..], cur + ['"'], true, c);
      } else {
        FieldsDrawFrom(s[1..], cur, !quoted, c);
      }
    } else if s[0] == ',' && !quoted {
      FieldsDrawFrom(s[1..], "", false, c);
    } else {
      FieldsDrawFrom(s[1..], cur + [s[0]], quoted, c);
    }
  }

  lemma TrimNoChar(s: string, c: char)
    requires c !in s
    ensures c !in Trim(s)
  {
    var lead, tail := TrimBorders(s);
  }

  /** A line without `c` (other than `"`) yields fields without `c`; in particular no
      field of a line split at newlines holds a newline. */
  lemma LineFieldsWithout(line: string, c: char)
    requires c != '"' && c !in line
    ensures forall k :: 0 <= k < |LineFields(line)| ==> c !in LineFields(line)[k]
  {
    FieldsDrawFrom(line, "", false, c);
    forall k | 0 <= k < |LineFields(line)| ensures c !in LineFields(line)[k] {
      TrimNoChar(Scan(line, "", false)[k], c);
    }
  }

  lemma ScanPair(s: string, cur: string)
    requires |s| >= 2 && s[0] == '"' && s[1] == '"'
    ensures Scan(s, cur, true) == Scan(s[2..], cur + ['"'], true)
  {
  }

  lemma ScanClose(s: string, cur: string)
    requires s != [] && s[0] == '"' && (|s| == 1 || s[1] != '"')
    ensures Scan(s, cur, true) == Scan(s[1..], cur, false)
  {
  }

  lemma ScanChar(s: string, cur: string, quoted: bool)
    requires s != [] && s[0] != '"' && (quoted || s[0] != ',')
    ensures Scan(s, cur, quoted) == Scan(s[1..], cur + [s[0]], quoted)
  {
  }

  /** A run of characters other than `"` and `,` is copied into the pending field. */
  lemma {:induction false} PlainRun(c: string, t: string, cur: string)
    requires '"' !in c && ',' !in c
    ensures Scan(c + t, cur, false) == Scan(t, cur + c, false)
    decreases |c|
  {
    if c == [] {
      assert c + t == t && cur + c == cur;
    } else {
      assert (c + t)[0] == c[0] && (c + t)[1..] == c[1..] + t;
      ScanChar(c + t, cur, false);
      PlainRun(c[1..], t, cur + [c[0]]);
      assert cur + [c[0]] + c[1..] == cur + c;
    }
  }

  /** Without quote characters a line is split at every comma and each piece trimmed. */
  lemma {:induction false} UnquotedLine(line: string)
    requires '"' !in line
    ensures Scan(line, "", false) == Split(line, ',')
    ensures LineFields(line) == TrimAll(Split(line, ','))
    decreases |line|
  {
    var i := IndexOf(line, ',');
    if i == |line| {
      PlainRun(line, [], "");
      assert line + [] == line && "" + line == line;
    } else {
      var head, rest := line[..i], line[i + 1..];
      assert line == head + ([','] + rest);
      assert '"' !in head && '"' !in rest;
      PlainRun(head, [','] + rest, "");
      assert ([','] + rest)[1..] == rest;
      UnquotedLine(rest);
      assert "" + head == head;
    }
  }

  // ---------------------------------------------------------------------------
  // Encoder

  predicate NeedsQuotes(v: string) {
    ',' in v || '"' in v || '\n' in v
  }

  /** The number of times `c` occurs in `s`. */
  function Count(s: string, c: char): nat
  {
    if s == [] then 0 else (if s[0] == c then 1 else 0) + Count(s[1..], c)
  }

  /** `value.replace(/"/g, '""')`: never shorter, and every other character is kept;
      DoubleQuotesInverse pins it down. */
  function DoubleQuotes(v: string): (r: string)
    ensures |r| >= |v|
    ensures forall c :: c != '"' ==> (c in r <==> c in v)
  {
    if v == [] then []
    else (if v[0] == '"' then ['"', '"'] else [v[0]]) + DoubleQuotes(v[1..])
  }

  /** Every `"` of `s` is one of an adjacent pair, pairing from the left. */
  predicate QuotesPaired(s: string)
    decreases |s|
  {
    if s == [] then true
    else if s[0] == '"' then |s| >= 2 && s[1] == '"' && QuotesPaired(s[2..])
    else QuotesPaired(s[1..])
  }

  /** Collapses each `""` to `"`, reading left to right. */
  function Undouble(s: string): string
    decreases |s|
  {
    if s == [] then []
    else if |s| >= 2 && s[0] == '"' && s[1] == '"' then ['"'] + Undouble(s[2..])
    else [s[0]] + Undouble(s[1..])
  }

  /** Quote doubling changes nothing in a value without quotes, adds one character per
      quote and leaves no lone quote, and collapsing the pairs gives the value back. */
  lemma {:induction false} DoubleQuotesInverse(v: string)
    ensures '"' !in v ==> DoubleQuotes(v) == v
    ensures |DoubleQuotes(v)| == |v| + Count(v, '"')
    ensures QuotesPaired(DoubleQuotes(v))
    ensures Undouble(DoubleQuotes(v)) == v
    decreases |v|
  {
    if v != [] {
      var rest := DoubleQuotes(v[1..]);
      DoubleQuotesInverse(v[1..]);
      if v[0] == '"' {
        assert DoubleQuotes(v) == ['"', '"'] + rest;
        assert (['"', '"'] + rest)[2..] == rest;
      } else {
        assert DoubleQuotes(v) == [v[0]] + rest;
        assert ([v[0]] + rest)[1..] == rest;
      }
    }
  }

  /** One cell of `downloadCSV`: wrapped in quotes, with quotes doubled, exactly when
      it holds a comma, a quote or a newline; otherwise left as it is. */
  function EncodeCell(v: string): (r: string)
    ensures !NeedsQuotes(v) ==> r == v
    ensures NeedsQuotes(v) ==> |r| >= 2 && r[0] == '"' && r[|r| - 1] == '"'
    ensures '\n' in r <==> '\n' in v
  {
    if NeedsQuotes(v) then ['"'] + DoubleQuotes(v) + ['"'] else v
  }

  /** Every cell encoded on its own, in order (EncodeAllAt). */
  function EncodeAll(cells: seq<string>): (r: seq<string>)
    ensures |r| == |cells|
  {
    if cells == [] then [] else [EncodeCell(cells[0])] + EncodeAll(cells[1..])
  }

  /** The cells of one response in column order, `response[column] || ''`
      (RowCellsAt). */
  function RowCells(columns: seq<string>, response: Object): (r: seq<string>)
    ensures |r| == |columns|
  {
    if columns == [] then [] else [Get(response, columns[0])] + RowCells(columns[1..], response)
  }

  /** One data row of the export: the encoded cells joined by commas. Whatever the
      cells hold, the tokenizer's scan reads them back (ScanRoundTrip). */
  function EncodeRow(columns: seq<string>, response: Object): (line: string)
    ensures |columns| >= 1 ==> Scan(line, "", false) == RowCells(columns, response)
  {
    var cells := RowCells(columns, response);
    if cells == [] then Join(EncodeAll(cells), ',')
    else
      ScanRoundTrip(cells);
      Join(EncodeAll(cells), ',')
  }

  function EncodeRows(columns: seq<string>, responses: seq<Object>): (r: seq<string>)
    ensures |r| == |responses|
  {
    if responses == [] then []
    else [EncodeRow(columns, responses[0])] + EncodeRows(columns, responses[1..])
  }

  /** The text `downloadCSV` builds: nothing without responses, otherwise the header
      names joined by commas without escaping, a newline, and one encoded row per
      response in order, joined by newlines. */
  function ExportCsv(columns: seq<string>, responses: seq<Object>): (csv: Option<string>)
    ensures csv.None? <==> responses == []
  {
    if |responses| == 0 then None
    else Some(Join(columns, ',') + ['\n'] + Join(EncodeRows(columns, responses), '\n'))
  }

  /** Inside quotes the doubled text reads back as the original, and the closing quote
      leaves quoted mode. */
  lemma {:induction false} QuotedBody(d: string, t: string, cur: string)
    requires t == [] || t[0] != '"'
    ensures Scan(DoubleQuotes(d) + ['"'] + t, cur, true) == Scan(t, cur + d, false)
    decreases |d|
  {
    var s := DoubleQuotes(d) + ['"'] + t;
    if d == [] {
      assert s == ['"'] + t;
      ScanClose(s, cur);
      assert s[1..] == t && cur + d == cur;
    } else {
      var rest := DoubleQuotes(d[1..]) + ['"'] + t;
      QuotedBody(d[1..], t, cur + [d[0]]);
      assert cur + [d[0]] + d[1..] == cur + d;
      if d[0] == '"' {
        assert s == ['"', '"'] + rest;
        ScanPair(s, cur);
        assert s[2..] == rest;
      } else {
        assert s == [d[0]] + rest;
        ScanChar(s, cur, true);
        assert s[1..] == rest;
      }
    }
  }

  /** An encoded cell, followed by a separator or the end of the line, is read back as
      the pending field holding exactly the original value. */
  lemma EncodedCell(v: string, t: string)
    requires t == [] || t[0] == ','
    ensures Scan(EncodeCell(v) + t, "", false) == Scan(t, v, false)
  {
    if NeedsQuotes(v) {
      var body := DoubleQuotes(v) + ['"'] + t;
      var s := ['"'] + body;
      assert EncodeCell(v) + t == s;
      ScanOpen(s, "");
      assert s[1..] == body;
      QuotedBody(v, t, "");
      assert "" + v == v;
    } else {
      PlainRun(v, t, "");
      assert "" + v == v;
    }
  }

  lemma ScanOpen(s: string, cur: string)
    requires s != [] && s[0] == '"'
    ensures Scan(s, cur, false) == Scan(s[1..], cur, true)
  {
  }

  /** The state machine reads the comma-joined encoded cells back as the cells, whatever
      they hold: commas, quotes and newlines included. */
  lemma {:induction false} ScanRoundTrip(cells: seq<string>)
    requires |cells| >= 1
    ensures Scan(Join(EncodeAll(cells), ','), "", false) == cells
    decreases |cells|
  {
    var enc := EncodeAll(cells);
    if |cells| == 1 {
      EncodedCell(cells[0], []);
      assert enc[0] + [] == enc[0];
    } else {
      var rest := Join(enc[1..], ',');
      assert enc[1..] == EncodeAll(cells[1..]);
      assert Join(enc, ',') == enc[0] + ([','] + rest);
      EncodedCell(cells[0], [','] + rest);
      assert ([','] + rest)[1..] == rest;
      ScanRoundTrip(cells[1..]);
    }
  }

  /** Round trip of one row: `parseCSVLine` of the comma-joined encoded cells gives the
      cells back when none has whitespace at either end (fields are trimmed). */
  lemma RowRoundTrip(cells: seq<string>)
    requires |cells| >= 1
    requires forall k :: 0 <= k < |cells| ==> Trimmed(cells[k])
    ensures LineFields(Join(EncodeAll(cells), ',')) == cells
  {
    ScanRoundTrip(cells);
    forall k | 0 <= k < |cells| ensures Trim(cells[k]) == cells[k] {
      TrimFixesTrimmed(cells[k]);
    }
  }

  // ---------------------------------------------------------------------------
  // Table decoder

  /** `values[index] || ''`: the value under a header, empty when the row is short. */
  function CellAt(values: seq<string>, index: nat): (v: string)
    ensures index < |values| ==> v == values[index]
    ensures index >= |values| ==> v == ""
  {
    if index < |values| then values[index] else ""
  }

  /** The record built for one data row: header `i` is assigned value `i` in header
      order, so a repeated header keeps its last value and extra values are dropped. */
  function RecordOf(headers: seq<string>, values: seq<string>): (row: Object)
    ensures |row| <= |headers|
    ensures headers != [] ==> Entry(headers[|headers| - 1], CellAt(values, |headers| - 1)) in row
  {
    if headers == [] then []
    else
      var n := |headers| - 1;
      Put(RecordOf(headers[..n], values), headers[n], CellAt(values, n))
  }

  /** `headers.forEach((header, index) => { row[header] = values[index] || '' })`. */
  method BuildRecord(headers: seq<string>, values: seq<string>) returns (row: Object)
    ensures row == RecordOf(headers, values)
  {
    row := [];
    var index := 0;
    while index < |headers|
      invariant 0 <= index <= |headers|
      invariant row == RecordOf(headers[..index], values)
    {
      assert headers[..index + 1][..index] == headers[..index];
      row := Put(row, headers[index], CellAt(values, index));
      index := index + 1;
    }
    assert headers[..index] == headers;
  }

  /** The header names with repeats removed, in order of first appearance. */
  function Dedup(headers: seq<string>): seq<string>
  {
    if headers == [] then []
    else
      var d := Dedup(headers[..|headers| - 1]);
      if headers[|headers| - 1] in d then d else d + [headers[|headers| - 1]]
  }

  /** The deduplicated names are distinct and are exactly the header names. */
  lemma {:induction false} DedupFacts(headers: seq<string>)
    ensures Distinct(Dedup(headers))
    ensures forall k :: k in Dedup(headers) <==> k in headers
    decreases |headers|
  {
    if headers != [] {
      var n := |headers| - 1;
      DedupFacts(headers[..n]);
      assert headers == headers[..n] + [headers[n]];
    }
  }

  /** A record has exactly the header names as keys, each once, in order of first
      appearance. */
  lemma {:induction false} RecordKeys(headers: seq<string>, values: seq<string>)
    ensures Keys(RecordOf(headers, values)) == Dedup(headers)
    ensures WellFormed(RecordOf(headers, values))
    decreases |headers|
  {
    if headers != [] {
      var n := |headers| - 1;
      RecordKeys(headers[..n], values);
      PutKeys(RecordOf(headers[..n], values), headers[n], CellAt(values, n));
    }
    DedupFacts(headers);
  }

  /** Header `i` maps to value `i` (or to `''` past the end of the row), unless the
      same header name appears again further right, whose value then wins. */
  lemma {:induction false} RecordValue(headers: seq<string>, values: seq<string>, i: nat)
    requires i < |headers|
    requires forall j :: i < j < |headers| ==> headers[j] != headers[i]
    ensures Lookup(RecordOf(headers, values), headers[i]) == Some(CellAt(values, i))
    decreases |headers|
  {
    var n := |headers| - 1;
    var prev := RecordOf(headers[..n], values);
    assert RecordOf(headers, values) == Put(prev, headers[n], CellAt(values, n));
    PutLookup(prev, headers[n], CellAt(values, n));
    if i < n {
      RecordValue(headers[..n], values, i);
      assert headers[..n][i] == headers[i];
    }
  }

  /** Every value stored in a record is one of the row's values or the empty string. */
  lemma {:induction false} RecordValuesFromRow(headers: seq<string>, values: seq<string>)
    ensures forall e :: e in RecordOf(headers, values) ==> e.value in values || e.value == ""
    decreases |headers|
  {
    if headers != [] {
      var n := |headers| - 1;
      RecordValuesFromRow(headers[..n], values);
      PutEntries(RecordOf(headers[..n], values), headers[n], CellAt(values, n));
    }
  }

  /** The records of the data lines: blank lines (after trimming) are skipped, every
      other line is trimmed, tokenized and turned into a record. */
  function DecodeRows(headers: seq<string>, lines: seq<string>): (rows: seq<Object>)
    ensures |rows| <= |lines|
  {
    if lines == [] then []
    else
      var line := Trim(lines[|lines| - 1]);
      DecodeRows(headers, lines[..|lines| - 1])
        + if line == [] then [] else [RecordOf(headers, LineFields(line))]
  }

  /** The lines `parseCSV` works on: the trimmed text split at every `\n`. */
  function TextLines(text: string): (lines: seq<string>)
    ensures |lines| >= 1
  {
    Split(Trim(text), '\n')
  }

  /** The header names: the fields of the first line. There is at least one, and none
      has whitespace at either end or holds a newline. */
  function HeaderRow(text: string): (names: seq<string>)
    ensures |names| >= 1
    ensures forall k :: 0 <= k < |names| ==> Trimmed(names[k]) && '\n' !in names[k]
  {
    SplitPieces(Trim(text), '\n');
    LineFieldsWithout(TextLines(text)[0], '\n');
    LineFields(TextLines(text)[0])
  }

  /** The records `parseCSV` returns. */
  function DecodeTable(text: string): (rows: seq<Object>)
    ensures |rows| <= |TextLines(text)| - 1
  {
    var lines := TextLines(text);
    if |lines| < 2 then [] else DecodeRows(HeaderRow(text), lines[1..])
  }

  /** `parseCSV`. */
  method ParseCsv(text: string) returns (data: seq<Object>)
    ensures data == DecodeTable(text)
  {
    var lines := Split(Trim(text), '\n');
    if |lines| < 2 {
      return [];
    }
    var headers := ParseLine(lines[0]);
    data := [];
    var i := 1;
    while i < |lines|
      invariant 1 <= i <= |lines|
      invariant data == DecodeRows(headers, lines[1..i])
    {
      DecodeRowsStep(headers, lines, i);
      var line := Trim(lines[i]);
      if line != [] {
        var values := ParseLine(line);
        var row := BuildRecord(headers, values);
        data := data + [row];
      }
      i := i + 1;
    }
    assert lines[1..i] == lines[1..];
  }

  lemma DecodeRowsStep(headers: seq<string>, lines: seq<string>, i: nat)
    requires 1 <= i < |lines|
    ensures DecodeRows(headers, lines[1..i + 1]) == DecodeRows(headers, lines[1..i])
      + if Trim(lines[i]) == [] then [] else [RecordOf(headers, LineFields(Trim(lines[i])))]
  {
    assert lines[1..i + 1] == lines[1..i] + [lines[i]];
    DecodeRowsSnoc(headers, lines[1..i], lines[i]);
  }

  /** One more line adds at most one record, at the end. */
  lemma DecodeRowsSnoc(headers: seq<string>, lines: seq<string>, line: string)
    ensures DecodeRows(headers, lines + [line]) == DecodeRows(headers, lines)
      + if Trim(line) == [] then [] else [RecordOf(headers, LineFields(Trim(line)))]
  {
    assert (lines + [line])[..|lines|] == lines;
  }

  /** Text with fewer than two lines after trimming decodes to no records. */
  lemma ShortTextDecodesEmpty(text: string)
    requires '\n' !in Trim(text)
    ensures DecodeTable(text) == []
  {
    assert IndexOf(Trim(text), '\n') == |Trim(text)|;
  }

  /** Every decoded record carries exactly the header names as keys. */
  lemma {:induction false} DecodedKeys(headers: seq<string>, lines: seq<string>)
    ensures forall r :: r in DecodeRows(headers, lines) ==> Keys(r) == Dedup(headers) && WellFormed(r)
    decreases |lines|
  {
    if lines != [] {
      DecodedKeys(headers, lines[..|lines| - 1]);
      var line := Trim(lines[|lines| - 1]);
      RecordKeys(headers, LineFields(line));
    }
  }

  /** With no blank data line, every data line yields one record. */
  lemma DecodeTableCount(text: string)
    requires |TextLines(text)| >= 2
    requires forall k :: 1 <= k < |TextLines(text)| ==> Trim(TextLines(text)[k]) != []
    ensures |DecodeTable(text)| == |TextLines(text)| - 1
  {
    var lines := TextLines(text);
    forall k | 0 <= k < |lines[1..]| ensures Trim(lines[1..][k]) != [] {
      assert lines[1..][k] == lines[k + 1];
    }
    NonBlankLinesDecode(HeaderRow(text), lines[1..]);
  }

  /** Every non-blank data line yields a record. */
  lemma {:induction false} NonBlankLinesDecode(headers: seq<string>, lines: seq<string>)
    requires forall k :: 0 <= k < |lines| ==> Trim(lines[k]) != []
    ensures |DecodeRows(headers, lines)| == |lines|
    decreases |lines|
  {
    if lines != [] {
      NonBlankLinesDecode(headers, lines[..|lines| - 1]);
    }
  }

  lemma TableKeys(text: string)
    ensures forall r :: r in DecodeTable(text) ==> Keys(r) == Dedup(HeaderRow(text)) && WellFormed(r)
  {
    var lines := TextLines(text);
    if |lines| >= 2 {
      DecodedKeys(HeaderRow(text), lines[1..]);
    }
  }

  // ---------------------------------------------------------------------------
  // Round trip of a whole export

  /** A column name the unescaped header row carries safely. */
  predicate PlainHeader(c: string) {
    !NeedsQuotes(c) && Trimmed(c)
  }

  /** A response the export writes on one line and the decoder reads back: its keys are
      the columns in order and no value has a newline or whitespace at either end. */
  predicate ExportableResponse(columns: seq<string>, r: Object) {
    && Keys(r) == columns
    && forall e :: e in r ==> Trimmed(e.value) && '\n' !in e.value
  }

  lemma {:induction false} RowCellsAt(columns: seq<string>, r: Object, i: nat)
    requires i < |columns|
    ensures RowCells(columns, r)[i] == Get(r, columns[i])
    decreases |columns|
  {
    if i > 0 {
      RowCellsAt(columns[1..], r, i - 1);
    }
  }

  lemma {:induction false} EncodeAllAt(cells: seq<string>, i: nat)
    requires i < |cells|
    ensures EncodeAll(cells)[i] == EncodeCell(cells[i])
    decreases |cells|
  {
    if i > 0 {
      EncodeAllAt(cells[1..], i - 1);
    }
  }

  lemma EncodeCellTrimmed(v: string)
    requires Trimmed(v)
    ensures Trimmed(EncodeCell(v))
  {
  }

  /** Facts about one exported data line: it is trimmed, not blank, holds no newline
      and tokenizes back to the response's values in column order. */
  lemma ExportedLine(columns: seq<string>, r: Object)
    requires |columns| >= 2 && Distinct(columns)
    requires ExportableResponse(columns, r)
    ensures var line := EncodeRow(columns, r);
      && Trimmed(line) && line != [] && '\n' !in line
      && RecordOf(columns, LineFields(line)) == r
  {
    var cells := RowCells(columns, r);
    var enc := EncodeAll(cells);
    OwnCells(columns, r);
    forall i | 0 <= i < |cells| ensures Trimmed(cells[i]) && '\n' !in cells[i] {
      assert r[i] in r;
    }
    forall i | 0 <= i < |enc| ensures Trimmed(enc[i]) && '\n' !in enc[i] {
      EncodeAllAt(cells, i);
      EncodeCellTrimmed(cells[i]);
    }
    JoinTrimmed(enc, ',');
    JoinNoChar(enc, ',', '\n');
    RowRoundTrip(cells);
    RecordOfEntries(r, cells);
  }

  /** The cells of a well-formed response in key order are its own values. */
  lemma OwnCells(columns: seq<string>, r: Object)
    requires Keys(r) == columns && Distinct(columns)
    ensures |RowCells(columns, r)| == |r|
    ensures forall i :: 0 <= i < |r| ==> RowCells(columns, r)[i] == r[i].value
  {
    KeysAt(r);
    forall i | 0 <= i < |r| ensures RowCells(columns, r)[i] == r[i].value {
      RowCellsAt(columns, r, i);
      LookupAt(r, i);
    }
  }

  /** Rebuilding a well-formed record from its own values in key order gives it back. */
  lemma {:induction false} RecordOfEntries(r: Object, cells: seq<string>)
    requires WellFormed(r)
    requires |r| <= |cells| && forall i :: 0 <= i < |r| ==> cells[i] == r[i].value
    ensures RecordOf(Keys(r), cells) == r
  {
    if r != [] {
      var n := |r| - 1;
      var prev, last := r[..n], r[n];
      assert WellFormed(prev) && last.key !in Keys(prev) && Keys(r)[..n] == Keys(prev) by {
        LastKeyNew(r);
      }
      assert RecordOf(Keys(prev), cells) == prev by {
        assert forall i :: 0 <= i < |prev| ==> prev[i] == r[i];
        RecordOfEntries(prev, cells);
      }
      assert RecordOf(Keys(r), cells) == Put(RecordOf(Keys(prev), cells), last.key, last.value) by {
        assert Keys(r)[n] == last.key && CellAt(cells, n) == last.value;
      }
      assert Put(prev, last.key, last.value) == r by {
        InitLast(r);
        PutNew(prev, last);
      }
    }
  }

  /** The last key of a well-formed object is new to the entries before it. */
  lemma LastKeyNew(r: Object)
    requires WellFormed(r) && r != []
    ensures Keys(r) == Keys(r[..|r| - 1]) + [r[|r| - 1].key]
    ensures WellFormed(r[..|r| - 1])
    ensures r[|r| - 1].key !in Keys(r[..|r| - 1])
  {
    var n := |r| - 1;
    var ks, pks := Keys(r), Keys(r[..n]);
    assert ks == pks + [r[n].key];
    forall i, j | 0 <= i < j < n ensures pks[i] != pks[j] {
      assert pks[i] == ks[i] && pks[j] == ks[j];
    }
    forall j | 0 <= j < n ensures pks[j] != r[n].key {
      assert pks[j] == ks[j] && ks[n] == r[n].key;
    }
  }

  lemma {:induction false} JoinNoChar(parts: seq<string>, sep: char, c: char)
    requires c != sep
    requires forall k :: 0 <= k < |parts| ==> c !in parts[k]
    ensures c !in Join(parts, sep)
    decreases |parts|
  {
    if |parts| > 1 {
      JoinNoChar(parts[1..], sep, c);
    }
  }

  lemma {:induction false} EncodeRowsAt(columns: seq<string>, responses: seq<Object>, i: nat)
    requires i < |responses|
    ensures EncodeRows(columns, responses)[i] == EncodeRow(columns, responses[i])
    decreases |responses|
  {
    if i > 0 {
      EncodeRowsAt(columns, responses[1..], i - 1);
    }
  }

  /** An exported data line survives the decoder's trimming and reads back as the response. */
  lemma ExportedRecord(columns: seq<string>, r: Object)
    requires |columns| >= 2 && Distinct(columns)
    requires ExportableResponse(columns, r)
    ensures Trim(EncodeRow(columns, r)) == EncodeRow(columns, r) != []
    ensures RecordOf(columns, LineFields(Trim(EncodeRow(columns, r)))) == r
  {
    ExportedLine(columns, r);
    TrimFixesTrimmed(EncodeRow(columns, r));
  }

  lemma InitLast<T>(s: seq<T>)
    requires s != []
    ensures s == s[..|s| - 1] + [s[|s| - 1]]
  {
  }

  lemma PrefixSnoc<T>(s: seq<T>, n: nat)
    requires 0 < n <= |s|
    ensures s[..n] == s[..n - 1] + [s[n - 1]]
  {
  }

  /** Decoding the exported data lines gives the responses back, in order. */
  lemma {:induction false} DecodeExportedRows(columns: seq<string>, responses: seq<Object>, n: nat)
    requires |columns| >= 2 && Distinct(columns)
    requires forall r :: r in responses ==> ExportableResponse(columns, r)
    requires n <= |responses|
    ensures DecodeRows(columns, EncodeRows(columns, responses)[..n]) == responses[..n]
    decreases n
  {
    if n > 0 {
      var all := EncodeRows(columns, responses);
      var line := all[n - 1];
      DecodeExportedRows(columns, responses, n - 1);
      PrefixSnoc(all, n);
      DecodeRowsSnoc(columns, all[..n - 1], line);
      EncodeRowsAt(columns, responses, n - 1);
      assert responses[n - 1] in responses;
      ExportedRecord(columns, responses[n - 1]);
      PrefixSnoc(responses, n);
    }
  }

  /** Round trip of the export: when there is at least one response, the columns are at
      least two distinct plain names, and every response has those keys in that order
      with values free of newlines and of surrounding whitespace, decoding the text
      that `downloadCSV` builds yields the responses again. */
  lemma ExportRoundTrip(columns: seq<string>, responses: seq<Object>)
    requires |responses| >= 1
    requires |columns| >= 2 && Distinct(columns)
    requires forall c :: c in columns ==> PlainHeader(c)
    requires forall r :: r in responses ==> ExportableResponse(columns, r)
    ensures ExportCsv(columns, responses).Some?
    ensures HeaderRow(ExportCsv(columns, responses).value) == columns
    ensures DecodeTable(ExportCsv(columns, responses).value) == responses
  {
    var rows := EncodeRows(columns, responses);
    var text := ExportCsv(columns, responses).value;
    ExportLines(columns, responses);
    assert TextLines(text)[0] == Join(columns, ',');
    assert HeaderRow(text) == columns by {
      // The header row is its own encoding, as no column name needs quotes.
      assert EncodeAll(columns) == columns by {
        forall i | 0 <= i < |columns| ensures EncodeAll(columns)[i] == columns[i] {
          EncodeAllAt(columns, i);
          assert columns[i] in columns;
        }
      }
      forall i | 0 <= i < |columns| ensures Trimmed(columns[i]) {
        assert columns[i] in columns;
      }
      RowRoundTrip(columns);
    }
    DecodeExportedRows(columns, responses, |responses|);
    assert TextLines(text)[1..] == rows[..|responses|];
    assert responses[..|responses|] == responses;
  }

  /** The exported text splits into the header line and one line per response. */
  lemma ExportLines(columns: seq<string>, responses: seq<Object>)
    requires |responses| >= 1
    requires |columns| >= 2 && Distinct(columns)
    requires forall c :: c in columns ==> PlainHeader(c)
    requires forall r :: r in responses ==> ExportableResponse(columns, r)
    ensures ExportCsv(columns, responses).Some?
    ensures TextLines(ExportCsv(columns, responses).value)
      == [Join(columns, ',')] + EncodeRows(columns, responses)
  {
    var header := Join(columns, ',');
    var rows := EncodeRows(columns, responses);
    var text := ExportCsv(columns, responses).value;
    var lines := [header] + rows;
    assert text == Join(lines, '\n');
    forall k | 0 <= k < |lines| ensures Trimmed(lines[k]) && lines[k] != [] && '\n' !in lines[k] {
      if k == 0 {
        forall i | 0 <= i < |columns| ensures Trimmed(columns[i]) && '\n' !in columns[i] {
          assert columns[i] in columns;
        }
        JoinTrimmed(columns, ',');
        JoinNoChar(columns, ',', '\n');
      } else {
        EncodeRowsAt(columns, responses, k - 1);
        assert responses[k - 1] in responses;
        ExportedLine(columns, responses[k - 1]);
      }
    }
    JoinNonEmptyTrimmed(lines, '\n');
    TrimFixesTrimmed(text);
    SplitJoin(lines, '\n');
  }
}
