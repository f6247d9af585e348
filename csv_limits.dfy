/**
 * Exports that do not read back. The export round trip is proved under its own
 * conditions; these show what goes wrong outside two of them: a single column whose
 * value is empty (a single column of non-empty values reads back), and a value that
 * holds a newline.
 */
module CsvLimits {
  import opened Options
  import opened JsText
  import opened JsObject
  import opened CsvCodec

  /** A single column whose only value is empty exports as `A` and a newline; the
      decoder trims that to one line and finds no record. */
  lemma SingleBlankColumnLost()
    ensures ExportCsv(["A"], [[Entry("A", "")]]) == Some("A\n")
    ensures DecodeTable("A\n") == []
  {
    var r := [Entry("A", "")];
    assert RowCells(["A"], r) == [""];
    assert EncodeAll([""]) == [""];
    assert EncodeRows(["A"], [r]) == [""];
    assert Join(["A"], ',') == "A";
    assert Join([""], '\n') == "";
    assert "A" + ['\n'] + "" == "A\n";
    assert Trim("A\n") == "A";
    ShortTextDecodesEmpty("A\n");
  }

  /** A value holding a newline (and no quote or comma) is wrapped in quotes, and the
      newline stays inside the row. */
  lemma NewlineCellRow(a: string, b: string)
    requires '\n' in a && '"' !in a && ',' !in a && !NeedsQuotes(b)
    ensures EncodeRow(["A", "B"], [Entry("A", a), Entry("B", b)]) == ['"'] + a + ['"', ','] + b
  {
    var r := [Entry("A", a), Entry("B", b)];
    assert Get(r, "A") == a;
    assert Find(r, "B") == 1 by {
      assert r[1..] == [Entry("B", b)] && "A" != "B";
    }
    assert RowCells(["A", "B"], r) == [a, b];
    assert EncodeCell(a) == ['"'] + a + ['"'] by {
      DoubleQuotesInverse(a);
    }
    assert EncodeAll([a, b]) == [['"'] + a + ['"'], b];
    assert Join([['"'] + a + ['"'], b], ',') == ['"'] + a + ['"'] + [','] + b;
  }

  /** The whole export of such a response: the header line and the quoted row. */
  lemma NewlineCellExport(a: string, b: string)
    requires '\n' in a && '"' !in a && ',' !in a && !NeedsQuotes(b)
    ensures ExportCsv(["A", "B"], [[Entry("A", a), Entry("B", b)]]) == Some("A,B\n" + ['"'] + a + ['"', ','] + b)
  {
    var columns, r := ["A", "B"], [Entry("A", a), Entry("B", b)];
    var line := ['"'] + a + ['"', ','] + b;
    assert EncodeRow(columns, r) == line by {
      NewlineCellRow(a, b);
    }
    assert Join(columns, ',') == "A,B" by {
      assert Join(["A", "B"], ',') == "A" + [','] + "B";
    }
    assert ExportCsv(columns, [r]) == Some(Join(columns, ',') + ['\n'] + EncodeRow(columns, r)) by {
      OneResponse(columns, r);
    }
    assert "A,B" + ['\n'] + line == "A,B\n" + ['"'] + a + ['"', ','] + b;
  }

  /** The export of a single response: the header line and that response's line. */
  lemma OneResponse(columns: seq<string>, r: Object)
    ensures ExportCsv(columns, [r]) == Some(Join(columns, ',') + ['\n'] + EncodeRow(columns, r))
  {
    assert EncodeRows(columns, [r]) == [EncodeRow(columns, r)];
  }

  /** The export of the response `A` = `a` newline `b`, `B` = `c` is split into three
      lines, the header and the two halves of the quoted cell, before any line is
      tokenized. */
  lemma NewlineCellLines(text: string)
    // The text is a parameter fixed here rather than a literal in the conclusion, which
    // keeps the verifier from expanding every decoder function on the literal.
    requires text == "A,B\n\"a\nb\",c"
    ensures TextLines(text) == ["A,B", "\"a", "b\",c"]
  {
    var lines := ["A,B", "\"a", "b\",c"];
    assert Trimmed(text);
    TrimFixesTrimmed(text);
    assert Join(lines, '\n') == text by {
      assert Join(lines[2..], '\n') == "b\",c";
      assert Join(lines[1..], '\n') == "\"a" + ['\n'] + "b\",c";
    }
    SplitJoin(lines, '\n');
  }

  /** The export of the response `A` = `a` newline `b`, `B` = `c` decodes as two
      records: one exported response does not read back as one. */
  lemma NewlineCellDecode(text: string)
    // A parameter fixed here, for the same reason as in NewlineCellLines.
    requires text == "A,B\n\"a\nb\",c"
    ensures |DecodeTable(text)| == 2
  {
    var first, second := "\"a", "b\",c";
    NewlineCellLines(text);
    assert TextLines(text)[1..] == [first, second];
    NotBlank(first);
    NotBlank(second);
    TwoDataRows(HeaderRow(text), first, second);
  }

  lemma TwoDataRows(headers: seq<string>, first: string, second: string)
    requires Trim(first) != [] && Trim(second) != []
    ensures |DecodeRows(headers, [first, second])| == 2
  {
    NonBlankLinesDecode(headers, [first, second]);
  }

  lemma NotBlank(s: string)
    requires s != [] && !IsWs(s[0])
    ensures Trim(s) != []
  {
    TrimEmptyIffAllWs(s);
  }
}
