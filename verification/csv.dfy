/** The CSV export: a header line `Filename,Title,Description,Keywords` and
    one line per record, lines joined by a single line feed with no line
    feed at the end. Title and description are enclosed in double quotes
    with every inner double quote doubled; the keywords are joined by ", "
    and enclosed in double quotes without doubling; the file name is written
    as it is.

    To say what such a document means, the module also defines a reader in
    the style of section 2 of RFC 4180 (fields separated by commas, a field
    enclosed in double quotes may contain commas and line breaks, and a
    doubled double quote inside it stands for one), with the line feed as
    the record separator, and proves what the reader recovers from the
    export. */
module Csv {
  import opened Wrappers
  import opened Strings
  import opened Registry

  const HeaderNames: seq<string> := ["Filename", "Title", "Description", "Keywords"]
  const KeywordSeparator: string := ", "

  function Quote(s: string): string {
    "\"" + s + "\""
  }

  /** `s.replace(/"/g, '""')`. */
  function Escape(s: string): string {
    ReplaceAll(s, "\"", "\"\"")
  }

  /** The cells of a record's line as the exporter writes them. */
  function Cells(img: Image): seq<string> {
    [ img.file.name,
      Quote(Escape(img.title)),
      Quote(Escape(img.description)),
      Quote(Join(img.keywords, KeywordSeparator)) ]
  }

  /** The values a record's line is meant to carry. */
  function Fields(img: Image): seq<string> {
    [img.file.name, img.title, img.description, Join(img.keywords, KeywordSeparator)]
  }

  /** The cell rows of the records, in order. */
  function CellRows(images: seq<Image>): seq<seq<string>> {
    seq(|images|, i requires 0 <= i < |images| => Cells(images[i]))
  }

  /** The intended values of the records, in order. */
  function FieldRows(images: seq<Image>): seq<seq<string>> {
    seq(|images|, i requires 0 <= i < |images| => Fields(images[i]))
  }

  /** Each row of cells joined by commas. */
  function Lines(rows: seq<seq<string>>): (r: seq<string>)
    ensures |r| == |rows|
    ensures forall i :: 0 <= i < |rows| ==> r[i] == Join(rows[i], ",")
  {
    if |rows| == 0 then [] else [Join(rows[0], ",")] + Lines(rows[1..])
  }

  /** The header line followed by the given rows, joined by line feeds. */
  function Document(rows: seq<seq<string>>): string {
    Join([Join(HeaderNames, ",")] + Lines(rows), "\n")
  }

  /** `generateCSV(images)`. */
  function GenerateCsv(images: seq<Image>): (r: string)
    ensures StartsWith(r, "Filename,Title,Description,Keywords")
    ensures |images| == 0 ==> r == "Filename,Title,Description,Keywords"
    ensures |images| > 0 ==> r[|r| - 1] == '"'
  {
    DocumentEnds(CellRows(images));
    Document(CellRows(images))
  }

  /** The download button: nothing to download for an empty registry;
      otherwise the as-written export. It reads back as the records only
      when every record is safe to export (see `ExportSafe` and
      "## Findings" in the README). */
  function Export(images: seq<Image>): (r: Option<string>)
    ensures r.None? <==> |images| == 0
    ensures r.Some? ==> StartsWith(r.value, "Filename,Title,Description,Keywords")
    ensures r.Some? ==> r.value[|r.value| - 1] == '"'
    ensures r.Some? && (forall i :: 0 <= i < |images| ==> ExportSafe(images[i])) ==>
              ReadsBack(Parse(r.value), images)
  {
    if |images| == 0 then None
    else
      assert (forall i :: 0 <= i < |images| ==> ExportSafe(images[i])) ==>
               ReadsBack(Parse(GenerateCsv(images)), images) by {
        if forall i :: 0 <= i < |images| ==> ExportSafe(images[i]) {
          GenerateCsvRoundTrip(images);
        }
      }
      Some(GenerateCsv(images))
  }

  /** The download button with the corrected export, every field escaped:
      whatever the records contain, the document reads back as their file
      names, titles, descriptions and joined keywords. */
  function ExportEscaped(images: seq<Image>): (r: Option<string>)
    ensures r.None? <==> |images| == 0
    ensures r.Some? ==> StartsWith(r.value, "Filename,Title,Description,Keywords")
    ensures r.Some? ==> ReadsBack(Parse(r.value), images)
  {
    if |images| == 0 then None
    else
      GenerateCsvEscapedRoundTrip(images);
      Some(GenerateCsvEscaped(images))
  }

  lemma HeaderLine()
    ensures Join(HeaderNames, ",") == "Filename,Title,Description,Keywords"
  {
    JoinFour("Filename", "Title", "Description", "Keywords");
  }

  /** The document starts with the header line; with at least one row it
      ends with that row's last cell. */
  lemma DocumentEnds(rows: seq<seq<string>>)
    requires forall i :: 0 <= i < |rows| ==> |rows[i]| > 0
    ensures StartsWith(Document(rows), "Filename,Title,Description,Keywords")
    ensures |rows| == 0 ==> Document(rows) == "Filename,Title,Description,Keywords"
    ensures |rows| > 0 ==> EndsWith(Document(rows), rows[|rows| - 1][|rows[|rows| - 1]| - 1])
  {
    HeaderLine();
    var lines := [Join(HeaderNames, ",")] + Lines(rows);
    JoinEnds(lines, "\n");
    if |rows| > 0 {
      var last := rows[|rows| - 1];
      JoinEnds(last, ",");
      assert lines[|lines| - 1] == Join(last, ",");
      EndsWithTrans(Document(rows), Join(last, ","), last[|last| - 1]);
    }
  }

  // ----- The reader -------------------------------------------------------

  /** Where the reader is inside a field. */
  datatype Mode =
    | FieldStart     // nothing read yet in this field
    | Unquoted       // inside a field that did not start with a quote
    | Quoted         // inside a quoted field
    | QuoteInQuoted  // just read a quote inside a quoted field

  /** The reader's state: the mode, the current field read so far, the
      finished fields of the current record, and the finished records. */
  datatype Reader = Reader(mode: Mode, field: string, row: seq<string>, rows: seq<seq<string>>)

  /** The state at the start of a record. */
  function LineStart(rows: seq<seq<string>>): Reader {
    Reader(FieldStart, "", [], rows)
  }

  /** One character. Inside a quoted field everything but a quote is
      content, and a quote either closes the field or, doubled, stands for
      one quote; outside, a comma ends the field and a line feed ends the
      record. */
  function Next(st: Reader, c: char): Reader {
    if st.mode == Quoted then
      if c == '"' then st.(mode := QuoteInQuoted) else st.(field := st.field + [c])
    else if st.mode == QuoteInQuoted && c == '"' then st.(mode := Quoted, field := st.field + ['"'])
    else if st.mode == FieldStart && c == '"' then st.(mode := Quoted)
    else if c == ',' then st.(mode := FieldStart, field := "", row := st.row + [st.field])
    else if c == '\n' then LineStart(st.rows + [st.row + [st.field]])
    else st.(mode := Unquoted, field := st.field + [c])
  }

  /** Reads the rest of the input `s` from state `st`; the end of the input
      ends the last field and the last record. */
  function ParseFrom(s: string, st: Reader): seq<seq<string>>
    decreases |s|
  {
    if |s| == 0 then st.rows + [st.row + [st.field]]
    else ParseFrom(s[1..], Next(st, s[0]))
  }

  /** The records of a document, each a sequence of field values. */
  function Parse(s: string): seq<seq<string>> {
    ParseFrom(s, LineStart([]))
  }

  /** A value that can stand in a line without quotes: no comma, no line
      feed, and no quote in front. */
  predicate Plain(v: string) {
    ',' !in v && '\n' !in v && (v == "" || v[0] != '"')
  }

  /** `raw` is a cell the reader turns into `v`: `v` itself when plain, or
      `v` quoted with its quotes doubled. */
  predicate Encodes(raw: string, v: string) {
    (Plain(v) && raw == v) || raw == Quote(Escape(v))
  }

  /** Each cell of a line encodes the corresponding value. */
  predicate CellsEncode(raws: seq<string>, vals: seq<string>) {
    |raws| == |vals| > 0 && forall j :: 0 <= j < |raws| ==> Encodes(raws[j], vals[j])
  }

  /** `CellsEncode`, stated cell by cell from the front, the way the reader
      consumes a line. */
  predicate LineEncodes(raws: seq<string>, vals: seq<string>)
    decreases |raws|
  {
    |raws| == |vals| > 0 && Encodes(raws[0], vals[0]) && (|raws| == 1 || LineEncodes(raws[1..], vals[1..]))
  }

  lemma {:induction false} CellsEncodeLine(raws: seq<string>, vals: seq<string>)
    requires CellsEncode(raws, vals)
    ensures LineEncodes(raws, vals)
    decreases |raws|
  {
    if |raws| > 1 {
      assert forall j :: 0 <= j < |raws| - 1 ==> raws[1..][j] == raws[j + 1] && vals[1..][j] == vals[j + 1];
      CellsEncodeLine(raws[1..], vals[1..]);
    }
  }

  /** The reader's mode right after a cell. */
  function EndMode(raw: string): Mode {
    if |raw| > 0 && raw[0] == '"' then QuoteInQuoted
    else if raw == "" then FieldStart
    else Unquoted
  }

  /** One step of the reader on an input that starts with `c`. */
  lemma Step(c: char, w: string, st: Reader)
    ensures ParseFrom([c] + w, st) == ParseFrom(w, Next(st, c))
  {
    assert ([c] + w)[0] == c && ([c] + w)[1..] == w;
  }

  /** Doubling the quotes of `v` is undone inside a quoted field. */
  lemma EscapeFirst(v: string)
    requires |v| > 0
    ensures Escape(v) == (if v[0] == '"' then "\"\"" else [v[0]]) + Escape(v[1..])
  {
    assert StartsWith(v, "\"") <==> v[0] == '"';
  }

  lemma {:induction false} ReadEscaped(v: string, tail: string, st: Reader)
    requires st.mode == Quoted
    ensures ParseFrom(Escape(v) + tail, st) == ParseFrom(tail, st.(field := st.field + v))
    decreases |v|
  {
    if |v| == 0 {
      assert Escape(v) == "";
      assert Escape(v) + tail == tail && st.field + v == st.field;
    } else {
      var rest := Escape(v[1..]) + tail;
      var st' := st.(field := st.field + [v[0]]);
      ReadEscaped(v[1..], tail, st');
      ConsFront(st.field, v);
      EscapedHead(v, tail);
      if v[0] == '"' {
        Step('"', ['"'] + rest, st);
        Step('"', rest, Next(st, '"'));
      } else {
        Step(v[0], rest, st);
      }
    }
  }

  /** The escaped text of `v` followed by `tail`, split after the escaped
      first character. */
  lemma EscapedHead(v: string, tail: string)
    requires |v| > 0
    ensures v[0] == '"' ==> Escape(v) + tail == ['"'] + (['"'] + (Escape(v[1..]) + tail))
    ensures v[0] != '"' ==> Escape(v) + tail == [v[0]] + (Escape(v[1..]) + tail)
  {
    EscapeFirst(v);
  }

  /** A quoted cell reads back as its value. */
  lemma ReadQuoted(v: string, rest: string, st: Reader)
    requires st.mode == FieldStart && st.field == ""
    ensures ParseFrom(Quote(Escape(v)) + rest, st) == ParseFrom(rest, st.(mode := QuoteInQuoted, field := v))
  {
    assert Quote(Escape(v)) + rest == ['"'] + (Escape(v) + (['"'] + rest));
    Step('"', Escape(v) + (['"'] + rest), st);
    ReadEscaped(v, ['"'] + rest, st.(mode := Quoted));
    assert "" + v == v;
    Step('"', rest, st.(mode := Quoted, field := v));
  }

  lemma {:induction false} ReadPlainTail(v: string, rest: string, st: Reader)
    requires st.mode == Unquoted
    requires ',' !in v && '\n' !in v
    ensures ParseFrom(v + rest, st) == ParseFrom(rest, st.(field := st.field + v))
    decreases |v|
  {
    if |v| == 0 {
      assert v + rest == rest && st.field + v == st.field;
    } else {
      assert v + rest == [v[0]] + (v[1..] + rest);
      Step(v[0], v[1..] + rest, st);
      ReadPlainTail(v[1..], rest, st.(field := st.field + [v[0]]));
      assert st.field + [v[0]] + v[1..] == st.field + v;
    }
  }

  /** A plain cell reads back as itself. */
  lemma ReadPlain(v: string, rest: string, st: Reader)
    requires st.mode == FieldStart && st.field == ""
    requires Plain(v)
    ensures ParseFrom(v + rest, st) == ParseFrom(rest, st.(mode := EndMode(v), field := v))
  {
    if |v| == 0 {
      assert v + rest == rest;
    } else {
      assert v + rest == [v[0]] + (v[1..] + rest);
      Step(v[0], v[1..] + rest, st);
      assert v[0] in v;
      assert forall c :: c in v[1..] ==> c in v;
      assert "" + [v[0]] == [v[0]];
      ReadPlainTail(v[1..], rest, st.(mode := Unquoted, field := [v[0]]));
      assert [v[0]] + v[1..] == v;
    }
  }

  lemma ReadCell(raw: string, v: string, rest: string, st: Reader)
    requires st.mode == FieldStart && st.field == ""
    requires Encodes(raw, v)
    ensures ParseFrom(raw + rest, st) == ParseFrom(rest, st.(mode := EndMode(raw), field := v))
    ensures EndMode(raw) != Quoted
  {
    if Plain(v) && raw == v {
      ReadPlain(v, rest, st);
    } else {
      ReadQuoted(v, rest, st);
    }
  }

  /** What remains after a line: nothing, or a line feed and the next line. */
  predicate LineEnd(rest: string) {
    rest == "" || rest[0] == '\n'
  }

  /** The reader's result after a line: done, or read on from the start of
      the next. */
  function AfterLine(rest: string, rows: seq<seq<string>>): seq<seq<string>>
    requires LineEnd(rest)
  {
    if rest == "" then rows else ParseFrom(rest[1..], LineStart(rows))
  }

  /** The last cell of a line, followed by the end of the line. */
  lemma ReadLastCell(raw: string, v: string, rest: string, st: Reader)
    requires st.mode == FieldStart && st.field == ""
    requires Encodes(raw, v) && LineEnd(rest)
    ensures ParseFrom(raw + rest, st) == AfterLine(rest, st.rows + [st.row + [v]])
  {
    var st' := st.(mode := EndMode(raw), field := v);
    ReadCell(raw, v, rest, st);
    if rest != "" {
      assert rest == ['\n'] + rest[1..];
      Step('\n', rest[1..], st');
    }
  }

  /** A cell followed by a comma. */
  lemma ReadCellComma(raw: string, v: string, tail: string, st: Reader)
    requires st.mode == FieldStart && st.field == ""
    requires Encodes(raw, v)
    ensures ParseFrom(raw + ([','] + tail), st) == ParseFrom(tail, st.(row := st.row + [v]))
  {
    ReadCell(raw, v, [','] + tail, st);
    Step(',', tail, st.(mode := EndMode(raw), field := v));
  }

  /** A line of encoded cells reads back as its values. */
  lemma {:induction false} ReadLine(raws: seq<string>, vals: seq<string>, rest: string, st: Reader)
    requires st.mode == FieldStart && st.field == ""
    requires LineEncodes(raws, vals) && LineEnd(rest)
    ensures ParseFrom(Join(raws, ",") + rest, st) == AfterLine(rest, st.rows + [st.row + vals])
    decreases |raws|, 1
  {
    if |raws| == 1 {
      ReadLastCell(raws[0], vals[0], rest, st);
      assert vals == [vals[0]];
    } else {
      ReadLineCons(raws, vals, rest, st);
    }
  }

  /** `ReadLine` for a line of two or more cells: the first cell and its
      comma, then the rest of the line. */
  lemma {:induction false} ReadLineCons(raws: seq<string>, vals: seq<string>, rest: string, st: Reader)
    requires st.mode == FieldStart && st.field == ""
    requires LineEncodes(raws, vals) && LineEnd(rest) && |raws| > 1
    ensures ParseFrom(Join(raws, ",") + rest, st) == AfterLine(rest, st.rows + [st.row + vals])
    decreases |raws|, 0
  {
    var tail := Join(raws[1..], ",") + rest;
    var st1 := st.(row := st.row + [vals[0]]);
    assert Join(raws, ",") + rest == raws[0] + ([','] + tail) by {
      assert Join(raws, ",") == raws[0] + "," + Join(raws[1..], ",");
    }
    ReadCellComma(raws[0], vals[0], tail, st);
    ReadLine(raws[1..], vals[1..], rest, st1);
    ConsFront(st.row, vals);
  }

  /** Moving the first element of `xs` onto the end of `front`. */
  lemma ConsFront<T>(front: seq<T>, xs: seq<T>)
    requires |xs| > 0
    ensures front + [xs[0]] + xs[1..] == front + xs
  {
    assert [xs[0]] + xs[1..] == xs;
  }

  /** Each row of cells encodes the corresponding row of values. */
  predicate TableEncodes(cells: seq<seq<string>>, vals: seq<seq<string>>)
    decreases |cells|
  {
    if |cells| == 0 then |vals| == 0
    else |vals| > 0 && LineEncodes(cells[0], vals[0]) && TableEncodes(cells[1..], vals[1..])
  }

  lemma {:induction false} TableEncodesAll(cells: seq<seq<string>>, vals: seq<seq<string>>)
    requires |cells| == |vals|
    requires forall i :: 0 <= i < |cells| ==> CellsEncode(cells[i], vals[i])
    ensures TableEncodes(cells, vals)
    decreases |cells|
  {
    if |cells| > 0 {
      assert forall i :: 0 <= i < |cells| - 1 ==> cells[1..][i] == cells[i + 1] && vals[1..][i] == vals[i + 1];
      CellsEncodeLine(cells[0], vals[0]);
      TableEncodesAll(cells[1..], vals[1..]);
    }
  }

  /** Lines of encoded cells joined by line feeds read back as the table of
      their values. */
  lemma {:induction false} ReadLines(cells: seq<seq<string>>, vals: seq<seq<string>>, rows: seq<seq<string>>)
    requires |cells| > 0 && TableEncodes(cells, vals)
    ensures ParseFrom(Join(Lines(cells), "\n"), LineStart(rows)) == rows + vals
    decreases |cells|, 1
  {
    if |cells| == 1 {
      assert Join(Lines(cells), "\n") == Join(cells[0], ",") + "";
      ReadLine(cells[0], vals[0], "", LineStart(rows));
      assert [] + vals[0] == vals[0];
      assert vals == [vals[0]];
    } else {
      ReadLinesCons(cells, vals, rows);
    }
  }

  /** `ReadLines` for two or more lines: the first line and its line feed,
      then the remaining lines. */
  lemma {:induction false} ReadLinesCons(cells: seq<seq<string>>, vals: seq<seq<string>>, rows: seq<seq<string>>)
    requires |cells| > 1 && TableEncodes(cells, vals)
    ensures ParseFrom(Join(Lines(cells), "\n"), LineStart(rows)) == rows + vals
    decreases |cells|, 0
  {
    var rest := "\n" + Join(Lines(cells[1..]), "\n");
    assert Join(Lines(cells), "\n") == Join(cells[0], ",") + rest by {
      assert Lines(cells)[1..] == Lines(cells[1..]);
    }
    ReadLine(cells[0], vals[0], rest, LineStart(rows));
    assert rest[1..] == Join(Lines(cells[1..]), "\n");
    assert [] + vals[0] == vals[0];
    ReadLines(cells[1..], vals[1..], rows + [vals[0]]);
    ConsFront(rows, vals);
  }

  /** A document whose every row of cells encodes a row of values reads back
      as the header names followed by those values. */
  lemma ReadDocument(rows: seq<seq<string>>, vals: seq<seq<string>>)
    requires |rows| == |vals|
    requires forall i :: 0 <= i < |rows| ==> CellsEncode(rows[i], vals[i])
    ensures Parse(Document(rows)) == [HeaderNames] + vals
  {
    var cells := [HeaderNames] + rows;
    var table := [HeaderNames] + vals;
    assert CellsEncode(HeaderNames, HeaderNames) by {
      assert forall j :: 0 <= j < 4 ==> Plain(HeaderNames[j]);
    }
    CellsEncodeLine(HeaderNames, HeaderNames);
    assert cells[1..] == rows && table[1..] == vals;
    TableEncodesAll(rows, vals);
    assert Lines(cells) == [Join(HeaderNames, ",")] + Lines(rows);
    ReadLines(cells, table, []);
    assert [] + table == table;
  }

  // ----- What the export means ----------------------------------------------

  /** A record the exporter writes unambiguously: a plain file name and no
      quote in any keyword. */
  predicate ExportSafe(img: Image) {
    && Plain(img.file.name)
    && forall k :: 0 <= k < |img.keywords| ==> '"' !in img.keywords[k]
  }

  lemma KeywordsCellEncodes(img: Image)
    requires forall k :: 0 <= k < |img.keywords| ==> '"' !in img.keywords[k]
    ensures Encodes(Quote(Join(img.keywords, KeywordSeparator)), Join(img.keywords, KeywordSeparator))
  {
    var joined := Join(img.keywords, KeywordSeparator);
    JoinAvoids(img.keywords, KeywordSeparator, '"');
    OccursChar('"', joined);
    ReplaceAllAbsent(joined, "\"", "\"\"");
  }

  /** `table` is the header names followed by each record's fields, in
      order. */
  predicate ReadsBack(table: seq<seq<string>>, images: seq<Image>) {
    && |table| == |images| + 1
    && table[0] == HeaderNames
    && forall i :: 0 <= i < |images| ==> table[i + 1] == Fields(images[i])
  }

  /** Reading the export back gives the header names and then, for every
      record in order, its file name, title, description and joined
      keywords, as long as every record is safe to export. */
  lemma GenerateCsvRoundTrip(images: seq<Image>)
    requires forall i :: 0 <= i < |images| ==> ExportSafe(images[i])
    ensures ReadsBack(Parse(GenerateCsv(images)), images)
  {
    var rows := CellRows(images);
    var vals := FieldRows(images);
    forall i | 0 <= i < |images|
      ensures CellsEncode(rows[i], vals[i])
    {
      SafeRecordEncodes(images[i]);
    }
    ReadDocument(rows, vals);
    FieldRowsReadBack(images);
  }

  /** The header names followed by the records' fields is what reading back
      should give. */
  lemma FieldRowsReadBack(images: seq<Image>)
    ensures ReadsBack([HeaderNames] + FieldRows(images), images)
  {
    var vals := FieldRows(images);
    assert forall i :: 0 <= i < |images| ==> ([HeaderNames] + vals)[i + 1] == vals[i];
  }

  lemma SafeRecordEncodes(img: Image)
    requires ExportSafe(img)
    ensures CellsEncode(Cells(img), Fields(img))
  {
    KeywordsCellEncodes(img);
    var c := Cells(img);
    var f := Fields(img);
    assert Encodes(c[0], f[0]) && Encodes(c[1], f[1]) && Encodes(c[2], f[2]) && Encodes(c[3], f[3]);
  }

  // ----- Escaping every field -------------------------------------------------

  /** Every cell quoted, with its quotes doubled. */
  function EscapedCells(img: Image): seq<string> {
    [ Quote(Escape(img.file.name)),
      Quote(Escape(img.title)),
      Quote(Escape(img.description)),
      Quote(Escape(Join(img.keywords, KeywordSeparator))) ]
  }

  /** The escaped cell rows of the records, in order. */
  function EscapedRows(images: seq<Image>): seq<seq<string>> {
    seq(|images|, i requires 0 <= i < |images| => EscapedCells(images[i]))
  }

  /** The export with all four fields escaped the way title and description
      are. */
  function GenerateCsvEscaped(images: seq<Image>): (r: string)
    ensures StartsWith(r, "Filename,Title,Description,Keywords")
    ensures |images| == 0 ==> r == "Filename,Title,Description,Keywords"
    ensures |images| > 0 ==> r[|r| - 1] == '"'
  {
    DocumentEnds(EscapedRows(images));
    Document(EscapedRows(images))
  }

  /** With every field escaped, reading the export back recovers each
      record's file name, title, description and keywords joined by ", ",
      whatever they contain. The id and the MIME type are not exported, and
      keyword lists with the same joined text read back alike. */
  lemma GenerateCsvEscapedRoundTrip(images: seq<Image>)
    ensures ReadsBack(Parse(GenerateCsvEscaped(images)), images)
  {
    var rows := EscapedRows(images);
    var vals := FieldRows(images);
    forall i | 0 <= i < |images|
      ensures CellsEncode(rows[i], vals[i])
    {
      EscapedRecordEncodes(images[i]);
    }
    ReadDocument(rows, vals);
    FieldRowsReadBack(images);
  }

  lemma EscapedRecordEncodes(img: Image)
    ensures CellsEncode(EscapedCells(img), Fields(img))
  {
    var c := EscapedCells(img);
    var f := Fields(img);
    assert Encodes(c[0], f[0]) && Encodes(c[1], f[1]) && Encodes(c[2], f[2]) && Encodes(c[3], f[3]);
  }

  // ----- Counterexamples for the as-written export ---------------------------

  /** The cells of a four-cell line joined by commas. */
  lemma JoinFour(a: string, b: string, c: string, d: string)
    ensures Join([a, b, c, d], ",") == a + "," + b + "," + c + "," + d
  {
    assert [a, b, c, d][1..] == [b, c, d];
    assert [b, c, d][1..] == [c, d];
    assert [c, d][1..] == [d];
    assert Join([c, d], ",") == c + "," + d;
    assert Join([b, c, d], ",") == b + "," + (c + "," + d);
  }

  /** The cells of a five-cell line joined by commas. */
  lemma JoinFive(a: string, b: string, c: string, d: string, e: string)
    ensures Join([a, b, c, d, e], ",") == a + "," + b + "," + c + "," + d + "," + e
  {
    assert [a, b, c, d, e][1..] == [b, c, d, e];
    JoinFour(b, c, d, e);
  }

  /** A single record whose line is the same text as a line of cells that
      encode `vals` reads back as the header names and `vals`. */
  lemma ReadSingleRecord(img: Image, raws: seq<string>, vals: seq<string>)
    requires Join(Cells(img), ",") == Join(raws, ",")
    requires CellsEncode(raws, vals)
    ensures Parse(GenerateCsv([img])) == [HeaderNames, vals]
  {
    assert CellRows([img]) == [Cells(img)];
    DocumentOfOne(Cells(img));
    DocumentOfOne(raws);
    ReadDocument([raws], [vals]);
  }

  /** A document with one row is the header line, a line feed and the row. */
  lemma DocumentOfOne(cells: seq<string>)
    ensures Document([cells]) == Join(HeaderNames, ",") + "\n" + Join(cells, ",")
  {
    var lines := [Join(HeaderNames, ",")] + Lines([cells]);
    assert lines == [Join(HeaderNames, ","), Join(cells, ",")];
    assert lines[1..] == [Join(cells, ",")];
    assert Join(lines, "\n") == lines[0] + "\n" + Join(lines[1..], "\n");
  }

  /** A keyword of the form `a",b` ends the quoted keywords cell early: the
      record's line reads back as five fields, the last two being `a` and
      `b"`, instead of four. For instance the keyword `x",y`. */
  lemma KeywordQuoteSplitsRecord(img: Image, a: string, b: string)
    requires Plain(img.file.name)
    requires img.keywords == [a + "\"," + b]
    requires '"' !in a && Plain(b) && |b| > 0
    ensures var table := Parse(GenerateCsv([img]));
            && table == [HeaderNames, [img.file.name, img.title, img.description, a, b + "\""]]
            && |table[1]| != |Fields(img)|
  {
    var raws := [img.file.name, Quote(Escape(img.title)), Quote(Escape(img.description)), Quote(a), b + "\""];
    var vals := [img.file.name, img.title, img.description, a, b + "\""];
    KeywordLineText(img, a, b);
    KeywordLineCells(img, a, b);
    ReadSingleRecord(img, raws, vals);
  }

  /** The keywords cell `"a",b"` is the same text as the two cells `"a"` and
      `b"`. */
  lemma KeywordLineText(img: Image, a: string, b: string)
    requires img.keywords == [a + "\"," + b]
    ensures Join(Cells(img), ",") ==
            Join([img.file.name, Quote(Escape(img.title)), Quote(Escape(img.description)), Quote(a), b + "\""], ",")
  {
    var qt := Quote(Escape(img.title));
    var qd := Quote(Escape(img.description));
    assert Join(img.keywords, KeywordSeparator) == a + "\"," + b;
    JoinFour(img.file.name, qt, qd, Quote(a + "\"," + b));
    JoinFive(img.file.name, qt, qd, Quote(a), b + "\"");
    assert Quote(a + "\"," + b) == Quote(a) + "," + (b + "\"");
  }

  lemma KeywordLineCells(img: Image, a: string, b: string)
    requires Plain(img.file.name)
    requires '"' !in a && Plain(b) && |b| > 0
    ensures CellsEncode([img.file.name, Quote(Escape(img.title)), Quote(Escape(img.description)), Quote(a), b + "\""],
                        [img.file.name, img.title, img.description, a, b + "\""])
  {
    OccursChar('"', a);
    ReplaceAllAbsent(a, "\"", "\"\"");
    assert Plain(b + "\"") by {
      assert (b + "\"")[0] == b[0];
      assert forall c :: c in b + "\"" ==> c in b || c == '"';
    }
  }

  /** A file name of the form `a,b` is split in two: the record's line reads
      back as five fields, `a` and `b` in front, instead of four. For
      instance the file name `x,y.jpg`. */
  lemma FilenameCommaSplitsRecord(img: Image, a: string, b: string)
    requires img.file.name == a + "," + b
    requires Plain(a) && Plain(b)
    requires forall k :: 0 <= k < |img.keywords| ==> '"' !in img.keywords[k]
    ensures var table := Parse(GenerateCsv([img]));
            && table == [HeaderNames, [a, b, img.title, img.description, Join(img.keywords, KeywordSeparator)]]
            && |table[1]| != |Fields(img)|
  {
    var qt := Quote(Escape(img.title));
    var qd := Quote(Escape(img.description));
    var qk := Quote(Join(img.keywords, KeywordSeparator));
    var raws := [a, b, qt, qd, qk];
    var vals := [a, b, img.title, img.description, Join(img.keywords, KeywordSeparator)];
    FilenameLineText(img, a, b);
    FilenameLineCells(img, a, b);
    ReadSingleRecord(img, raws, vals);
  }

  /** The file name `a,b` is the same text as the two cells `a` and `b`. */
  lemma FilenameLineText(img: Image, a: string, b: string)
    requires img.file.name == a + "," + b
    ensures Join(Cells(img), ",") ==
            Join([a, b, Quote(Escape(img.title)), Quote(Escape(img.description)),
                  Quote(Join(img.keywords, KeywordSeparator))], ",")
  {
    var qt := Quote(Escape(img.title));
    var qd := Quote(Escape(img.description));
    var qk := Quote(Join(img.keywords, KeywordSeparator));
    JoinFour(img.file.name, qt, qd, qk);
    JoinFive(a, b, qt, qd, qk);
  }

  lemma FilenameLineCells(img: Image, a: string, b: string)
    requires Plain(a) && Plain(b)
    requires forall k :: 0 <= k < |img.keywords| ==> '"' !in img.keywords[k]
    ensures CellsEncode([a, b, Quote(Escape(img.title)), Quote(Escape(img.description)),
                         Quote(Join(img.keywords, KeywordSeparator))],
                        [a, b, img.title, img.description, Join(img.keywords, KeywordSeparator)])
  {
    KeywordsCellEncodes(img);
  }
}
