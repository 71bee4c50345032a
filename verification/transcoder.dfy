/** The text-to-table transcoder of `get_data` (eurostat/eurostat.py:17-70):
    the decompressed bulk-download body is cut at its first tab, the remaining
    tabs become commas, and every line becomes one tuple whose leading
    identifier fields stay strings and whose observation cells are typed.

    The functions below define the table the source builds; `GetData` is the
    source's loops, proved to build exactly that table. */
module Transcoder {
  import opened Wrappers
  import opened PyStr
  import opened PyList
  import opened PyNum

  /** A value in an output tuple: a `str`, an `int`, a `float` or `None`. */
  datatype Cell = Str(s: string) | Int(i: int) | Num(f: Float) | Null

  type Row = seq<Cell>

  /** How a call ends without a table: the body could not be decoded (the
      "not found" branch), `int()`/`float()` raised `ValueError` on a literal,
      or indexing past the end of the row buffer raised `IndexError`. */
  datatype Error = NotFound | ValueError(literal: string) | IndexError

  /** Each string as a `str` cell. */
  function Strs(xs: seq<string>): (r: Row)
    ensures |r| == |xs|
    ensures forall i :: 0 <= i < |xs| ==> r[i] == Str(xs[i])
  {
    if |xs| == 0 then [] else [Str(xs[0])] + Strs(xs[1..])
  }

  lemma StrsTake(xs: seq<string>, n: nat)
    ensures Take(Strs(xs), n) == Strs(Take(xs, n))
  {
  }

  /* ---------- Preparing the text (eurostat.py:26-33, 57) ---------- */

  /** The identifier column names: the text before the first tab. */
  function IdPart(text: string): (r: string)
    ensures '\t' !in r && r <= text
    ensures '\t' in text ==> |r| < |text| && text[|r|] == '\t'
    ensures '\t' !in text ==> r == text
  {
    var p := Partition(text, '\t');
    assert (p.0 + p.1 + p.2)[..|p.0|] == p.0;
    assert '\t' in text ==> (p.0 + p.1 + p.2)[|p.0|] == '\t';
    p.0
  }

  /** The text after the first tab with every tab turned into a comma. */
  function CellsPart(text: string): (r: string)
    ensures '\t' !in r
    ensures |r| == if '\t' in text then |text| - |IdPart(text)| - 1 else 0
  {
    var r := ReplaceChar(Partition(text, '\t').2, '\t', ',');
    assert forall i :: 0 <= i < |r| ==> r[i] != '\t';
    r
  }

  /** `n_text_fields`: one more than the commas among the identifier names. */
  function TextFieldCount(text: string): (n: nat)
    ensures n == |Split(IdPart(text), ',')|
  {
    Count(IdPart(text), ',') + 1
  }

  /** The character class `[ a-z:]` that the no-flags mode deletes. */
  predicate IsFlagChar(c: char)
  {
    c == ' ' || 'a' <= c <= 'z' || c == ':'
  }

  /** `raw_data`: the identifier names, a comma, then the rest of the text,
      with the flag characters deleted from that rest in no-flags mode. */
  function RawData(text: string, flags: bool): (r: string)
    ensures '\t' !in r
    ensures |IdPart(text)| < |r| && r[|IdPart(text)|] == ','
  {
    var cells := if flags then CellsPart(text) else DeleteMatching(CellsPart(text), IsFlagChar);
    DeleteMatchingCount(CellsPart(text), IsFlagChar, '\t');
    IdPart(text) + "," + cells
  }

  /** The lines the loops run over, each later split at its commas. */
  function Lines(text: string, flags: bool): (lines: seq<string>)
    ensures |lines| >= 1
  {
    Split(RawData(text, flags), '\n')
  }

  /* ---------- No-flags mode (eurostat.py:57-67) ---------- */

  /** `[int(i) for i in labels]`; the first label `int()` refuses raises. */
  function IntLabels(labels: seq<string>, py: Parsers): (r: Result<Row, Error>)
    ensures r.Ok? <==> forall i :: 0 <= i < |labels| ==> py.toInt(labels[i]).Some?
    ensures r.Ok? ==> |r.value| == |labels|
    ensures r.Ok? ==> forall i :: 0 <= i < |labels| ==> r.value[i] == Int(py.toInt(labels[i]).value)
    ensures r.Err? ==> (exists i :: 0 <= i < |labels| && FirstBadLabel(labels, i, py) && r.error == ValueError(labels[i]))
  {
    if |labels| == 0 then Ok([])
    else
      var tail := labels[1..];
      assert forall i :: 0 <= i < |tail| ==> tail[i] == labels[i + 1];
      match py.toInt(labels[0])
      case None => assert FirstBadLabel(labels, 0, py); Err(ValueError(labels[0]))
      case Some(v) =>
        match IntLabels(tail, py)
        case Err(e) =>
          assert forall i :: 0 <= i < |tail| && FirstBadLabel(tail, i, py) ==> FirstBadLabel(labels, i + 1, py);
          Err(e)
        case Ok(rest) => Ok([Int(v)] + rest)
  }

  /** `labels[i]` is the first label `int()` refuses. */
  predicate FirstBadLabel(labels: seq<string>, i: nat, py: Parsers)
  {
    i < |labels| && py.toInt(labels[i]).None? && forall j :: 0 <= j < i ==> py.toInt(labels[j]).Some?
  }

  /** The value an observation cell turns into: `None` for `''`, else `float()`. */
  function ObservationValue(cell: string, py: Parsers): (r: Option<Cell>)
    ensures r == Some(Null) <==> cell == ""
    ensures r.None? <==> cell != "" && py.toFloat(cell).None?
    ensures r.Some? && cell != "" ==> r.value.Num?
  {
    if cell == "" then Some(Null)
    else match py.toFloat(cell)
      case None => None
      case Some(f) => Some(Num(f))
  }

  /** `[float(i) if i != '' else None for i in cells]`; the first non-empty
      cell `float()` refuses raises. */
  function FloatCells(cells: seq<string>, py: Parsers): (r: Result<Row, Error>)
    ensures r.Ok? <==> forall i :: 0 <= i < |cells| ==> ObservationValue(cells[i], py).Some?
    ensures r.Ok? ==> |r.value| == |cells|
    ensures r.Ok? ==> forall i :: 0 <= i < |cells| ==> r.value[i] == ObservationValue(cells[i], py).value
    ensures r.Err? ==> (exists i :: 0 <= i < |cells| && FirstBadCell(cells, i, py) && r.error == ValueError(cells[i]))
  {
    if |cells| == 0 then Ok([])
    else
      var tail := cells[1..];
      assert forall i :: 0 <= i < |tail| ==> tail[i] == cells[i + 1];
      match ObservationValue(cells[0], py)
      case None => assert FirstBadCell(cells, 0, py); Err(ValueError(cells[0]))
      case Some(c) =>
        match FloatCells(tail, py)
        case Err(e) =>
          assert forall i :: 0 <= i < |tail| && FirstBadCell(tail, i, py) ==> FirstBadCell(cells, i + 1, py);
          Err(e)
        case Ok(rest) => Ok([c] + rest)
  }

  /** `cells[i]` is the first non-empty cell `float()` refuses. */
  predicate FirstBadCell(cells: seq<string>, i: nat, py: Parsers)
  {
    i < |cells| && ObservationValue(cells[i], py).None? && forall j :: 0 <= j < i ==> ObservationValue(cells[j], py).Some?
  }

  /** The header tuple: identifier names as they are, period labels as ints. */
  function NoFlagsHeader(cells: seq<string>, n: nat, py: Parsers): Result<Row, Error>
  {
    match IntLabels(Drop(cells, n), py)
    case Err(e) => Err(e)
    case Ok(labels) => Ok(Strs(Take(cells, n)) + labels)
  }

  /** A data tuple: identifier fields as they are, observations as floats. */
  function NoFlagsRecord(cells: seq<string>, n: nat, py: Parsers): Result<Row, Error>
  {
    match FloatCells(Drop(cells, n), py)
    case Err(e) => Err(e)
    case Ok(values) => Ok(Strs(Take(cells, n)) + values)
  }

  /** The data tuples of the given lines, in order; the first error wins. */
  function NoFlagsRecords(lines: seq<string>, n: nat, py: Parsers): (r: Result<seq<Row>, Error>)
    ensures r.Ok? ==> |r.value| == |lines|
  {
    if |lines| == 0 then Ok([])
    else match NoFlagsRecord(Split(lines[0], ','), n, py)
      case Err(e) => Err(e)
      case Ok(row) =>
        match NoFlagsRecords(lines[1..], n, py)
        case Err(e) => Err(e)
        case Ok(rows) => Ok([row] + rows)
  }

  /** The whole no-flags table, header first, before the last record is dropped. */
  function NoFlagsTable(lines: seq<string>, n: nat, py: Parsers): (r: Result<seq<Row>, Error>)
    requires |lines| >= 1
    ensures r.Ok? ==> |r.value| == |lines|
  {
    match NoFlagsHeader(Split(lines[0], ','), n, py)
    case Err(e) => Err(e)
    case Ok(header) =>
      match NoFlagsRecords(lines[1..], n, py)
      case Err(e) => Err(e)
      case Ok(rows) => Ok([header] + rows)
  }

  /* ---------- Flags mode (eurostat.py:33-55) ---------- */

  /** Each period label `P`, stripped, becomes `P_value`, `P_flag`. */
  function ExpandLabels(labels: seq<string>): (r: Row)
    ensures |r| == 2 * |labels|
  {
    if |labels| == 0 then []
    else [Str(Strip(labels[0]) + "_value"), Str(Strip(labels[0]) + "_flag")] + ExpandLabels(labels[1..])
  }

  /** The two header cells of label `m`, in the label's place. */
  lemma {:induction false} ExpandLabelsAt(labels: seq<string>, m: nat)
    requires m < |labels|
    ensures ExpandLabels(labels)[2 * m] == Str(Strip(labels[m]) + "_value")
    ensures ExpandLabels(labels)[2 * m + 1] == Str(Strip(labels[m]) + "_flag")
  {
    var head := [Str(Strip(labels[0]) + "_value"), Str(Strip(labels[0]) + "_flag")];
    var rest := ExpandLabels(labels[1..]);
    assert ExpandLabels(labels) == head + rest;
    if m > 0 {
      ExpandLabelsAt(labels[1..], m - 1);
      assert labels[1..][m - 1] == labels[m];
      assert (head + rest)[2 * m] == rest[2 * (m - 1)] && (head + rest)[2 * m + 1] == rest[2 * (m - 1) + 1];
    }
  }

  /** The flags-mode header, which also becomes the first row buffer. */
  function FlagsHeader(cells: seq<string>, n: nat): Row
  {
    Strs(Take(cells, n)) + ExpandLabels(Drop(cells, n))
  }

  /** Buffer slot of the value written for the cell at index `i >= n`. */
  function Slot(n: nat, i: nat): nat
    requires n <= i
  {
    (i - n) * 2 + n
  }

  /** `float(x)` for a value in the buffer; `None` (a `TypeError`) for `None`. */
  function FloatOf(c: Cell, py: Parsers): (r: Option<Float>)
    ensures r.None? ==> c.Null? || c.Str?
    ensures c.Num? ==> r == Some(c.f)
  {
    match c
    case Str(s) => py.toFloat(s)
    case Int(i) => Some(Finite(i as real))
    case Num(f) => Some(f)
    case Null => None
  }

  /** The two slice assignments of one pass of the inner loop for the cell
      at index `i` (eurostat.py:46, 48): the identifier fields are copied in,
      then the cell split at its spaces replaces slots `k` and `k + 1`. */
  function PlaceCell(buf: Row, cells: seq<string>, n: nat, i: nat): Row
    requires n <= i < |cells|
  {
    PlaceParts(buf, n, Strs(cells[..n]), Slot(n, i), Split(cells[i], ' '))
  }

  /** `l2[:n] = ids` followed by `l2[k:k+2] = parts`. */
  function PlaceParts(buf: Row, n: nat, ids: Row, k: nat, parts: seq<string>): (r: Row)
    ensures |ids| == n <= k && k + 2 <= |buf| ==> |r| == |buf| - 2 + |parts| && r[..n] == ids
  {
    var b := SliceAssign(buf, 0, n, ids);
    var r := SliceAssign(b, k, k + 2, Strs(parts));
    if |ids| == n <= k && k + 2 <= |buf| then
      assert b[..n] == ids && r[..n] == b[..n];
      r
    else r
  }

  /** The conversion of slot `k` (eurostat.py:49-52): to a float if `float()`
      accepts it, otherwise `None` and the slot's text over slots `k` and
      `k + 1`. Reading slot `k` past the end of the buffer raises
      `IndexError`, which the bare `except` catches only to read the slot
      again, so it escapes. */
  function ConvertSlot(b: Row, k: nat, py: Parsers): (r: Result<Row, Error>)
    ensures r.Err? <==> k >= |b|
    ensures r.Err? ==> r.error == IndexError
    ensures r.Ok? ==> |r.value| == if FloatOf(b[k], py).None? && k + 1 == |b| then |b| + 1 else |b|
    ensures r.Ok? ==> (r.value[k] == Null <==> FloatOf(b[k], py).None?)
  {
    if k >= |b| then Err(IndexError)
    else match FloatOf(b[k], py)
      case Some(f) => Ok(b[k := Num(f)])
      case None => Ok(SliceAssign(b, k, k + 2, [Null, b[k]]))
  }

  /** One pass of the inner loop for the cell at index `i` (eurostat.py:45-54). */
  function WriteCell(buf: Row, cells: seq<string>, n: nat, i: nat, py: Parsers): Result<Row, Error>
    requires n <= i < |cells|
  {
    ConvertSlot(PlaceCell(buf, cells, n, i), Slot(n, i), py)
  }

  /** The inner loop from cell `i` on, threading the buffer. */
  function WriteCells(buf: Row, cells: seq<string>, n: nat, i: nat, py: Parsers): Result<Row, Error>
    requires n <= i
    decreases |cells| - i
  {
    if i >= |cells| then Ok(buf)
    else match WriteCell(buf, cells, n, i, py)
      case Err(e) => Err(e)
      case Ok(b) => WriteCells(b, cells, n, i + 1, py)
  }

  /** The data tuples of the given lines: each is a snapshot of the buffer
      after the line's cells were written into what the previous line left. */
  function FlagsRecords(buf: Row, lines: seq<string>, n: nat, py: Parsers): (r: Result<seq<Row>, Error>)
    ensures r.Ok? ==> |r.value| == |lines|
    decreases |lines|
  {
    if |lines| == 0 then Ok([])
    else match WriteCells(buf, Split(lines[0], ','), n, n, py)
      case Err(e) => Err(e)
      case Ok(b) =>
        match FlagsRecords(b, lines[1..], n, py)
        case Err(e) => Err(e)
        case Ok(rows) => Ok([b] + rows)
  }

  /** The whole flags table, header first, before the last record is dropped. */
  function FlagsTable(lines: seq<string>, n: nat, py: Parsers): (r: Result<seq<Row>, Error>)
    requires |lines| >= 1
    ensures r.Ok? ==> |r.value| == |lines|
  {
    var header := FlagsHeader(Split(lines[0], ','), n);
    match FlagsRecords(header, lines[1..], n, py)
    case Err(e) => Err(e)
    case Ok(rows) => Ok([header] + rows)
  }

  /* ---------- The whole transcoder ---------- */

  /** The table of the chosen mode, one tuple per line. */
  function Table(lines: seq<string>, n: nat, flags: bool, py: Parsers): (r: Result<seq<Row>, Error>)
    requires |lines| >= 1
    ensures r.Ok? ==> |r.value| == |lines|
  {
    if flags then FlagsTable(lines, n, py) else NoFlagsTable(lines, n, py)
  }

  /** `data.pop()` on a table that has at least its header. */
  function PopLast(table: Result<seq<Row>, Error>): (r: Result<seq<Row>, Error>)
    requires table.Ok? ==> |table.value| >= 1
    ensures r.Ok? <==> table.Ok?
    ensures r.Ok? ==> table.value == r.value + [Last(table.value)]
  {
    match table
    case Err(e) => Err(e)
    case Ok(rows) => Ok(rows[..|rows| - 1])
  }

  /** The list `get_data` returns for a decoded body: every line's tuple, the
      last one popped (eurostat.py:69). */
  function Transcode(text: string, flags: bool, py: Parsers): (r: Result<seq<Row>, Error>)
    ensures r.Ok? ==> |r.value| == |Lines(text, flags)| - 1
  {
    PopLast(Table(Lines(text, flags), TextFieldCount(text), flags, py))
  }

  /** `Ok(rows + tail)` when the rest succeeds. */
  ghost function Prepend(rows: seq<Row>, rest: Result<seq<Row>, Error>): Result<seq<Row>, Error>
  {
    match rest
    case Err(e) => Err(e)
    case Ok(tail) => Ok(rows + tail)
  }

  lemma PrependStep(rows: seq<Row>, row: Row, rest: Result<seq<Row>, Error>)
    ensures Prepend(rows, match rest case Err(e) => Err(e) case Ok(tail) => Ok([row] + tail))
      == Prepend(rows + [row], rest)
  {
    if rest.Ok? {
      assert rows + ([row] + rest.value) == (rows + [row]) + rest.value;
    }
  }

  /** One line of the flags-mode records, seen from the rows already built:
      its error ends the table, its buffer is appended to those before it. */
  lemma FlagsRecordsStep(buf: Row, lines: seq<string>, n: nat, py: Parsers, data: seq<Row>)
    requires |lines| > 0
    ensures var w := WriteCells(buf, Split(lines[0], ','), n, n, py);
      Prepend(data, FlagsRecords(buf, lines, n, py)) ==
        if w.Err? then Err(w.error)
        else Prepend(data + [w.value], FlagsRecords(w.value, lines[1..], n, py))
  {
    var w := WriteCells(buf, Split(lines[0], ','), n, n, py);
    if w.Ok? {
      var rest := FlagsRecords(w.value, lines[1..], n, py);
      assert FlagsRecords(buf, lines, n, py) ==
        match rest case Err(e) => Err(e) case Ok(rows) => Ok([w.value] + rows);
      PrependStep(data, w.value, rest);
    }
  }

  /** The header line of the no-flags table: its error ends the table, its
      tuple comes before those of the data lines. */
  lemma HeaderStep(lines: seq<string>, n: nat, py: Parsers)
    requires |lines| >= 1
    ensures var header := NoFlagsHeader(Split(lines[0], ','), n, py);
      NoFlagsTable(lines, n, py) ==
        if header.Err? then Err(header.error)
        else Prepend([header.value], NoFlagsRecords(lines[1..], n, py))
  {
  }

  /** One cell of the inner loop: its error ends the line, its buffer is
      the one the next cell is written into. */
  lemma WriteCellsStep(buf: Row, cells: seq<string>, n: nat, i: nat, py: Parsers)
    requires n <= i < |cells|
    ensures var w := WriteCell(buf, cells, n, i, py);
      WriteCells(buf, cells, n, i, py) ==
        if w.Err? then Err(w.error) else WriteCells(w.value, cells, n, i + 1, py)
  {
  }

  /** One data line of the no-flags table: its error ends the table, its
      tuple is appended to those before it. */
  lemma RecordStep(lines: seq<string>, n: nat, py: Parsers, data: seq<Row>)
    requires |lines| >= 1
    ensures var record := NoFlagsRecord(Split(lines[0], ','), n, py);
      Prepend(data, NoFlagsRecords(lines, n, py)) ==
        if record.Err? then Err(record.error)
        else Prepend(data + [record.value], NoFlagsRecords(lines[1..], n, py))
  {
    var record := NoFlagsRecord(Split(lines[0], ','), n, py);
    if record.Ok? {
      var rest := NoFlagsRecords(lines[1..], n, py);
      assert NoFlagsRecords(lines, n, py) ==
        match rest case Err(e) => Err(e) case Ok(rows) => Ok([record.value] + rows);
      PrependStep(data, record.value, rest);
    }
  }

  /** `get_data` after the download: `body` is the decoded response, or `None`
      when decompressing or decoding it failed (eurostat.py:26-29). */
  method GetData(body: Option<string>, flags: bool) returns (r: Result<seq<Row>, Error>)
    ensures body.None? ==> r == Err(NotFound)
    ensures body.Some? ==> r == Transcode(body.value, flags, Builtin)
  {
    if body.None? {
      return Err(NotFound);
    }
    r := TranscodeText(body.value, flags, Builtin);
  }

  /** The body of `get_data` once the text is decoded (eurostat.py:26-70):
      the lines are run through the loop of the chosen mode, and the last
      tuple is popped. */
  method TranscodeText(text: string, flags: bool, py: Parsers) returns (r: Result<seq<Row>, Error>)
    ensures r == Transcode(text, flags, py)
  {
    var lines, n := PrepareLines(text, flags);
    var data: Result<seq<Row>, Error>;
    if flags {
      data := FlagsLoop(lines, n, py);
    } else {
      data := NoFlagsLoop(lines, n, py);
    }
    assert data == Table(lines, n, flags, py);
    if data.Err? {
      return Err(data.error);
    }
    var rows := data.value;
    r := Ok(rows[..|rows| - 1]);
  }

  /** The text is cut at its first tab, the remaining tabs become commas, the
      flag letters go unless flags are kept, and the result is split into
      lines (eurostat.py:30-33, 57-59). */
  method PrepareLines(text: string, flags: bool) returns (lines: seq<string>, n: nat)
    ensures lines == Lines(text, flags) && n == TextFieldCount(text)
  {
    var parts := Partition(text, '\t');
    var rest := ReplaceChar(parts.2, '\t', ',');
    n := Count(parts.0, ',') + 1;
    var raw := if flags then parts.0 + "," + rest else parts.0 + "," + DeleteMatching(rest, IsFlagChar);
    assert raw == RawData(text, flags);
    lines := Split(raw, '\n');
  }

  /** The flags-mode loop (eurostat.py:34-55): the header line creates the
      row buffer `l2`; every later line writes its cells into that same
      buffer, and a snapshot of the buffer is appended after each line. */
  method FlagsLoop(lines: seq<string>, n: nat, py: Parsers) returns (r: Result<seq<Row>, Error>)
    requires |lines| >= 1
    ensures r == FlagsTable(lines, n, py)
  {
    var data: seq<Row> := [];
    var j := 0;
    var l2: Row := [];
    var idx := 0;
    while idx < |lines|
      invariant 0 <= idx <= |lines| && |data| == idx
      invariant j == (if idx == 0 then 0 else 1)
      invariant idx > 0 ==> FlagsTable(lines, n, py) == Prepend(data, FlagsRecords(l2, lines[idx..], n, py))
    {
      var l := Split(lines[idx], ',');
      if j == 0 {
        l2 := FlagsHeader(l, n);
        assert data + [l2] == [l2];
        j := j + 1;
      } else {
        SuffixStep(lines, idx);
        var written := WriteLine(l2, l, n, py);
        FlagsRecordsStep(l2, lines[idx..], n, py, data);
        if written.Err? {
          return Err(written.error);
        }
        l2 := written.value;
      }
      data := data + [l2];
      idx := idx + 1;
    }
    assert lines[idx..] == [] && data + [] == data;
    return Ok(data);
  }

  /** The inner loop over one line's cells (eurostat.py:44-54), rewriting the
      buffer by slice assignment. */
  method WriteLine(buf: Row, l: seq<string>, n: nat, py: Parsers) returns (r: Result<Row, Error>)
    ensures r == WriteCells(buf, l, n, n, py)
  {
    var l2 := buf;
    var i := n;
    while i < |l|
      invariant n <= i
      invariant WriteCells(buf, l, n, n, py) == WriteCells(l2, l, n, i, py)
    {
      var written := WriteOne(l2, l, n, i, py);
      WriteCellsStep(l2, l, n, i, py);
      if written.Err? {
        return Err(written.error);
      }
      l2 := written.value;
      i := i + 1;
    }
    return Ok(l2);
  }

  /** One pass of the inner loop (eurostat.py:45-54). */
  method WriteOne(buf: Row, l: seq<string>, n: nat, i: nat, py: Parsers) returns (r: Result<Row, Error>)
    requires n <= i < |l|
    ensures r == WriteCell(buf, l, n, i, py)
  {
    var k := (i - n) * 2 + n;
    var l2 := SliceAssign(buf, 0, n, Strs(l[..n]));
    l2 := SliceAssign(l2, k, k + 2, Strs(Split(l[i], ' ')));
    assert l2 == PlaceParts(buf, n, Strs(l[..n]), k, Split(l[i], ' '));
    assert l2 == PlaceCell(buf, l, n, i);
    if k >= |l2| {
      return Err(IndexError);
    }
    var f := FloatOf(l2[k], py);
    if f.Some? {
      l2 := l2[k := Num(f.value)];
    } else {
      l2 := SliceAssign(l2, k, k + 2, [Null, l2[k]]);
    }
    return Ok(l2);
  }

  /** The no-flags loop (eurostat.py:58-67): each line is split at its commas
      and the part after the identifier fields is replaced, in place, by the
      converted labels (header) or values (data lines). */
  method NoFlagsLoop(lines: seq<string>, n: nat, py: Parsers) returns (r: Result<seq<Row>, Error>)
    requires |lines| >= 1
    ensures r == NoFlagsTable(lines, n, py)
  {
    var data: seq<Row> := [];
    var j := 0;
    var idx := 0;
    while idx < |lines|
      invariant 0 <= idx <= |lines| && |data| == idx
      invariant j == (if idx == 0 then 0 else 1)
      invariant idx > 0 ==> NoFlagsTable(lines, n, py) == Prepend(data, NoFlagsRecords(lines[idx..], n, py))
    {
      var l := Split(lines[idx], ',');
      var row: Row;
      if j == 0 {
        var header := HeaderTuple(l, n, py);
        HeaderStep(lines, n, py);
        if header.Err? {
          return Err(header.error);
        }
        row := header.value;
        assert data + [row] == [row];
        j := j + 1;
      } else {
        SuffixStep(lines, idx);
        var record := RecordTuple(l, n, py);
        RecordStep(lines[idx..], n, py, data);
        if record.Err? {
          return Err(record.error);
        }
        row := record.value;
      }
      data := data + [row];
      idx := idx + 1;
    }
    assert lines[idx..] == [] && data + [] == data;
    return Ok(data);
  }

  /** The header line of the no-flags loop: the observation labels after the
      identifier fields are replaced by their integer values (eurostat.py:63). */
  method HeaderTuple(l: seq<string>, n: nat, py: Parsers) returns (r: Result<Row, Error>)
    ensures r == NoFlagsHeader(l, n, py)
  {
    var labels := IntLabels(Drop(l, n), py);
    if labels.Err? {
      return Err(labels.error);
    }
    var row := SliceAssign(Strs(l), n, |l|, labels.value);
    ReplaceTail(Strs(l), n, labels.value);
    StrsTake(l, n);
    return Ok(row);
  }

  /** A data line of the no-flags loop: the observations after the identifier
      fields are replaced by floats, empty ones by `None` (eurostat.py:66). */
  method RecordTuple(l: seq<string>, n: nat, py: Parsers) returns (r: Result<Row, Error>)
    ensures r == NoFlagsRecord(l, n, py)
  {
    var values := FloatCells(Drop(l, n), py);
    if values.Err? {
      return Err(values.error);
    }
    var row := SliceAssign(Strs(l), n, |l|, values.value);
    ReplaceTail(Strs(l), n, values.value);
    StrsTake(l, n);
    return Ok(row);
  }
}
