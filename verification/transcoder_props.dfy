/** What the transcoder of `get_data` guarantees, stated over the functions of
    module `Transcoder` (which its loops are proved to compute): how the text
    is prepared, the shape of the tuples of each mode, how the flags-mode row
    buffer is written and shared between rows, and what the final `pop`
    removes. */
module TranscoderProps {
  import opened Wrappers
  import opened PyStr
  import opened PyList
  import opened PyNum
  import opened Transcoder

  /* ---------- Preparing the text (eurostat.py:26-33, 57) ---------- */

  /** The text is cut at its first tab: the identifier names hold no tab, the
      rest follows the tab unchanged except that every tab in it became a
      comma; without a tab the whole text is the identifier part. */
  lemma PreparedText(text: string)
    ensures '\t' !in IdPart(text) && '\t' !in CellsPart(text)
    ensures '\t' in text ==> text == IdPart(text) + "\t" + Partition(text, '\t').2
    ensures '\t' !in text ==> IdPart(text) == text && CellsPart(text) == ""
    ensures var rest := Partition(text, '\t').2;
      |CellsPart(text)| == |rest| &&
      forall i :: 0 <= i < |rest| ==> CellsPart(text)[i] == if rest[i] == '\t' then ',' else rest[i]
  {
  }

  /** The filtered rest of the text, which the no-flags lines are cut from. */
  function FilteredCells(text: string): string
  {
    DeleteMatching(CellsPart(text), IsFlagChar)
  }

  /** When the identifier names hold no newline, the first line is the names,
      a comma and the first line of the rest; later lines are the rest's. */
  lemma NoFlagsLinesSplit(text: string)
    requires '\n' !in IdPart(text)
    ensures var lines, pieces := Lines(text, false), Split(FilteredCells(text), '\n');
      |lines| == |pieces| && lines[0] == IdPart(text) + "," + pieces[0] &&
      forall k :: 1 <= k < |lines| ==> lines[k] == pieces[k]
  {
    var head, d := IdPart(text) + ",", FilteredCells(text);
    assert '\n' !in head;
    assert RawData(text, false) == head + d;
    SplitPrefixPieces(head, d, '\n');
  }

  /** In no-flags mode every space, lower-case letter and colon after the
      first tab is deleted, identifier fields of data lines included; only
      the identifier names before the first tab keep theirs. */
  lemma NoFlagsFilter(text: string)
    requires '\n' !in IdPart(text)
    ensures var lines, h := Lines(text, false), |IdPart(text)| + 1;
      h <= |lines[0]| && lines[0][..h] == IdPart(text) + "," &&
      (forall c :: c in lines[0][h..] ==> !IsFlagChar(c)) &&
      (forall k, c :: 1 <= k < |lines| && c in lines[k] ==> !IsFlagChar(c))
  {
    var d := FilteredCells(text);
    var lines, pieces := Lines(text, false), Split(d, '\n');
    NoFlagsLinesSplit(text);
    assert lines[0][|IdPart(text)| + 1..] == pieces[0];
    forall c | c in pieces[0] ensures !IsFlagChar(c) {
      SplitChars(d, '\n', 0, c);
    }
    forall k, c | 1 <= k < |lines| && c in lines[k] ensures !IsFlagChar(c) {
      SplitChars(d, '\n', k, c);
    }
  }

  /** An observation written as a value, a space and flag letters keeps
      exactly its value once the no-flags filter has run, so `"5.2 p"`
      becomes `"5.2"`. */
  lemma FilterObservation(v: string, f: string)
    requires forall i :: 0 <= i < |v| ==> !IsFlagChar(v[i])
    requires forall i :: 0 <= i < |f| ==> 'a' <= f[i] <= 'z'
    ensures DeleteMatching(v + " " + f, IsFlagChar) == v
  {
    DeleteMatchingConcat(v + " ", f, IsFlagChar);
    DeleteMatchingConcat(v, " ", IsFlagChar);
  }

  /** A missing observation, `:` with optional flag letters, filters to the
      empty cell, which the data lines turn into `None`. */
  lemma FilterMissing(f: string, py: Parsers)
    requires forall i :: 0 <= i < |f| ==> 'a' <= f[i] <= 'z'
    ensures DeleteMatching(": " + f, IsFlagChar) == ""
    ensures ObservationValue(DeleteMatching(": " + f, IsFlagChar), py) == Some(Null)
  {
    var s := ": " + f;
    assert forall i :: 0 <= i < |s| ==> IsFlagChar(s[i]);
  }

  /** Both modes run over one line per line of the text: the tabs that turn
      into commas and the characters the filter deletes are never newlines. */
  lemma LinesCount(text: string, flags: bool)
    ensures |Lines(text, flags)| == Count(text, '\n') + 1
  {
    var p := Partition(text, '\t');
    var cells := ReplaceChar(p.2, '\t', ',');
    var rest := if flags then cells else DeleteMatching(cells, IsFlagChar);
    assert RawData(text, flags) == p.0 + "," + rest;
    ReplaceCharCount(p.2, '\t', ',', '\n');
    DeleteMatchingCount(cells, IsFlagChar, '\n');
    assert Count(rest, '\n') == Count(p.2, '\n');
    assert Count(p.1, '\n') == 0;
    CountConcat(p.0, ",", '\n');
    CountConcat(p.0 + ",", rest, '\n');
    CountConcat(p.0, p.1, '\n');
    CountConcat(p.0 + p.1, p.2, '\n');
  }

  /** The text after the first tab ends with the text's last character when
      that is not a tab. */
  lemma CellsPartLast(text: string)
    requires '\t' in text && |text| > 0 && Last(text) != '\t'
    ensures |CellsPart(text)| > 0 && Last(CellsPart(text)) == Last(text)
  {
    var p := Partition(text, '\t');
    assert text == p.0 + "\t" + p.2;
    assert |p.2| > 0 && p.2[|p.2| - 1] == text[|text| - 1];
  }

  /** A text with a tab that ends with a newline gives prepared text that
      ends with it too, in either mode. */
  lemma RawDataLast(text: string, flags: bool)
    requires '\t' in text && |text| > 0 && Last(text) == '\n'
    ensures |RawData(text, flags)| > 0 && Last(RawData(text, flags)) == '\n'
  {
    CellsPartLast(text);
    var c := CellsPart(text);
    var x := if flags then c else FilteredCells(text);
    if !flags {
      DeleteMatchingKeepsLast(c, IsFlagChar);
    }
    var raw := RawData(text, flags);
    assert raw == IdPart(text) + "," + x;
    assert raw[|raw| - 1] == x[|x| - 1];
  }

  /** A text with a tab that ends with a newline gives an empty last line. */
  lemma TrailingNewline(text: string, flags: bool)
    requires '\t' in text && |text| > 0 && Last(text) == '\n'
    ensures Last(Lines(text, flags)) == ""
  {
    RawDataLast(text, flags);
    SplitLastEmpty(RawData(text, flags), '\n');
  }

  /* ---------- No-flags tuples (eurostat.py:61-67) ---------- */

  /** `cells[n:]` read back at the original indices. */
  lemma DropAt<T>(cells: seq<T>, n: nat)
    ensures forall i :: n <= i < |cells| ==> Drop(cells, n)[i - n] == cells[i]
  {
  }

  /* A header tuple keeps the identifier names and holds `int()` of every
     later label; it fails exactly when a label is not an integer, naming the
     first such label. */

  lemma NoFlagsHeaderOk(cells: seq<string>, n: nat, py: Parsers)
    ensures NoFlagsHeader(cells, n, py).Ok? <==> forall i :: n <= i < |cells| ==> py.toInt(cells[i]).Some?
  {
    DropAt(cells, n);
    var d := Drop(cells, n);
    if forall i :: n <= i < |cells| ==> py.toInt(cells[i]).Some? {
      assert forall i :: 0 <= i < |d| ==> d[i] == cells[n + i];
    }
  }

  lemma NoFlagsHeaderContents(cells: seq<string>, n: nat, py: Parsers)
    requires NoFlagsHeader(cells, n, py).Ok?
    ensures var row := NoFlagsHeader(cells, n, py).value;
      |row| == |cells| &&
      forall i :: 0 <= i < |cells| ==>
        row[i] == if i < n then Str(cells[i]) else Int(py.toInt(cells[i]).value)
  {
    var d := Drop(cells, n);
    var labels := IntLabels(d, py).value;
    var ids := Strs(Take(cells, n));
    var row := ids + labels;
    forall i | 0 <= i < |cells|
      ensures row[i] == if i < n then Str(cells[i]) else Int(py.toInt(cells[i]).value)
    {
      if i < n {
        assert row[i] == ids[i];
      } else {
        var k := i - n;
        assert d[k] == cells[i];
        assert labels[k] == Int(py.toInt(d[k]).value);
        assert |ids| == n;
        assert row[i] == labels[k];
      }
    }
  }

  lemma NoFlagsHeaderError(cells: seq<string>, n: nat, py: Parsers)
    requires NoFlagsHeader(cells, n, py).Err?
    ensures exists i :: (n <= i < |cells| && py.toInt(cells[i]).None? &&
      (forall j :: n <= j < i ==> py.toInt(cells[j]).Some?) && NoFlagsHeader(cells, n, py).error == ValueError(cells[i]))
  {
    var d := Drop(cells, n);
    var r := IntLabels(d, py);
    var i :| 0 <= i < |d| && FirstBadLabel(d, i, py) && r.error == ValueError(d[i]);
    assert d[i] == cells[n + i];
    forall j | n <= j < n + i ensures py.toInt(cells[j]).Some? {
      assert d[j - n] == cells[j];
    }
  }

  /* A data tuple keeps the identifier fields and holds `None` for every
     empty later cell and `float()` of the others; it fails exactly when a
     non-empty cell is not a number, naming the first such cell. */

  lemma NoFlagsRecordOk(cells: seq<string>, n: nat, py: Parsers)
    ensures NoFlagsRecord(cells, n, py).Ok? <==> forall i :: n <= i < |cells| ==> ObservationValue(cells[i], py).Some?
  {
    DropAt(cells, n);
    var d := Drop(cells, n);
    if forall i :: n <= i < |cells| ==> ObservationValue(cells[i], py).Some? {
      assert forall i :: 0 <= i < |d| ==> d[i] == cells[n + i];
    }
  }

  lemma NoFlagsRecordContents(cells: seq<string>, n: nat, py: Parsers)
    requires NoFlagsRecord(cells, n, py).Ok?
    ensures var row := NoFlagsRecord(cells, n, py).value;
      |row| == |cells| &&
      forall i :: 0 <= i < |cells| ==>
        row[i] == if i < n then Str(cells[i]) else ObservationValue(cells[i], py).value
  {
    var d := Drop(cells, n);
    var values := FloatCells(d, py).value;
    var ids := Strs(Take(cells, n));
    var row := ids + values;
    forall i | 0 <= i < |cells|
      ensures row[i] == if i < n then Str(cells[i]) else ObservationValue(cells[i], py).value
    {
      if i < n {
        assert row[i] == ids[i];
      } else {
        var k := i - n;
        assert d[k] == cells[i];
        assert values[k] == ObservationValue(d[k], py).value;
        assert |ids| == n;
        assert row[i] == values[k];
      }
    }
  }

  lemma NoFlagsRecordError(cells: seq<string>, n: nat, py: Parsers)
    requires NoFlagsRecord(cells, n, py).Err?
    ensures exists i :: (n <= i < |cells| && ObservationValue(cells[i], py).None? &&
      (forall j :: n <= j < i ==> ObservationValue(cells[j], py).Some?) && NoFlagsRecord(cells, n, py).error == ValueError(cells[i]))
  {
    var d := Drop(cells, n);
    var r := FloatCells(d, py);
    var i :| 0 <= i < |d| && FirstBadCell(d, i, py) && r.error == ValueError(d[i]);
    assert d[i] == cells[n + i];
    forall j | n <= j < n + i ensures ObservationValue(cells[j], py).Some? {
      assert d[j - n] == cells[j];
    }
  }

  /* ---------- Flags header (eurostat.py:40-41) ---------- */

  /** The header keeps the first `n` labels and puts `label_value`,
      `label_flag` for every later label, stripped, at the label's slot. */
  lemma FlagsHeaderShape(cells: seq<string>, n: nat)
    ensures var h := FlagsHeader(cells, n);
      |h| == (if n <= |cells| then n + 2 * (|cells| - n) else |cells|) &&
      (forall i :: 0 <= i < |cells| && i < n ==> h[i] == Str(cells[i])) &&
      (forall i :: n <= i < |cells| ==>
        h[Slot(n, i)] == Str(Strip(cells[i]) + "_value") &&
        h[Slot(n, i) + 1] == Str(Strip(cells[i]) + "_flag"))
  {
    var h := FlagsHeader(cells, n);
    var ids := Strs(Take(cells, n));
    var d := Drop(cells, n);
    forall i | n <= i < |cells|
      ensures h[Slot(n, i)] == Str(Strip(cells[i]) + "_value")
      ensures h[Slot(n, i) + 1] == Str(Strip(cells[i]) + "_flag")
    {
      ExpandLabelsAt(d, i - n);
      assert d[i - n] == cells[i];
      assert h[Slot(n, i)] == ExpandLabels(d)[2 * (i - n)];
      assert h[Slot(n, i) + 1] == ExpandLabels(d)[2 * (i - n) + 1];
    }
  }

  /* ---------- Flags cells (eurostat.py:44-54) ---------- */

  /** What slot `k` holds after a cell whose value part is `v` is written. */
  function ValueSlot(v: string, py: Parsers): Cell
  {
    match py.toFloat(v)
    case Some(f) => Num(f)
    case None => Null
  }

  /** What slot `k + 1` holds: the flag, or the unparsable value itself. */
  function FlagSlot(v: string, f: string, py: Parsers): Cell
  {
    if py.toFloat(v).Some? then Str(f) else Str(v)
  }

  /** Every observation cell of the line is a value and a flag separated by
      one space, as Eurostat writes them (`"12.3 "`, `": "`, `"4.0 p"`). */
  predicate WellFormedCells(cells: seq<string>, n: nat)
  {
    forall i :: n <= i < |cells| ==> |Split(cells[i], ' ')| == 2
  }

  /** The two slice assignments of a well-formed cell overwrite in place: the
      identifier fields and the cell's two slots, nothing else. */
  lemma PlaceCellWellFormed(buf: Row, cells: seq<string>, n: nat, i: nat)
    requires n <= i < |cells| && |Split(cells[i], ' ')| == 2 && Slot(n, i) + 2 <= |buf|
    ensures var b, k, p := PlaceCell(buf, cells, n, i), Slot(n, i), Split(cells[i], ' ');
      |b| == |buf| &&
      forall j :: 0 <= j < |buf| ==>
        b[j] == if j < n then Str(cells[j]) else if j == k then Str(p[0]) else if j == k + 1 then Str(p[1]) else buf[j]
  {
    var k, p := Slot(n, i), Split(cells[i], ' ');
    var ids, parts := Strs(cells[..n]), Strs(p);
    var b0 := SliceAssign(buf, 0, n, ids);
    var b := SliceAssign(b0, k, k + 2, parts);
    assert b == PlaceCell(buf, cells, n, i);
    SliceAssignAt(buf, 0, n, ids, 0);
    SliceAssignAt(b0, k, k + 2, parts, 0);
    forall j | 0 <= j < |buf|
      ensures b[j] == if j < n then Str(cells[j]) else if j == k then Str(p[0]) else if j == k + 1 then Str(p[1]) else buf[j]
    {
      SliceAssignAt(buf, 0, n, ids, j);
      SliceAssignAt(b0, k, k + 2, parts, j);
      if j < n {
        assert b[j] == b0[j] == ids[j];
      } else if j == k || j == k + 1 {
        assert b[j] == parts[j - k];
      } else {
        assert b[j] == b0[j] == buf[j];
      }
    }
  }

  /** Converting a text slot followed by another slot keeps the length: the
      slot becomes its float, or `None` with the text moved one slot on. */
  lemma ConvertSlotInPlace(b: Row, k: nat, py: Parsers)
    requires k + 2 <= |b| && b[k].Str?
    ensures var r := ConvertSlot(b, k, py);
      r.Ok? && |r.value| == |b| &&
      r.value[k] == ValueSlot(b[k].s, py) &&
      r.value[k + 1] == (if py.toFloat(b[k].s).Some? then b[k + 1] else b[k]) &&
      forall j :: 0 <= j < |b| && j != k && j != k + 1 ==> r.value[j] == b[j]
  {
    if py.toFloat(b[k].s).None? {
      SliceAssignInPlace(b, k, k + 2, [Null, b[k]]);
    }
  }

  /** A well-formed cell written into a buffer that has its two slots: the
      identifier fields become the line's, slot `k` holds the float of the
      value (or `None`), slot `k + 1` the flag (or the value), the length is
      kept and every other slot is left as it was. */
  lemma WriteCellWellFormed(buf: Row, cells: seq<string>, n: nat, i: nat, py: Parsers)
    requires n <= i < |cells| && |Split(cells[i], ' ')| == 2 && Slot(n, i) + 2 <= |buf|
    ensures var r, k, p := WriteCell(buf, cells, n, i, py), Slot(n, i), Split(cells[i], ' ');
      r.Ok? && |r.value| == |buf| &&
      r.value[k] == ValueSlot(p[0], py) && r.value[k + 1] == FlagSlot(p[0], p[1], py) &&
      forall j :: 0 <= j < |buf| && j != k && j != k + 1 ==>
        r.value[j] == if j < n then Str(cells[j]) else buf[j]
  {
    var k := Slot(n, i);
    PlaceCellWellFormed(buf, cells, n, i);
    ConvertSlotInPlace(PlaceCell(buf, cells, n, i), k, py);
  }

  /** A cell that does not split into exactly two parts resizes the buffer:
      after the identifiers are copied in, the cell's `parts` replace slots
      `k` and `k + 1`, so the buffer changes length by `|parts| - 2` and the
      parts sit from `k` on. */
  lemma PlaceCellResizes(buf: Row, n: nat, ids: Row, k: nat, parts: seq<string>)
    requires |ids| == n <= k && k + 2 <= |buf|
    ensures var b := PlaceParts(buf, n, ids, k, parts);
      |b| == |buf| - 2 + |parts| &&
      forall j :: k <= j < k + |parts| ==> b[j] == Str(parts[j - k])
  {
    var ys := Strs(parts);
    SliceAssignPair(buf, n, ids, k, ys);
    var b := PlaceParts(buf, n, ids, k, parts);
    forall j | k <= j < k + |parts| ensures b[j] == Str(parts[j - k]) {
      assert b[j] == ys[j - k];
    }
  }

  /* ---------- The shared row buffer (eurostat.py:41-46, 55) ---------- */

  /** End of the slots a line with `cells` writes: two per observation cell. */
  function LineEnd(cells: seq<string>, n: nat): int
  {
    n + 2 * (|cells| - n)
  }

  /** What slot `j` of a well-formed line's observation slots holds once
      written: the value of its cell when `j - n` is even, the flag when odd. */
  function SlotCell(cells: seq<string>, n: nat, j: nat, py: Parsers): Cell
    requires WellFormedCells(cells, n) && n <= j < LineEnd(cells, n)
  {
    var p := Split(cells[n + (j - n) / 2], ' ');
    if (j - n) % 2 == 0 then ValueSlot(p[0], py) else FlagSlot(p[0], p[1], py)
  }

  /** The two slots of cell `m` are its value and its flag. */
  lemma SlotCellAt(cells: seq<string>, n: nat, m: nat, py: Parsers)
    requires WellFormedCells(cells, n) && n <= m < |cells|
    ensures Slot(n, m) + 1 < LineEnd(cells, n)
    ensures SlotCell(cells, n, Slot(n, m), py) == ValueSlot(Split(cells[m], ' ')[0], py)
    ensures SlotCell(cells, n, Slot(n, m) + 1, py)
      == FlagSlot(Split(cells[m], ' ')[0], Split(cells[m], ' ')[1], py)
  {
    var d := m - n;
    assert Slot(n, m) - n == 2 * d && (2 * d) / 2 == d && (2 * d) % 2 == 0;
    assert Slot(n, m) + 1 - n == 2 * d + 1 && (2 * d + 1) / 2 == d && (2 * d + 1) % 2 == 1;
  }

  /** The buffer once the cells from `i` on of a well-formed line are
      written into `buf`: the identifier fields are the line's if a cell was
      left to write, the slots of cells `i..` hold their values and flags,
      and every other slot is as it was. */
  function Written(buf: Row, cells: seq<string>, n: nat, i: nat, py: Parsers): (r: Row)
    requires n <= i <= |cells| && WellFormedCells(cells, n)
    ensures |r| == |buf|
  {
    seq(|buf|, j requires 0 <= j < |buf| =>
      if j < n && i < |cells| then Str(cells[j])
      else if Slot(n, i) <= j < LineEnd(cells, n) then SlotCell(cells, n, j, py)
      else buf[j])
  }

  /** Writing cell `i` and then the cells after it gives what writing the
      cells from `i` on gives, stated on the buffer `b` cell `i` leaves. */
  lemma WrittenStep(buf: Row, b: Row, cells: seq<string>, n: nat, i: nat, py: Parsers)
    requires n <= i < |cells| && WellFormedCells(cells, n) && LineEnd(cells, n) <= |buf| && |b| == |buf|
    requires b[Slot(n, i)] == ValueSlot(Split(cells[i], ' ')[0], py)
    requires b[Slot(n, i) + 1] == FlagSlot(Split(cells[i], ' ')[0], Split(cells[i], ' ')[1], py)
    requires forall j :: 0 <= j < |buf| && j != Slot(n, i) && j != Slot(n, i) + 1 ==>
      b[j] == if j < n then Str(cells[j]) else buf[j]
    ensures Written(b, cells, n, i + 1, py) == Written(buf, cells, n, i, py)
  {
    var k := Slot(n, i);
    var w, w' := Written(b, cells, n, i + 1, py), Written(buf, cells, n, i, py);
    SlotCellAt(cells, n, i, py);
    forall j | 0 <= j < |buf|
      ensures w[j] == w'[j]
    {
      if j < n {
        assert w'[j] == Str(cells[j]);
      } else if j == k || j == k + 1 {
        assert w[j] == b[j];
      } else if k + 2 <= j < LineEnd(cells, n) {
        assert Slot(n, i + 1) == k + 2;
        assert w[j] == SlotCell(cells, n, j, py) == w'[j];
      } else {
        assert w[j] == b[j] == buf[j] == w'[j];
      }
    }
  }

  /** With no cell left to write the buffer is as it was. */
  lemma WrittenEnd(buf: Row, cells: seq<string>, n: nat, py: Parsers)
    requires n <= |cells| && WellFormedCells(cells, n)
    ensures Written(buf, cells, n, |cells|, py) == buf
  {
    var w := Written(buf, cells, n, |cells|, py);
    forall j | 0 <= j < |buf|
      ensures w[j] == buf[j]
    {
    }
  }

  /** The inner loop over a well-formed line whose slots fit the buffer
      succeeds, with the buffer `Written` describes. */
  lemma {:induction false} WriteCellsWritten(buf: Row, cells: seq<string>, n: nat, i: nat, py: Parsers)
    requires n <= i <= |cells| && WellFormedCells(cells, n) && LineEnd(cells, n) <= |buf|
    ensures WriteCells(buf, cells, n, i, py) == Ok(Written(buf, cells, n, i, py))
    decreases |cells| - i
  {
    if i < |cells| {
      WriteCellWellFormed(buf, cells, n, i, py);
      var b := WriteCell(buf, cells, n, i, py).value;
      WrittenStep(buf, b, cells, n, i, py);
      WriteCellsWritten(b, cells, n, i + 1, py);
    } else {
      WrittenEnd(buf, cells, n, py);
    }
  }

  /** A whole well-formed line written into the buffer the previous row
      left: the identifier fields are the line's when it has an observation
      cell, its cells' slots hold their values and flags, and every slot past
      them keeps what the previous row put there. */
  lemma WrittenLine(buf: Row, cells: seq<string>, n: nat, py: Parsers)
    requires n < |cells| && WellFormedCells(cells, n) && LineEnd(cells, n) <= |buf|
    ensures forall j :: 0 <= j < n ==> Written(buf, cells, n, n, py)[j] == Str(cells[j])
    ensures forall m :: n <= m < |cells| ==>
      Written(buf, cells, n, n, py)[Slot(n, m)] == ValueSlot(Split(cells[m], ' ')[0], py) &&
      Written(buf, cells, n, n, py)[Slot(n, m) + 1]
        == FlagSlot(Split(cells[m], ' ')[0], Split(cells[m], ' ')[1], py)
    ensures forall j :: LineEnd(cells, n) <= j < |buf| ==> Written(buf, cells, n, n, py)[j] == buf[j]
  {
    var r := Written(buf, cells, n, n, py);
    forall m | n <= m < |cells|
      ensures r[Slot(n, m)] == ValueSlot(Split(cells[m], ' ')[0], py)
      ensures r[Slot(n, m) + 1] == FlagSlot(Split(cells[m], ' ')[0], Split(cells[m], ' ')[1], py)
    {
      SlotCellAt(cells, n, m, py);
    }
  }

  /** A line without observation cells writes nothing: the buffer, including
      the previous row's identifier fields, is appended again as it is. */
  lemma NoObservationsKeepBuffer(buf: Row, cells: seq<string>, n: nat, py: Parsers)
    requires |cells| <= n
    ensures WriteCells(buf, cells, n, n, py) == Ok(buf)
  {
  }

  /* ---------- Flags tables (eurostat.py:36-55) ---------- */

  /** Each data tuple is what its line writes into the previous tuple: the
      first into the header buffer, every later one into its predecessor. */
  lemma {:induction false} FlagsRecordsAt(buf: Row, lines: seq<string>, n: nat, py: Parsers, m: nat)
    requires FlagsRecords(buf, lines, n, py).Ok? && m < |lines|
    ensures var rows := FlagsRecords(buf, lines, n, py).value;
      WriteCells(if m == 0 then buf else rows[m - 1], Split(lines[m], ','), n, n, py) == Ok(rows[m])
    decreases m
  {
    var w := WriteCells(buf, Split(lines[0], ','), n, n, py);
    var rest := FlagsRecords(w.value, lines[1..], n, py);
    var rows := FlagsRecords(buf, lines, n, py).value;
    assert rows == [w.value] + rest.value;
    if m > 0 {
      FlagsRecordsAt(w.value, lines[1..], n, py, m - 1);
      var prev := if m == 1 then w.value else rest.value[m - 2];
      assert lines[1..][m - 1] == lines[m];
      assert rows[m - 1] == prev && rows[m] == rest.value[m - 1];
    }
  }

  /** The flags table: the header first, then for every later line the
      buffer the previous tuple holds with that line written into it, so a
      tuple is a snapshot of the one shared buffer. */
  lemma FlagsTableRows(lines: seq<string>, n: nat, py: Parsers, m: nat)
    requires |lines| >= 1 && FlagsTable(lines, n, py).Ok? && 1 <= m < |lines|
    ensures var rows := FlagsTable(lines, n, py).value;
      rows[0] == FlagsHeader(Split(lines[0], ','), n) &&
      WriteCells(rows[m - 1], Split(lines[m], ','), n, n, py) == Ok(rows[m])
  {
    var header := FlagsHeader(Split(lines[0], ','), n);
    var rows := FlagsTable(lines, n, py).value;
    var rest := FlagsRecords(header, lines[1..], n, py).value;
    assert rows == [header] + rest;
    FlagsRecordsAt(header, lines[1..], n, py, m - 1);
    assert lines[1..][m - 1] == lines[m];
    var prev := if m == 1 then header else rest[m - 2];
    assert rows[m - 1] == prev && rows[m] == rest[m - 1];
  }

  /** A line of well-formed cells whose slots fit the buffer is written
      without error and keeps the buffer's length. */
  lemma WriteLineKeepsLength(buf: Row, cells: seq<string>, n: nat, py: Parsers)
    requires WellFormedCells(cells, n) && LineEnd(cells, n) <= |buf|
    ensures var r := WriteCells(buf, cells, n, n, py); r.Ok? && |r.value| == |buf|
  {
    if n < |cells| {
      WriteCellsWritten(buf, cells, n, n, py);
    } else {
      NoObservationsKeepBuffer(buf, cells, n, py);
    }
  }

  /** Lines whose observation cells are all well-formed and whose slots fit
      the buffer never fail, and every tuple has the buffer's length. */
  lemma {:induction false} FlagsRecordsSucceed(buf: Row, lines: seq<string>, n: nat, py: Parsers)
    requires forall m :: 0 <= m < |lines| ==>
      WellFormedCells(Split(lines[m], ','), n) && LineEnd(Split(lines[m], ','), n) <= |buf|
    ensures var r := FlagsRecords(buf, lines, n, py);
      r.Ok? && forall m :: 0 <= m < |r.value| ==> |r.value[m]| == |buf|
    decreases |lines|
  {
    if |lines| > 0 {
      var cells := Split(lines[0], ',');
      WriteLineKeepsLength(buf, cells, n, py);
      var b := WriteCells(buf, cells, n, n, py).value;
      var tail := lines[1..];
      forall m | 0 <= m < |tail|
        ensures WellFormedCells(Split(tail[m], ','), n) && LineEnd(Split(tail[m], ','), n) <= |b|
      {
        assert tail[m] == lines[m + 1];
      }
      FlagsRecordsSucceed(b, tail, n, py);
      var rest := FlagsRecords(b, tail, n, py).value;
      var rows := FlagsRecords(buf, lines, n, py).value;
      assert rows == [b] + rest;
      forall m | 0 <= m < |rows|
        ensures |rows[m]| == |buf|
      {
        if m > 0 {
          assert rows[m] == rest[m - 1];
        }
      }
    }
  }

  /** A file whose header has its identifier columns, and whose data lines
      have well-formed observation cells and no more cells than the header,
      converts without error, every tuple as long as the header. */
  lemma FlagsTableSucceeds(lines: seq<string>, n: nat, py: Parsers)
    requires |lines| >= 1 && n <= |Split(lines[0], ',')|
    requires forall m :: 1 <= m < |lines| ==>
      WellFormedCells(Split(lines[m], ','), n) && |Split(lines[m], ',')| <= |Split(lines[0], ',')|
    ensures var r := FlagsTable(lines, n, py);
      r.Ok? && forall m :: 0 <= m < |r.value| ==> |r.value[m]| == LineEnd(Split(lines[0], ','), n)
  {
    var cells := Split(lines[0], ',');
    var header := FlagsHeader(cells, n);
    assert |header| == LineEnd(cells, n);
    var tail := lines[1..];
    forall m | 0 <= m < |tail|
      ensures WellFormedCells(Split(tail[m], ','), n) && LineEnd(Split(tail[m], ','), n) <= |header|
    {
      assert tail[m] == lines[m + 1];
    }
    FlagsRecordsSucceed(header, tail, n, py);
    var rows := FlagsTable(lines, n, py).value;
    var rest := FlagsRecords(header, tail, n, py).value;
    assert rows == [header] + rest;
    forall m | 0 <= m < |rows|
      ensures |rows[m]| == LineEnd(cells, n)
    {
      if m > 0 {
        assert rows[m] == rest[m - 1];
      }
    }
  }

  /* ---------- No-flags tables (eurostat.py:60-67) ---------- */

  /** The records all exist exactly when every line converts. */
  lemma {:induction false} NoFlagsRecordsOk(lines: seq<string>, n: nat, py: Parsers)
    ensures NoFlagsRecords(lines, n, py).Ok? <==>
      forall m :: 0 <= m < |lines| ==> NoFlagsRecord(Split(lines[m], ','), n, py).Ok?
    decreases |lines|
  {
    if |lines| > 0 {
      NoFlagsRecordsOk(lines[1..], n, py);
      assert forall m :: 0 <= m < |lines[1..]| ==> lines[1..][m] == lines[m + 1];
    }
  }

  /** The records are the lines' tuples, one for one. */
  lemma {:induction false} NoFlagsRecordsAt(lines: seq<string>, n: nat, py: Parsers)
    requires NoFlagsRecords(lines, n, py).Ok?
    ensures forall m :: 0 <= m < |lines| ==>
      NoFlagsRecord(Split(lines[m], ','), n, py) == Ok(NoFlagsRecords(lines, n, py).value[m])
    decreases |lines|
  {
    if |lines| > 0 {
      var rows := NoFlagsRecords(lines, n, py).value;
      var rest := NoFlagsRecords(lines[1..], n, py);
      NoFlagsRecordsAt(lines[1..], n, py);
      assert rows == [rows[0]] + rest.value;
      forall m | 1 <= m < |lines|
        ensures NoFlagsRecord(Split(lines[m], ','), n, py) == Ok(rows[m])
      {
        assert lines[1..][m - 1] == lines[m] && rest.value[m - 1] == rows[m];
      }
    }
  }

  /** The no-flags table exists exactly when the header and every later line
      convert. */
  lemma NoFlagsTableOk(lines: seq<string>, n: nat, py: Parsers)
    requires |lines| >= 1
    ensures NoFlagsTable(lines, n, py).Ok? <==>
      (NoFlagsHeader(Split(lines[0], ','), n, py).Ok? &&
       forall m :: 1 <= m < |lines| ==> NoFlagsRecord(Split(lines[m], ','), n, py).Ok?)
  {
    NoFlagsRecordsOk(lines[1..], n, py);
    assert forall m :: 1 <= m < |lines| ==> lines[1..][m - 1] == lines[m];
  }

  /** The no-flags table is the header tuple followed by the tuple of every
      later line. */
  lemma NoFlagsTableRows(lines: seq<string>, n: nat, py: Parsers)
    requires |lines| >= 1 && NoFlagsTable(lines, n, py).Ok?
    ensures var rows := NoFlagsTable(lines, n, py).value;
      NoFlagsHeader(Split(lines[0], ','), n, py) == Ok(rows[0]) &&
      forall m :: 1 <= m < |lines| ==> NoFlagsRecord(Split(lines[m], ','), n, py) == Ok(rows[m])
  {
    var rows := NoFlagsTable(lines, n, py).value;
    var rest := NoFlagsRecords(lines[1..], n, py).value;
    assert rows == [rows[0]] + rest;
    NoFlagsRecordsAt(lines[1..], n, py);
    forall m | 1 <= m < |lines|
      ensures NoFlagsRecord(Split(lines[m], ','), n, py) == Ok(rows[m])
    {
      assert lines[1..][m - 1] == lines[m] && rest[m - 1] == rows[m];
    }
  }

  /* ---------- The final pop (eurostat.py:69) ---------- */

  /** In flags mode the tuple of an empty last line, which `pop` removes, is
      a copy of the tuple before it: the line writes nowhere in the buffer. */
  lemma FlagsLastBlank(lines: seq<string>, n: nat, py: Parsers)
    requires |lines| >= 2 && Last(lines) == "" && n >= 1
    requires FlagsTable(lines, n, py).Ok?
    ensures var rows := FlagsTable(lines, n, py).value; Last(rows) == rows[|rows| - 2]
  {
    var last := |lines| - 1;
    var rows := FlagsTable(lines, n, py).value;
    assert Split(lines[last], ',') == [""];
    FlagsTableRows(lines, n, py, last);
    NoObservationsKeepBuffer(rows[last - 1], [""], n, py);
  }

  /** In no-flags mode the tuple of an empty last line, which `pop` removes,
      holds the empty identifier alone. */
  lemma NoFlagsLastBlank(lines: seq<string>, n: nat, py: Parsers)
    requires |lines| >= 2 && Last(lines) == "" && n >= 1
    requires NoFlagsTable(lines, n, py).Ok?
    ensures Last(NoFlagsTable(lines, n, py).value) == [Str("")]
  {
    var last := |lines| - 1;
    assert Split(lines[last], ',') == [""];
    NoFlagsTableRows(lines, n, py);
    assert Take([""], n) == [""] && Drop([""], n) == [];
    assert FloatCells([], py) == Ok([]) && Strs([""]) == [Str("")];
  }

  /** Tuple 0 of the table is the header of the chosen mode. */
  lemma TableHeader(lines: seq<string>, n: nat, flags: bool, py: Parsers)
    requires |lines| >= 1 && Table(lines, n, flags, py).Ok?
    ensures var cells := Split(lines[0], ',');
      Table(lines, n, flags, py).value[0] ==
        if flags then FlagsHeader(cells, n) else NoFlagsHeader(cells, n, py).value
  {
  }

  /** Element 0 of the result is the header tuple of the chosen mode. */
  lemma TranscodeHeader(text: string, flags: bool, py: Parsers)
    requires Transcode(text, flags, py).Ok? && |Lines(text, flags)| >= 2
    ensures var cells, n := Split(Lines(text, flags)[0], ','), TextFieldCount(text);
      Transcode(text, flags, py).value[0] ==
        if flags then FlagsHeader(cells, n) else NoFlagsHeader(cells, n, py).value
  {
    var lines, n := Lines(text, flags), TextFieldCount(text);
    var table := Table(lines, n, flags, py);
    assert Transcode(text, flags, py) == PopLast(table);
    TableHeader(lines, n, flags, py);
    var rows := Transcode(text, flags, py).value;
    assert table.value == rows + [Last(table.value)];
    assert table.value[0] == rows[0];
  }

  /** For lines that end with an empty one, as those of a text ending with a
      newline do (`TrailingNewline`), `pop` removes exactly the tuple of that
      empty line: a copy of the last data tuple in flags mode, the tuple
      `('',)` otherwise. */
  lemma PopBlankLine(lines: seq<string>, n: nat, flags: bool, py: Parsers)
    requires |lines| >= 2 && Last(lines) == "" && n >= 1
    requires PopLast(Table(lines, n, flags, py)).Ok?
    ensures var rows := PopLast(Table(lines, n, flags, py)).value;
      Table(lines, n, flags, py).value == rows + [if flags then Last(rows) else [Str("")]]
  {
    var t := Table(lines, n, flags, py).value;
    var rows := PopLast(Table(lines, n, flags, py)).value;
    assert t == rows + [Last(t)];
    if flags {
      FlagsLastBlank(lines, n, py);
      assert t[|t| - 2] == Last(rows);
    } else {
      NoFlagsLastBlank(lines, n, py);
    }
  }

  /* ---------- A line that overruns the buffer (eurostat.py:48-52) ---------- */

  /** A cell without a space whose two slots end the buffer shrinks it by
      one slot; when its value parses and the next cell has no space either,
      that cell is put at the end and its slot is read one past it, raising
      `IndexError`. */
  lemma OverrunAfterShrink(buf: Row, cells: seq<string>, n: nat, i: nat, py: Parsers)
    requires n <= i && i + 1 < |cells| && Slot(n, i) + 2 == |buf|
    requires |Split(cells[i], ' ')| == 1 && |Split(cells[i + 1], ' ')| == 1
    requires py.toFloat(cells[i]).Some?
    ensures var r := WriteCell(buf, cells, n, i, py);
      r.Ok? && |r.value| == |buf| - 1 && WriteCell(r.value, cells, n, i + 1, py) == Err(IndexError)
  {
    var k := Slot(n, i);
    JoinSplit(cells[i], ' ');
    PlaceCellResizes(buf, n, Strs(cells[..n]), k, Split(cells[i], ' '));
    var b := PlaceCell(buf, cells, n, i);
    assert b[k] == Str(cells[i]);
    var c := WriteCell(buf, cells, n, i, py).value;
    SliceAssignInPlace(c, 0, n, Strs(cells[..n]));
    var c0 := SliceAssign(c, 0, n, Strs(cells[..n]));
    assert |SliceAssign(c0, k + 2, k + 4, Strs(Split(cells[i + 1], ' ')))| == k + 2;
  }

  /** The same two cells ending a line make the whole line fail. */
  lemma OverrunRow(buf: Row, cells: seq<string>, n: nat, i: nat, py: Parsers)
    requires n <= i && i + 2 == |cells| && Slot(n, i) + 2 == |buf|
    requires |Split(cells[i], ' ')| == 1 && |Split(cells[i + 1], ' ')| == 1
    requires py.toFloat(cells[i]).Some?
    ensures WriteCells(buf, cells, n, i, py) == Err(IndexError)
  {
    OverrunAfterShrink(buf, cells, n, i, py);
  }

  /** `float("5")` is `5.0`. */
  lemma FiveIsFloat()
    ensures ParseFloat("5") == Some(Finite(5.0))
  {
    ParseIntOfString(5);
    assert IntToString(5) == "5";
    IntLiteralIsFloat("5", 5);
  }

  /** The cells of the example's header line. */
  lemma ExampleHeaderCells()
    ensures Split("a,X", ',') == ["a", "X"]
  {
    assert "a,X" == "a" + [','] + "X";
    SplitAtFirst("a", "X", ',');
    SplitNoSep("X", ',');
  }

  /** The cells of the example's data line. */
  lemma ExampleCells()
    ensures Split("r,5,6", ',') == ["r", "5", "6"]
  {
    assert "r,5,6" == "r" + [','] + ("5" + [','] + "6");
    SplitAtFirst("5", "6", ',');
    SplitNoSep("6", ',');
    SplitAtFirst("r", "5,6", ',');
  }

  /** A header with one period label, followed by a line whose two
      observation cells have no space, the first a number: the table fails
      with `IndexError`. */
  lemma OverrunTable(lines: seq<string>, n: nat, py: Parsers)
    requires |lines| >= 2 && |Split(lines[0], ',')| == n + 1
    requires var cells := Split(lines[1], ',');
      |cells| == n + 2 && |Split(cells[n], ' ')| == 1 && |Split(cells[n + 1], ' ')| == 1 &&
      py.toFloat(cells[n]).Some?
    ensures FlagsTable(lines, n, py) == Err(IndexError)
  {
    var header := FlagsHeader(Split(lines[0], ','), n);
    OverrunRow(header, Split(lines[1], ','), n, n, py);
    assert lines[1..][0] == lines[1];
  }

  /** The example's cells: three of them, the last two without a space, the
      first observation a number. */
  lemma ExampleCellFacts(cells: seq<string>)
    requires cells == ["r", "5", "6"]
    ensures |cells| == 3 && |Split(cells[1], ' ')| == 1 && |Split(cells[2], ' ')| == 1
    ensures ParseFloat(cells[1]).Some?
  {
    SplitNoSep("5", ' ');
    SplitNoSep("6", ' ');
    FiveIsFloat();
  }

  /** In flags mode a data cell without a space shrinks the buffer, and the
      next cell's slot then lies past its end. The text `a<TAB>X<NL>r<TAB>5<TAB>6`
      has the lines below and one identifier column: the header buffer is
      `['a', 'X_value', 'X_flag']`, the cell `5` leaves `['r', 5.0]`, the cell
      `6` is put at its end, and reading slot 3 raises `IndexError`, which
      the bare `except` meets again and lets escape. */
  lemma IndexErrorExample(lines: seq<string>, n: nat)
    requires lines == ["a,X", "r,5,6"] && n == 1
    ensures FlagsTable(lines, n, Builtin) == Err(IndexError)
  {
    ExampleHeaderCells();
    ExampleCells();
    ExampleCellFacts(Split(lines[1], ','));
    OverrunTable(lines, n, Builtin);
  }
}
