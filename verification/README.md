# Eurostat bulk-download transcoder, dictionary reader and SDMX key expansion

The `eurostat` Python package downloads Eurostat datasets. This project models
three parts of `eurostat/eurostat.py` and proves properties of them. The
download and decompression are not modelled.

- **`get_data`** turns the decompressed, tab-separated text of a bulk-download
  file into a list of tuples. The text is cut at its first tab, the remaining
  tabs become commas, and the result is split into lines. Each line is then
  split at its commas. The first `n_text_fields` fields of a line are
  identifiers and stay strings. `n_text_fields` is one more than the number of
  commas before the first tab.
  - **Without flags**, the lower-case flag letters, spaces and colons are
    first deleted from everything after the first tab (eurostat.py:57,
    `RawData`). That includes the header's time labels. Then the header's
    labels go through `int()`. In the data lines, every observation goes
    through `float()`, except an empty one, which becomes `None`.
  - **With flags**, the header is expanded to `<label>_value` and `<label>_flag`
    columns. Every data line is written into a single row buffer, `l2`, by
    slice assignment, and a snapshot of the buffer is appended per line.
  - In both modes, the last tuple is dropped with `data.pop()`. When the text
    ends in a newline, that is the tuple of the empty last line
    (`TrailingNewline`, `PopBlankLine`).
- **`get_dic`** reads the lines of a `.dic` dictionary file. It strips their
  line ends, splits them at tabs, stops at the server's "does not exist" line,
  and builds a `dict`.
- **`get_sdmx_data`** expands a filter (dimension → list of values) into the
  cartesian product of `(dimension, value)` pairs, one SDMX key per
  combination.

Python's semantics are written out as their own modules:

- `PyStr`: `split`, `partition`, `count`, `re.sub` of one character or a
  character class, `strip`/`rstrip`;
- `PyList`: clamped slicing and slice assignment, which may change the list's
  length;
- `PyNum`: `int()` and `float()` as grammars over exact values;
- `PyDict`: `dict()` of pairs, where the last pair for a key wins.

The transcoder takes `int()`/`float()` as a parameter, `Parsers`. `GetData`
instantiates it with `Builtin`, the two parsers of `PyNum`.

Each loop of the source is a `method` proved equal to a specification function:

- `Transcoder.FlagsLoop`, `Transcoder.WriteLine` and `Transcoder.WriteOne`
  against `FlagsTable`, `WriteCells` and `WriteCell`;
- `Transcoder.NoFlagsLoop` against `NoFlagsTable`;
- `Dictionary.GetDic` against `Dic`.

The lemmas state what those functions compute.

Files: `wrappers.dfy` (Option, Result), `lists.dfy` (PyList), `strings.dfy`
(PyStr), `numbers.dfy` (PyNum), `dicts.dfy` (PyDict), `transcoder.dfy`
(Transcoder), `transcoder_props.dfy` (TranscoderProps), `dictionary.dfy`
(Dictionary), `sdmx_filter.dfy` (SdmxFilter).

## Model

| member | source | states |
|---|---|---|
| Transcoder.GetData | eurostat/eurostat.py:26-70 | An undecodable body gives `NotFound`, the "not found" branch. Any other body gives exactly `Transcode` of the text with Python's `int`/`float`. |
| Transcoder.TranscodeText | eurostat/eurostat.py:30-70 | The whole parse of a decoded text equals `Transcode(text, flags, py)`. |
| Transcoder.Transcode | eurostat/eurostat.py:30-70 | A successful transcode has one tuple per element of `Lines(text, flags)` except the last, which `pop` removes. By `LinesCount`, that is one tuple per newline of the text. |
| Transcoder.PrepareLines | eurostat/eurostat.py:26-33 | The lines and `n_text_fields` computed step by step are `Lines(text, flags)` and one more than the commas before the first tab. |
| Transcoder.IdPart | eurostat/eurostat.py:26 | The part before the first tab (`raw_part_data[0]`) is a prefix of the text with no tab in it. The text's first tab follows it; with no tab, it is the whole text. |
| Transcoder.CellsPart | eurostat/eurostat.py:26-30 | The part after the first tab, once `sub` has turned its tabs into commas, holds no tab. Its length is all the text after the first tab, or zero when the text has no tab. |
| Transcoder.TextFieldCount | eurostat/eurostat.py:31 | `n_text_fields` is the number of comma-separated pieces of the part before the first tab. |
| Transcoder.RawData | eurostat/eurostat.py:33-57 | `raw_data` holds no tab in either mode, and the part before the first tab is followed by the joining `','`. |
| Transcoder.Lines | eurostat/eurostat.py:36 | `split('\n')` always yields at least one line, so the loops run at least once. |
| TranscoderProps.LinesCount | eurostat/eurostat.py:30-36 | In both modes the text splits into one more line than it has newlines. |
| Transcoder.FlagsLoop | eurostat/eurostat.py:34-55 | The flags loop, with its counter `j` and the shared buffer `l2`, returns exactly `FlagsTable(lines, n, py)`, including the first error raised. |
| Transcoder.FlagsRecordsStep | eurostat/eurostat.py:43-55 | Writing one line into the buffer either raises that line's error or appends the written buffer and continues from it. |
| Transcoder.WriteLine | eurostat/eurostat.py:44-54 | The inner loop over cells `n..len(l)` returns exactly `WriteCells(buf, l, n, n, py)`. |
| Transcoder.WriteOne | eurostat/eurostat.py:45-52 | One pass of the inner loop returns exactly `WriteCell`. It copies the identifiers, splices the split cell into `l2[k:k+2]`, raises `IndexError` when `k` is past the end, and otherwise converts the value or shifts it into the flag slot. |
| Transcoder.WriteCellsStep | eurostat/eurostat.py:44-54 | One pass of the inner loop: an error in cell `i` ends the line with that error; otherwise the cells from `i + 1` are written into the buffer cell `i` left. |
| Transcoder.NoFlagsLoop | eurostat/eurostat.py:58-67 | The no-flags loop returns exactly `NoFlagsTable(lines, n, py)`, including the first error. |
| Transcoder.HeaderStep | eurostat/eurostat.py:61-63 | The header line either raises its `int()` error or gives the first tuple, followed by the tuples of the data lines. |
| Transcoder.RecordStep | eurostat/eurostat.py:65-67 | A data line either raises its conversion error or appends its tuple and continues with the next line. |
| Transcoder.HeaderTuple | eurostat/eurostat.py:63 | `l[n:] = [int(i) for i in l[n:]]` gives `NoFlagsHeader`. |
| Transcoder.RecordTuple | eurostat/eurostat.py:66 | `l[n:] = [float(i) if i!='' else None ...]` gives `NoFlagsRecord`. |
| Transcoder.IntLabels | eurostat/eurostat.py:63 | Succeeds iff `int()` accepts every label. On success it gives the labels' values in order. Otherwise the error names the first label `int()` rejects. |
| Transcoder.FloatCells | eurostat/eurostat.py:66 | Succeeds iff every cell is empty or accepted by `float()`. On success each cell is `None` or its float. Otherwise the error names the first rejected cell. |
| Transcoder.ObservationValue | eurostat/eurostat.py:66 | `float(i) if i != '' else None` gives `None` exactly for the empty string. It fails exactly when `float()` rejects a non-empty string, and otherwise gives a number. |
| Transcoder.Strs | eurostat/eurostat.py:37 | The fields of a split line, as `str` cells, element by element. |
| Transcoder.StrsTake | eurostat/eurostat.py:46 | Taking the first `n` cells commutes with turning strings into cells. |
| Transcoder.ExpandLabels | eurostat/eurostat.py:40-41 | The expanded header has two columns per label. |
| Transcoder.ExpandLabelsAt | eurostat/eurostat.py:40-41 | Column `2m` is `<stripped label m>_value` and column `2m+1` is `<stripped label m>_flag`. |
| Transcoder.PopLast | eurostat/eurostat.py:69 | `data.pop()` fails only when building the table failed. Otherwise the table is the result plus its removed last tuple. |
| TranscoderProps.PreparedText | eurostat/eurostat.py:26-30 | Neither the identifier part nor the cell part holds a tab. The text is the identifier part, a tab and the rest. Without a tab the cell part is empty. The cell part is the rest with every tab turned into a comma, position by position. |
| TranscoderProps.NoFlagsLinesSplit | eurostat/eurostat.py:57-60 | Without flags, and when the identifier part holds no newline, the first line is the identifier part, a comma and the first filtered line. Every other line is a line of the filtered cell text. |
| TranscoderProps.NoFlagsFilter | eurostat/eurostat.py:57 | Without flags, and when the identifier part holds no newline, no space, lower-case letter or colon is left in the data lines or after the first line's identifier part. `FilterObservation` and `FilterMissing` state what one cell becomes. |
| TranscoderProps.FilterObservation | eurostat/eurostat.py:57 | A cell `v f`, whose value `v` has no space, lower-case letter or colon and whose flag `f` is lower-case letters, filters to `v`: `'5.2 p'` becomes `'5.2'`. |
| TranscoderProps.FilterMissing | eurostat/eurostat.py:57-66 | The missing-value cell `: f`, with a lower-case flag `f`, filters to `''`, which becomes `None`. |
| TranscoderProps.CellsPartLast | eurostat/eurostat.py:30 | In a text that holds a tab, the cell part ends with the text's last character when that is not a tab. |
| TranscoderProps.RawDataLast | eurostat/eurostat.py:33-57 | A text that holds a tab and ends in a newline gives raw data ending in a newline, in both modes. Without a tab the raw data of `abc\n` is `abc\n,`. |
| TranscoderProps.TrailingNewline | eurostat/eurostat.py:36-60 | A text that holds a tab and ends in a newline has an empty last line. |
| TranscoderProps.NoFlagsHeaderOk | eurostat/eurostat.py:63 | The header converts iff `int()` accepts every label after the identifiers. |
| TranscoderProps.NoFlagsHeaderContents | eurostat/eurostat.py:61-63 | A converted header keeps its length, with the identifiers as strings and each label as its `int` value. |
| TranscoderProps.NoFlagsHeaderError | eurostat/eurostat.py:63 | A failed header reports the first label `int()` rejects. |
| TranscoderProps.NoFlagsRecordOk | eurostat/eurostat.py:66 | A data line converts iff each observation is empty or accepted by `float()`. |
| TranscoderProps.NoFlagsRecordContents | eurostat/eurostat.py:61-66 | A converted data line keeps its length, with the identifiers as strings and each observation as `None` or its float. |
| TranscoderProps.NoFlagsRecordError | eurostat/eurostat.py:66 | A failed data line reports the first observation `float()` rejects. |
| TranscoderProps.NoFlagsRecordsOk | eurostat/eurostat.py:60-67 | The data lines convert iff each one does. |
| TranscoderProps.NoFlagsRecordsAt | eurostat/eurostat.py:60-67 | Tuple `m` is line `m` converted on its own: no-flags tuples do not share state. |
| TranscoderProps.NoFlagsTableOk | eurostat/eurostat.py:60-67 | The no-flags table is built iff the header and every data line convert. |
| TranscoderProps.NoFlagsTableRows | eurostat/eurostat.py:60-67 | Row 0 is the converted header and row `m` is data line `m` converted. |
| TranscoderProps.FlagsHeaderShape | eurostat/eurostat.py:39-41 | The flags header keeps the identifiers and puts each label's `_value`/`_flag` pair at slot `(i-n)*2+n`. Its length is `n + 2*(labels)`. |
| TranscoderProps.PlaceCellWellFormed | eurostat/eurostat.py:46-48 | For a cell `value flag` whose slot fits, the splice keeps the buffer's length. It writes the identifiers and the two parts at `k` and `k+1` and leaves the rest alone. |
| TranscoderProps.PlaceCellResizes | eurostat/eurostat.py:46-48 | When the pair slot lies inside the buffer (`k + 2 <= len(l2)`), after the identifiers are copied in, `l2[k:k+2] = parts` changes the buffer's length by `len(parts) - 2`, and the parts sit from `k` on. `PlaceCell` is this with the parts of `l[i].split(' ')`. |
| Transcoder.PlaceParts | eurostat/eurostat.py:46-48 | When there are `n` identifiers, `n <= k`, and the pair slot lies inside the buffer (`k + 2 <= len(l2)`), `l2[:n] = ids` followed by `l2[k:k+2] = parts` leaves a buffer of length `len(l2) - 2 + len(parts)` that starts with the identifiers. |
| Transcoder.FloatOf | eurostat/eurostat.py:50 | `float(l2[k])` fails only on `None` or on a string that `float()` rejects; a number converts to itself. |
| Transcoder.ConvertSlot | eurostat/eurostat.py:49-52 | `IndexError` exactly when `k` is past the buffer's end. Otherwise slot `k` is `None` exactly when `float()` fails on it, and the buffer grows by one only when that failure is in its last slot (`[None, l2[k]]` replacing a one-element slice). |
| TranscoderProps.ConvertSlotInPlace | eurostat/eurostat.py:49-52 | In a buffer long enough for both slots, the value slot becomes the float or `None`. The flag slot keeps the flag if `float()` succeeded, and otherwise receives the unparsable value. Nothing else changes. |
| TranscoderProps.WriteCellWellFormed | eurostat/eurostat.py:44-52 | One well-formed cell whose two slots fit the buffer writes the value and flag slots, refreshes the identifiers and keeps all else and the length. |
| TranscoderProps.SlotCellAt | eurostat/eurostat.py:45 | Cell `m`'s slots `(m-n)*2+n` and the next one lie inside the written span and hold its value and flag. |
| TranscoderProps.Written | eurostat/eurostat.py:44-54 | The buffer after cells `i..` are written has the length of the one before. |
| TranscoderProps.WrittenStep | eurostat/eurostat.py:44-54 | Writing cell `i` and then the rest is the same as writing from `i`. |
| TranscoderProps.WrittenEnd | eurostat/eurostat.py:44 | Writing no cells leaves the buffer as it is. |
| TranscoderProps.WriteCellsWritten | eurostat/eurostat.py:44-54 | On well-formed cells that fit the buffer, the inner loop succeeds. Its result is the buffer with every cell's slots rewritten. |
| TranscoderProps.WrittenLine | eurostat/eurostat.py:44-54 | After a well-formed line, the identifiers are the line's. Each cell's two slots hold its value and flag, and the buffer past the line's slots is unchanged: stale cells of earlier lines remain. |
| TranscoderProps.NoObservationsKeepBuffer | eurostat/eurostat.py:44 | A line with no observation cells leaves the buffer, including the previous identifiers, unchanged. |
| TranscoderProps.WriteLineKeepsLength | eurostat/eurostat.py:44-54 | A well-formed line that fits is written without error and keeps the buffer's length. |
| TranscoderProps.FlagsRecordsAt | eurostat/eurostat.py:43-55 | Each flags tuple is its line written into the previous tuple, the first one into the header buffer. |
| TranscoderProps.FlagsTableRows | eurostat/eurostat.py:36-55 | Row 0 of the flags table is the expanded header. Row `m` is line `m` written into row `m-1`, a snapshot of the one shared buffer. |
| TranscoderProps.FlagsRecordsSucceed | eurostat/eurostat.py:43-55 | Well-formed lines that fit the buffer all succeed, and every tuple has the buffer's length. |
| TranscoderProps.FlagsTableSucceeds | eurostat/eurostat.py:36-55 | If no data line is longer than the header and every cell is `value flag`, the flags table is built and all its tuples have the header's length. |
| TranscoderProps.FlagsLastBlank | eurostat/eurostat.py:36-55 | With flags, an empty last line writes nothing. The last tuple repeats the one before it. |
| TranscoderProps.NoFlagsLastBlank | eurostat/eurostat.py:60-67 | Without flags, an empty last line gives the tuple `('',)`. |
| TranscoderProps.TableHeader | eurostat/eurostat.py:39-63 | The table's first row is the header of the chosen mode. |
| TranscoderProps.TranscodeHeader | eurostat/eurostat.py:36-69 | If the text has two or more lines, the first tuple returned is the header of the chosen mode. |
| TranscoderProps.PopBlankLine | eurostat/eurostat.py:55-69 | For an empty last line, `pop` removes the tuple that line produced: with flags, a repeat of the previous tuple; without flags, `('',)`. |
| TranscoderProps.OverrunAfterShrink | eurostat/eurostat.py:45-50 | When the cell's two slots are the buffer's last two, a single-part numeric cell shrinks the buffer by one. A following single-part cell then indexes past its end and raises `IndexError`. |
| TranscoderProps.OverrunRow | eurostat/eurostat.py:44-50 | A line ending in two such cells raises `IndexError`. |
| TranscoderProps.OverrunTable | eurostat/eurostat.py:36-55 | A header with one label, followed by a line with two single-part cells, the first numeric, raises `IndexError` for the whole call. |
| TranscoderProps.IndexErrorExample | eurostat/eurostat.py:36-55 | The lines `a,X` and `r,5,6` with one identifier field make the flags table raise `IndexError`. |
| PyStr.Count | eurostat/eurostat.py:31 | `count` is at most the length and is zero iff the character is absent. |
| PyStr.CountConcat | eurostat/eurostat.py:31 | Counting is additive over concatenation. |
| PyStr.Split | eurostat/eurostat.py:36-37 | `split(sep)` gives one more piece than there are separators. |
| PyStr.JoinSplit | eurostat/eurostat.py:36-37 | Joining the pieces with the separator gives back the string. |
| PyStr.SplitPiecesLackSep | eurostat/eurostat.py:36-37 | No piece holds the separator. |
| PyStr.SplitPrefix | eurostat/eurostat.py:57-60 | A separator-free prefix joins the first piece of the rest. |
| PyStr.SplitPrefixPieces | eurostat/eurostat.py:57-60 | The same, piece by piece: same count, the first piece extended and the others unchanged. |
| PyStr.SplitNoSep | eurostat/eurostat.py:99 | A string without the separator splits into itself. |
| PyStr.SplitAtFirst | eurostat/eurostat.py:99 | A string with a separator-free head before the separator splits into the head and the pieces of the tail. |
| PyStr.SplitLastEmpty | eurostat/eurostat.py:36 | A string ending in the separator has an empty last piece. |
| PyStr.SplitChars | eurostat/eurostat.py:36-37 | Every character of a piece is in the string. |
| PyStr.Partition | eurostat/eurostat.py:26 | `partition` gives head, separator and tail that concatenate to the string. The head has no separator. The middle is the separator iff it occurs. Without it, the head is the whole string and the tail is empty. |
| PyStr.PartitionAt | eurostat/eurostat.py:26 | A string whose head is separator-free partitions at the first separator. |
| PyStr.ReplaceChar | eurostat/eurostat.py:30 | `sub("\t", ",", s)` keeps the length and replaces exactly the tabs, position by position. |
| PyStr.ReplaceCharCount | eurostat/eurostat.py:30 | Replacing tabs by commas keeps the number of every other character, newlines included. |
| PyStr.DeleteMatching | eurostat/eurostat.py:57 | `sub("[ a-z:]", "", s)` leaves no matching character and never lengthens. It is the identity on a string with no match and gives `''` on a string of matches only. With `DeleteMatchingConcat`, this fixes the result for a string made of such pieces. |
| PyStr.DeleteMatchingConcat | eurostat/eurostat.py:57 | Deletion distributes over concatenation. |
| PyStr.DeleteMatchingKeepsLast | eurostat/eurostat.py:57 | A final character that does not match stays last. |
| PyStr.DeleteMatchingCount | eurostat/eurostat.py:57 | Deleting matching characters keeps the number of every other character, so the filter neither joins nor splits lines. |
| PyStr.LStripSpec | eurostat/eurostat.py:40 | Left stripping removes exactly a prefix of stripped characters, and the result does not start with one. |
| PyStr.RStripSpec | eurostat/eurostat.py:99 | Right stripping removes exactly a suffix of stripped characters, and the result does not end with one. |
| PyStr.RStripSuffix | eurostat/eurostat.py:99 | `rstrip('\r\n')` removes exactly an appended line-end suffix. |
| PyStr.StripSpec | eurostat/eurostat.py:40 | `strip()` returns the middle of the string, surrounded only by whitespace, with no whitespace at its ends. |
| PyStr.StripUnspaced | eurostat/eurostat.py:40 | `strip()` is the identity on a string with no whitespace at its ends. |
| PyStr.LStrip | eurostat/eurostat.py:40 | `lstrip` never lengthens the text and leaves it as it is when it removes nothing. `LStripSpec` gives the kept suffix and what is dropped. |
| PyStr.RStrip | eurostat/eurostat.py:99 | `rstrip` never lengthens the text and leaves it as it is when it removes nothing. `RStripSpec` gives the kept prefix and what is dropped. |
| PyStr.Strip | eurostat/eurostat.py:40 | `strip()` never lengthens the text, and its result neither starts nor ends with Python whitespace. |
| PyList.Take | eurostat/eurostat.py:41-46 | `xs[:n]` is clamped to the list and keeps the elements in place. |
| PyList.Drop | eurostat/eurostat.py:63 | `xs[n:]` is clamped, and `xs[:n] + xs[n:] == xs`. |
| PyList.SliceAssign | eurostat/eurostat.py:46-66 | `xs[lo:hi] = ys` changes the length by `len(ys)` minus the clamped slice's length. |
| PyList.ReplaceTail | eurostat/eurostat.py:63-66 | `xs[n:] = ys` is `xs[:n] + ys`. |
| PyList.SliceAssignAt | eurostat/eurostat.py:46 | An in-place slice assignment changes only the slice's elements. |
| PyList.SliceAssignInPlace | eurostat/eurostat.py:46-52 | The same for all positions at once. |
| PyList.SliceAssignPlaced | eurostat/eurostat.py:48 | After `xs[lo:hi] = ys`, with the slice inside the list, `ys` sits at `lo`. |
| PyList.SliceAssignPair | eurostat/eurostat.py:46-48 | Identifiers in place, then a pair slot replaced: the length changes by `len(ys) - 2` and `ys` sits at `k`. |
| PyNum.NatToDigits | eurostat/eurostat.py:63 | The numeral `str(n)` of a natural: non-empty, all digits, and read back as `n`. `ParseIntOfString` builds `int(str(n)) == n` on it. |
| PyNum.ParseIntOfString | eurostat/eurostat.py:63 | `int(str(n)) == n`. |
| PyNum.DigitsHaveNoSpace | eurostat/eurostat.py:63 | A numeral starts with a digit or a minus sign and ends with a digit, so the whitespace stripping of `int()` leaves it unchanged. |
| PyNum.ParseInt | eurostat/eurostat.py:63 | `int(s)` accepts only text that holds a digit, and gives a negative value only for text that holds a minus sign. `ParseIntOfString` gives `int(str(n)) == n`; `EmptyAndColonAreNotNumbers` rejects `''`. |
| PyNum.ParseFloat | eurostat/eurostat.py:66 | A finite `float(s)` comes only from text that holds a digit; infinities and NaN are spelled with letters. `IntLiteralIsFloat` gives every `int()` literal its integer value, and `float('')` and `float(':')` raise. |
| PyNum.SpanDigits | eurostat/eurostat.py:66 | The scan for a decimal literal stops at the first non-digit. |
| PyNum.IntLiteralIsFloat | eurostat/eurostat.py:63-66 | Every literal `int()` accepts, `float()` accepts with the same value. |
| PyNum.EmptyAndColonAreNotNumbers | eurostat/eurostat.py:63-66 | `float('')`, `float(':')` and `int('')` raise `ValueError`. |
| TranscoderProps.FiveIsFloat | eurostat/eurostat.py:50 | `float('5') == 5.0`. |
| PyDict.DictOf | eurostat/eurostat.py:106 | `dict(pairs)` has exactly the keys of the pairs. |
| PyDict.DictOfLast | eurostat/eurostat.py:106 | A key maps to the value of its last pair. |
| PyDict.DictOfDistinct | eurostat/eurostat.py:224 | With distinct keys, every pair is found as it is. |
| Dictionary.GetDic | eurostat/eurostat.py:95-106 | The loop over the lines returns exactly `Dic(code, lines)`. It stops with "not readable" at the first sentinel line and otherwise builds `dict(dic)`. |
| Dictionary.Dic | eurostat/eurostat.py:95-106 | A dictionary comes back only when no line is the sentinel and every line splits into exactly two tab-separated fields, a key and a name. |
| Dictionary.LineFields | eurostat/eurostat.py:99 | `rstrip('\r\n').split('\t')` gives at least one field. |
| Dictionary.Entries | eurostat/eurostat.py:97-104 | One entry per line. |
| Dictionary.ToDict | eurostat/eurostat.py:106 | `dict()` fails only with a bad entry. |
| Dictionary.ToDictPairs | eurostat/eurostat.py:106 | If every entry is a pair, `dict()` gives the dict of those pairs. |
| Dictionary.ToDictOnlyPairs | eurostat/eurostat.py:106 | `dict()` succeeds only if every entry is a pair. |
| Dictionary.ToDictOk | eurostat/eurostat.py:106 | `dict()` succeeds iff every entry is a pair. |
| Dictionary.ToDictError | eurostat/eurostat.py:106 | A failure reports the index and length of the first entry that is not a pair. |
| Dictionary.NotReadableIffSentinel | eurostat/eurostat.py:95-102 | The result is "not readable" iff some line holds the sentinel field. |
| Dictionary.DicLastWins | eurostat/eurostat.py:104-106 | Each code maps to the label of the last line with that code. |
| Dictionary.DicKeys | eurostat/eurostat.py:104-106 | Every key of the dict is the code of some line. |
| Dictionary.LineFieldsOfEntry | eurostat/eurostat.py:99 | `code<TAB>label` with any `\r`/`\n` ending reads back as `[code, label]`. |
| SdmxFilter.Pairs | eurostat/eurostat.py:214 | `zip((d,)*len(vals), vals)` keeps every value, each paired with `d`. |
| SdmxFilter.FilterLists | eurostat/eurostat.py:213-214 | One tuple of pairs per dimension, in the dict's order. |
| SdmxFilter.PrependEach | eurostat/eurostat.py:215 | Prefixing each tail with each element gives `len(xs) * len(tails)` combinations. |
| SdmxFilter.PrependEachAt | eurostat/eurostat.py:215 | Element `a*len(tails)+b` is `xs[a]` followed by `tails[b]`. |
| SdmxFilter.PrependEachElement | eurostat/eurostat.py:215 | Every element has that form. |
| SdmxFilter.ProductLength | eurostat/eurostat.py:215-216 | `len(cart)` is the product of the lists' lengths. |
| SdmxFilter.ProductSound | eurostat/eurostat.py:215 | Every combination takes one element of each list, in order. |
| SdmxFilter.ProductAt | eurostat/eurostat.py:215 | Every choice of one element per list appears at its mixed-radix position, the last list varying fastest. |
| SdmxFilter.Product | eurostat/eurostat.py:215 | `itertools.product` of the lists is empty exactly when one of the lists is empty. |
| SdmxFilter.SizeOfFilterLists | eurostat/eurostat.py:213-214 | The pair lists have the sizes of the value lists. |
| SdmxFilter.ExpandLength | eurostat/eurostat.py:213-216 | The number of requests is the product of the numbers of values. |
| SdmxFilter.ExpandSound | eurostat/eurostat.py:213-215 | Every combination pairs each dimension, in order, with one of its own values. |
| SdmxFilter.ExpandAt | eurostat/eurostat.py:213-215 | Every choice of values is requested, at its mixed-radix position. |
| SdmxFilter.Expand | eurostat/eurostat.py:213-215 | The list of combinations is empty exactly when some dimension of the filter has no values. |
| SdmxFilter.KeyDict | eurostat/eurostat.py:222-224 | `dict(c)` maps every dimension to one of its values and has no other keys. |

## Left out

- The download (`urlopen`), gzip decompression and UTF-8 decoding. `get_data` receives the decoded body as an option: a failure is the `except Exception` branch. `get_dic` receives the decoded lines.
- The `print` calls, and the `None` return, which is modelled as an `Err` value.
- The `except AttributeError` branch of the flags loop. `split` always yields strings, so it cannot be reached.
- `get_data_df`, `get_toc`, `get_toc_df`, `subset_toc_df`, `get_sdmx_dims`, `get_sdmx_dic`: these are pandas or pandasdmx wrappers and network calls around the modelled functions.
- `get_sdmx_data` outside the key expansion: the SDMX request, the series loop and the progress display.
- PyNum.ParseFloat: IEEE double rounding is not modelled. A float is the exact value of its literal, or an infinity, or NaN.
- PyNum.ParseInt: `int()` and `float()` accept only ASCII digits here. Underscore grouping and other Unicode digits are not modelled.
- Transcoder.GetData: `flags` is a `bool`. The source tests `flags == True` (eurostat/eurostat.py:32), so in Python `flags=1` also selects flags mode, while other truthy values such as `2` or `'yes'` take the no-flags branch.
- Dictionary.Dic: the result is a Dafny `map`, which has no order. The Python `dict` keeps its keys in first-insertion order; the model states only its keys and values.
- SdmxFilter.Pairs: filter keys are taken as strings, so the `str(d)` lookup is the identity.
- TranscoderProps.IndexErrorExample: it is stated on the split lines rather than on a whole downloaded text.
- TranscoderProps.PopBlankLine: the removed row is characterised for a table whose last line is empty. `TrailingNewline` gives that condition for a text ending in a newline. The two are not combined into one statement about texts.
- PyStr.LStrip: its own contract gives only the length and the unchanged case. The kept suffix and the strippable prefix it drops are stated by `LStripSpec`, which the model's proofs call where they need them.
- PyStr.RStrip: its own contract gives only the length and the unchanged case. The kept prefix and the strippable suffix it drops are stated by `RStripSpec`.
