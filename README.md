# bioino GFF records, reader, lookup table and table writer, in Dafny

This project models the core of `bioino/gff.py`, the GFF3 module of the
`bioino` package, and proves what it promises. It covers:

- **Header lines.** `GffMetadatum` checks its flag and renders as `##name\tvalues`
  (constrained) or `#name\tvalues` (free). `GffMetadata` converts its items and
  renders them as newline-separated lines.
- **Columns.** `GffColumns` holds the eight fixed columns, with positional or keyword
  construction, defaults and `int()` on `start`/`end`.
- **Data lines.** `GffLine` has the `tag=value;...` attribute codec
  (`_get_gff_attributes`, `__str__`), `as_dict` and `from_dict`.
- **Reading.** The reader `GffFile._from_file` and `GffFile.from_file` over the lines
  of a file.
- **Lookup table.** The coordinate lookup table `_gapfill_table` / `_lookup_table`,
  built when `lookup=True`.
- **Writing.** The header and rows that `to_csv` writes.

The modules follow the program's structure:

| file | module | contents |
|---|---|---|
| `wrappers.dfy` | `Wrappers` | `Option` for `None`; `Result` for the exceptions raised |
| `strings.dfy` | `Strings` | the parts of Python `str` the code uses: `strip`, `lstrip`, `split`, `join`, `str(int)`/`int(str)`, `sorted` on strings |
| `dicts.dfy` | `Dicts` | Python's insertion-ordered `dict` as a list of key/value pairs, with `d[k] = v` and `update` |
| `records.dfy` | `GffRecords` | `GffMetadatum`, `GffMetadata`, `GffColumns`, `GffLine`, the attribute codec, `as_dict`, `from_dict` |
| `parser.dfy` | `GffParser` | `_from_file` and `from_file` |
| `lookup.dfy` | `GffLookup` | `_gapfill_table` and `_lookup_table` |
| `lookup_example.dfy` | `GffLookupExample` | the table of two `+` genes, `g1` on 1..10 and `g2` on 21..30, position by position |
| `gff_file.dfy` | `GffFiles` | the constructed `GffFile`, the lookup flag, `to_csv` |

The code's loops are methods, each proved equal to a specification function:

- `BuildMetadata`;
- `ReadItems` / `ReadGff`;
- `GapFillTable` / `FillHalves` / `FillRange`;
- `LookupTable` / `FeatureLoop` / `AppendBody` / `FinishTable` / `AppendTail` /
  `CheckTable` / `MaxKey` / `MissingList`;
- `ReadGffFile`;
- `ToCsv` / `CollectKeys` / `WriteRows`.

The lemmas then prove the source's promises about those functions.

Exceptions are values of `GffRecords.Error`, one constructor per exception the code
raises.

The source's records and dicts become values. Python's sharing of one attributes dict
between copies is discussed under "## Findings".

Where the docstrings and the code disagree, the model follows the code:

- **Default flag.** `GffMetadatum`'s default flag is `'constrained'` (line 66), not
  `'free'` as its docstring says (line 44).
- **Corrupted-line error.** The error for a corrupted data line carries the line after
  `strip()`.
- **Tail length.** The trailing region is `range(end, end + 1000)`, i.e.
  `end..end+999`. So for the two-gene example the table holds exactly the positions
  1..1029, not 1..1030.

## Model

| member | source | states |
|---|---|---|
| `GffRecords.MakeMetadatum` | bioino/gff.py:65-73 | construction succeeds exactly for flag `free`, `constrained` or none; no flag means constrained; any other flag is the `ValueError` with its fixed message; name and values are kept |
| `GffRecords.RenderMetadatum` | bioino/gff.py:76-84 | the line starts with `##` for constrained and `#` for free; with no values it is the prefix, the name and a lone tab |
| `GffRecords.BuildMetadata` | bioino/gff.py:127-147 | succeeds exactly when every item converts; the result is the converted items in order; otherwise the error is that of the first item that does not convert |
| `GffRecords.RenderedLines` | bioino/gff.py:150-154 | one rendered header line per metadatum, in order |
| `GffRecords.RenderMetadata` | bioino/gff.py:150-154 | definition of `str(GffMetadata)`: the rendered header lines joined by newlines; `RenderedLines` and `MetadataBlockLines` state what it holds |
| `GffRecords.MetadataBlockLines` | bioino/gff.py:150-154 | splitting the rendered block at newlines gives back each header's line, when no header holds a newline |
| `GffRecords.IntOf` | bioino/gff.py:211-214 | a number passes unchanged; text converts exactly when it is a decimal integer |
| `GffRecords.MissingRequired` | bioino/gff.py:202-206 | the list of absent required fields is empty exactly when all five are given |
| `GffRecords.BindColumns` | bioino/gff.py:202-214 | keyword construction fails with `TypeError` on a keyword that is not a field; it succeeds exactly when all keywords are fields, the five required ones are present and `start`/`end` are integers; it then holds the given values, `int` of `start`/`end`, and defaults `.`, `+`, `.` |
| `GffRecords.MakeColumns` | bioino/gff.py:202-214 | positional construction: more than eight arguments, or fewer than five, is the `TypeError`, the latter naming the missing required fields; otherwise it succeeds exactly when `int()` takes `start` and `end`, and fails with the error of `start` first; it then holds the arguments in field order, `int` of `start`/`end`, and `.`, `+`, `.` for absent optional fields |
| `GffRecords.Positional` | bioino/gff.py:202-210 | the keywords positional arguments bind to: the first `n` field names, each with its argument, and no other |
| `GffRecords.PositionalBinds` | bioino/gff.py:202-214 | five to eight positional arguments give exactly what keyword construction gives with the same fields named, error included |
| `GffRecords.ColumnsDict` | bioino/gff.py:224-226 | `asdict(columns)` has the eight field names as keys, in field order |
| `GffRecords.ColumnTexts` | bioino/gff.py:217-221 | `str(columns)` is made of eight tab-joined texts |
| `GffRecords.RenderColumns` | bioino/gff.py:217-221 | definition of `str(columns)`: the eight column texts joined by tabs; `ColumnTexts` and `MakeTextColumns` state how it reads back |
| `GffRecords.BindColumnsDict` | bioino/gff.py:202-226 | keyword construction from `asdict(columns)` gives the same columns back |
| `GffRecords.AttributePairs` | bioino/gff.py:266-272 | one pair per `=`, with a text value each |
| `GffRecords.ParseAttributes` | bioino/gff.py:266-273 | the parsed dict has no repeated key, at most one pair per `=` in the text, and no key holding `=` or `;` |
| `GffRecords.ParseNoEquals` | bioino/gff.py:266-273 | text without `=` gives the empty dict |
| `GffRecords.ParseDropsMiddle` | bioino/gff.py:266-273 | in `a=b;c;d=e` the key is the segment before each `=`, the value the segment after it, and the middle segment `c` is dropped: the dict is `{a: b, d: e}` |
| `GffRecords.AttributesRoundTrip` | bioino/gff.py:266-293 | parsing the attribute column that `__str__` writes gives back the same dict, each value as its text, when no key or value holds `=` or `;` |
| `GffRecords.AsText` | bioino/gff.py:291 | same keys in the same order; each value replaced by its `str` |
| `GffRecords.RenderLine` | bioino/gff.py:287-293 | definition of `str(GffLine)`: the column text, a tab, the attribute text; `DataLineRoundTrip` states that reading it back gives the record |
| `GffRecords.AsDict` | bioino/gff.py:296-303 | definition of `as_dict`: the columns dict updated by the attributes; `AsDictGet` and `AsDictKeys` state its lookups and keys |
| `GffRecords.AsDictGet` | bioino/gff.py:296-303 | in `as_dict` an attribute wins over a column of the same name; any other key finds its column |
| `GffRecords.AsDictKeys` | bioino/gff.py:296-303 | the keys of `as_dict` are exactly the column names and the attribute keys |
| `GffRecords.ExtraKeys` | bioino/gff.py:359-360 | the keys outside `_GFF_COLNAMES`, each once, in sorted order |
| `GffRecords.ColumnKeywords` | bioino/gff.py:357-358 | exactly the entries whose keys are in `_GFF_COLNAMES`, with their values |
| `GffRecords.FromDict` | bioino/gff.py:355-362 | an `attribute` key is an unexpected keyword; on success the attributes are exactly the keys outside `_GFF_COLNAMES`, in sorted order, with their values |
| `GffRecords.FromDictOk` | bioino/gff.py:355-362 | `from_dict` succeeds exactly when there is no `attribute` key, the five required columns are present, and `start` and `end` are integers |
| `GffRecords.FromDictAsDict` | bioino/gff.py:296-362 | `from_dict(as_dict(line))` is the line again, when its attribute keys avoid the column names and are already sorted |
| `GffParser.Classify` | bioino/gff.py:712-723 | a line is blank exactly when it strips to nothing; a data line is the stripped text, which does not start with `#` |
| `GffParser.ClassifyKinds` | bioino/gff.py:712-723 | a line is a header exactly when its stripped text starts with `#`, and data exactly when that text is non-empty and does not; a header is constrained exactly on `##`, its name and values the tab-split of the text after all leading `#` and the whitespace after them |
| `GffParser.HeaderOf` | bioino/gff.py:716-721 | definition of one header line's metadatum; `HeaderOfFields` states its meaning |
| `GffParser.HeaderOfFields` | bioino/gff.py:716-721 | the flag is constrained exactly on `##`; name and values hold no tab and, joined with tabs, give back the line after its leading `#` and the whitespace after them |
| `GffParser.HeaderOfPrefixed` | bioino/gff.py:714-721 | a header written as the flag's prefix before a body starting with neither `#` nor whitespace reads back with that flag and the tab-split of the body |
| `GffParser.ReadDataLine` | bioino/gff.py:712-746 | a line that strips to non-empty text not starting with `#` is read as a data line of that text |
| `GffParser.ParseDataLine` | bioino/gff.py:730-746 | fewer than five tab-separated fields is the corrupted-line `IOError` with the line; a parsed record's attributes never repeat a key |
| `GffParser.ColumnArgs` | bioino/gff.py:734 | `data[:8]`: the first eight fields, all of them when fewer, as text values in order |
| `GffParser.FieldsBind` | bioino/gff.py:734 | five fields or more with integer `start` and `end` bind to the first eight fields, with `.`, `+`, `.` for absent optional ones |
| `GffParser.FieldsBadInteger` | bioino/gff.py:734 | with five fields or more, a `start` that is no integer is its `ValueError`, else an `end` that is no integer is |
| `GffParser.DataLineColumns` | bioino/gff.py:730-746 | a data line with five fields or more and integer `start` and `end` is read, its columns the first eight fields with `.`, `+`, `.` for absent optional ones |
| `GffParser.DataLineAttributes` | bioino/gff.py:744-746 | a record's attributes are the parse of the ninth field onward joined back with tabs; with eight fields or fewer there are none |
| `GffParser.DataLineBadStart` | bioino/gff.py:734-742 | a `start` that is no integer gives the `ValueError` of `int()`, which the `TypeError` handler does not turn into the corrupted-line error |
| `GffParser.DataLineBadEnd` | bioino/gff.py:734-742 | likewise an `end` that is no integer, once `start` is one |
| `GffParser.DataLineOutcome` | bioino/gff.py:730-746 | a data line is read exactly when it has five fields or more and integer `start` and `end` |
| `GffParser.ReadLines` | bioino/gff.py:710-746 | one item per line of the file |
| `GffParser.ReadLinesAt` | bioino/gff.py:710-746 | item `i` is the reading of line `i` on its own |
| `GffParser.ReadItems` | bioino/gff.py:703-746 | the generator, consumed to the end, gives `FromItems`: the headers before the first data line, then the records, up to the first line that fails |
| `GffParser.FromItems` | bioino/gff.py:703-746 | definition of what the generator yields: the headers before the first data line (none without one), the records, and the first error; `NoDataLines`, `LaterHeadersIgnored` and `RecordsBeforeError` state its properties |
| `GffParser.FromLines` | bioino/gff.py:776-788 | definition: `FromItems` of the lines read one by one |
| `GffParser.ReadGff` | bioino/gff.py:776-788 | `from_file` over the lines of a file is `FromLines` |
| `GffParser.NoDataLines` | bioino/gff.py:776-788 | a file without data lines gives no metadata and no records |
| `GffParser.LaterHeadersIgnored` | bioino/gff.py:725-728 | once a data line has been read, more lines leave the metadata unchanged: later headers are dropped |
| `GffParser.RecordsBeforeError` | bioino/gff.py:732-746 | the records before a malformed line are delivered; then the stream ends with that line's error |
| `GffParser.BlankLineIrrelevant` | bioino/gff.py:712-723 | dropping a blank line anywhere changes nothing that is read |
| `GffParser.HeaderRoundTrip` | bioino/gff.py:714-721 | reading back the line that `str(GffMetadatum)` writes gives the same metadatum, for a name and values without whitespace |
| `GffParser.DataLineRoundTrip` | bioino/gff.py:730-746 | reading back the line that `str(GffLine)` writes gives the record, each value as its text, when no column holds a tab and the attributes can be carried |
| `GffParser.MakeTextColumns` | bioino/gff.py:211-221 | the eight texts of `str(columns)`, read back positionally, give the columns, with `start`/`end` as the same integers |
| `GffLookup.MakeSide` | bioino/gff.py:465-468 | the `locus_tag` prefix plus `Name` fails exactly when `Name` is not text; otherwise it is prefix + name |
| `GffLookup.GapFillShape` | bioino/gff.py:425-490 | the gap table covers exactly the positions strictly between the previous end (or 0) and the current start; up to the midpoint it holds one upstream-side entry, after it one downstream-side entry |
| `GffLookup.MidpointBounds` | bioino/gff.py:444-445 | a gap of `n` positions splits into halves of `n` halved rounding up and rounding down; with no gap both are empty |
| `GffLookup.GapFillEmpty` | bioino/gff.py:472-490 | when `start <= last_end + 1` the gap table is empty |
| `GffLookup.GapFillOk` | bioino/gff.py:465-468 | the gap table fails exactly when the current feature's `Name` is not text |
| `GffLookup.GapFillTable` | bioino/gff.py:425-492 | the method with both loops computes `GapFill` |
| `GffLookup.GapFill` | bioino/gff.py:425-491 | definition of `_gapfill_table`'s result; `GapFillShape`, `GapFillEmpty` and `GapFillOk` state its positions, entries and error |
| `GffLookup.FillHalves` | bioino/gff.py:472-490 | the two loops fill `lo..mid` from the upstream side and `mid+1..hi` from the downstream side |
| `GffLookup.FillRange` | bioino/gff.py:472-480 | one loop adds one entry at each position `lo..hi` and touches no other position |
| `GffLookup.HalvesInOrder` | bioino/gff.py:472-490 | filling the first half, then the second, gives the cut of the gap at the midpoint |
| `GffLookup.EntryOffset` | bioino/gff.py:474-476 | a gap or tail entry's `offset` is `(i - anchor) * sign` |
| `GffLookup.EntryTag` | bioino/gff.py:465-468 | a gap or tail entry's `locus_tag` is the side's prefix plus `Name` |
| `GffLookup.EntryOther` | bioino/gff.py:465-478 | every other attribute of a gap or tail entry is the source record's |
| `GffLookup.BodyEntryAttributes` | bioino/gff.py:533-544 | a body entry keeps the columns; its `offset` is the absolute distance from `start` (`+`) or `end`; its other attributes are unchanged |
| `GffLookup.BodyEntry` | bioino/gff.py:537-544 | definition of a body entry with its own offset (the corrected form of the finding below); `BodyEntryAttributes` states its content |
| `GffLookup.SharedBodyDiffers` | bioino/gff.py:537-546 | as written, a `+` feature's body entry at `start` shows offset `end - start`; the corrected entry shows 0 |
| `GffLookup.Step` | bioino/gff.py:524-546 | after each pass `last_feature` is absent or an eligible feature |
| `GffLookup.Process` | bioino/gff.py:522-546 | the feature loop over the records; a result's last feature is absent or eligible; `ProcessOutcome`, `ProcessCovered` and `ProcessSticky` state the rest |
| `GffLookup.WithTail` | bioino/gff.py:548-567 | definition of the tail after the last eligible feature; `WithTailShape` states its positions and entries |
| `GffLookup.Lookup` | bioino/gff.py:495-576 | definition of `_lookup_table`: the feature loop, the tail, the coverage check; `LookupOutcome` states when it builds and what it covers |
| `GffLookup.StepEntries` | bioino/gff.py:524-546 | an eligible feature replaces the lists in its gap and appends its body entry, last, at each of its own positions |
| `GffLookup.StepKeys` | bioino/gff.py:524-546 | after an eligible feature the keys are the old ones, the gap and the body |
| `GffLookup.IneligibleIgnored` | bioino/gff.py:524-526 | a line that is a blocklisted type, has no `Name` or has a `Parent` changes nothing in the feature loop |
| `GffLookup.LookupIgnores` | bioino/gff.py:522-526 | such a line changes nothing in the lookup table |
| `GffLookup.ProcessOutcome` | bioino/gff.py:518-546 | the feature loop fails exactly when an eligible feature's `Name` is not text; otherwise it ends with a `last_feature` exactly when a line is eligible |
| `GffLookup.ProcessCovered` | bioino/gff.py:518-546 | the feature loop leaves no empty list, no hole below a filled position, and every position up to the last end filled |
| `GffLookup.ProcessSticky` | bioino/gff.py:522-531 | once the feature loop fails it stays failed, as the raise ends it |
| `GffLookup.WithTailShape` | bioino/gff.py:548-568 | the tail fails exactly when the last feature's `Name` is not text; otherwise it adds `end..end+999` and appends one entry of the last feature at each after what was there |
| `GffLookup.TailCovered` | bioino/gff.py:548-576 | after the tail no position from 1 up to the highest is missing, so the check passes |
| `GffLookup.ClosedNoMissing` | bioino/gff.py:570-574 | a table without holes has no missing position |
| `GffLookup.LookupOutcome` | bioino/gff.py:495-576 | the table is built exactly when some line is eligible and every eligible `Name` is text; otherwise the error is the `None` dereference or the non-text `Name`; every position from 1 to the highest holds an entry, so the missing-positions error is unreachable |
| `GffLookup.FinishOutcome` | bioino/gff.py:548-576 | after the feature loop, no eligible feature means the `None` dereference; otherwise the tail and check succeed and leave no hole |
| `GffLookup.LookupTable` | bioino/gff.py:495-576 | the method, loop by loop, computes `Lookup` |
| `GffLookup.FeatureLoop` | bioino/gff.py:518-546 | the method's loop computes `Process` |
| `GffLookup.AppendBody` | bioino/gff.py:537-544 | the body loop appends a body entry at each of the feature's positions |
| `GffLookup.FinishTable` | bioino/gff.py:548-576 | the method computes the `None` dereference, the tail and the check |
| `GffLookup.AppendTail` | bioino/gff.py:560-568 | the tail loop appends the side's entry at each position `lo..hi` |
| `GffLookup.CheckTable` | bioino/gff.py:570-576 | the method computes the coverage check |
| `GffLookup.MaxKey` | bioino/gff.py:570 | the loop finds `max(lookup_table)` |
| `GffLookup.MissingList` | bioino/gff.py:570 | the loop lists exactly the empty positions, in increasing order |
| `GffLookup.Missing` | bioino/gff.py:570 | a position is listed exactly when it is in range and its list is empty |
| `GffLookup.AppendEach` | bioino/gff.py:544 | `lookup_table[i].append` at every position of the entries, everything before kept |
| `GffLookupExample.SidesOfSecond` | bioino/gff.py:447-463 | for `g2` after `g1`, the upstream side is `g1` from 1 with `+` and `_down-g1`; the downstream side is `g2` from 21 with `-` and `_up-g2`; the tail is `g2` from 21 with `+` and `_down-g2` |
| `GffLookupExample.SecondAt` | bioino/gff.py:524-546 | after both genes: bodies on 1..10 and 21..30; `g1` entries on 11..15; `g2` entries on 16..20 |
| `GffLookupExample.GapAt` | bioino/gff.py:472-490 | the gap 11..20 is cut at 15 |
| `GffLookupExample.ExampleIsTail` | bioino/gff.py:548-576 | the example's table is the one after `g2` with `g2`'s tail, and the check passes |
| `GffLookupExample.ExampleKeys` | bioino/gff.py:560-576 | the example's table holds exactly the positions 1..1029 |
| `GffLookupExample.ExampleAt` | bioino/gff.py:495-576 | what each position of the example's table holds |
| `GffLookupExample.DownEntry` | bioino/gff.py:472-480 | each of 11..15 holds one entry of `g1`'s downstream side |
| `GffLookupExample.UpEntry` | bioino/gff.py:482-490 | each of 16..20 holds one entry of `g2`'s upstream side |
| `GffLookupExample.ExampleDownOffsets` | bioino/gff.py:474-476 | on 11..15 the tag is `_down-g1` and the offsets are 10..14 |
| `GffLookupExample.ExampleUpOffsets` | bioino/gff.py:484-486 | on 16..20 the tag is `_up-g2` and the offsets are `(i - 21) * -1`, i.e. 5..1 |
| `GffLookupExample.OverlapEntries` | bioino/gff.py:537-568 | position 30 holds `g2`'s body entry, then its first tail entry |
| `GffLookupExample.ExampleEndOffsets` | bioino/gff.py:540-565 | at 30 the body entry has offset 9 and no `locus_tag`; the tail entry is `_down-g2` with offset 9 |
| `GffLookupExample.LastEntry` | bioino/gff.py:560-568 | position 1029 holds only the last tail entry |
| `GffLookupExample.ExampleLastOffset` | bioino/gff.py:563-565 | that entry is `_down-g2` with offset 1008 |
| `GffFiles.ReadGffFile` | bioino/gff.py:414-421 | `from_file` followed by `__post_init__` computes `FromFile` |
| `GffFiles.StreamLookup` | bioino/gff.py:414-421 | definition of the lookup run over the line stream: a feature-loop error first, then the stream's exception, then the tail and the check; `FromFileLookup` states the order |
| `GffFiles.FromFile` | bioino/gff.py:414-421 | definition of `from_file` followed by `__post_init__`; `FromFileLookup` and `FromFileDeferred` state both modes |
| `GffFiles.FromFileLookup` | bioino/gff.py:414-421 | with the lookup, reading succeeds exactly when the stream reads cleanly and the table can be built; the file then holds that table and no records; the error order is feature-loop error, then the stream's exception, then the `None` dereference |
| `GffFiles.FromFileDeferred` | bioino/gff.py:776-788 | without the lookup, `from_file` never fails; the stream's records and its pending exception are kept |
| `GffFiles.AttributeKeys` | bioino/gff.py:679 | a key is in the union exactly when some record has it as an attribute |
| `GffFiles.CollectKeys` | bioino/gff.py:669-681 | the first loop gives the union of attribute keys, and column names exactly when there is a record |
| `GffFiles.WriteRows` | bioino/gff.py:695-697 | the second loop writes one row per record, in order, after the header |
| `GffFiles.ToCsv` | bioino/gff.py:669-699 | the method computes `CsvLines` |
| `GffFiles.CsvLines` | bioino/gff.py:669-697 | definition of the lines `to_csv` writes; `CsvErrors`, `CsvWritten` and `CsvRowsWritten` state them |
| `GffFiles.CsvHeader` | bioino/gff.py:689 | definition of `csv_fieldnames`; `HeaderShape` states its shape |
| `GffFiles.CsvRow` | bioino/gff.py:695-697 | one cell per field name |
| `GffFiles.RowLinesSnoc` | bioino/gff.py:695-697 | writing one more record appends exactly its row after the rows written so far |
| `GffFiles.HeaderShape` | bioino/gff.py:689 | the header is the eight column names, then every attribute key of every record, each once, sorted |
| `GffFiles.RowKeysInHeader` | bioino/gff.py:689-697 | every key of every record's `as_dict` is a header field, so the writer never meets an extra key |
| `GffFiles.RowCell` | bioino/gff.py:695-697 | a cell holds the record's attribute of that name, else its column, else the empty text |
| `GffFiles.CsvErrors` | bioino/gff.py:669-683 | `to_csv` fails exactly when the stream fails or is empty; the stream's exception comes first, then `GFF stream is empty.` |
| `GffFiles.CsvWritten` | bioino/gff.py:685-697 | otherwise it writes the metadata block when asked, then the header, then one line per record |
| `GffFiles.CsvRowsWritten` | bioino/gff.py:693-697 | the line after the header at position i is the i-th record's row, joined under that header |
| `GffFiles.LookupLeavesNothing` | bioino/gff.py:420-421 | a file read with the lookup has no records left, so `to_csv` finds the stream empty |
| `GffFiles.ExampleHeader` | bioino/gff.py:639-650 | the docstring's two records give the header of the columns, then `ID`, `comment`, `tag` |
| `GffFiles.ExampleSecondRow` | bioino/gff.py:648-650 | the second record's last three cells are `test001`, empty and `test_tag` |
| `Dicts.Put` | bioino/gff.py:542 | `d[k] = v` finds `v` at `k`, and every other key in the dict finds what it found before |
| `Dicts.PutKeys` | bioino/gff.py:542 | assigning a present key keeps the key order |
| `Dicts.PutAppends` | bioino/gff.py:466 | assigning a new key appends the pair |
| `Dicts.UpdateGet` | bioino/gff.py:301 | after `d.update(e)`, a key of `e` finds `e`'s value and any other key finds `d`'s |
| `Strings.Split` | bioino/gff.py:268 | `split` on one character gives at least one piece, and no piece holds the separator |
| `Strings.SplitJoin` | bioino/gff.py:291 | splitting a join recovers the pieces when none holds the separator |
| `Strings.ParseIntRoundTrip` | bioino/gff.py:213-214 | `int(str(n)) == n` |
| `Strings.SortedSeqOf` | bioino/gff.py:689 | `sorted` of a set is strictly increasing and holds exactly its elements |

## Left out

- **I/O.** Files, `write` and `print` are left out. The reader takes the file's lines as
  a sequence of strings, and `to_csv` returns the lines it would write.
- **Foreign functions.** `_cast_to_file_handle` and `carabiner.cast` call code outside
  the repository.
- **csv output.** `csv.DictWriter` quoting, escaping and line terminators are left out.
  A row is its cells joined by the delimiter.
- **Extra keys in `csv.DictWriter`.** Its error for a key outside the field names is
  not modelled; `GffFiles.RowKeysInHeader` proves no such key occurs.
- **Generator laziness.** Generators are finite sequences. Interleaving the reader with
  a consumer is not modelled, only the consumed result: records, then the exception.
  `from_file` without the lookup keeps the pending exception in the `GffFile`, and
  `to_csv` raises it.
- **Offsets are exact integers.** The code computes offsets as floats (`1.`/`-1.`, then
  `int()`). Here `Sign` stands for the factor ±1 and offsets are exact integers.
- **`int()` leniency.** `int()` also accepts `_` separators between digits and
  non-ASCII digits. It is modelled as optional surrounding whitespace, an optional `+`
  or `-`, and ASCII decimal digits.
- **Attribute values.** Attribute values are `Str` or `Int` only. `__str__` of any
  other Python value is out of scope.
- **`GffMetadatum(*item)` arity.** `MetaItem.Fields` has one to three fields. An item
  of another length, which would raise `TypeError`, is not modelled.
- **Which keyword Python names.** `UnexpectedKeywords` carries the set of offending
  keywords, not the single one Python's message names.
- **The missing-positions message.** `MissingPositions` is proved unreachable
  (`GffLookup.LookupOutcome`). Its message, whose `', '.join` over integers would
  itself raise `TypeError`, is not modelled.
- **Key order of body entries.** The feature kept as `last_feature` has no `offset` in
  the model. In the code the shared dict carries it, so later gap and tail entries
  built from it have `offset` before `locus_tag` in key order. Lookups by key are the
  same.
- **Other modules.**
  - The `write` and `as_dict` generator methods beyond what `to_csv` uses are left out.
  - The `bioino/cli.py` command line, `bioino/gff2table.py`, `bioino/table2fasta.py`,
    `bioino/utils.py` and `bioino/tables.py` are not part of this model.

## Findings

| source | as written | input that shows it | evidently intended | confidence | as-written member | corrected member |
|---|---|---|---|---|---|---|
| bioino/gff.py:537-546 | `gff_line.copy()` is a shallow `replace`. Every body entry of a feature shares one attributes dict, so after the loop they all show the offset of `end` | a `+` gene on 1..10: the entry at position 1 shows offset 9 | each body entry shows its own distance from the anchor, as the gap and tail entries do (they copy the dict first) | not executed | `GffLookup.SharedBodyEntry`, `GffLookup.SharedBodyDiffers` | `GffLookup.BodyEntry`, `GffLookup.BodyEntryAttributes` |
