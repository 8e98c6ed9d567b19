# Trigger-candidate reader and trigger-record event display, modelled in Dafny

This project models two parts of the trgtools Python package, which reads DUNE DAQ trigger data:

- **`TCReader`.** It reads trigger-candidate (TC) fragments. Each fragment payload holds records back to back: a fixed-width TC header, then as many trigger-activity (TA) records as the header's input count. The reader:
  - appends each TC to `tc_data`;
  - appends each TC's TA group to the jagged `ta_data`;
  - counts empty fragments;
  - can be cleared, indexed and measured;
  - keeps only the fragment paths that name trigger candidates.
- **The trigger-record event display script.** It:
  - selects the files of one run and subrun by the pattern `run(\d{6})_(\d{4})` in their paths;
  - picks even trigger records for `dataflow0` files and odd ones otherwise;
  - finds the name the plots are saved under;
  - for each of four APAs, selects the trigger primitives whose channel lies in that APA's inclusive channel range, and skips an APA that has none.

Modules:

| file | module | what it holds |
|---|---|---|
| `collections.dfy` | `Collections` | `Option`, an order-preserving `Filter` and its laws, Python's substring test `Contains` and `list.index`, small sequence lemmas |
| `bytes.dfy` | `Bytes` | little-endian unsigned fields, field lists, 32-bit two's complement |
| `records.dfy` | `Records` | the TC and TA rows (the fields of `tc_dt` and `ta_dt`), their byte layout, decoders, encoders, round trips |
| `scan.dfy` | `Scanner` | `Scan`, the record-by-record decoding of one payload as a function, and its properties |
| `tc_reader.dfy` | `Reader` | class `TCReader`, with its fields and methods |
| `decimal.dfy` | `Decimal` | Python's `str(n)`, `f"{n:04}"` and `int(s)` on digit strings |
| `event_display.dfy` | `EventDisplay` | the selection logic of the event display script |

Modelling choices:

- **Record layout.** The byte layout of the records lives in compiled `trgdataformats` code, which is not part of this model. It is replaced by an explicit layout: the fields of `tc_dt` and `ta_dt` in their declared order, little-endian. The numeric fields take their NumPy widths (`uint16` 2 bytes, `int32` 4, `uint64` 8). The `algorithm` and `type` fields are declared with the enum classes `TriggerCandidateData.Algorithm`/`Type` and `TriggerActivityData.Algorithm`/`Type` (`python/trgtools/TCReader.py:28`, `:34`, `:42`, `:51`), which state no width; the model gives each of them 1 byte, which is its own choice.
  - TC header: 38 bytes (H).
  - TA record: 66 bytes (A).
  - A TC with n inputs occupies H + n·A bytes.
  - The two enumerated codes in each record are kept as integers below 256.
- **`ReadFragment` is proved against a function.** `ReadFragment` is an imperative method with the source's `while byte_idx < size` loop. It is proved against the function `Scanner.Scan`, and the properties of the reader (alignment, byte accounting, round trip, truncation) are proved about `Scan`.
- **The value `read_fragment` returns.** Its docstring says it returns the first TC read. The code returns `np_tc_datum`, the last TC decoded in the loop. The model follows the code.
- **A record that overruns the payload.** The source hands such a record to foreign code, which reads past the payload. The model stops there and returns `Truncated(offset)`. It keeps the records before that offset and does not append the partial one.
- **`find_save_name` never returns when both PDFs exist.** When overwriting is off and both `<base>.pdf` and `<base>-zoom.pdf` exist, the loop at `scripts/event_display_trigger_records.py:48-49` never ends. The model's method returns `Diverges` in exactly that case, and `SaveNameLoopNeverExits` states that the loop condition holds after any number of passes.
- **Type of the desired run and subrun.** The docstring of `select_file_paths` calls them strings. The code compares them with `int(...)` and the caller passes integers, so the model takes integers.

## Model

| member | source | states |
|---|---|---|
| Collections.Filter | python/trgtools/TCReader.py:84-87 | the elements of the input that satisfy `keep`, in input order; its contract bounds the result by the input's length, and the lemmas below state membership, order and multiplicity |
| Collections.FilterConcat | python/trgtools/TCReader.py:84-87 | filtering keeps order: the kept elements of a concatenation are those of the first part, then those of the second |
| Collections.IndexOf | scripts/event_display_trigger_records.py:89 | `list.index` gives the first position holding the value |
| Collections.Contains | python/trgtools/TCReader.py:86 | Python's `sub in s` on strings is true exactly when `sub` occurs at some offset of `s` |
| Bytes.ReadWriteUint | python/trgtools/TCReader.py:27-53 | a value below 256^w, written as a w-byte little-endian field, reads back unchanged whatever bytes follow |
| Bytes.ReadWriteFields | python/trgtools/TCReader.py:27-53 | a list of values that fit their widths, written as consecutive fields, reads back unchanged whatever follows |
| Bytes.ToTwosComplement32 | python/trgtools/TCReader.py:43-45 | the 32-bit pattern of an `int32` value reads back as that value |
| Bytes.TwosComplementInverse | python/trgtools/TCReader.py:43-45 | a 32-bit pattern read as an `int32` channel and written back gives the same pattern |
| Records.WidthsAdd | python/trgtools/TCReader.py:27-53 | the TC field widths add up to the 38-byte header and the TA field widths add up to the 66-byte record |
| Records.RecordSize | python/trgtools/TCReader.py:140 | a TC with n inputs occupies H + n·A bytes, at least one header, so every step advances the byte index |
| Records.CandidateFieldsFit | python/trgtools/TCReader.py:27-36 | a TC row's fields fit the header's widths exactly when the row is valid, and the row is rebuilt from its field list |
| Records.CandidateOfFieldsInverse | python/trgtools/TCReader.py:27-36 | header fields that fit the TC widths make a valid TC row, whose field list is those fields again |
| Records.ActivityFieldsFit | python/trgtools/TCReader.py:39-53 | a valid TA row's fields, channels in 32-bit two's complement, fit the TA widths and rebuild the row |
| Records.ActivityOfFieldsInverse | python/trgtools/TCReader.py:39-53 | conversely, TA fields that fit the TA widths make a valid TA row, whose field list is those fields again |
| Records.DecodeCandidate | python/trgtools/TCReader.py:126-136 | the TC row decoded at the start of the bytes always has every field within its width |
| Records.DecodeActivity | python/trgtools/TCReader.py:146-161 | the TA row decoded at the start of the bytes always has every field within its width and its channels within the `int32` range |
| Records.DecodeCandidateFields | python/trgtools/TCReader.py:126-136 | the field-by-field header decoder agrees with reading the header's field list |
| Records.DecodeActivityFields | python/trgtools/TCReader.py:146-161 | the field-by-field TA decoder agrees with reading the TA field list |
| Records.DecodeGroup | python/trgtools/TCReader.py:145-161 | the group of a TC with n inputs has exactly n TAs |
| Records.DecodeGroupSnoc | python/trgtools/TCReader.py:146-147 | the group of k+1 TAs is the group of k TAs, then the TA H + k·A bytes into the record |
| Records.CandidateRoundTrip | python/trgtools/TCReader.py:126-136 | an encoded TC header decodes to the same TC, whatever follows it |
| Records.ActivityRoundTrip | python/trgtools/TCReader.py:146-161 | an encoded TA decodes to the same TA, whatever follows it |
| Records.CandidatePrefix | python/trgtools/TCReader.py:126 | decoding a header depends only on its first H bytes |
| Records.GroupRoundTrip | python/trgtools/TCReader.py:145-161 | the TAs of an encoded record decode to the encoded group, whatever follows the record |
| Scanner.Scan | python/trgtools/TCReader.py:117-162 | the scan yields one TA group per TC; it consumes the whole payload when it is not truncated and stops short of the end when it is |
| Scanner.ScanStep | python/trgtools/TCReader.py:119-162 | a record that fits is decoded at offset 0, then the scan goes on from its size |
| Scanner.ScanAligned | python/trgtools/TCReader.py:138-162 | the scan yields one TA group per TC, each as long as that TC's input count |
| Scanner.ScanConsumed | python/trgtools/TCReader.py:119-140 | the bytes consumed are the sizes of the TCs decoded; they never exceed the payload and fall short of it exactly when the scan is truncated |
| Scanner.ScanAdvance | python/trgtools/TCReader.py:126-162 | one pass of the loop body keeps "records so far, then the scan of the rest" equal to the scan of the whole payload |
| Scanner.ScanStopsAt | python/trgtools/TCReader.py:119-126 | a record that does not fit at the current offset ends the scan there, truncated, with the records before it |
| Scanner.ScanEndsAt | python/trgtools/TCReader.py:119 | a loop that reaches the end of the payload has decoded the whole scan, not truncated |
| Scanner.EncodeFragment | python/trgtools/TCReader.py:117-162 | a payload built from aligned records is exactly as long as their sizes |
| Scanner.RecordRoundTrip | python/trgtools/TCReader.py:126-162 | the first record of a payload that starts with an encoded record decodes to that TC and group, and the rest of the payload follows it |
| Scanner.ScanAfterRecords | python/trgtools/TCReader.py:117-162 | scanning encoded records followed by any bytes yields those records, then the scan of those bytes |
| Scanner.ScanEncodeFragment | python/trgtools/TCReader.py:117-162 | scanning a payload built from aligned records yields exactly those records, consumes the whole payload and is not truncated |
| Scanner.ScanPartialRecord | python/trgtools/TCReader.py:119-140 | a record cut short anywhere after its first byte yields nothing and is truncated at offset 0 |
| Scanner.ScanTruncated | python/trgtools/TCReader.py:119-162 | complete records followed by a cut record are all kept, and the scan is truncated at the cut record's offset |
| Reader.PyIndex | python/trgtools/TCReader.py:70-71 | an integer index is valid exactly in -n..n-1; a negative one counts from the end |
| Reader.PyIndexFromEnd | python/trgtools/TCReader.py:70-71 | index -1 is the last element, -n the first, and k and k+n name the same element |
| Reader.IsCandidatePath | python/trgtools/TCReader.py:86 | a path is a TC fragment path exactly when "Trigger_Candidate" occurs in it at some offset |
| Reader.FilterPaths | python/trgtools/TCReader.py:80-89 | the loop keeps exactly the paths containing "Trigger_Candidate", in their original order |
| Reader.TCReader.constructor | python/trgtools/TCReader.py:55-68 | a new reader holds no TCs and no TA groups |
| Reader.TCReader.Len | python/trgtools/TCReader.py:77-78 | `len(reader)` is the number of TCs, which is also the number of TA groups while they are aligned |
| Reader.TCReader.GetItem | python/trgtools/TCReader.py:70-71 | `reader[key]` is the TC at that Python index; an index outside -n..n-1 is an error |
| Reader.TCReader.SetItem | python/trgtools/TCReader.py:73-75 | `reader[key] = value` replaces only the TC at that index and leaves the TA groups alone; alignment survives a value with the same input count; an out-of-range index changes nothing |
| Reader.TCReader.ClearData | python/trgtools/TCReader.py:169-171 | both data sets become empty and nothing else changes; the new state does not depend on the old, so clearing twice equals clearing once |
| Reader.TCReader.FilterFragmentPaths | python/trgtools/TCReader.py:80-90 | the fragment paths become the ones naming trigger candidates, in order; the data does not change |
| Reader.TCReader.ReadFragment | python/trgtools/TCReader.py:92-167 | an empty payload bumps the empty count and changes no data; otherwise the scan's TCs and TA groups are appended to the old ones; the result is the last TC for a fully read payload, or the offset of a record that does not fit; alignment is preserved |
| Reader.TCReader.ReadRecord | python/trgtools/TCReader.py:126-162 | one pass of the loop body appends one TC and one TA group of that TC's input count, and advances by the TC's size |
| Reader.TCReader.DecodeActivities | python/trgtools/TCReader.py:145-161 | the zeroed array of num_tas TAs, filled in order, holds the record's TA group |
| Decimal.NatToString | scripts/event_display_trigger_records.py:45 | `str(n)` is a non-empty string of digits with no leading zero |
| Decimal.NatToStringValue | scripts/event_display_trigger_records.py:146 | `int(str(n)) == n` for a non-negative n |
| Decimal.NatToStringShort | scripts/event_display_trigger_records.py:45 | a number below 10^k has at most k digits |
| Decimal.IntToString | scripts/event_display_trigger_records.py:45 | `str(x)` starts with '-' exactly when x is negative, and digits follow |
| Decimal.ParseInt | scripts/event_display_trigger_records.py:146 | `int(s)` succeeds exactly on digit strings, optionally after a minus sign |
| Decimal.IntToStringParse | scripts/event_display_trigger_records.py:45 | `int(str(x)) == x` for every integer |
| Decimal.LeadingZeros | scripts/event_display_trigger_records.py:146 | leading zeros do not change the value `int` reads |
| Decimal.DigitsBound | scripts/event_display_trigger_records.py:124 | a string of k digits reads as a number below 10^k |
| Decimal.PaddedDigits | scripts/event_display_trigger_records.py:45 | the zero-padded digits of n are max(width, digits of n) long and read back as n |
| Decimal.FormatZeroPadded | scripts/event_display_trigger_records.py:45 | `f"{x:04}"` is at least 4 characters long; it starts with '-' exactly when x is negative, and is all digits otherwise |
| Decimal.FormatZeroPaddedNat | scripts/event_display_trigger_records.py:45 | `f"{n:04}"` of a non-negative n is all digits, 4 long or as long as n's digits, and reads back as n |
| Decimal.FormatZeroPaddedNeg | scripts/event_display_trigger_records.py:45 | `f"{x:04}"` of a negative x is a minus sign and digits, exactly max(4, 1 + digits of -x) characters in all, and reads back as x |
| EventDisplay.MatchesAt | scripts/event_display_trigger_records.py:124 | where the pattern matches, all 14 characters lie in the string and its groups are 6 and 4 digits, reading as a run below 10^6 and a subrun below 10^4 |
| EventDisplay.FirstMatchFrom | scripts/event_display_trigger_records.py:124 | the first offset from `from` where the pattern matches, or None when it matches nowhere from there |
| EventDisplay.ExtractRunSubrun | scripts/event_display_trigger_records.py:114-127 | a result exactly when the pattern matches somewhere: the 6-digit and 4-digit groups of the leftmost match |
| EventDisplay.ExtractLeftmost | scripts/event_display_trigger_records.py:124-126 | at the leftmost match, extraction yields the characters of that match's two groups |
| EventDisplay.ExtractNamedPath | scripts/event_display_trigger_records.py:124-126 | a path holding "run" + 6 digits + "_" + 4 digits, with no match before it, yields those two groups |
| EventDisplay.Selected | scripts/event_display_trigger_records.py:143-151 | a path is kept only for a run in 0..999999 and a subrun in 0..9999, the values that 6 and 4 digits can hold |
| EventDisplay.SelectFilePaths | scripts/event_display_trigger_records.py:129-152 | the loop keeps, in order, exactly the paths whose groups read as the desired run and subrun; paths without a match are skipped |
| EventDisplay.SelectedNamedPath | scripts/event_display_trigger_records.py:129-152 | a path naming run r and subrun s in zero-padded 6- and 4-digit form is selected for exactly (r, s) |
| EventDisplay.IsDataflow0 | scripts/event_display_trigger_records.py:236 | a file is of the first dataflow exactly when "dataflow0" occurs in its path at some offset |
| EventDisplay.DataflowRecords | scripts/event_display_trigger_records.py:236-239 | a dataflow0 file gets exactly the even trigger records, any other file exactly the odd ones |
| EventDisplay.DataflowPartition | scripts/event_display_trigger_records.py:236-239 | between a dataflow0 file and another file, every trigger record is looked up exactly once |
| EventDisplay.BaseSaveName | scripts/event_display_trigger_records.py:45 | the base name starts with "Run" and ends with the trigger record's decimal text |
| EventDisplay.ZoomSaveName | scripts/event_display_trigger_records.py:49 | the zoom name is the base name followed by "-zoom", so it is never the base name |
| EventDisplay.FindSaveName | scripts/event_display_trigger_records.py:28-52 | overwriting, or no PDF under the base name, gives the base name; a base PDF without a zoom PDF gives `<base>-zoom`; the search never ends exactly when both PDFs exist and overwriting is off |
| EventDisplay.SaveNameLoopNeverExits | scripts/event_display_trigger_records.py:48-49 | with both PDFs present, the loop condition holds after every number of passes |
| EventDisplay.BaseSaveNameFields | scripts/event_display_trigger_records.py:45 | the base name is `Run{run}-Subrun{subrun:04}-TriggerRecord{record}`; the subrun field has at least 4 digits and reads back as the subrun, and the run field reads back as the run |
| EventDisplay.ApaSelection | scripts/event_display_trigger_records.py:75-76 | masking never yields more primitives than given |
| EventDisplay.ApaSelectionSpec | scripts/event_display_trigger_records.py:75-76 | the mask keeps exactly the primitives with start <= channel <= end, each as often as given; the order is the input's, because the selection is `Collections.Filter`, whose order law is `Collections.FilterConcat` |
| EventDisplay.ApaSelectionsDisjoint | scripts/event_display_trigger_records.py:66-71 | the four APA ranges do not overlap, so no primitive is in two APA selections |
| EventDisplay.ApaRangeInclusive | scripts/event_display_trigger_records.py:75 | a primitive on the first or the last channel of an APA's range is selected for it |
| EventDisplay.MinStart | scripts/event_display_trigger_records.py:84 | the minimum start time is no greater than any start time and is one of them |
| EventDisplay.RelativeStartTimes | scripts/event_display_trigger_records.py:84 | each time is the start time minus the minimum, so none is negative and one is 0 |
| EventDisplay.PlotsUpTo | scripts/event_display_trigger_records.py:73-89 | the plots of the first k ranges that have primitives, numbered by place; never more plots than ranges |
| EventDisplay.PlotsPerRange | scripts/event_display_trigger_records.py:73-81 | the loop over the ranges builds the plot list range by range, skipping a range with no primitives |
| EventDisplay.PlotsPerApa | scripts/event_display_trigger_records.py:66-89 | the plots for the four APA ranges, in the order of `apa_limits`; each plot's number is its range's `apa_limits.index` plus one, as in its title |
| EventDisplay.ApaLimitsIndex | scripts/event_display_trigger_records.py:66-71 | the four APA ranges are distinct: the first place of each in `apa_limits` is its own place |
| EventDisplay.PlotsUpToStep | scripts/event_display_trigger_records.py:73-81 | one more range adds its plot exactly when it has primitives and keeps the earlier plots |
| EventDisplay.PlotsUpToContents | scripts/event_display_trigger_records.py:73-89 | every plot carries an APA number 1..k, its range from the list, and exactly that range's non-empty selection |
| EventDisplay.PlotsUpToOrdered | scripts/event_display_trigger_records.py:73-89 | the plots come in increasing APA order |
| EventDisplay.PlotsUpToComplete | scripts/event_display_trigger_records.py:73-81 | an APA gets a plot exactly when its selection is non-empty |
| EventDisplay.PlotTimes | scripts/event_display_trigger_records.py:79-86 | every plot has primitives, so its drawn times are defined: each start time less the plot's minimum, one of them 0 |

## Left out

- HDF5 access is not modelled: opening the file, enumerating fragment paths and fetching a payload (`get_frag`, `get_data_size`, `get_data`). The reader receives the payload bytes and the path list.
- The byte layout and sizes of `trgdataformats` are not modelled; this foreign code is replaced by the explicit 38-byte and 66-byte little-endian layout described above.
- `n_inputs()` and iteration over a TC's inputs are not modelled separately: a TC's input count is its `num_tas` header field, and its inputs are the TAs that follow the header.
- Enumerated `algorithm` and `type` codes are plain integers, because they carry no behaviour in the core. Their byte width comes from the enum types of `trgdataformats`, which is not part of this model; the 1 byte each of them takes in `Records.CandidateWidths` and `Records.ActivityWidths` is the model's own choice.
- `EventDisplay.PlotsUpTo`: for a general list of ranges it numbers a plot by its range's place in the list, while the source numbers it by the first place the range occurs. The two differ only for a list with a repeated range; for the four distinct APA ranges they are the same (`EventDisplay.ApaLimitsIndex`, `EventDisplay.PlotsPerApa`).
- Printing is not modelled, because it does not affect the data. This covers the reader's verbosity output, warnings and colour codes, and the event display's messages: the error printed for a path `select_file_paths` cannot read (`scripts/event_display_trigger_records.py:150-151`), the skipped-APA notice and the save-name notice.
- `Reader.TCReader.GetItem`: string keys (NumPy field access by name) are not modelled, nor are slices; only integer keys are. With an integer key the source returns a NumPy structured scalar, which is a view of the row that the caller can write through (so `reader[i]['num_tas'] = 7` rewrites `tc_data[i]` and can break the alignment with `ta_data`). The model returns a copy of the row and models writes only through `SetItem`.
- `Reader.TCReader.SetItem`: the value is a whole TC row. Field-name keys, broadcasting and NumPy's conversion of out-of-range field values are not modelled.
- `Reader.TCReader.ReadFragment`: the source's behaviour for a record that overruns the payload is undefined (the foreign code reads past it); the model reports `Truncated` instead.
- `Reader.TCReader.ReadFragment`: the source returns a one-row NumPy array; the model returns the TC itself.
- The empty-fragment counter is initialised by `HDF5Reader.__init__`, which is not part of this model; the constructor starts it at 0.
- `TPReader` and `read_all_fragments` are not modelled; they are not part of the core. The event display receives the trigger primitives as a sequence.
- `scripts/spill_mode_matching.py` is not modelled: the spill table and its `Run`/`Subrun`/`Trigger_Record` columns are inputs.
- `parse`, `read_file_paths`, the `main` driver loops, `PDFPlotter` and all drawing are not modelled: argument parsing, file I/O and matplotlib. Only the data each plot shows is modelled.
- `EventDisplay.FindSaveName`: the file system is the parameter `pdfExists`, a fixed function, so the file system is taken as static while the loop runs; the source tests `os.path.exists` again on every pass, and a PDF removed meanwhile would end the loop. Printing the name is left out. A run of the loop that never ends is reported as `Diverges` instead of hanging.
- `EventDisplay.ExtractRunSubrun`: `\d` is modelled as the ASCII digits 0-9 only. Python also matches other Unicode decimal digits, which `int` also accepts.
- `Decimal.ParseInt`: models `int(s)` only on an optional minus sign followed by ASCII digits. Surrounding whitespace, a `+` sign and underscores are not accepted. The strings it reads here are always digit groups from the pattern.
- `EventDisplay.DataflowRecords`: the trigger records are taken as given. The `unique()` of the spill table that produces them is not modelled.
- Integers are unbounded. NumPy's 64-bit fields are bounded only through the layout's widths.
