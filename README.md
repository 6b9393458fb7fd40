# HITRAN cross-section reader and table assembler, modelled in Dafny

This project models the HITRAN cross-section (`.xsc`) support in `extensions/hitran_format.py`. It covers four pieces.

- **Header decoder.** A record header is one line of exactly 100 ASCII characters. It is cut into 12 columns of widths 20, 10, 10, 7, 7, 6, 10, 5, 15, 4, 3 and 3. Each column is stripped of surrounding whitespace, and a blank broadener becomes `"self"`. Seven of the columns are then converted to numbers.
- **Grid builder.** It computes the record's wavenumber grid as `np.arange(min, max + step, step)`. The grid is accepted only when it holds exactly `number_of_points` entries.
- **Record reader.** It reads a header line, then collects whitespace-separated values line by line until at least `number_of_points` are held, keeps the first `number_of_points`, and repeats. It stops when a read at header position returns the empty string.
- **Grouping and assembly.**
  - The grouping files every `.xsc` file under the stripped molecule name in its first header line.
  - The assembler (`HitranCrossSection.__init__`) flattens the records of all files in file order. It stably sorts them by pressure and then temperature, and builds the sorted distinct pressure and temperature axes. It chooses one wavenumber grid: the common grid, or the merged grid with every record reinterpolated onto it. Then it reshapes the spectra into a pressure × temperature × wavenumber cube. Finally it converts pressures from Torr to Pa, averages the grid steps into a resolution, and takes the molecule name from the first record.

The model has one module per concern:

| module | file | what it holds |
|---|---|---|
| `Wrappers` | `wrappers.dfy` | `Option`, `Result` |
| `Errors` | `errors.dfy` | one error constructor per exception the code raises |
| `Numerics` | `numerics.dfy` | `float()`, `int()`, `np.arange`, `np.isclose` as parameters |
| `Text` | `text.dfy` | Python's `str.isspace`, `strip()`, `split()`, `s[:n]` |
| `Header` | `header.dfy` | the fixed-width decoder and the grid-count guard (pure functions) |
| `Reader` | `reader.dfy` | the two-state reader as an imperative method, proved against recursive specification functions |
| `Discovery` | `discovery.dfy` | the grouping loop as an imperative method, proved against a specification function |
| `Ordering` | `ordering.dfy` | `np.lexsort` on (temperature, pressure) as a stable insertion sort; `np.unique` |
| `Interpolation` | `interpolation.dfy` | `np.interp` over exact reals |
| `Assembly` | `assembly.dfy` | the constructor's sort, axes, merge, reshape, unit conversion, resolution and molecule name |

Floating-point numbers are modelled as Dafny `real`s. Text is `seq<char>`. A file is the sequence of lines `readline()` returns, and a read past the end returns `""`.

### Where the code and its evident intent disagree

The assembler in `__init__` fails as written. The model follows the evident intent in each case below.

- **Record fields (:211-215).** The code iterates over per-file record lists but indexes each list with a string key. The model flattens the records of all files in file order and reads each record's own fields.
- **Merged grid (:228).** The code reads the undefined name `flat_grid`. The model merges the grids of all records.
- **Sort order (:231-234, :239).** The code pairs the sorted grids with the unsorted cross sections and then sorts the result a second time. The model applies the one sort permutation to every per-record list.
- **Resolution (:248).** The code reads the undefined attribute `_wavenumber_grid`. The model takes the resolution of the common grid `wngrid`.

## Model

| member | source | states |
|---|---|---|
| Text.Strip | extensions/hitran_format.py:55 | `strip()`: the result starts and ends with a non-space and is no longer than its input |
| Text.StripEmpty | extensions/hitran_format.py:55 | `strip()` gives the empty string exactly when the field is all whitespace |
| Text.StripPadded | extensions/hitran_format.py:55 | `strip()` removes exactly the whitespace padding around a trimmed text |
| Text.StripIdempotent | extensions/hitran_format.py:159 | stripping the decoded molecule name a second time changes nothing |
| Text.Prefix | extensions/hitran_format.py:105 | `header_data[:100]`: the line itself when it is shorter, otherwise its first 100 characters |
| Text.Split | extensions/hitran_format.py:113 | `split()` yields non-empty tokens without whitespace; which tokens, for any padding and separators, is Text.SplitSpaced |
| Text.SplitJoin | extensions/hitran_format.py:113 | `split()` returns the tokens of a line that joins them with spaces |
| Text.SplitSkipsSpaces | extensions/hitran_format.py:113 | leading whitespace, newlines included, does not change the tokens |
| Text.SplitWord | extensions/hitran_format.py:113 | a word ends at the first whitespace: the tokens of a word followed by a whitespace-led rest are the word, then the rest's tokens |
| Text.SplitSpaced | extensions/hitran_format.py:113 | a line of tokens with any whitespace runs between them and any padding around them, a trailing newline included, splits into exactly those tokens |
| Text.SplitBlank | extensions/hitran_format.py:254 | `split()` yields no token exactly when the text is all whitespace |
| Text.FirstWord | extensions/hitran_format.py:254 | the first token of a word followed by nothing or a space is that word |
| Header.LayoutCoversHeader | extensions/hitran_format.py:51 | there are 12 field widths and they sum to exactly 100 |
| Header.FieldOffsets | extensions/hitran_format.py:51 | the columns start at offsets 0, 20, 30, 40, 47, 54, 60, 70, 75, 90, 94, 97 and end at 100 |
| Header.Columns | extensions/hitran_format.py:51-55 | a 100-character line gives 12 fields, each trimmed |
| Header.ColumnOffsets | extensions/hitran_format.py:51-55 | field k is the strip of the line between column k's offsets |
| Header.Broadener | extensions/hitran_format.py:61-62 | the broadener is never empty, and a non-empty field is kept unchanged |
| Header.DecodeHeader | extensions/hitran_format.py:53 | a header decodes only from a line of exactly 100 characters |
| Header.DecodeHeaderSucceeds | extensions/hitran_format.py:53-70 | decoding succeeds if and only if the line is 100 ASCII characters and every numeric field converts |
| Header.DecodeHeaderStructError | extensions/hitran_format.py:53 | a line of another length, or with a non-ASCII character, is rejected with `struct.error` |
| Header.HeaderFromFieldsValues | extensions/hitran_format.py:57-70 | each header field is the matching column, converted by `float()`/`int()` where the code converts it |
| Header.DecodedFieldsAreTrimmedColumns | extensions/hitran_format.py:51-70 | every decoded field is the stripped slice of its column, converted where the code converts it |
| Header.HeaderFromFieldsBlames | extensions/hitran_format.py:64-70 | a header that cannot be built names the first numeric field, in column order, that `float()`/`int()` rejects; every numeric field before it converts |
| Header.DecodedTextIsTrimmed | extensions/hitran_format.py:55 | every decoded text field is trimmed, and the broadener is not empty |
| Header.BroadenerDefault | extensions/hitran_format.py:61-62 | the broadener is `"self"` if and only if its column is blank; otherwise it is the stripped column |
| Header.ColumnsEncodeRoundTrip | extensions/hitran_format.py:51-55 | cutting a line of left-justified trimmed fields gives the fields back |
| Header.DecodeEncodeRoundTrip | extensions/hitran_format.py:30-74 | decoding a line of left-justified fields gives the header with exactly those fields |
| Header.GridStepSpansRange | extensions/hitran_format.py:87 | with two or more points, `number_of_points - 1` steps of `delta_v` lead from the minimum to the maximum wavenumber |
| Header.BuildGrid | extensions/hitran_format.py:87-94 | an accepted grid is the `np.arange` result and has exactly `number_of_points` entries; one point divides by zero |
| Header.BuildGridAcceptsExactCount | extensions/hitran_format.py:89-92 | the guard accepts an `np.arange` result of the declared size and rejects every other size with that size in the error |
| Reader.ReadLine | extensions/hitran_format.py:101 | a read past the last line returns the empty string |
| Reader.Advance | extensions/hitran_format.py:113 | the file position moves by one line, and it stays put only at the end of the input |
| Reader.ParseTokens | extensions/hitran_format.py:114 | converting the tokens of a line gives one value per token |
| Reader.ParseTokensConverts | extensions/hitran_format.py:114 | the conversion succeeds if and only if every token converts, and keeps the tokens' order |
| Reader.ReadPayload | extensions/hitran_format.py:108-119 | a payload read yields exactly n values and moves forward; it fails only on a bad token or at the end of input |
| Reader.ReadPayloadKeepsFirstN | extensions/hitran_format.py:112-119 | the values kept are exactly the first n of all values read, in order; excess tokens on the last line are dropped |
| Reader.LastPayloadLine | extensions/hitran_format.py:116-119 | the line that brings the count to n is the last one read |
| Reader.ReadPayloadStopsAtFirstSufficientLine | extensions/hitran_format.py:116-117 | the lines before the last one read held fewer than n values |
| Reader.OnePayloadLine | extensions/hitran_format.py:113-119 | a single payload line of tokens with any whitespace around and between them, a trailing newline included, holding at least n values gives its first n values and the position after it |
| Reader.OneLineRead | extensions/hitran_format.py:112-119 | a line whose tokens give at least n values, read on its own, gives the first n of them and the next position |
| Reader.IncompleteOnlyAtEndOfInput | extensions/hitran_format.py:112-117 | a record is incomplete if and only if all remaining values in the input are fewer than n |
| Reader.ReadRecord | extensions/hitran_format.py:101-126 | a record read yields grid and values of exactly `number_of_points` entries and moves forward |
| Reader.RecordPayload | extensions/hitran_format.py:105-119 | a record's header is the decoded header line, its grid the grid built from it, and its values the payload read after it |
| Reader.RecordValues | extensions/hitran_format.py:108-119 | a record's values are the first `number_of_points` values of the lines read after its header |
| Reader.ReadPairs | extensions/hitran_format.py:100-126 | every record yielded is well formed, and there are no more records than lines |
| Reader.HeaderPositions | extensions/hitran_format.py:100-103 | each header position holds a non-empty line that reads as a record |
| Reader.RecordsAtHeaderPositions | extensions/hitran_format.py:100-126 | record k is the record read at the k-th header position: one record per header, in file order |
| Reader.PairsAreRecordsAt | extensions/hitran_format.py:100-126 | the records yielded are exactly the records read at the header positions, in the same order |
| Reader.RecordsCons | extensions/hitran_format.py:100-126 | reading from a header line that reads gives that record and its position first, then those read after it |
| Reader.HeaderPositionsChain | extensions/hitran_format.py:100-126 | the first header is at the start, and each later header sits right after the previous record's payload |
| Reader.LastRecordEndsReading | extensions/hitran_format.py:100-103 | reading stops right after the last record's payload |
| Reader.CleanEndIsEmptyRead | extensions/hitran_format.py:101-103 | reading ends without error if and only if the read at header position returns the empty string |
| Reader.ReadCrossSectionPairs | extensions/hitran_format.py:98-126 | the reader loop yields exactly the specified records, or the specified error |
| Reader.ReadPayloadLines | extensions/hitran_format.py:108-119 | the inner accumulate-and-truncate loop computes the specified payload |
| Reader.PayloadStallsAtEndOfInput | extensions/hitran_format.py:112-117 | in the loop as written, reads at the end of input never raise the count, so the loop never exits |
| Reader.CountAfterReads | extensions/hitran_format.py:112-117 | the loop as written: the running count after k more reads, which never decreases |
| Discovery.MoleculeOf | extensions/hitran_format.py:156-159 | a file's molecule is trimmed, and it fails exactly when its header does not decode |
| Discovery.MoleculeIsDecodedName | extensions/hitran_format.py:159 | a file's molecule is its header's molecule name |
| Discovery.MoleculeNames | extensions/hitran_format.py:155-159 | there is one molecule per file |
| Discovery.MoleculeNamesAt | extensions/hitran_format.py:155-159 | entry i's molecule is the i-th name: the names are the files' molecules in glob order |
| Discovery.MoleculeNamesFailure | extensions/hitran_format.py:156-158 | a failure is the error of the first file whose header does not decode; every earlier header decodes |
| Discovery.Paths | extensions/hitran_format.py:155 | there is one path per file, in glob order |
| Discovery.PathsAt | extensions/hitran_format.py:155 | path i is the path of file i |
| Discovery.GroupMapSelects | extensions/hitran_format.py:154-162 | the keys are exactly the molecules, and each list is the files of that molecule in glob order |
| Discovery.KeyOrderDistinct | extensions/hitran_format.py:160-161 | the key order lists every molecule exactly once |
| Discovery.FileInOwnListOnly | extensions/hitran_format.py:154-162 | every file is in its molecule's list and, when the paths are distinct, in no other list |
| Discovery.FileUnderOwnMolecule | extensions/hitran_format.py:155-162 | after a successful grouping, each file's molecule decodes, is a key and is in the key order, and the file is in that molecule's list and, when the paths are distinct, in no other |
| Discovery.GroupingFailsAtFirstBadHeader | extensions/hitran_format.py:155-158 | a failed grouping carries the error of the first file whose header does not decode |
| Discovery.GroupingSucceeds | extensions/hitran_format.py:154-164 | the grouping succeeds when every file's header decodes |
| Discovery.FailurePersists | extensions/hitran_format.py:157-158 | the first header that does not decode ends the grouping with its error |
| Discovery.FileUnder | extensions/hitran_format.py:160-162 | one filing step creates the molecule's list if it is new, then appends the file |
| Discovery.FilingStep | extensions/hitran_format.py:159-162 | one loop step extends the molecules by the file's molecule, and the dictionary and key order as FileUnder does |
| Discovery.FindAndMapCrossSectionFiles | extensions/hitran_format.py:146-164 | the grouping loop computes the specified dictionary and key order, or the first header error |
| Ordering.SortByKey | extensions/hitran_format.py:218 | the sort returns as many records as it is given; the three lemmas below give its order, contents and stability |
| Ordering.SortByKeySorted | extensions/hitran_format.py:217-218 | after the sort, records are ordered by pressure, then temperature |
| Ordering.SortByKeyPermutes | extensions/hitran_format.py:218 | the sort is a permutation of the records |
| Ordering.SortByKeyStable | extensions/hitran_format.py:218 | records with equal keys keep their original order |
| Ordering.Unique | extensions/hitran_format.py:220-221 | `np.unique` is strictly increasing and holds exactly the input's values |
| Ordering.UniqueCharacterised | extensions/hitran_format.py:220-221 | `np.unique` is the only strictly increasing list with those values |
| Ordering.IncreasingKeysWithSameMembers | extensions/hitran_format.py:218-221 | two key lists in strictly increasing (pressure, temperature) order with the same members are equal |
| Interpolation.Interp | extensions/hitran_format.py:232 | `np.interp` gives one value per target point |
| Interpolation.InterpClampsLeft | extensions/hitran_format.py:232 | left of the samples the value is held at the first sample value |
| Interpolation.InterpClampsRight | extensions/hitran_format.py:232 | right of the samples the value is held at the last sample value |
| Interpolation.InterpAtKnot | extensions/hitran_format.py:232 | at a sample point the interpolant passes through that sample's value |
| Interpolation.InterpBetweenNeighbours | extensions/hitran_format.py:232 | between two samples the value lies between their values |
| Interpolation.InterpOntoOwnGrid | extensions/hitran_format.py:232 | interpolating onto the sample grid itself gives the values back |
| Assembly.FlattenAt | extensions/hitran_format.py:211-215 | record r of file f follows all records of earlier files: file order, then reading order |
| Assembly.FlattenMembers | extensions/hitran_format.py:211-215 | a record is in the flat list exactly when it is in the list of one of the files; the same holds for the merged grid points |
| Assembly.Field | extensions/hitran_format.py:211-212 | one pressure (temperature) per record, in record order |
| Assembly.AxesIgnoreOrder | extensions/hitran_format.py:220-221 | the axes computed from the sorted records equal those of the unsorted records |
| Assembly.RecordOnAxes | extensions/hitran_format.py:220-221 | every record's pressure and temperature lie on the axes |
| Assembly.MergedGrid | extensions/hitran_format.py:228-229 | the merged grid is strictly increasing and is exactly the union of the record grids |
| Assembly.AgreeingGridsHaveOneLength | extensions/hitran_format.py:226 | grids that all agree with the first grid have as many points as it |
| Assembly.Spectrum | extensions/hitran_format.py:231-239 | each record's spectrum has one value per point of its own grid when the grids agree, and of the merged grid otherwise |
| Assembly.Resample | extensions/hitran_format.py:222-237 | the common grid is the first grid when all grids are close to it; otherwise it is the merged grid, with each spectrum reinterpolated onto it; one spectrum per sorted record |
| Assembly.MergingIdenticalGridsChangesNothing | extensions/hitran_format.py:226-237 | on identical increasing grids both branches give the same grid and the same spectra |
| Assembly.Chunks | extensions/hitran_format.py:242-246 | the reshape gives n pieces, each of width w |
| Assembly.ChunksPlace | extensions/hitran_format.py:242-246 | the reshape places element k at `[k div w][k mod w]` |
| Assembly.FlattenUniform | extensions/hitran_format.py:242-246 | n spectra of width w flatten to n·w values, which the reshape cuts back into the same spectra |
| Assembly.ReshapeBySize | extensions/hitran_format.py:242-246 | the reshape as written succeeds if and only if the total size divides into len(P)·len(T) equal pieces |
| Assembly.ReshapeBySizeOfRows | extensions/hitran_format.py:242-246 | with len(P)·len(T) rows of one width, the reshape as written cuts the rows back out in order |
| Assembly.ReshapeBySizeMisplaces | extensions/hitran_format.py:242-246 | the reshape as written accepts a record set that lacks (2, 2) and has (2, 1) twice, and places a (2, 1) record in the (2, 2) cell |
| Assembly.LexGridAt | extensions/hitran_format.py:242-246 | position i·len(T)+j of the lexicographic grid is (P[i], T[j]) |
| Assembly.OnlyCellWithKey | extensions/hitran_format.py:242-246 | with increasing axes, only position i·len(T)+j holds (P[i], T[j]) |
| Assembly.LexGridIncreasing | extensions/hitran_format.py:242-246 | with increasing axes, the cells in reshape order have strictly increasing (pressure, temperature) keys |
| Assembly.FullGridKeys | extensions/hitran_format.py:218-246 | sorted records that hold each cell key of their axes exactly once have exactly the keys of the cells, in reshape order |
| Assembly.Arrange | extensions/hitran_format.py:211-246 | no records gives `NoRecords`; a table has strictly increasing axes and a len(P) × len(T) cube of spectra as long as the common grid |
| Assembly.ArrangePlacesRecords | extensions/hitran_format.py:218-246 | cube[i][j] is the spectrum of the one and only record with pressure P[i] and temperature T[j] |
| Assembly.ArrangeCoversRecords | extensions/hitran_format.py:211-221 | every record's (pressure, temperature) is a cell of the cube |
| Assembly.ArrangeAcceptsFullGrid | extensions/hitran_format.py:211-246 | well-formed records that hold each (pressure, temperature) pair of their axes exactly once, and whose spectra can be brought onto one grid, are arranged into a table |
| Assembly.ToPascal | extensions/hitran_format.py:251 | Torr to Pa keeps the order, and dividing by 133.322368 gives the Torr values back |
| Assembly.Diffs | extensions/hitran_format.py:248 | `np.diff` gives one step fewer than the grid has points |
| Assembly.DiffsAt | extensions/hitran_format.py:248 | step k is the distance from point k to point k + 1 |
| Assembly.Resolution | extensions/hitran_format.py:248 | there is a resolution exactly when the grid has at least two points |
| Assembly.DiffsTelescope | extensions/hitran_format.py:248 | the grid steps add up to the span of the grid |
| Assembly.ResolutionIsMeanStep | extensions/hitran_format.py:248 | the resolution is (last − first) / (points − 1) |
| Assembly.ResolutionPositive | extensions/hitran_format.py:248 | an increasing grid has a positive resolution |
| Assembly.MoleculeName | extensions/hitran_format.py:253-254 | the molecule name is a non-empty word without whitespace |
| Assembly.MoleculeNameBlank | extensions/hitran_format.py:253-254 | a blank name fails if and only if the first record's molecule name is all whitespace |
| Assembly.MoleculeNameIsFirstWord | extensions/hitran_format.py:253-254 | a name that starts with a word gives that word |
| Assembly.Assemble | extensions/hitran_format.py:206-254 | no records gives `NoRecords`; a table has increasing axes, a len(P) × len(T) cube, a non-empty molecule word, and a resolution exactly when the grid has two or more points |
| Assembly.AssembleSucceeds | extensions/hitran_format.py:206-254 | the constructor succeeds if and only if the records arrange into a table and the first record's molecule name holds a word |
| Assembly.AssembleIsArrangedLayout | extensions/hitran_format.py:206-254 | the table is the arranged layout with pressures converted to Pa, the resolution of its common grid, and the molecule word of the first record |

## Left out

- File system work is not modelled: `open`, `glob`, `is_dir` and `load_hitran_cross_section`. The reader takes a file as its sequence of lines. The grouping takes (path, first line) pairs in glob order. The assembler takes one record list per file.
- Text-to-number conversion (`float()`, `int()`), `np.arange` and `np.isclose` are passed in as functions in `NumericOps`. The model therefore says nothing about their rounding or about which strings they accept.
- Floating-point rounding, NaN and infinity are not modelled: all arithmetic is exact over reals. This affects `Header.GridStep`, `Interpolation.InterpAt`, `Assembly.ToPascal` and `Assembly.Resolution`.
- `discover`, `GlobalCache`, `sanitize_molecule_string` and the `InterpolatingOpacity` base class and its interpolation mode are not part of this model. Neither are the read-only properties after the constructor. `Assembly.MoleculeName` is the word that is passed to `sanitize_molecule_string`.
- `scripts/bootstrap_exomol.py` (a network download script) and the matplotlib import are not part of this model.
- Header.DecodeHeader: accepts only ASCII lines and rejects every other line as `struct.error`. The code instead measures the UTF-8 encoding, so a line whose encoding is exactly 100 bytes would decode there.
- Reader.ReadPayload: returns `IncompleteRecord` when the input ends inside a payload. The code as written loops forever there (see Findings).
- Assembly.GridsAgree: grids of different lengths count as not close and are merged. numpy as written already fails when it builds the ragged array at :214.
- Interpolation.InterpAt: agrees with `np.interp` only for an increasing `xp`; numpy's result on a decreasing grid (which the header guard admits when `max_wavenumber < min_wavenumber`) is not modelled.
- Assembly.Resolution: gives `None` for a grid of fewer than two points, where `np.average` of an empty list returns NaN with a warning.
- Assembly.Arrange: follows the evident intent at :211-215, :228, :231-239 and :248 (see above) rather than the code as written. It also rejects records that do not fill the pressure × temperature grid exactly once (see Findings).
- The Python generator's laziness is not modelled: the reader returns every record read before the first error, together with that error.

## Findings

| source | as written | input that shows it | evidently intended | confidence | as-written member | corrected member |
|---|---|---|---|---|---|---|
| extensions/hitran_format.py:112-117 | the payload loop has no end-of-input test: `readline()` returns `""` at the end, which adds no token | a header declaring 3 points followed by a single payload line `1.0 2.0` and the end of the file | raise an error when the input ends before `number_of_points` values are read | not executed | Reader.PayloadStallsAtEndOfInput | Reader.IncompleteOnlyAtEndOfInput |
| extensions/hitran_format.py:242-246 | the reshape to (len(P), len(T), -1) checks only that the total size divides | sorted keys (1, 1), (1, 2), (2, 1), (2, 1) with two-point grids: the axes are [1, 2] × [1, 2], and the record for (2, 1) lands in the (2, 2) cell | reject records that do not hold every (pressure, temperature) pair exactly once | not executed | Assembly.ReshapeBySizeMisplaces | Assembly.ArrangePlacesRecords |
