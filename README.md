# OLGA tab file reader

This project models, in Dafny, the reader of OLGA `.tab` fluid property files
in `ParseOlgaPvt.py` (the `OlgaPvt` class and its `PhysicalProperty`
objects), and proves properties of that model.

An OLGA tab file holds a fluid's pressure-temperature tables. Its parts:

- **The fluid header line.** It names the fluid between apostrophes. It may carry the
  options `WATER-OPTION`, `ENTROPY` and `NONEQ` and an `EOS=` equation-of-state token.
  - **The dimension line.** This is the line after the header. It gives NTABP, NTABT and RSWTOTB.
  - **The axes.** The lines after that hold `N = NTABP + 3 * NTABT` numbers. In order, they are:
    - the pressure axis PP;
    - the temperature axis TT;
    - the bubble-point pressures PBB;
    - the dew-point pressures PDEW.
- **Property sections.** The rest of the file is one section per property (gas density,
  oil viscosity, ...). A section is a header line holding the property's catalog phrase
  and its unit. It is followed by `NTABT * NTABP` numbers, stored column by column
  (Fortran order).

The model has these modules:

- `Results`: the `Option` and `Result` types.
- `Text`: the string operations the reader relies on:
  - Python's `str.strip` and `str.replace`;
  - `re.search` and `''.join(re.split(...))` on the fixed patterns, where `.` matches any
    character but a newline.
- `Catalog`:
  - the boolean options and their keywords (`olga_tab_parameters`);
  - the 29 property tables (`olga_tab_properties`), each with its search phrase and
    description, in dictionary order.
- `Grid`:
  - `np.zeros`;
  - the column-major `np.reshape`, and its inverse `Serialize`;
  - the cutting of the header numbers into PP, TT, PBB and PDEW.
- `TabStream`:
  - the file as a sequence of lines, each with the numbers the numeric-token extractor
    finds in it;
  - `Gather`, the accumulation loop "read lines until `need` numbers have been collected";
  - the loop exactly as written, for the finding below.
- `FluidHeader`: decoding the fluid header line (options, EOS, fluid name) and Python's `int()` of a float.
- `TabModel`: the reader as a function of the file.
  - `Step` is one pass of `read_pvt`'s loop. `Parse` is the whole read.
  - `Initial` is a newly constructed object.
- `TabFacts`: what the read promises, proved over `TabModel`:
  - dispatch;
  - priority;
  - skipped lines;
  - the last section wins;
  - options are never reset;
  - error cases.
- `OlgaPvtReader`: the program's own form.
  - `OlgaPvt` is a class whose fields the read updates in place, with one
    `PhysicalProperty` object per catalog property.
  - Its methods are `read_pvt`, `read_fluidf` and `read_physical_properties`, with their
    loops over lines and the slice assignment into a zeroed buffer.
  - Each method is proved to leave the object in the state that `TabModel` computes.

Errors are values of `TabStream.Error`. The model reports `TruncatedStream` where the file
ends inside an accumulation: there the program does not raise but loops forever (see
Findings). It reports an error at these three points where the program raises:
- `Overshoot`: a line holds more numbers than are still needed. numpy's slice assignment
  cannot broadcast them.
- `MalformedDimensionLine`: the dimension line has fewer than three numbers (`ss[2]`
  raises an `IndexError`).
- `NegativeDimension`: `np.zeros` or `np.reshape` is given a negative size.

The read then stops. The object keeps every field the program assigned before raising, in
the program's order. The program can also raise where the model does not, and "## Left out"
names those places: `float()` of a number token with a thousands separator, `int()` of a
dimension that `float()` read as an infinity, `exec` of a unit holding an apostrophe, and an
EOS token that is not a valid regular expression.

Where another reading of the format would be possible, the model follows the program:
- **Overshoot.** A reader could instead clamp the accumulation to the remaining count.
  The program raises, so the model reports `Overshoot`.
- **Dimensions.** NTABP and NTABT could be fixed once the fluid section is read. In the
  program, every further fluid header line reads them again, and the model does the same.
- **Pattern matching.** Catalog phrases and option keywords are used as regular
  expressions. The model keeps the one metacharacter they contain (`.`). So
  "GAS MASS FRACTION OF GAS . OIL" also matches "GAS MASS FRACTION OF GAS / OIL".
- **Options.** Each keyword found is cut out of the header line before the next one is
  searched. In `WATER-OPTIONONEQ` the cut of `WATER-OPTION` takes the `N` of `NONEQ` with
  it, so `NONEQ` stays off. A cut can also create an occurrence: in `ENTWATER-OPTIONROPY`
  the cut of `WATER-OPTION` leaves `ENTROPY`, which is then switched on, and
  `NONEWATER-OPTIONQ` switches `NONEQ` on in the same way, though neither keyword is in the
  cleaned line. So `FluidHeader.HeaderEntropy` and `FluidHeader.HeaderNoneq` state one
  direction only, `NONEQ` only for an occurrence that no `WATER-OPTION` overlaps, and
  `FluidHeader.ScanFlagsFound` is the exact statement.

## Model

| member | source | states |
|---|---|---|
| `Text.Strip` | ParseOlgaPvt.py:122 | the result is the line with whitespace dropped at both ends only: it begins and ends with a non-blank, and the line is it surrounded by blanks |
| `Text.StripStripped` | ParseOlgaPvt.py:122 | stripping a text that is already stripped gives it back, so stripping twice is stripping once |
| `Text.StripUnique` | ParseOlgaPvt.py:122 | the strip is determined: a text surrounded by blanks only, and not itself starting or ending with one, is the strip |
| `Text.StripTrailingSpace` | ParseOlgaPvt.py:188 | blanks after a text do not change its strip |
| `Text.Find` | ParseOlgaPvt.py:132 | the leftmost index where the pattern matches, no match before it; none exactly when the pattern matches nowhere |
| `Text.ContainsIff` | ParseOlgaPvt.py:132 | `re.search` succeeds exactly when the pattern matches at some index |
| `Text.LiteralMatchesAt` | ParseOlgaPvt.py:170 | a pattern without `.`, such as an option keyword, matches exactly where it occurs as a substring |
| `Text.RemoveAll` | ParseOlgaPvt.py:135 | cutting out every match never lengthens the text and keeps only characters of it; `Text.RemoveAllFirst` states which characters go |
| `Text.RemoveAllAbsent` | ParseOlgaPvt.py:135 | cutting out a pattern that does not occur leaves the text unchanged |
| `Text.RemoveAllPresent` | ParseOlgaPvt.py:174 | cutting out a pattern that occurs shortens the text by at least the pattern's length |
| `Text.RemoveAllFirst` | ParseOlgaPvt.py:135 | the cut begins at `re.search`'s leftmost match: the text before it is kept, the match is dropped, and the cut goes on after it |
| `Text.RemoveAllOnce` | ParseOlgaPvt.py:186 | a pattern that matches at i and nowhere else is cut out at i, and the text on either side is kept |
| `Text.RemoveAllConcat` | ParseOlgaPvt.py:174 | cutting distributes over a concatenation that no match straddles |
| `Text.ContainsConcat` | ParseOlgaPvt.py:170 | where no match straddles the boundary, `re.search` in a + b succeeds exactly when it succeeds in a or in b |
| `Text.RemoveAllKeepsApart` | ParseOlgaPvt.py:170-174 | an occurrence of another pattern that no match of the cut pattern overlaps is still found after the cut |
| `Text.RemoveAllChar` | ParseOlgaPvt.py:165 | after `replace("'", "")` no apostrophe is left; a text without one is unchanged, and an apostrophe alone gives the empty text |
| `Text.RemoveAllCharConcat` | ParseOlgaPvt.py:165 | `replace(c, "")` distributes over concatenation; with `Text.RemoveAllChar` on one character, every character but c is kept, in order |
| `Text.ReplaceChar` | ParseOlgaPvt.py:166 | `replace(",", " ")` keeps the length and turns exactly the commas into blanks |
| `Text.ReplaceCharConcat` | ParseOlgaPvt.py:166 | `replace(",", " ")` distributes over concatenation |
| `Text.QuoteScanCorrect` | ParseOlgaPvt.py:124 | the one-pass scan succeeds exactly when two apostrophes with no newline between them exist |
| `Text.HasQuotedSpan` | ParseOlgaPvt.py:124 | `re.search("'.*'", s)` succeeds exactly when s holds two apostrophes with no newline between them |
| `Catalog.Keyword` | ParseOlgaPvt.py:33 | every option keyword is non-empty and free of metacharacters |
| `Catalog.Rank` | ParseOlgaPvt.py:37-90 | a property's position in the dictionary order, where the catalog order holds that property |
| `Catalog.OrderIsPermutation` | ParseOlgaPvt.py:37-90 | the catalog order lists every property exactly once |
| `Catalog.Phrase` | ParseOlgaPvt.py:37-90 | every search phrase is non-empty, so cutting it out of a line is defined; the texts are the phrase constants, entry by entry |
| `Catalog.FirstMatchFromFirst` | ParseOlgaPvt.py:130-133 | the first pattern found occurs in the line and no earlier one does; none found means none occurs |
| `Catalog.FirstMatchClassifies` | ParseOlgaPvt.py:130-133 | the search over the phrases, read as properties: the one found occurs, every property ranked before it does not, none found exactly when no phrase occurs |
| `Catalog.Classify` | ParseOlgaPvt.py:129-142 | the property chosen is the first in catalog order whose phrase occurs in the line; none exactly when no phrase occurs |
| `Grid.Zeros` | ParseOlgaPvt.py:201-204 | `np.zeros(n)` has n cells, all zero |
| `Grid.Reshape` | ParseOlgaPvt.py:161 | the table has NTABT rows of NTABP cells, and cell (j, i) is number `i * NTABT + j` of the stream |
| `Grid.Serialize` | ParseOlgaPvt.py:161 | the inverse ordering: cell (j, i) of a table lands at position `i * rows + j` of the stream |
| `Grid.ReshapeSerialize` | ParseOlgaPvt.py:161 | reshaping a serialized table gives the table back |
| `Grid.SerializeReshape` | ParseOlgaPvt.py:161 | serializing a reshaped stream gives the stream back |
| `Grid.SplitAxes` | ParseOlgaPvt.py:217-220 | PP has NTABP numbers, TT, PBB and PDEW NTABT each, and PP + TT + PBB + PDEW is the stream |
| `Grid.SplitJoin` | ParseOlgaPvt.py:217-220 | cutting the concatenation of four axes of the right lengths gives them back |
| `TabStream.Gather` | ParseOlgaPvt.py:151-158 | exactly need numbers are collected, and they are the numbers of the lines read, in order; otherwise the file ran out or a line overshot |
| `TabStream.GatherStopsWhenComplete` | ParseOlgaPvt.py:153 | the read stops at the first line that completes the count: every earlier stopping point falls short |
| `TabStream.GatherExact` | ParseOlgaPvt.py:153-158 | conversely, a line where the count first reaches need exactly is where the read stops |
| `TabStream.GatherTruncatedIff` | ParseOlgaPvt.py:153-158 | the read fails for lack of input exactly when the rest of the file holds fewer numbers than required |
| `TabStream.LoopAsWrittenHangs` | ParseOlgaPvt.py:210-215 | the loop as written never finishes when the rest of the file holds too few numbers, whatever the number of passes |
| `TabStream.TruncatedSectionHangs` | ParseOlgaPvt.py:153-158 | a property header as the last line, one cell required: the loop as written does not end |
| `TabStream.TruncatedSectionReported` | ParseOlgaPvt.py:153-158 | the same file: the corrected read reports `TruncatedStream` |
| `FluidHeader.Trunc` | ParseOlgaPvt.py:194-195 | `int()` of a float truncates toward zero |
| `FluidHeader.Cleaned` | ParseOlgaPvt.py:165-166 | no apostrophe or comma is left and only blanks are gained; without apostrophes the result is the text with its commas blanked; of one character, an apostrophe is dropped, a comma blanked and anything else kept |
| `FluidHeader.ScanFlags` | ParseOlgaPvt.py:168-174 | only the options searched can be switched on, and the line only loses characters; `FluidHeader.ScanFlagsFound` states the order |
| `FluidHeader.ScanFlagsFound` | ParseOlgaPvt.py:168-174 | the option at position k is on exactly when its keyword occurs in what the search for the options before it left of the line |
| `FluidHeader.ScanFlagsSplit` | ParseOlgaPvt.py:168-174 | on a name part n, an options part o and a rest e, where n and e hold no keyword and blanks end n and o, the options are those of o, and n and e come through untouched |
| `FluidHeader.KeywordsApart` | ParseOlgaPvt.py:33 | `WATER-OPTION` and `ENTROPY` never overlap in a line, and neither do `ENTROPY` and `NONEQ` |
| `FluidHeader.HeaderWaterOption` | ParseOlgaPvt.py:165-174 | `WATER-OPTION` is on exactly when its keyword occurs in the cleaned header line |
| `FluidHeader.HeaderEntropy` | ParseOlgaPvt.py:165-174 | `ENTROPY` is on whenever its keyword occurs in the cleaned header line |
| `FluidHeader.HeaderNoneq` | ParseOlgaPvt.py:165-174 | `NONEQ` is on when its keyword occurs in the cleaned header line at a place that no `WATER-OPTION` overlaps |
| `FluidHeader.ScanFlagsAbsent` | ParseOlgaPvt.py:168-174 | a line holding no keyword switches nothing on and is left as it is |
| `FluidHeader.EosToken` | ParseOlgaPvt.py:176-177 | the match of `(EOS=)([^}]*)`: it starts with `EOS=`, matches the line where it was found, holds no `}`, is the text of the line from i on, and ends at the next `}` or at the end of the line, so it is the longest such match |
| `FluidHeader.EosValue` | ParseOlgaPvt.py:179-184 | non-empty and without surrounding blanks, and free of `}` when the token is; `FluidHeader.EosValueOf` gives the value |
| `FluidHeader.EosValueOf` | ParseOlgaPvt.py:179-184 | the value of the token `EOS=` + v, v holding no further `EOS=`: v stripped, or `UNKNOWN` when v is blank |
| `FluidHeader.EosTokenOf` | ParseOlgaPvt.py:176-177 | on u + `EOS=` + v + w, u holding no `EOS=` and v no `}`, w empty or starting with `}`: the search finds `EOS=` right after u, and the token is `EOS=` + v |
| `FluidHeader.EosOnce` | ParseOlgaPvt.py:176-186 | when neither u, v nor w holds `EOS=` and w is empty or starts with `}`, `EOS=` occurs in u + `EOS=` + v + w only after u |
| `FluidHeader.EosCut` | ParseOlgaPvt.py:186 | when `EOS=` occurs only after u, cutting the token `EOS=` + v out of u + `EOS=` + v + w leaves u + w |
| `FluidHeader.ExtractEos` | ParseOlgaPvt.py:176-187 | without `EOS=` the EOS is `UNKNOWN` and the line is untouched; with it the EOS is non-empty, without surrounding blanks or `}`, and the line loses at least the four characters of `EOS=`; `FluidHeader.ExtractEosLayout` gives the values |
| `FluidHeader.DecodeHeader` | ParseOlgaPvt.py:165-189 | the decoded EOS is non-empty without `}`, and the fluid name has no apostrophe, comma or surrounding blank; `FluidHeader.HeaderLayout` and the option lemmas give the values |
| `FluidHeader.ExtractEosLayout` | ParseOlgaPvt.py:176-187 | on u + `EOS=` + v + w, u and v holding no `EOS=`, v no `}`, w empty or starting with `}`: the EOS is v stripped, or `UNKNOWN` when v is blank; when w holds no `EOS=` either, u + w is what remains of the line |
| `FluidHeader.CleanedConcat` | ParseOlgaPvt.py:165-166 | cleaning distributes over concatenation, so with `FluidHeader.Cleaned` on one character it keeps every other character, in order |
| `FluidHeader.HeaderDefaults` | ParseOlgaPvt.py:165-189 | a header line without options or `EOS=` leaves every option off, EOS `UNKNOWN`, and the whole cleaned line, stripped, as the name |
| `FluidHeader.EosAfterName` | ParseOlgaPvt.py:176-188 | after a name part ending in a blank and a run of blanks, the token is the rest of the line: the EOS is v stripped or `UNKNOWN`, and the name part and blanks remain |
| `FluidHeader.HeaderLayout` | ParseOlgaPvt.py:165-189 | a cleaned header made of a name part, an options part and `EOS=` + v, where blanks end the first two parts, the name part holds no keyword and no `EOS=`, and the options part holds only keywords and blanks: the options are those of the options part, the EOS is v stripped (or `UNKNOWN`), and the fluid name is the name part stripped |
| `TabModel.Initial` | ParseOlgaPvt.py:94-110 | a new object gives EOS and fluid name `unspecified`, zero dimensions, empty axes, every option off and every table as constructed |
| `TabModel.InitialTables` | ParseOlgaPvt.py:109-110 | tables that are all as constructed are those of a new object |
| `TabModel.WithHeader` | ParseOlgaPvt.py:168-189 | a header line sets EOS and name; an option ends on when it was on or its keyword was found; nothing else changes |
| `TabModel.Dimensions` | ParseOlgaPvt.py:192-207 | the only errors are a malformed dimension line and a negative dimension; success leaves non-negative dimensions, N = NTABP + 3 * NTABT, and axes of their lengths |
| `TabModel.FillAxes` | ParseOlgaPvt.py:208-220 | a failure keeps the layout; success changes only the axes, gives them their lengths, and their concatenation is the numbers of the lines read; `TabFacts.FillExact` gives the converse |
| `TabModel.AxesSpec` | ParseOlgaPvt.py:191-220 | reading the axes consumes at least the dimension line and stays within the file; its values are given by `TabFacts.HeaderDimensions`, `TabFacts.HeaderAxes`, `TabFacts.AxesExact` and `TabFacts.HeaderRoundTrip` |
| `TabModel.ReadFluidfSpec` | ParseOlgaPvt.py:164-220 | `read_fluidf` keeps the tables; sets EOS, name and options from the decoded header; and leaves the layout and outcome of the dimension line and axes read |
| `TabModel.GridSpec` | ParseOlgaPvt.py:149-162 | success gives an NTABT by NTABP table whose cell (j, i) is number `i * NTABT + j` of the lines read; a negative size fails; `TabFacts.GridExact` gives the converse and `TabFacts.GridRoundTrip` the read-back |
| `TabModel.ReadPropertySpec` | ParseOlgaPvt.py:133-142 | a section changes only its own property: the unit is set first and kept on failure; the section fails exactly when `GridSpec` fails, with `GridSpec`'s error; success sets the table read and the catalog description |
| `TabModel.Dispatch` | ParseOlgaPvt.py:122-145 | a line with a quoted span is a fluid header; otherwise the first property in catalog order whose phrase occurs opens a section, whose unit is the line with the phrase cut out, stripped; otherwise the line is skipped |
| `TabModel.Step` | ParseOlgaPvt.py:117-145 | one pass keeps every table present and moves reading forward |
| `TabModel.Parse` | ParseOlgaPvt.py:117-147 | the read keeps every table present |
| `TabModel.ReadPvt` | ParseOlgaPvt.py:115-147 | reading a new object keeps every table present |
| `TabFacts.HeaderDimensions` | ParseOlgaPvt.py:192-199 | NTABP, NTABT and RSWTOTB come from the dimension line's first three numbers, each set only once those before it exist; malformed exactly when it has fewer than three; negative exactly when a dimension is |
| `TabFacts.HeaderAxes` | ParseOlgaPvt.py:201-220 | after a successful header, PP, TT, PBB and PDEW have lengths NTABP, NTABT, NTABT and NTABT, and together they are the N numbers of the lines after the dimension line, read up to the first line completing the count |
| `TabFacts.HeaderTruncated` | ParseOlgaPvt.py:208-215 | with valid dimensions, the header read fails for lack of input exactly when fewer than N numbers remain |
| `TabFacts.GridTruncated` | ParseOlgaPvt.py:150-158 | a property table fails for lack of input exactly when fewer than NTABT * NTABP numbers remain |
| `TabFacts.GridStopsWhenComplete` | ParseOlgaPvt.py:150-158 | a successful table read stops at the first line that completes the NTABT * NTABP numbers |
| `TabFacts.GridExact` | ParseOlgaPvt.py:149-162 | with non-negative dimensions, lines supplying exactly NTABT * NTABP numbers, no shorter run of them enough, are read successfully as those numbers reshaped column by column, and reading resumes after them |
| `TabFacts.GridRoundTrip` | ParseOlgaPvt.py:149-162 | lines carrying a table as `Serialize` writes it, column by column, are read back as that very table |
| `TabFacts.FillExact` | ParseOlgaPvt.py:208-220 | lines supplying exactly N numbers, no shorter run of them enough, are cut into PP, TT, PBB and PDEW in that order, with nothing else in the layout changed |
| `TabFacts.AxesExact` | ParseOlgaPvt.py:191-220 | a dimension line with three numbers and non-negative dimensions, followed by lines supplying exactly N numbers, sets NTABP, NTABT, N and RSWTOTB and the four axes cut from those numbers |
| `TabFacts.HeaderRoundTrip` | ParseOlgaPvt.py:191-220 | lines carrying PP, TT, PBB and PDEW in that order after a dimension line giving their lengths are read back as exactly those four sequences |
| `TabFacts.SectionStored` | ParseOlgaPvt.py:129-142 | a section of a property whose table is read successfully stores that table with the section's unit and the catalog description, changes nothing else, and resumes after the table |
| `TabFacts.SectionRead` | ParseOlgaPvt.py:136-140 | a section read whose table reads successfully sets exactly that property to the table, the catalog description and the unit, and resumes after the table |
| `TabFacts.SectionReadTruncated` | ParseOlgaPvt.py:136-137 | with too few numbers left in the file, a section read stops with `TruncatedStream`, the unit already set and nothing else changed |
| `TabFacts.SectionTruncated` | ParseOlgaPvt.py:129-137 | a section header followed by fewer than NTABT * NTABP numbers, with valid dimensions, ends the pass with `TruncatedStream` and the unit set |
| `TabFacts.SectionRoundTrip` | ParseOlgaPvt.py:129-162 | a section header followed by lines carrying an NTABT by NTABP table as `Serialize` writes it stores that very table, with the section's unit and the catalog description, and changes nothing else |
| `TabFacts.SkipLine` | ParseOlgaPvt.py:129-145 | a line opening nothing changes nothing, and reading resumes at the next line |
| `TabFacts.UntouchedPropertyKept` | ParseOlgaPvt.py:129-142 | a property that no remaining line opens keeps its table, description and unit |
| `TabFacts.LastSectionWins` | ParseOlgaPvt.py:130-142 | the last section of a property decides its table, unit and description |
| `TabFacts.HeaderFieldsKept` | ParseOlgaPvt.py:124-127 | without a further fluid header line, every field but the tables keeps its value |
| `TabFacts.FlagsNeverReset` | ParseOlgaPvt.py:168-173 | an option once on stays on for the rest of the read |
| `TabFacts.ErrorsComeFromOpenedLines` | ParseOlgaPvt.py:117-145 | a read that ends in an error was ended by a line that opens a header or a section |
| `TabFacts.NothingRecognised` | ParseOlgaPvt.py:115-147 | a file where no line opens anything leaves the object as constructed, without error |
| `OlgaPvtReader.PhysicalProperty.constructor` | ParseOlgaPvt.py:16-19 | a new property has no data, and description and unit `unspecified` |
| `OlgaPvtReader.PhysicalProperty.SetData` | ParseOlgaPvt.py:21-22 | sets the data; the rest is unchanged |
| `OlgaPvtReader.PhysicalProperty.SetDescription` | ParseOlgaPvt.py:24-25 | sets the description; the rest is unchanged |
| `OlgaPvtReader.PhysicalProperty.SetUnit` | ParseOlgaPvt.py:27-28 | sets the unit; the rest is unchanged |
| `OlgaPvtReader.NewProperties` | ParseOlgaPvt.py:109-110 | one new `PhysicalProperty` per catalog property, each as constructed, each owned by its own property |
| `OlgaPvtReader.CopyInto` | ParseOlgaPvt.py:214 | slice assignment into the buffer: the cells before the slice are kept, the numbers are written, the cells after are kept |
| `OlgaPvtReader.OlgaPvt.constructor` | ParseOlgaPvt.py:94-110 | the new object's state is that of `TabModel.Initial` |
| `OlgaPvtReader.OlgaPvt.Accumulate` | ParseOlgaPvt.py:151-158 | the loop filling a zeroed buffer gives the result of `TabStream.Gather` |
| `OlgaPvtReader.OlgaPvt.ReadPhysicalProperties` | ParseOlgaPvt.py:149-162 | gives `TabModel.GridSpec` for the object's dimensions |
| `OlgaPvtReader.OlgaPvt.SetFlag` | ParseOlgaPvt.py:172 | switches the one option on, the others unchanged |
| `OlgaPvtReader.OlgaPvt.SearchFlags` | ParseOlgaPvt.py:168-174 | the loop over the options leaves the line and options of `FluidHeader.ScanFlags`, keeping options already on; `FluidHeader.ScanFlagsFound` states which are switched on |
| `OlgaPvtReader.OlgaPvt.ReadEosAndName` | ParseOlgaPvt.py:176-189 | EOS and fluid name as `FluidHeader.ExtractEos` gives them, whose values `FluidHeader.ExtractEosLayout` states |
| `OlgaPvtReader.OlgaPvt.ReadHeaderLine` | ParseOlgaPvt.py:165-189 | EOS, fluid name and options as `FluidHeader.DecodeHeader` gives them, keeping options already on; `FluidHeader.HeaderLayout` and the option lemmas state the values |
| `OlgaPvtReader.OlgaPvt.ReadDimensions` | ParseOlgaPvt.py:192-207 | the layout and error of `TabModel.Dimensions` |
| `OlgaPvtReader.OlgaPvt.ReadAxisData` | ParseOlgaPvt.py:208-220 | the layout and outcome of `TabModel.FillAxes` |
| `OlgaPvtReader.OlgaPvt.ReadAxes` | ParseOlgaPvt.py:191-220 | the layout and outcome of `TabModel.AxesSpec` |
| `OlgaPvtReader.OlgaPvt.ReadFluidf` | ParseOlgaPvt.py:164-220 | the object's new state and outcome are those of `TabModel.ReadFluidfSpec` |
| `OlgaPvtReader.OlgaPvt.FindSection` | ParseOlgaPvt.py:129-133 | the loop over the catalog finds the property `Catalog.Classify` chooses |
| `OlgaPvtReader.OlgaPvt.SetUnitOf` | ParseOlgaPvt.py:136 | only that property's unit changes |
| `OlgaPvtReader.OlgaPvt.StoreTable` | ParseOlgaPvt.py:138-140 | only that property's table and description change, its unit kept |
| `OlgaPvtReader.OlgaPvt.ReadSection` | ParseOlgaPvt.py:133-142 | the object's new state and outcome are those of `TabModel.ReadPropertySpec` |
| `OlgaPvtReader.OlgaPvt.ReadLine` | ParseOlgaPvt.py:118-145 | one pass of the loop leaves the state and outcome of `TabModel.Step` |
| `OlgaPvtReader.OlgaPvt.ReadPvt` | ParseOlgaPvt.py:115-147 | reading the file to its end, or to the first error, leaves the state and error of `TabModel.Parse` |

## Left out

- Interpolation and the property accessors (`lookup_olga_table`, `rho_gas` and the others, ParseOlgaPvt.py:222-256). They wrap scipy's `RectBivariateSpline`, a foreign library, and compute in floating point.
- `extract_float_from_string` and `extract_int_from_string` (ParseOlgaPvt.py:5-12). Each line comes with the numbers the extractor finds in it (`TabStream.Line.numbers`), as exact `real` values. The regular-expression number grammar and IEEE rounding are not modelled. The grammar accepts thousands separators (`1,000`), on which the program's `float()` raises a `ValueError`; the model cannot report that error, since a line comes with its numbers already read. `extract_int_from_string` is not used by the reader.
- Opening, reading and closing the file (ParseOlgaPvt.py:116-119, 147). The file is a sequence of lines given to the constructor. Reading past its end gives a line with no numbers, as `readline` gives `''`; `TabModel.LineNumbers` is that convention.
- A line's text is taken without its line terminator. The fluid name and the EOS value are stripped in any case, so this changes neither.
- Runtime `exec` (ParseOlgaPvt.py:107, 110, 136, 138, 140, 172). The model uses explicit fields and a map from property to object. A unit holding an apostrophe would make the generated code fail to parse in the program, and backslash escapes in a unit (such as `\t`) would be interpreted or rejected by it; the model stores such a unit as read and reports no error.
- Regular-expression metacharacters other than `.`. The catalog phrases and option keywords contain no others. An EOS token that is used as a pattern at ParseOlgaPvt.py:185 and holds other metacharacters (such as `(`, `+` or `*`) is matched as if they were literal; where the program's `re.split` would raise on a token that is not a valid regular expression (such as `EOS=PR(`), the model reports no error.
- Whitespace in `strip`: only the ASCII whitespace characters are recognised, not the other Unicode spaces.
- Floating point: numbers are `real`. The extractor accepts a token such as `1e999`, which `float()` reads as an infinity; `int()` of it as NTABP or NTABT (ParseOlgaPvt.py:194-195) raises an `OverflowError` in the program. The model has no infinite numbers, so it reads such a dimension as an exact value and reports no error.
- numpy arrays are sequences. RSWTOTB's initial integer `0` is the real `0.0`.
- `__str__` (ParseOlgaPvt.py:112-113): it only returns the file name.
- The unterminated catalog fragment at ParseOlgaPvt.py:259-285 and the second definition of `drho_aqu_dt` (ParseOlgaPvt.py:252-253): both lie outside the reader.
- TabModel.Step: its own contract states only that every table stays present and that reading moves forward. What a pass does is stated by `TabModel.Dispatch`, `TabModel.ReadFluidfSpec` and `TabModel.ReadPropertySpec`, and by the lemmas of `TabFacts`.
- TabModel.Parse: its own contract states only that every table stays present. What the whole read does is stated by the lemmas of `TabFacts`.
- TabModel.ReadPvt: its own contract states only that every table stays present. `TabFacts.NothingRecognised` and the other lemmas of `TabFacts` state what it computes.
- DecodeHeader: the fluid name and EOS are given by lemmas for two layouts, a header with no keyword and no `EOS=` (`FluidHeader.HeaderDefaults`) and the usual name, options, `EOS=` order (`FluidHeader.HeaderLayout`), not for every arrangement of the parts.
- ExtractEos: what remains of the line is stated when the token occurs once; the program also cuts every further occurrence of it, which the model does, but no lemma states that case. Nor is the EOS value stated when the text after `EOS=` itself holds `EOS=` (as in `EOS=EOS=PR`, where the program gives `PR` because `re.split` cuts every occurrence), since `ExtractEosLayout` requires `v` to hold no `EOS=`.
- Aliasing between PhysicalProperty objects: the model relies on each property owning its own object. The constructor establishes this and nothing changes it.

## Findings

| source | as written | input that shows it | evidently intended | confidence | as-written member | corrected member |
|---|---|---|---|---|---|---|
| ParseOlgaPvt.py:153-158 | the accumulation loop of `read_physical_properties` runs while fewer than NTABT * NTABP numbers are read; past the end of the file `readline` gives `''`, which adds no numbers | a file ending with the header line of a property section, NTABT * NTABP = 1 | the read reports a truncated file | not executed | `TabStream.TruncatedSectionHangs` | `TabStream.TruncatedSectionReported` |
| ParseOlgaPvt.py:210-215 | the accumulation loop of `read_fluidf` runs in the same way while fewer than N numbers are read | a fluid header whose dimension line asks for more numbers than the rest of the file holds | the read reports a truncated file | not executed | `TabStream.LoopAsWrittenHangs` | `TabFacts.HeaderTruncated` |
