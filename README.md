# Puzzle solvers of aoc23, modelled and proved in Dafny

This project models the six puzzle solvers of the aoc23 repository. Each solver is a
computation from the text of a puzzle input to an answer:

- **GearRatios** (`gear_ratios.dfy`) models the first engine-schematic scanner.
  - It splits the trimmed grid into rows.
  - It scans each row column by column for the first and last column of every digit
    run, with the source's special cases for column 0, column W-1 and single digits.
  - It pairs those columns and cuts the rows above, at and below each pair over the
    inclusive window `max(s-1,0) ..= min(e+1,W-1)`.
  - It reads the value from the own-row slice and sums the part numbers.
  - The scan is modelled as written: digits in the neighbour rows count as symbols,
    and runs of four or more digits or a single digit at a row edge misalign the
    pairing.
- **GearRatiosRs** (`gear_ratios_rs.dfy`) models the second scanner.
  - It splits each row at ASCII punctuation and keeps the pieces that read as `u32`.
  - It relocates every value with `match_indices`.
  - It cuts windows clamped by the number of rows.
  - It uses the same part-number test.
- **Seeds** (`seeds.dfy`) models the almanac.
  - Each `dest source len` line becomes an inclusive range and an offset.
  - The ranges are inserted into a map per block.
  - Every seed is pushed through the chain of maps.
  - The answer is the lowest location.
- **CubeConundrum** (`cube_conundrum.dfy`) models the cube games.
  - It parses `Game N: 3 blue, 4 red; ...`.
  - A round is possible when it fits a bag of 12 red, 13 green and 14 blue cubes.
  - It takes the componentwise maximum over a game's rounds.
  - It computes the powers, and the part-one and part-two sums in `u16`.
- **HauntedWasteland** (`haunted_wasteland.dfy`) models the Go walker.
  - It parses the `E = (L, R)` lines and looks nodes up linearly.
  - It walks from `AAA` to `ZZZ`, cycling through the `L`/`R` directions.
- **WaitForIt** (`wait_for_it.dfy`) models the race counter.
  - It reads a line of durations and a line of records.
  - It counts the holds `d` with `d*(T-d) > record`.
  - It multiplies the counts.
- **Text** (`text.dfy`) holds what the solvers share: the Rust and Go library calls they
  make, written as small functions with their own contracts. These are `split`, `trim`,
  `lines`, `split_whitespace`, `parse`, `to_string`, `match_indices`, slicing, indexing
  and `filter`/`collect`.

How the source is modelled:

- **Panics.** A Rust `unwrap`/`assert!`/index panic or a Go `panic` is the `Panic`
  alternative of `Text.Result`, with a `Fault` naming the kind. Every function follows
  the source's evaluation order, so the fault is the first one the source would hit.
- **Loops.** Where the source works in loops, the model is a method with that loop.
  The method is proved equal to a specification function, and the properties are proved
  about that function. Some inner loops are their own methods:
  - `GearRatios.ScanColumns`
  - `GearRatios.PairsToNumbers`
  - `GearRatiosRs.SpansToNumbers`
  - `GearRatiosRs.LinesToNumbers`
  - `CubeConundrum.PaintItems`
  - `Seeds.Remap`
  - `Seeds.InsertLines`
  - `HauntedWasteland.Turn`

## Model

| member | source | states |
|---|---|---|
| GearRatios.NewSchematic | 3-gear_ratios/src/main.rs:32-36 | there is at least one row, no row holds `'\n'`, and joining the rows with `'\n'` gives back the trimmed text |
| GearRatios.Marks | 3-gear_ratios/src/main.rs:48-69 | after scanning columns `0..n-1`, `current` holds only digit columns below `n`, in non-decreasing order |
| GearRatios.Pushed | 3-gear_ratios/src/main.rs:52-67 | a column pushes only its own index and only when it holds a digit, and it pushes twice exactly for a single digit strictly inside the row |
| GearRatios.ScanColumns | 3-gear_ratios/src/main.rs:46-69 | the column loop with its `match j` produces exactly the marks of the row scanned over width W |
| GearRatios.EveryOther | 3-gear_ratios/src/main.rs:72-73 | `step_by(2)` keeps exactly the elements at even positions, `ceil(n/2)` of them |
| GearRatios.Zip | 3-gear_ratios/src/main.rs:75 | `zip` pairs equal positions and stops at the shorter side |
| GearRatios.Pairs | 3-gear_ratios/src/main.rs:72-77 | the pairs are `(current[2k], current[2k+1])`, and a last unpaired column is dropped |
| GearRatios.WindowStart | 3-gear_ratios/src/main.rs:79 | the window starts at `s-1`, or at `s` in column 0 |
| GearRatios.WindowEnd | 3-gear_ratios/src/main.rs:79 | the inclusive window end never leaves column W-1, and it is `e` or `e+1` for an in-row `e` |
| GearRatios.NewNumber | 3-gear_ratios/src/main.rs:112-123 | the value is read exactly when the slice without punctuation is a non-empty digit string below 2^32; any other character makes the `unwrap` panic |
| GearRatios.NumberWindow | 3-gear_ratios/src/main.rs:78-99 | all three slices are cut over the same window; the row above is absent exactly for row 0 and the row below exactly for row H-1 |
| GearRatios.WindowSlices | 3-gear_ratios/src/main.rs:78-99 | the cut succeeds exactly when every slice it takes lies inside its row and row 0 has a row below, and otherwise it panics on the slice or on the missing row |
| GearRatios.NumberAt | 3-gear_ratios/src/main.rs:78-99 | a Number exists exactly when its window slices do and the own-row slice's non-punctuation characters are a non-empty digit string below 2^32; its own-row slice is row i over the clamped window, the row above is absent exactly for row 0 and otherwise row i-1 over the same window, the row below is absent exactly for row H-1 and otherwise row i+1 over the same window, and its value is those digits read as a number |
| GearRatios.NumberOnlyRow | 3-gear_ratios/src/main.rs:82-87 | on a one-row grid, the row-0 branch panics reading `lines[1]` |
| GearRatios.PairNumbers | 3-gear_ratios/src/main.rs:71-100 | the Numbers of a row's pairs exist exactly when every pair's Number does, and then Number k is the one of pair k, one per pair |
| GearRatios.PairsToNumbers | 3-gear_ratios/src/main.rs:77-100 | the pair loop builds one Number per pair, in order, or stops at the first panic |
| GearRatios.ToNumbers | 3-gear_ratios/src/main.rs:39-107 | the nested loops, with `current` reset per row, compute the row-by-row Numbers of the specification, panics included |
| GearRatios.RowsFrom | 3-gear_ratios/src/main.rs:46-104 | Numbers exist only when none of the remaining rows is shorter than W |
| GearRatios.Numbers | 3-gear_ratios/src/main.rs:39-107 | Numbers exist only for a grid with a row and no row shorter than the first |
| GearRatios.PartNumber | 3-gear_ratios/src/main.rs:126-143 | `Some(value)` exactly when the row above or below holds a non-`.` (digits included) or the own row holds a non-digit non-`.` |
| GearRatios.Qualifies | 3-gear_ratios/src/main.rs:126-143 | the part-number test as written: a non-`.` in the row above or below, digits included, or a character that is neither a digit nor `.` in the own row |
| GearRatios.PartValue | 3-gear_ratios/src/main.rs:150 | a Number adds its value when it passes the test and 0 otherwise |
| GearRatios.SumParts | 3-gear_ratios/src/main.rs:149-151 | the sum is 0 when no Number passes the test, and it is at least every single part value |
| GearRatios.SumPartsAppend | 3-gear_ratios/src/main.rs:149-151 | the sum over two runs of Numbers is the sum of their sums, so it is the sum of the part values |
| GearRatios.SumPartsOne | 3-gear_ratios/src/main.rs:150 | one Number adds exactly its part value |
| GearRatios.Part1 | 3-gear_ratios/src/main.rs:146-152 | on a grid whose digit runs are all well shaped, the answer is the sum of the part values of the Numbers cut over the digit runs, or the panic of that cut |
| GearRatios.Runs | 3-gear_ratios/src/main.rs:52-67 | reference for what the scan's comments intend: every element is a maximal digit run, as (first, last) columns |
| GearRatios.RunsCover | 3-gear_ratios/src/main.rs:52-67 | every digit column lies inside one of the runs |
| GearRatios.RunsApart | 3-gear_ratios/src/main.rs:52-67 | the runs run left to right with at least one non-digit between neighbours |
| GearRatios.RunStep | 3-gear_ratios/src/main.rs:52-67 | a two- or three-digit run, or an inner single digit, adds exactly its first and last column |
| GearRatios.SingleDigitRun | 3-gear_ratios/src/main.rs:58-61 | a lone inner digit is pushed twice |
| GearRatios.RunHead | 3-gear_ratios/src/main.rs:63-65 | the first digit of a longer run is pushed once |
| GearRatios.TwoDigitRun | 3-gear_ratios/src/main.rs:63-65 | a two-digit run adds `[s, s+1]` |
| GearRatios.ThreeDigitRun | 3-gear_ratios/src/main.rs:63-66 | a three-digit run adds `[s, s+2]`; the middle digit is skipped |
| GearRatios.PushedInsideRun | 3-gear_ratios/src/main.rs:63-66 | a digit between digits whose left neighbour was pushed adds nothing |
| GearRatios.PushedRunEnd | 3-gear_ratios/src/main.rs:63-65 | a digit after an unpushed digit is pushed once |
| GearRatios.MarksFrom | 3-gear_ratios/src/main.rs:48-69 | from outside a run, when all later runs are well shaped, the scan adds their first and last columns in order |
| GearRatios.WellShapedRow | 3-gear_ratios/src/main.rs:52-77 | on a row whose runs all have 2-3 digits or are inner single digits, the pairs are exactly the runs |
| GearRatios.RowAgrees | 3-gear_ratios/src/main.rs:52-77 | a row of well-shaped runs has marks exactly when it has runs, and its pairs are then its runs |
| GearRatios.RunNumbersAgree | 3-gear_ratios/src/main.rs:46-104 | when every run of every row is well shaped, the scan yields the Numbers of the digit runs, row by row, panics included |
| GearRatios.LongRunMisaligned | 3-gear_ratios/src/main.rs:52-77 | `.1234.5.` gives marks 1,3,4,6,6, so the pairs are (1,3) and (4,6): the four-digit run misaligns the pairing |
| GearRatios.EdgeDigitMisaligned | 3-gear_ratios/src/main.rs:52-77 | in `1.23` the column-0 digit is pushed once, and the one pair spans columns 0..2 |
| GearRatios.CleanWindow | 3-gear_ratios/src/main.rs:117-121 | a window of one digit run between punctuation reads as that run's value |
| GearRatios.OneRowPanics | 3-gear_ratios/src/main.rs:82-87 | a one-row grid with a pair panics |
| GearRatios.NoDigitNoMarks | 3-gear_ratios/src/main.rs:51 | columns without digits push nothing |
| GearRatios.NoDigitsNoNumbers | 3-gear_ratios/src/main.rs:46-104 | rows without digits, none shorter than W, yield no Numbers |
| GearRatios.NoDigitsSumZero | 3-gear_ratios/src/main.rs:146-152 | a grid without digits sums to 0 |
| GearRatios.DigitNeighboursCount | 3-gear_ratios/src/main.rs:128-129 | in `11` over `11` there is no symbol, yet both numbers count: the sum is 22 |
| GearRatios.ElevenParts | 3-gear_ratios/src/main.rs:126-143 | a neighbour row of digits makes both Numbers of that grid part numbers |
| GearRatios.ElevensSchematic | 3-gear_ratios/src/main.rs:34 | `"11\n11"` is cut into the two rows `11` and `11` |
| GearRatios.GridOfElevens | 3-gear_ratios/src/main.rs:39-107 | that grid yields one Number per row, with the other row as its neighbour |
| GearRatiosRs.ParsedPieces | gear_ratios_rs/src/main.rs:84-87 | `filter_map(parse().ok())` keeps at most one value per piece, each below 2^32 |
| GearRatiosRs.ParsedPiecesAppend | gear_ratios_rs/src/main.rs:84-87 | the values of two runs of pieces are the values of the first, then those of the second |
| GearRatiosRs.ParsedPiecesOne | gear_ratios_rs/src/main.rs:86 | one piece gives its `u32` value, or nothing when it does not parse |
| GearRatiosRs.PieceValue | gear_ratios_rs/src/main.rs:86 | `parse().ok()` gives a value exactly when the piece, after one optional `+`, is a non-empty digit string below 2^32, and the value is those digits read in base 10 |
| GearRatiosRs.PresentNumbers | gear_ratios_rs/src/main.rs:84-87 | a row holds at most one value per piece between punctuation, each below 2^32 |
| GearRatiosRs.ValueSpans | gear_ratios_rs/src/main.rs:89-97 | one span per match of the value's decimal string, each exactly as long as that string |
| GearRatiosRs.Spans | gear_ratios_rs/src/main.rs:89-97 | `flat_map`: a span is present exactly when it is a span of one of the values |
| GearRatiosRs.ValueSpansOccur | gear_ratios_rs/src/main.rs:89-97 | each span `(i, i+len)` covers an occurrence of the value's decimal string, and spans do not overlap, left to right |
| GearRatiosRs.SpansInRow | gear_ratios_rs/src/main.rs:94 | each span is a non-empty half-open stretch inside the row |
| GearRatiosRs.RowSpans | gear_ratios_rs/src/main.rs:84-97 | every span of a row is a non-empty half-open stretch inside the row |
| GearRatiosRs.WindowEnd | gear_ratios_rs/src/main.rs:101 | the exclusive window end is clamped by the row count H, not by the width |
| GearRatiosRs.NumberAt | gear_ratios_rs/src/main.rs:100-121 | with the window `lo..hi` widened by one column each way, the cut succeeds exactly when the window fits row i and each neighbour row that is read (and for row 0, a row 1 exists); then the Number holds the window of row i and of the rows above and below, with `None` at the first and last row; otherwise it panics on the slice or the missing row |
| GearRatiosRs.SpanNumbers | gear_ratios_rs/src/main.rs:99-123 | Ok exactly when every span's Number is; then Number k is the Number over span k, and only a slice or a missing row panics |
| GearRatiosRs.Sites | gear_ratios_rs/src/main.rs:79-126 | the (row, start, end) sites of the rows are taken row by row, each from its row's spans, rows in non-decreasing order |
| GearRatiosRs.RowsFrom | gear_ratios_rs/src/main.rs:79-126 | Ok exactly when the Number of every site of the remaining rows is; then Number k is the Number over site k, so the Numbers follow the rows in order and each row's spans in order, and only a slice or a missing row panics |
| GearRatiosRs.Numbers | gear_ratios_rs/src/main.rs:72-129 | over the text's '\n' rows: Ok exactly when the Number of every site is; then Number k is the Number over site k (rows in order, each row's spans in order), and only a slice or a missing row panics |
| GearRatiosRs.SpansToNumbers | gear_ratios_rs/src/main.rs:99-123 | the span loop pushes one Number per span, in order, or stops at the first panic |
| GearRatiosRs.LinesToNumbers | gear_ratios_rs/src/main.rs:79-126 | the row loop appends each row's Numbers to `numbers` in row order |
| GearRatiosRs.ToNumbers | gear_ratios_rs/src/main.rs:72-129 | `to_numbers` computes the row-by-row Numbers of the specification, rows being the pieces between `'\n'` |
| GearRatiosRs.PartNumber | gear_ratios_rs/src/main.rs:15-47 | `None` exactly when the first scanner's test fails; otherwise the own-row digits read as `u32`, which panics when there are none or they are too large |
| GearRatiosRs.PartValues | gear_ratios_rs/src/main.rs:139-142 | one part value per Number, in order |
| GearRatiosRs.AddPart | gear_ratios_rs/src/main.rs:139-143 | one step of the sum: a panicking part value panics first; a `None` adds 0 and a `Some(v)` adds exactly v to the rest |
| GearRatiosRs.SumParts | gear_ratios_rs/src/main.rs:138-143 | the sum panics only with the parse failure of a part value |
| GearRatiosRs.SumPartsCollects | gear_ratios_rs/src/main.rs:138-143 | the sum exists exactly when every part value does, and then adds the present values with `None` as 0; otherwise it is the panic of a part value |
| GearRatiosRs.SumPartsFirstPanic | gear_ratios_rs/src/main.rs:138-143 | the first Number whose part value panics decides the result |
| GearRatiosRs.Part1 | gear_ratios_rs/src/main.rs:132-144 | a panic of `to_numbers` on the trimmed text is passed on; otherwise the answer is the sum of the present part values, or the panic of a part value |
| GearRatiosRs.PresentValuesHaveSpans | gear_ratios_rs/src/main.rs:84-97 | every value found in a row occurs there, so it gets at least one span |
| GearRatiosRs.PiecesUnsigned | gear_ratios_rs/src/main.rs:85 | no piece between punctuation starts with `+` |
| GearRatiosRs.ParsedOccur | gear_ratios_rs/src/main.rs:84-97 | the decimal string of every parsed value has a match in the row |
| GearRatiosRs.PieceValueOccurs | gear_ratios_rs/src/main.rs:86-93 | a parsed piece's decimal string occurs at the end of the piece, after its leading zeros |
| GearRatiosRs.RepeatedValue | gear_ratios_rs/src/main.rs:89-97 | `7.7` has four spans: each occurrence once per copy of the value |
| GearRatiosRs.ValueInsideLonger | gear_ratios_rs/src/main.rs:89-97 | in `4.467` the value 4 also gets a span inside 467 |
| GearRatiosRs.LeadingZeros | gear_ratios_rs/src/main.rs:86-93 | `007` is read as 7 and searched as `7`, so its span is the last column |
| GearRatiosRs.SquareGridWindows | gear_ratios_rs/src/main.rs:100-101 | with as many rows as columns, a span is cut exactly like the first scanner's pair |
| GearRatiosRs.TallGridPanics | gear_ratios_rs/src/main.rs:101-106 | with more rows than columns, a number ending in the last column makes the row slice panic |
| GearRatiosRs.OneRowPanics | gear_ratios_rs/src/main.rs:105-108 | on a one-row grid, a span whose row slice succeeds panics on `lines[1]` |
| GearRatiosRs.CleanWindowAgrees | gear_ratios_rs/src/main.rs:37-44 | over one digit run between punctuation, both scanners read the same part value |
| GearRatiosRs.DigitsAgree | gear_ratios_rs/src/main.rs:15-47 | when the own row's digits are `d`, both part-number functions give the same answer |
| Seeds.Get | 5-seeds/src/main.rs:52-58 | `get` gives the seed when no key contains it, otherwise the seed plus the offset of a containing key |
| Seeds.Yields | 5-seeds/src/main.rs:52-58 | the possible results of `get`: the seed when no key holds it, otherwise the seed plus the offset of a key that holds it |
| Seeds.YieldsDeterministic | 5-seeds/src/main.rs:52-58 | on a map without conflicting overlaps, `get` has one possible result |
| Seeds.GetIdentity | 5-seeds/src/main.rs:53-57 | a seed outside every range comes back unchanged, and only that |
| Seeds.GetOffset | 5-seeds/src/main.rs:53-54 | a seed inside a range is shifted by exactly that range's offset |
| Seeds.ReachesStep | 5-seeds/src/main.rs:31-46 | one more map extends each seed's path by one `get` |
| Seeds.Reaches | 5-seeds/src/main.rs:29-48 | the locations a seed can reach: one `get` per map, in map order |
| Seeds.ReachesDeterministic | 5-seeds/src/main.rs:29-48 | through consistent maps every seed has exactly one location |
| Seeds.ReachesIdentity | 5-seeds/src/main.rs:29-48 | a seed no range contains keeps its number to the end |
| Seeds.Remap | 5-seeds/src/main.rs:32-44 | one stage keeps the length and maps each soil by `get`, in order |
| Seeds.Traverse | 5-seeds/src/main.rs:25-49 | panics exactly when there are no maps or no seeds; otherwise each location is its seed's path through the maps, in order |
| Seeds.Min | 5-seeds/src/main.rs:142 | `reduce(isize::min)` gives an element that is at most every element |
| Seeds.LowestDeterministic | 5-seeds/src/main.rs:135-145 | with consistent maps the lowest location is unique |
| Seeds.SpacelessDigits | 5-seeds/src/main.rs:73-77 | once the spaces are removed, all characters are digits exactly when the text holds only digits and spaces |
| Seeds.SpacelessNoDigits | 5-seeds/src/main.rs:101-105 | the title check holds exactly when the title has no digit |
| Seeds.ParseAll | 5-seeds/src/main.rs:79-82 | all words parse as `isize` exactly when the result is a value, which then holds the parsed words in order |
| Seeds.Entry | 5-seeds/src/main.rs:119-128 | a map line `dest source len` gives an entry exactly when its words parse and are three; the range starts at `source` and holds `len` numbers, and `source` plus the offset is `dest`; otherwise it panics in the parse or on `unwrap` |
| Seeds.EntryOfParsed | 5-seeds/src/main.rs:119-128 | a map line gives an entry exactly when it has three numbers; other counts panic on `unwrap` |
| Seeds.EntryOfValues | 5-seeds/src/main.rs:122-126 | three values give the range starting at `source` with `len` numbers and the offset taking `source` to `dest`; any other count panics on `unwrap` |
| Seeds.EntryLaw | 5-seeds/src/main.rs:124 | the key holds exactly `source..source+len-1`, and a seed in it maps to `dest + (seed - source)` |
| Seeds.EntriesOf | 5-seeds/src/main.rs:118-131 | one entry per number line, in order |
| Seeds.Insert | 5-seeds/src/main.rs:116-131 | the insertions succeed exactly when every line gives an entry |
| Seeds.InsertStep | 5-seeds/src/main.rs:128-130 | one more line adds its key with its offset, or its panic ends the map |
| Seeds.InsertAborts | 5-seeds/src/main.rs:118-131 | the first failing line decides the outcome of the whole block |
| Seeds.InsertKeys | 5-seeds/src/main.rs:129 | the keys of the map are exactly the ranges of the lines |
| Seeds.LastInsertWins | 5-seeds/src/main.rs:129 | for a repeated range, the last line's offset overwrites the earlier ones |
| Seeds.BlockMap | 5-seeds/src/main.rs:96-133 | a block without lines panics on the index; a title line with a digit, or number lines with anything but digits and spaces, fail the assertion; otherwise the map is the insertion of the entries of the number lines in order (InsertKeys, LastInsertWins) |
| Seeds.CreateMap | 5-seeds/src/main.rs:96-133 | `create_map`'s checks and `for_each` compute the block's map of the specification |
| Seeds.InsertLines | 5-seeds/src/main.rs:116-131 | the `for_each` inserts the lines' entries in turn into an empty map |
| Seeds.MapBlocks | 5-seeds/src/main.rs:86-91 | with at least two lines, the blocks joined by blank lines give back the lines after the first two joined by `'\n'`, and no block holds a blank line; with fewer lines there are none |
| Seeds.BlockMaps | 5-seeds/src/main.rs:89-93 | one map per block, in order, exactly when every block succeeds |
| Seeds.GetMaps | 5-seeds/src/main.rs:85-94 | fewer than two lines panic on the slice and exactly two fail the assertion; otherwise the maps exist exactly when every `"\n\n"` block after the first two lines gives one, and map k is the map of block k |
| Seeds.DigitWords | 5-seeds/src/main.rs:79-80 | the words of a digits-and-spaces text are digit strings |
| Seeds.GetMapsKeys | 5-seeds/src/main.rs:85-131 | the keys of map k are exactly the ranges read from the number lines of block k |
| Seeds.GetSeeds | 5-seeds/src/main.rs:69-83 | an empty text panics on the index; when the first line after the `seeds: ` prefix holds anything but digits and spaces the assertion fails; otherwise the seeds are the parse of its words, each non-negative and fitting an `isize` |
| Seeds.ParseDigitWords | 5-seeds/src/main.rs:79-82 | digit words within `isize` are parsed to their values |
| Seeds.SeedsLine | 5-seeds/src/main.rs:70-71 | the first line without its `seeds: ` prefix is the seeds text |
| Seeds.SeedsOfBody | 5-seeds/src/main.rs:69-83 | from a digits-and-spaces seeds line, `get_seeds` parses its words |
| Seeds.SeedsOfWords | 5-seeds/src/main.rs:69-83 | a seeds line of digit words is read as their values, whatever follows it |
| Seeds.SeedsRoundTrip | 5-seeds/src/main.rs:69-83 | seeds printed as `seeds: n1 n2 ...` are read back unchanged |
| Seeds.ThreeWords | 5-seeds/src/main.rs:120 | three digit words joined by spaces split back into those words |
| Seeds.EntryOfThree | 5-seeds/src/main.rs:124 | three values `dest source len` give the key `source..=source+len-1` and offset `dest-source` |
| Seeds.ThreeValues | 5-seeds/src/main.rs:119-122 | a line of three digit words within `isize` parses to their values |
| Seeds.EntryOfDigitWords | 5-seeds/src/main.rs:119-128 | a map line of three digit words gives the range and offset of its numbers |
| Seeds.FromText | 5-seeds/src/main.rs:60-66 | the almanac exists exactly when both the seeds and the maps are read, and it holds them |
| Seeds.Part1 | 5-seeds/src/main.rs:135-145 | a parse panic is passed on; otherwise the answer exists exactly when there are seeds, no seeds failing the assertion of `traverse`, and it is the lowest location of a traversal |
| CubeConundrum.IsValid | 2-cube_conundrum/src/main.rs:46-48 | a round is possible exactly when the bag of 12 red, 13 green and 14 blue cubes dominates it |
| CubeConundrum.ValidBelow | 2-cube_conundrum/src/main.rs:46-48 | a round below a possible round is possible |
| CubeConundrum.MinRequired | 2-cube_conundrum/src/main.rs:50-56 | the result dominates both rounds, and each count comes from one of them |
| CubeConundrum.MinRequiredLeast | 2-cube_conundrum/src/main.rs:50-56 | any round dominating both dominates their minimum requirement |
| CubeConundrum.MinRequiredLattice | 2-cube_conundrum/src/main.rs:50-56 | it is commutative, associative and idempotent, and has `Round::new` as identity |
| CubeConundrum.MinRequiredValid | 2-cube_conundrum/src/main.rs:46-56 | the combination is possible exactly when both rounds are |
| CubeConundrum.MaxOf | 2-cube_conundrum/src/main.rs:30-34 | `get_max` dominates every round, and each of its counts is 0 or some round's count |
| CubeConundrum.MaxOfLeast | 2-cube_conundrum/src/main.rs:30-34 | `get_max` is the least round dominating every round |
| CubeConundrum.GetMax | 2-cube_conundrum/src/main.rs:30-34 | `get_max` dominates every round of the game, and every round dominating all of them dominates it |
| CubeConundrum.AllValid | 2-cube_conundrum/src/main.rs:25-27 | the fold is true exactly when every round is possible |
| CubeConundrum.GameIsValid | 2-cube_conundrum/src/main.rs:24-28 | a game is possible exactly when every round fits the bag; a game with no rounds is possible |
| CubeConundrum.ValidIffMaxValid | 2-cube_conundrum/src/main.rs:24-48 | a game is possible exactly when its `get_max` fits the bag |
| CubeConundrum.Power | 2-cube_conundrum/src/main.rs:58-60 | the power is `red*green*blue` exactly when both `u16` products fit; otherwise it panics with overflow |
| CubeConundrum.PowerOverflowsEarly | 2-cube_conundrum/src/main.rs:59 | `red*green` overflowing panics even when the power would be 0 |
| CubeConundrum.CountOf | 2-cube_conundrum/src/main.rs:92-93 | an item is read exactly when its first word parses as a `u16` and a second word follows; the count is that parse and the name is the second word; a bad number panics with a parse failure, a missing name with an index fault |
| CubeConundrum.CountsOf | 2-cube_conundrum/src/main.rs:91-94 | one parsed outcome per item, in order |
| CubeConundrum.Recolour | 2-cube_conundrum/src/main.rs:97-111 | `red`, `green` and `blue` set their own count and keep the other two; any other name leaves the round unchanged |
| CubeConundrum.Painted | 2-cube_conundrum/src/main.rs:96-112 | each count of the painted round is 0 or the count of some item naming that colour |
| CubeConundrum.RoundOfItems | 2-cube_conundrum/src/main.rs:91-114 | the round exists exactly when every item parses; a panic is that of some item; each count is that of the last item naming the colour |
| CubeConundrum.ParseRound | 2-cube_conundrum/src/main.rs:88-115 | `Round::from_str` succeeds exactly when every comma-separated item of the trimmed text parses, panics only in an item's parse or on a missing colour word, and keeps counts below 2^16 |
| CubeConundrum.RoundFromStr | 2-cube_conundrum/src/main.rs:88-115 | `Round::from_str` computes the round of its trimmed comma-separated items |
| CubeConundrum.PaintItems | 2-cube_conundrum/src/main.rs:96-112 | the loop parses each item when it reaches it and applies it to the round |
| CubeConundrum.LastCountAbsent | 2-cube_conundrum/src/main.rs:97-111 | a colour no item names stays 0 |
| CubeConundrum.LastCountAt | 2-cube_conundrum/src/main.rs:97-111 | the last item naming a colour decides its count |
| CubeConundrum.PaintedIsLastCounts | 2-cube_conundrum/src/main.rs:96-112 | each count of the round is the count of the last item naming that colour; unknown names change nothing |
| CubeConundrum.RoundsOf | 2-cube_conundrum/src/main.rs:73-76 | one round per `;`-separated piece, in order |
| CubeConundrum.HeadWords | 2-cube_conundrum/src/main.rs:69 | the text before the first `:` split at single spaces: at least one word, none holding a space, and joined by spaces they give that text back |
| CubeConundrum.GameIndex | 2-cube_conundrum/src/main.rs:69-71 | the index exists exactly when there is a second head word and it parses as a `u16`; a missing word panics on the index, a bad one in the parse |
| CubeConundrum.ParseGame | 2-cube_conundrum/src/main.rs:66-82 | the index is the `u16` parse of the second word before the `:`, and round k is the parse of the k-th `;` piece after it; a head without a space or a line without `:` panics with an index fault, a bad index with a parse failure |
| CubeConundrum.EmptyLinePanics | 2-cube_conundrum/src/main.rs:69 | an empty line panics on the missing second word |
| CubeConundrum.ItemRoundTrip | 2-cube_conundrum/src/main.rs:91-93 | an item `N name` inside whitespace, with N fitting `u16` and a name without whitespace, is read back as (N, name) |
| CubeConundrum.PaintThree | 2-cube_conundrum/src/main.rs:96-112 | a red, a green and a blue item applied in turn give the round of those counts |
| CubeConundrum.RoundRoundTrip | 2-cube_conundrum/src/main.rs:88-115 | a round printed as ` R red, G green, B blue` with `u16` counts is read back unchanged |
| CubeConundrum.GameRoundTrip | 2-cube_conundrum/src/main.rs:66-82 | a game printed as `Game N: round;round...`, with a `u16` index, at least one round and `u16` counts, is read back unchanged |
| CubeConundrum.GameHead | 2-cube_conundrum/src/main.rs:69-71 | the printed head `Game N` splits at its space into `Game` and `N`, and `N` parses back to the index |
| CubeConundrum.GameBody | 2-cube_conundrum/src/main.rs:73-76 | at least one printed round, joined by `;`, splits back into the round texts and each parses to its round |
| CubeConundrum.ParseGameParts | 2-cube_conundrum/src/main.rs:66-82 | a line whose `:` split is a head and a body, with a `u16` second head word and rounds that all parse, is the game of that index and those rounds |
| CubeConundrum.CrlfMakesEmptyLine | 2-cube_conundrum/src/main.rs:123 | splitting at `'\r'` and `'\n'` turns a `"\r\n"` ending into an extra empty line |
| CubeConundrum.AddU16 | 2-cube_conundrum/src/main.rs:126 | the `u16` sum is exact when it fits and panics otherwise |
| CubeConundrum.GameLines | 2-cube_conundrum/src/main.rs:121-123 | the trimmed text split at `'\r'` and `'\n'`: at least one line, none holding a line break, and together they hold exactly the trimmed text's other characters |
| CubeConundrum.GamesOf | 2-cube_conundrum/src/main.rs:124 | one parsed game per line, in order |
| CubeConundrum.SumValidFrom | 2-cube_conundrum/src/main.rs:124-126 | the fold never lowers the accumulator, and started inside `u16` it stays inside |
| CubeConundrum.Part1 | 2-cube_conundrum/src/main.rs:118-127 | the answer exists exactly when every line is a game and the sum of the possible games' indices fits `u16`, and then it is that sum |
| CubeConundrum.SumValidBoth | 2-cube_conundrum/src/main.rs:118-127 | the fold from 0 succeeds exactly when every line is a game and the sum fits `u16`, and then gives that sum |
| CubeConundrum.SumValidIsSum | 2-cube_conundrum/src/main.rs:118-127 | when `part_1` succeeds, every line is a game and the answer is the sum of the possible games' indices |
| CubeConundrum.SumValidFits | 2-cube_conundrum/src/main.rs:118-127 | when every line is a game and the sum fits `u16`, `part_1` gives that sum |
| CubeConundrum.SumPowersIsSum | 2-cube_conundrum/src/main.rs:129-138 | when `part_2` succeeds, every line is a game and the answer is the sum of the powers of their `get_max` |
| CubeConundrum.SumPowersFrom | 2-cube_conundrum/src/main.rs:135-137 | the fold never lowers the accumulator, and started inside `u16` it stays inside |
| CubeConundrum.SumPowersChecks | 2-cube_conundrum/src/main.rs:129-138 | when `part_2` succeeds, every line is a game whose power fits `u16`, and the answer fits `u16` |
| CubeConundrum.SumPowersFits | 2-cube_conundrum/src/main.rs:129-138 | when every line is a game, every power fits `u16` and so does their sum, `part_2` gives that sum |
| CubeConundrum.SumPowersOfGames | 2-cube_conundrum/src/main.rs:129-138 | over lines that parse to the given games, each with a `u16` power, a running total plus the power sum below 2^16 is what the fold returns |
| CubeConundrum.SumPowersBoth | 2-cube_conundrum/src/main.rs:129-138 | the fold from 0 succeeds exactly when every line is a game, every power fits `u16` and their sum does, and then gives that sum |
| CubeConundrum.Part2 | 2-cube_conundrum/src/main.rs:129-138 | the answer exists exactly when every line is a game, every power fits `u16` and their sum does, and then it is that sum |
| HauntedWasteland.NodeOf | 8-haunted_wasteland/main.go:21-27 | a node is read exactly when the line has an `=` and a `,` follows the first `=`; a line without `=`, or without that comma, panics with an index fault, and no other fault occurs |
| HauntedWasteland.NodesOf | 8-haunted_wasteland/main.go:18-30 | one outcome per line, and outcome k is a node exactly when line k has an `=` followed by a `,`; a line without `=` panics on the index |
| HauntedWasteland.ParseNodes | 8-haunted_wasteland/main.go:15-33 | one node per line, in line order, each the line's parse; the first bad line panics |
| HauntedWasteland.SplitAtEquals | 8-haunted_wasteland/main.go:21 | a node's line splits at `=` into the label side and the pair side |
| HauntedWasteland.SplitAtComma | 8-haunted_wasteland/main.go:25 | the pair side splits at `,` into its left and right halves |
| HauntedWasteland.TrimmedElement | 8-haunted_wasteland/main.go:23 | trimming the label side gives the label |
| HauntedWasteland.TrimmedLeft | 8-haunted_wasteland/main.go:26 | trimming and dropping `(` gives the left label |
| HauntedWasteland.TrimmedRight | 8-haunted_wasteland/main.go:27 | trimming and dropping `)` gives the right label |
| HauntedWasteland.NodeOfLine | 8-haunted_wasteland/main.go:18-29 | parsing the line `E = (L, R)` of a node gives the node back |
| HauntedWasteland.NodesRoundTrip | 8-haunted_wasteland/main.go:15-33 | parsing the lines of a node list gives the list back, count and order kept |
| HauntedWasteland.Lookup | 8-haunted_wasteland/main.go:35-42 | a node exists exactly when some node has the label; it is the first such node; otherwise it panics |
| HauntedWasteland.FindInNodes | 8-haunted_wasteland/main.go:35-42 | the linear search finds the first node with the label, or panics |
| HauntedWasteland.Move | 8-haunted_wasteland/main.go:54-63 | `L` follows the left label and `R` the right one; any other rune panics |
| HauntedWasteland.Turn | 8-haunted_wasteland/main.go:54-63 | the `switch` makes exactly that move |
| HauntedWasteland.Start | 8-haunted_wasteland/main.go:45-46 | the walk starts on `AAA`, after reading `sequence[0]` |
| HauntedWasteland.Visit | 8-haunted_wasteland/main.go:48-67 | a position after k moves exists only for a non-empty direction sequence, is one of the nodes, is AAA at k = 0, and every earlier position exists too |
| HauntedWasteland.Direction | 8-haunted_wasteland/main.go:66 | the direction after k moves is a rune of the sequence: `sequence[k]` for k inside it, and the directions repeat with the sequence's length as their period |
| HauntedWasteland.VisitNext | 8-haunted_wasteland/main.go:65-66 | move k follows direction `sequence[k mod len]` |
| HauntedWasteland.Solves | 8-haunted_wasteland/main.go:44-68 | the outcomes of `solve` with at most `fuel` moves: the first arrival at `ZZZ`, `None` when there is none within the budget, or the panic of the first broken position before any arrival |
| HauntedWasteland.Solve | 8-haunted_wasteland/main.go:44-68 | with at most `fuel` moves, the loop returns the first arrival at `ZZZ`, `None` if the moves run out, or the panic where the walk broke off |
| HauntedWasteland.ClearBefore | 8-haunted_wasteland/main.go:48-52 | no position before the walk stops is `ZZZ` |
| HauntedWasteland.ArrivalUnique | 8-haunted_wasteland/main.go:48-52 | there is only one first arrival |
| HauntedWasteland.ArrivalAfterStart | 8-haunted_wasteland/main.go:46-52 | the answer is at least 1, since `AAA` is not `ZZZ` |
| HauntedWasteland.StopOf | 8-haunted_wasteland/main.go:44-68 | every possible outcome is the outcome of one stopping point |
| HauntedWasteland.SolvesDeterministic | 8-haunted_wasteland/main.go:44-68 | the outcome of `solve` is unique |
| HauntedWasteland.EnoughFuel | 8-haunted_wasteland/main.go:44-68 | with as many moves as the arrival needs, `solve` returns it |
| HauntedWasteland.Part1 | 8-haunted_wasteland/main.go:76-83 | the directions are the trimmed first line, the nodes are parsed from the non-empty later lines, and then the walk runs |
| HauntedWasteland.Directions | 8-haunted_wasteland/main.go:78 | the directions hold no line break and neither start nor end with whitespace |
| HauntedWasteland.NodeLines | 8-haunted_wasteland/main.go:79 | the node lines are non-empty, hold no line break, and are no more than the lines after the first |
| HauntedWasteland.LayoutLines | 8-haunted_wasteland/main.go:76 | a direction line, a blank line and the node lines split back at `'\n'` |
| HauntedWasteland.MapLayout | 8-haunted_wasteland/main.go:76-81 | a map written out as its text is read back into its directions and nodes |
| HauntedWasteland.LayoutDirections | 8-haunted_wasteland/main.go:78 | trimming the direction line keeps it |
| HauntedWasteland.LayoutNodeLines | 8-haunted_wasteland/main.go:79 | dropping the empty lines leaves exactly the node lines |
| WaitForIt.Wins | 6-wait-for-it/src/main.rs:31 | only a hold strictly between 0 and `duration` can beat the record |
| WaitForIt.WinsBelow | 6-wait-for-it/src/main.rs:30-34 | the count over `0..n-1` is at most `n` |
| WaitForIt.Beat | 6-wait-for-it/src/main.rs:28-36 | the loop counts the winning holds of `0..=duration` |
| WaitForIt.WinsBelowIsCard | 6-wait-for-it/src/main.rs:30-34 | the count is the size of the set of winning holds |
| WaitForIt.WaysToWinIsCard | 6-wait-for-it/src/main.rs:28-36 | `beat` is the number of `d <= duration` with `d*(duration-d) > record` |
| WaitForIt.EndsNeverWin | 6-wait-for-it/src/main.rs:31 | `d = 0` and `d = duration` never win |
| WaitForIt.WinsSymmetric | 6-wait-for-it/src/main.rs:31 | `d` wins exactly when `duration - d` does |
| WaitForIt.WinsBelowWithoutZero | 6-wait-for-it/src/main.rs:30-34 | hold 0 never counts, so at most `n-1` of `0..n-1` win |
| WaitForIt.WaysToWin | 6-wait-for-it/src/main.rs:28-36 | the number of winning holds of `0..=duration` is at most `max(duration,1) - 1` |
| WaitForIt.WinsBelowAntitone | 6-wait-for-it/src/main.rs:31 | a higher record leaves no more winning holds |
| WaitForIt.ParseUsize | 6-wait-for-it/src/main.rs:22-23 | a parsed word is below 2^64, and a failed parse panics as a parse failure |
| WaitForIt.Rows | 6-wait-for-it/src/main.rs:13-18 | one word list per line |
| WaitForIt.GetRaces | 6-wait-for-it/src/main.rs:12-26 | a text without lines panics; otherwise there is one race per word after the label of line 0, and race k is read from word k+1 of both lines |
| WaitForIt.RaceAt | 6-wait-for-it/src/main.rs:21-24 | race `item` is word `item` of line 0 and of line 1, both parsed |
| WaitForIt.RacesOf | 6-wait-for-it/src/main.rs:20-25 | one outcome per word after the label of line 0; a race k that is read has the parse of word k+1 of line 0 as its duration and of word k+1 of line 1 as its record |
| WaitForIt.RacesOfRows | 6-wait-for-it/src/main.rs:20-25 | a text without lines panics; otherwise one race per word after the label of line 0 |
| WaitForIt.RacesOfPrinted | 6-wait-for-it/src/main.rs:20-25 | rows of a label and printed durations and records give those races |
| WaitForIt.LabelOnly | 6-wait-for-it/src/main.rs:20 | a first line of one word gives no races |
| WaitForIt.LabelledLineWords | 6-wait-for-it/src/main.rs:16 | a labelled line's words are the label and the printed numbers |
| WaitForIt.SheetRoundTrip | 6-wait-for-it/src/main.rs:12-26 | reading a printed race sheet gives its races back |
| WaitForIt.SheetRows | 6-wait-for-it/src/main.rs:12-26 | the whitespace-split rows of a printed race sheet give its races back |
| WaitForIt.ProductZero | 6-wait-for-it/src/main.rs:42 | the product is 0 exactly when some factor is |
| WaitForIt.ProductFactor | 6-wait-for-it/src/main.rs:42 | every factor divides the product |
| WaitForIt.ProductFactors | 6-wait-for-it/src/main.rs:42 | every count divides the product |
| WaitForIt.Product | 6-wait-for-it/src/main.rs:42 | positive factors give a positive product |
| WaitForIt.Part1 | 6-wait-for-it/src/main.rs:38-45 | the answer exists exactly when the races are read; it is the product of the races' counts (each one the number of winning holds, WaysToWinIsCard), so every count divides it |
| WaitForIt.Counts | 6-wait-for-it/src/main.rs:41 | one `beat` per race, in order |
| WaitForIt.Part1Zero | 6-wait-for-it/src/main.rs:38-45 | the answer is 1 with no races, and 0 exactly when some race cannot be won |
| Text.AllOk | 8-haunted_wasteland/main.go:18-30 | the values exist exactly when every outcome is a value; they are those values in order; otherwise it is one of the panics |
| Text.AllOkAborts | 5-seeds/src/main.rs:92 | the first panicking prefix decides the whole collection |
| Text.AllOkStop | 8-haunted_wasteland/main.go:18-30 | the first panic after successful elements is the panic of the whole loop |
| Text.AllOkCons | 8-haunted_wasteland/main.go:18-30 | collecting stops at a first panic, or puts the first value in front of the values of the rest |
| Text.Filter | 3-gear_ratios/src/main.rs:131-136 | `filter().collect()` keeps exactly the characters that pass, and is empty exactly when none does |
| Text.FilterFlanked | 3-gear_ratios/src/main.rs:117-121 | filtering a kept middle between two dropped ends leaves the middle |
| Text.Concat | 3-gear_ratios/src/main.rs:119 | `collect::<String>()` holds exactly the characters of the pieces |
| Text.DecimalDigitChars | 3-gear_ratios/src/main.rs:134 | `is_ascii_digit` holds exactly for the ten characters `0` to `9` |
| Text.IsAsciiPunctuation | 3-gear_ratios/src/main.rs:118 | `is_ascii_punctuation` holds exactly for the printable ASCII characters other than space, digits and letters |
| Text.IsWhitespace | 8-haunted_wasteland/main.go:23 | no digit or ASCII punctuation character is white space |
| Text.SplitWhere | 3-gear_ratios/src/main.rs:118 | `split` with a predicate gives at least one piece, and no piece holds a separator |
| Text.ConcatSplitWhere | 3-gear_ratios/src/main.rs:117-119 | splitting at punctuation and concatenating drops exactly the punctuation |
| Text.SplitWhereOccurs | gear_ratios_rs/src/main.rs:85 | every piece of a split sits in the text at its start position |
| Text.SplitOn | 5-seeds/src/main.rs:91 | `split` on a string pattern gives at least one piece |
| Text.SplitOnLeftmost | 5-seeds/src/main.rs:91 | for a non-empty pattern no piece contains it, and no match starts inside a piece before its cut, so each cut is at the leftmost match |
| Text.Split | 3-gear_ratios/src/main.rs:34 | `split(c)` gives at least one piece, none holding `c` |
| Text.SplitHasSep | 2-cube_conundrum/src/main.rs:67-69 | there is a second piece exactly when the separator occurs |
| Text.Join | 5-seeds/src/main.rs:90 | the joined text has the characters of the pieces and one separator between neighbours |
| Text.JoinSplitOn | 5-seeds/src/main.rs:90-91 | joining the pieces of a split with the pattern gives the text back |
| Text.SplitJoin | 8-haunted_wasteland/main.go:76 | splitting pieces joined by a separator they lack gives the pieces back |
| Text.SplitWhitespaceJoin | 6-wait-for-it/src/main.rs:16 | words joined by spaces are split back into the same words |
| Text.SplitWhitespace | 6-wait-for-it/src/main.rs:16 | `split_whitespace` gives non-empty words without whitespace |
| Text.NonEmpty | 8-haunted_wasteland/main.go:79 | deleting the empty lines (`slices.DeleteFunc`) keeps exactly the non-empty lines: every kept line is non-empty and from the input, every non-empty input line is kept, and there are no more lines than before |
| Text.NonEmptyAppend | 8-haunted_wasteland/main.go:79 | deleting the empty lines keeps the order: those kept from a first run of lines, then those kept from the next |
| Text.NonEmptyOne | 8-haunted_wasteland/main.go:79 | one line is kept exactly when it is non-empty |
| Text.Trim | 8-haunted_wasteland/main.go:23 | `TrimSpace`/`trim` removes whitespace padding, leaving a text that neither starts nor ends with whitespace |
| Text.TrimInside | 8-haunted_wasteland/main.go:78 | trimming keeps only characters of the text |
| Text.TrimPadded | 8-haunted_wasteland/main.go:23 | trimming drops exactly the padding around a text without whitespace ends |
| Text.TrimPrefix | 8-haunted_wasteland/main.go:26 | `TrimPrefix` drops the prefix once, or changes nothing |
| Text.TrimSuffix | 8-haunted_wasteland/main.go:27 | `TrimSuffix` drops the suffix once, or changes nothing |
| Text.TrimStartMatches | 5-seeds/src/main.rs:71 | `trim_start_matches` gives a suffix that no longer starts with the pattern |
| Text.StripCarriageReturn | 5-seeds/src/main.rs:86 | one trailing `'\r'` is dropped; a line without one is kept as it is |
| Text.Lines | 5-seeds/src/main.rs:70 | `lines()` gives no lines exactly for the empty text |
| Text.LinesOfJoin | 5-seeds/src/main.rs:86 | lines without line breaks and without a trailing `'\r'`, the last one non-empty, joined with `'\n'` are read back by `lines()` |
| Text.FirstLine | 5-seeds/src/main.rs:70 | the first line of a text that continues after `'\n'` |
| Text.TwoLines | 6-wait-for-it/src/main.rs:14 | a text of two lines gives those two lines |
| Text.Slice | 3-gear_ratios/src/main.rs:81 | `&s[lo..hi]` succeeds exactly when `lo <= hi <= len`, and otherwise panics |
| Text.At | 3-gear_ratios/src/main.rs:86 | `v[i]` succeeds exactly when `i < len` |
| Text.ParseUnsigned | gear_ratios_rs/src/main.rs:86 | an unsigned parse is below the type's bound |
| Text.ParseUnsignedUnsigned | 3-gear_ratios/src/main.rs:120 | without a leading `+`, a parse succeeds exactly on non-empty digit strings whose value fits |
| Text.ParseSigned | 5-seeds/src/main.rs:81 | a signed parse lies in the type's range |
| Text.ParseSignedDigits | 5-seeds/src/main.rs:81 | on a digit string, the signed parse is the value when it fits |
| Text.DecimalString | gear_ratios_rs/src/main.rs:92 | `to_string` gives a non-empty digit string without leading zeros |
| Text.DigitsValueOfDecimalString | gear_ratios_rs/src/main.rs:92 | reading a printed number gives the number |
| Text.ParseDecimalString | gear_ratios_rs/src/main.rs:92-93 | parsing a printed number that fits gives the number back |
| Text.DigitsValue | 3-gear_ratios/src/main.rs:120 | the value of n digits stays below 10^n |
| Text.DecimalStringIsSuffix | gear_ratios_rs/src/main.rs:92-93 | printing a digit string's value gives the string without its leading zeros |
| Text.MatchIndicesFrom | gear_ratios_rs/src/main.rs:93 | every reported index is an occurrence, and occurrences do not overlap, left to right |
| Text.MatchIndices | gear_ratios_rs/src/main.rs:93 | every index is a match, left to right without overlap, and there is none exactly when the pattern does not occur |
| Text.MatchIndicesFound | gear_ratios_rs/src/main.rs:93 | the scan from column 0 reports a match exactly when the pattern occurs |
| Text.MatchIndicesComplete | gear_ratios_rs/src/main.rs:93 | no occurrence clear of the earlier matches is missed |
| Text.MatchIndicesNonEmpty | gear_ratios_rs/src/main.rs:93 | some match is reported once the pattern occurs |

## Left out

- Reading files, `env::args`, `exit`, `println!`/`log`, the `main` functions and the
  tests that read data files are I/O. The solvers are modelled from text to result.
  The worked examples of the tests (4361, 35, 288, 2 and 6) need the data files, which
  are not part of this model; small hand-made grids and lines are proved instead.
- The `Display` impls of both schematic scanners only print.
- HashMap iteration order in `get` is not modelled.
  - Seeds.Get: the model states only that the result is the seed shifted by the offset
    of *some* containing range, the relation `Yields`.
  - It is unique when no two overlapping ranges have different offsets: `Consistent`,
    in YieldsDeterministic and ReachesDeterministic.
- HauntedWasteland.Solve: the source's loop may never end. The model takes a move
  budget `fuel` and reports `None` when the budget runs out without reaching `ZZZ`.
  EnoughFuel shows that a budget as large as the arrival gives the source's answer.
- HauntedWasteland.Part1: its contract is weaker than the source's in the same way.
  It also replaces Go's `math.Mod` on `float64` with integer `%`, which agrees for every
  step count below 2^53.
- Machine integers are modelled only where the model states a bound:
  - the `u16` counts, sums and power of the cube games, with the overflow panic of a
    debug build;
  - the `u32` parse of the schematic values;
  - the `usize` and `isize` parses.

  What is not modelled: the `u32` sums of both schematic scanners, the product fold
  of WaitForIt, and Go's `int` step counter.
- GearRatios.Part1: the contract covers only grids whose digit runs are well shaped
  (WellShapedFrom). On other grids the model keeps the scan's misalignment as written,
  shown by GearRatios.LongRunMisaligned and GearRatios.EdgeDigitMisaligned.
- WaitForIt.Beat: does not model the `usize` overflow of `d * (duration - d)`.
- Seeds.EntryLaw: does not model the `isize` overflow of `source + range - 1` and
  `dest - source`.
- Seeds.Get: does not model the `isize` overflow of `seed + offset`.
- Strings are sequences of characters. Rust's byte slicing of `&str` is modelled as
  character slicing, which agrees on ASCII grids. A slice that would split a multi-byte
  character is not modelled.
- `char::is_numeric` is modelled as the ASCII digit test, so non-ASCII numeric
  characters are not recognised.
- The whole-almanac text is not printed and read back. The round trips cover a seeds
  line (Seeds.SeedsRoundTrip) and a map line of three digit words
  (Seeds.EntryOfDigitWords).
- HauntedWasteland.MapLayout and HauntedWasteland.NodesRoundTrip are stated for labels
  of capital letters and digits. MapLayout also needs at least one node.
- WaitForIt.SheetRoundTrip is stated for labels without whitespace.
- The scanner as written behaves as follows, and the model keeps it:
  - Digits in the neighbour rows count as symbols (GearRatios.DigitNeighboursCount).
  - The column scan special-cases the row edges and misaligns some runs
    (GearRatios.LongRunMisaligned, GearRatios.EdgeDigitMisaligned).
  - A one-row grid with a number panics instead of summing to 0 (GearRatios.OneRowPanics,
    GearRatiosRs.OneRowPanics).
  - A row shorter than the first panics. A longer row is scanned only up to the first
    row's width. Neither is reported as a malformed grid.
  - Rows are split at `'\n'` only, so a `'\r'` stays in the row. Both scanners count
    it as a symbol. In the first scanner, a `'\r'` inside a window also makes the value's
    parse panic. The second scanner reads the value from the window's digits only, so it
    does not panic. There, a number directly before a `'\r'` is a piece that does not
    parse, and `parse().ok()` drops it from the present values.
  - The second scanner clamps its window by the number of rows
    (GearRatiosRs.SquareGridWindows, GearRatiosRs.TallGridPanics).
