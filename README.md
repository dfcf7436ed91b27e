# lxgata in Dafny

A verified model of the Go package `lxgata`, which loads electron–molecule
collision cross sections from text files in the LXCat/BOLSIG format and
evaluates them. The package has three parts, and the model covers all of
them:

- `Collision.CrossSectionAt` finds the pair of tabulated points around an
  energy by halving an index interval. It then returns a boundary value or
  a linear interpolation.
- `LoadCrossSections` is the block parser. A block starts at a line whose
  first token is one of the six process keywords. It continues with:
  - the species line;
  - the type-dependent parameter line(s);
  - `key: value` metadata up to a `-----` line;
  - `energy value` rows up to the next `-----` line.

  For EXCITATION, IONIZATION and ROTATION blocks, the threshold rule then
  drops the rows at or below the threshold. It puts `(threshold, 0)` in
  front when the first kept value is positive. Blocks of the other three
  types keep every row.
- `TotalCrossSectionAt`, `TotalCrossSectionOfKindAt` and
  `SurplusCrossSection` are sums over a catalog of collisions.

Files:

- `results.dfy` (module `Results`): the `Option` and `Result` wrappers.
- `text.dfy` (module `Text`): the parts of Go's `strings` and `strconv` that
  the parser uses:
  - `unicode.IsSpace` and `strings.Fields`;
  - `strings.Cut` and `strings.Trim` with one character;
  - `strings.HasPrefix` with the separator;
  - a small decimal grammar for `strconv.ParseFloat`.
- `collision.dfy` (module `CrossSections`): the process types, the
  `CrossSectionPoint` and `Collision` records, and `CrossSectionAt`. The
  method keeps the source's `l`/`r` loop. Its specification is:
  - `Settle`, the index the loop ends on;
  - `At`, the value returned;
  - `Piecewise`, the function the doc comment describes.
- `collision_set.dfy` (module `CollisionSet`): the parser and the sums.

How the model represents the source:

- **Input.** The file is a `seq<string>` of lines read with an explicit
  cursor. Like Go's scanner after the end of input, a cursor past the last
  line reads the empty line (`Line`).
- **Functions and methods.** Every step of the parser is a function that
  states what it reads (`ReadParameters`, `ReadInfo`, `ReadTable`,
  `Normalize`, `ReadSections`, `ReadBlock`, `Load`). The source's loops are
  methods, each proved equal to a function:
  - `ScanInfo` to `ReadInfo`;
  - `ScanTable` to `Retained` applied to the rows `ReadTable` reads;
  - `ScanSections`, which also holds the zero-point rule inline, to
    `ReadSections`;
  - `ScanBlock` to `ReadBlock`;
  - `ScanFile` to the generic load `LoadFrom`;
  - `LoadCrossSections` to `Load`.

  The parameter switch has no loop, so `ReadParameters` has no method, and
  `ScanBlock` calls it directly. `Normalize` has no loop either, and
  `ScanSections` applies its rule inline.
- **Generic outer loop.** The outer loop sees a line only through the
  block type it opens. It never looks inside a block. So `LoadFrom` and the
  layout lemmas (`BlocksFrom`, `PlacedBlocks`, `PlacedOrdered`) are stated
  over the lines' header types and any block reader. `Load` uses
  `Headers(lines)` and `ReadBlock`.
- **Errors and panics.** Where Go returns an error, or would panic or
  never stop, the model returns a `ParseError`:
  - `BadNumber`: the `strconv.ParseFloat` error;
  - `MissingField`: an index past the end of the tokens;
  - `EmptyTable`: `data[0]` on an empty filtered table;
  - `Unterminated`: the metadata loop, which never ends once the input is
    exhausted.

`lxgata.go` is an earlier copy of the other two files, and one model
covers both. Its lines correspond as follows:

| lxgata.go | same code in |
|---|---|
| 13-34 | collision.go:10-31 |
| 36 | collisionSet.go:12 |
| 38-60 | collision.go:33-55 |
| 62-189 | collisionSet.go:15-142 |
| 191-197 | collisionSet.go:145-151 |

Some table rows below cite `lxgata.go` for this reason.

Where the code departs from the usual reading of the LXCat format, the
model follows the code:

- The species is the text before the first space character, not the first
  whitespace-delimited token.
- The upper-level parameters of a rotation come from the very next line,
  not from the next non-empty one.
- The metadata scan starts on the (last) parameter line itself.
- Keys and values are trimmed of spaces only.
- A negative first kept value gets no zero point, so the table then starts
  below zero. The table starts at exactly 0 when the first kept value is not
  negative, and so always when no value is negative.
- `CrossSectionAt` returns the first value everywhere below the second
  point. The doc comment promises interpolation on the first segment.
  `FirstSegmentNotInterpolated` gives an input where the two differ.
- `SurplusCrossSection` starts each maximum at 0, so a collision whose
  values are all negative adds 0.

## Model

| member | source | states |
|---|---|---|
| Text.FieldsAreWords | collisionSet.go:29-31 | Every token of a line is a non-empty run of non-space characters. A line has no token exactly when it is blank, so blank lines are skipped. |
| Text.CutSplits | collisionSet.go:96-99 | `Cut` splits at the first separator: the text before it holds no separator, and before + separator + after is the line. Without a separator the whole line is the part before and `found` is false. |
| Text.FieldsIgnoreTrim | collisionSet.go:41 | Trimming spaces off the parameter line before `strings.Fields` gives the same tokens as `Fields` alone. |
| CrossSections.KeywordTypeInverts | collisionSet.go:22 | A string names type t exactly when it is t's keyword: the set holds exactly the six keywords, matched exactly and case-sensitively. |
| CrossSections.Settle | collision.go:38-44 | The halving from (l, r) ends on k with l <= k < r. Indexes k and k+1 bracket the energy: a point at k > 0 is at or below it, and a point at k+1 is above it. No order of the points is needed. |
| CrossSections.Interpolate | collision.go:47-50 | The weight and value as the code writes them out are the line through the segment's two points. Inside the segment that value lies between the two end values. |
| CrossSections.SettledValue | collision.go:45-50 | Where the loop stops, the boundary value or the interpolation it returns is `At`. On a sorted table that is the first value below the second point, and the documented function elsewhere. |
| CrossSections.CrossSectionAt | collision.go:35-51 | The loop keeps 0 <= l < r <= len(Data) and the bracketing of the energy, and r - l decreases, so every index is in bounds. On a sorted table the result is the first value for a one-point table or an energy below the second point. Elsewhere it is the documented piecewise-linear function. |
| CrossSections.At | collision.go:45-50 | Whatever the order of the points, the value returned lies between the smallest and the largest tabulated value. |
| CrossSections.WeightInUnit | collision.go:48 | The weight w = (e - E_l)/(E_r - E_l) lies in [0, 1) when E_l <= e < E_r. |
| CrossSections.LerpBetween | collision.go:49 | Inside a segment the interpolated value lies between the segment's two end values. |
| CrossSections.LerpAtStart | collision.go:48-49 | At the segment's first energy the interpolation gives the segment's first value. |
| CrossSections.PiecewiseOnSegment | collision.go:33-34 | On a sorted table, at an energy not below the first point, the documented function is the line of any segment that brackets the energy, or the last value beyond the last point. |
| CrossSections.AtOnSortedTable | collision.go:38-50 | On a sorted table the result is the first value below the second point, and the documented piecewise-linear function everywhere else. |
| CrossSections.AtMatchesDocOutsideFirstSegment | collision.go:33-34 | On a sorted table the result equals the documented function at every energy outside the open first segment. |
| CrossSections.FirstSegmentNotInterpolated | collision.go:45-46 | On {(10, 0), (16, 1)} at 13 eV the code returns 0, while the documented function is 0.5. |
| CrossSections.AtBeyondLast | lxgata.go:50-51 | On a sorted table, at or beyond the last energy, the result is exactly the last value (flat extrapolation on the right). |
| CrossSections.AtBelowSecond | lxgata.go:43-51 | On a sorted table, for a one-point table or an energy below the second point, the result is exactly the first value. This covers below-range energies and the whole first segment. |
| CrossSections.AtInterior | collision.go:47-50 | Between the second and the last energy some interior k brackets the energy with weight in [0, 1), and the result is V_k + (V_k+1 - V_k)·w. |
| CrossSections.AtKnot | collision.go:38-50 | On a strictly increasing table the result at a tabulated energy is the tabulated value. |
| CrossSections.TestTable | lxgata_test.go:26-31 | The test's table has four points in ascending order of energy. |
| CrossSections.TestBelowRange | lxgata_test.go:37-40 | Below every tabulated energy (1 eV) the result is 0. |
| CrossSections.TestAtLowest | lxgata_test.go:41-44 | At the lowest tabulated energy (10 eV) the result is 0. |
| CrossSections.TestBetween | lxgata_test.go:45-48 | Between two points (266 eV) the result is exactly 4.5. |
| CrossSections.TestAtMaximum | lxgata_test.go:49-52 | At the highest tabulated energy (500 eV) the result is 7. |
| CrossSections.TestAboveRange | lxgata_test.go:53-56 | Beyond every tabulated energy (600 eV) the result is 7. |
| CrossSections.CrossSectionAtTestTable | lxgata_test.go:25-56 | For {(10,0),(16,1),(32,2),(500,7)} the results at 1, 10, 266, 500 and 600 are exactly 0, 0, 4.5, 7 and 7. |
| CollisionSet.HeaderKeyword | collisionSet.go:27-35 | A line opens a block of type t exactly when its first whitespace-delimited token is t's keyword. A blank line opens no block. |
| CollisionSet.SpeciesIsCut | collisionSet.go:37-38 | The species is what `strings.Cut(line, " ")` puts before the cut. |
| CollisionSet.SpeciesIsPrefix | lxgata.go:84-85 | The species is a prefix of the line after the header and holds no space. It is followed by a space, or it is the whole line. |
| CollisionSet.NumberField | collisionSet.go:48-51 | Reading token k succeeds exactly when the token exists and parses as a number, and the value is that number. Otherwise the result is an error and no value. |
| CollisionSet.MassParameters | collisionSet.go:47-56 | ELASTIC/EFFECTIVE: succeeds exactly when the first token is a number. That number is the mass ratio, and every other field keeps its default. |
| CollisionSet.ExcitationParameters | collisionSet.go:57-67 | EXCITATION: the first token is the threshold. The second token, if the line has one, must be a number and is the statistical weight ratio; otherwise the ratio is 1. The other fields keep their defaults. |
| CollisionSet.IonizationParameters | collisionSet.go:68-72 | IONIZATION: succeeds exactly when the first token is a number, which becomes the threshold. The other fields keep their defaults. |
| CollisionSet.RotationParameters | collisionSet.go:73-91 | ROTATION: succeeds exactly when two numbers start this line and two start the next. They are the lower energy and weight, then the upper energy and weight. The threshold stays 0. |
| CollisionSet.ReadParameters | collisionSet.go:40-92 | Dispatch by type: fields the type does not set keep their defaults (threshold 0, ratio 1). ATTACHMENT reads nothing and cannot fail. The metadata scan starts on the last parameter line. |
| CollisionSet.ReadInfo | collisionSet.go:94-101 | On success the metadata ends at a separator line at or after its start. The only failure is running off the end of the input. |
| CollisionSet.InfoEndsAtFirstSeparator | collisionSet.go:95 | The metadata ends at the first separator line. It fails exactly when no later line is a separator. |
| CollisionSet.InfoEntries | collisionSet.go:94-101 | A key is in Info exactly when it was there before or some line up to the separator defines it. Its value comes from the last line that defines it, and keys no line defines keep their value. |
| CollisionSet.ReadPoint | collisionSet.go:106-115 | A data row succeeds exactly when its first two tokens are numbers. The point is (first, second). |
| CollisionSet.ReadTable | collisionSet.go:105-120 | On success the table ends at a separator line at or after its first row. |
| CollisionSet.TableRows | collisionSet.go:104-120 | The table holds one point per line before the separator, in file order: the point that line reads as. None of those lines is a separator. |
| CollisionSet.Retained | collisionSet.go:116-118 | Filtering never adds rows. |
| CollisionSet.RetainedSnoc | collisionSet.go:116-117 | A row read after the others is appended exactly when the threshold rule keeps it. |
| CollisionSet.RetainedRows | collisionSet.go:116 | A row is kept exactly when it is in the file and the type has no threshold or the row's energy is strictly above the threshold. Types without a threshold keep all rows. |
| CollisionSet.RetainedSorted | collisionSet.go:104-120 | Filtering keeps a table in ascending order of energy. |
| CollisionSet.Normalize | collisionSet.go:122-124 | For a type without a threshold the table is the rows as read, possibly empty. |
| CollisionSet.NormalizeFloorsAtZero | collisionSet.go:122-124 | For a type with a threshold the result is non-empty exactly when some row lies above the threshold. Every later point is then above the threshold, and the kept rows follow in order. The table is exactly (threshold, 0) followed by the kept rows when the first kept value is positive, and the kept rows otherwise. With non-negative values, Data[0].Value is 0. |
| CollisionSet.NormalizeSorted | collisionSet.go:122-124 | A table in ascending order of energy stays so after the rule. |
| CollisionSet.ReadSections | collisionSet.go:94-124 | Metadata, table and rule together end at a separator line after the metadata's start. |
| CollisionSet.ReadBlock | collisionSet.go:35-138 | A block read from header line i has the header's type and the species of line i+1. It closes on a separator line after i+2. |
| CollisionSet.SectionsFloored | collisionSet.go:104-124 | The table of a block of a type with a threshold honours the threshold. |
| CollisionSet.BlockWellFormed | collisionSet.go:43-138 | Every block read honours its threshold and sets only the fields its type provides. |
| CollisionSet.Headers | collisionSet.go:27-34 | One header type per line of the file. |
| CollisionSet.ReaderReadsBlocks | collisionSet.go:37-120 | A block closes on a later line than its header, within the file, so the outer loop always moves on. |
| CollisionSet.LoadAtHeader | collisionSet.go:34-139 | At a header the load's outcome is the block's error. Otherwise it is the block appended to what came before, then the load from the line after its closing separator. |
| CollisionSet.PlacedSkip | collisionSet.go:30-34 | A line that opens no block is skipped. |
| CollisionSet.PlacedCons | collisionSet.go:34-139 | A block from its header to its separator, followed by the blocks placed after it. |
| CollisionSet.BlocksReadCons | collisionSet.go:126-138 | The block read at a header, followed by the blocks read after it. |
| CollisionSet.BlocksFrom | collisionSet.go:27-141 | A successful load has a layout: blocks at header lines, each read as its header's type. No other line opens a block. |
| CollisionSet.PlacedBlocks | collisionSet.go:27-35 | Every placed block lies within the file and starts at a header of its type. |
| CollisionSet.PlacedOrdered | lxgata.go:173-188 | Blocks follow one another in file order without overlapping. |
| CollisionSet.LoadedBlocks | collisionSet.go:126-141 | A successful load yields one well-formed Collision per recognised header, in file order, of the type the header names. |
| CollisionSet.ReaderIsReadBlock | collisionSet.go:34-139 | The block reader of the load is ReadBlock. |
| CollisionSet.LoadCrossSections | collisionSet.go:15-142 | The result is `Load(lines)`: the first error aborts the load with no partial result. Otherwise it is the blocks in order. |
| CollisionSet.ScanFile | collisionSet.go:24-141 | The scanner loop's outcome is the generic load over the lines' header types and the block reader. |
| CollisionSet.ScanBlock | collisionSet.go:35-138 | The statements of one block compute `ReadBlock`. |
| CollisionSet.ScanSections | collisionSet.go:94-124 | The metadata loop, table loop and threshold rule compute `ReadSections`. |
| CollisionSet.ScanInfo | collisionSet.go:94-102 | The metadata loop with its map writes computes `ReadInfo`. |
| CollisionSet.ScanTable | collisionSet.go:104-120 | The data loop fails exactly when the rows fail to read. Otherwise it yields the rows the threshold rule keeps and the separator's line. |
| CollisionSet.PeakIsLargest | collisionSet.go:169-174 | A collision's maximum is at least 0 and at least every value. It is 0 or one of the values. |
| CollisionSet.TotalCrossSectionAt | collisionSet.go:145-151 | The loop returns the sum of `CrossSectionAt` over all collisions, left to right. The sum is 0 for an empty catalog. |
| CollisionSet.TotalCrossSectionOfKindAt | collisionSet.go:154-162 | The loop returns the same sum over the collisions of the given type. Only those collisions need a non-empty table, since no other collision is looked up. |
| CollisionSet.KindTotalIgnoresOtherTypes | collisionSet.go:157-159 | A collision of another type adds nothing to the per-type total, even one whose table is empty. |
| CollisionSet.SurplusCrossSection | collisionSet.go:166-178 | The nested loops return the sum of each collision's max(0, max Value). |
| CollisionSet.SurplusIsMajorant | collisionSet.go:164-165 | The surplus bounds the total cross section at every energy. |
| CollisionSet.SurplusNonNegative | collisionSet.go:169-176 | The surplus is never negative. |
| CollisionSet.SurplusBoundsTotal | collisionSet.go:164-178 | At each energy the total is at most the surplus. |
| CollisionSet.TotalAtAppend | lxgata.go:191-197 | Totals add up over a split of the catalog. |
| CollisionSet.KindTotalsAddUp | collisionSet.go:145-162 | The six per-type totals add up to the total. |
| CollisionSet.KindTotalBelowTotal | collisionSet.go:154-162 | With non-negative values one type's total lies between 0 and the total. |

## Left out

- File and scanner I/O (`os.Open`, `defer file.Close`, `bufio.Scanner`, collisionSet.go:16-27): the input is the file's lines, and the failure to open a file is not modelled.
- `strconv.ParseFloat`: a decimal grammar stands in for it: sign, digits, point and exponent. Hexadecimal floats, `Inf`, `NaN`, underscores, range errors and rounding belong to the library.
- IEEE float64 arithmetic: energies, values, weights and sums are exact reals. The test's 1e-5 tolerance becomes equality.
- Text encoding: lines are sequences of characters, so the scanner's byte handling and invalid UTF-8 are not modelled. Go's scanner limit on line length is not modelled either.
- `Collision.String` (collision.go:53-55, lxgata.go:58-60): this is `fmt` and `strings.ToLower` formatting.
- `TestLoadCrossSections`: the fixture it loads is not part of this model. Its zero-floor check is `NormalizeFloorsAtZero` under non-negative values.
- `t.Parallel` in the tests: concurrency of the test harness only.
- The iteration order of `Info`: a Dafny `map` has none, and the source promises none.
- CollisionSet.ScanFile: the header types and the block reader its loop follows are ghost inputs. `LoadCrossSections` supplies them as `Headers(lines)` and `ReadBlock`.
- CollisionSet.NormalizeFloorsAtZero: it proves `Data[0].Value == 0` only when the values are non-negative, because with a negative first kept value the code adds no zero point.
