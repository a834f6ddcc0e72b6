# Advent of Code solvers: a verified model

This project models, in Dafny, the core of a C++ repository of Advent of
Code solutions, and proves properties of that model. It covers three
parts of the repository.

- **The test harness** (`aoc/solver.cpp`, `aoc/solver.h`, `aoc/serialize.h`).
  `parse_args` finds the dataset directory of a puzzle day and groups its
  `.in`, `.outA` and `.outB` files by stem into problems, in stem order.
  `solve` parses every problem, solves both parts and compares each part
  with its expected first line when that file exists. It writes a report
  and exits with 0, or with 255 on a configuration error. The solver
  interface is a value holding three callbacks (parse, part A, part B).
  The file system is a map from directory paths to their listings.
- **The integer geometry of `baselib`.**
  - `vec2` is an integer 2-vector with the Manhattan distance.
  - `grid2` is a row-major grid, a class whose cells are updated in place.
  - `rect` is a rectangle with an iterator that walks its cells row by row.
- **The puzzle solvers.**
  - 2018: days 1 to 8;
  - 2019: days 1 to 4;
  - the older copies of 2018 days 1 to 3, kept under `aoc18`.

  Each solver is a parser plus its two parts. The parsers work on the
  remaining text of an input stream. The model of the iostream operations
  they use (whitespace skipping, `operator>>` on numbers and words,
  `std::getline`, decimal output) is in `text.dfy`.

Each source file becomes one module; 2018 day 7's worker pool has a module
of its own. Code that changes state step by step becomes methods with loops.
In-place structures become classes, and the source's bitsets, vectors
and maps become Dafny sets, sequences and maps. Each such method is proved
against a specification function. The properties the source promises are
proved about those functions as lemmas.

`intmax_t` and `size_t` arithmetic is exact unless a wrap-around is
observable. Where it is (2019 day 1, the `size_t` casts of 2018 day 8,
`istream >> unsigned`), the model applies it modulo 2^64.

## Model

| member | source | states |
|---|---|---|
| Serialize.WriteOptional | source/aoc/include/aoc/serialize.h:9-15 | a good stream gets the value's text, or "N/A" for an empty optional, appended after what it held; a failed stream is left untouched |
| Serialize.WriteSomeReadBack | source/aoc/include/aoc/serialize.h:11 | an engaged integer optional, once written, reads back as its value |
| Serialize.WriteNoneReadBack | source/aoc/include/aoc/serialize.h:12 | "N/A" does not read back as a number |
| SolverContract.CreateSolver | source/aoc/include/aoc/solver.h:69-76 | the created solver reports the given year and day and holds exactly the given three callbacks |
| SolverContract.Parse | source/aoc/include/aoc/solver.h:39-44 | the sentry skips leading whitespace; a stream with nothing else fails with "invalid input stream", otherwise `parse_input` decides on the rest |
| SolverContract.ParseSkipsLeadingSpace | source/aoc/include/aoc/solver.h:41 | whitespace in front of the input never changes what `parse` returns |
| SolverContract.SkipWsSpaces | source/aoc/include/aoc/solver.h:41 | the sentry skips any run of whitespace in front of the text |
| Harness.FirstLine | source/aoc/src/aoc/solver.cpp:38-40 | the first line is the longest prefix without '\n', and a '\n' ends it when it is shorter than the text |
| Harness.Equal | source/aoc/src/aoc/solver.cpp:35-47 | a comparison passes exactly when the first lines of the expected and produced texts agree, and writes a diagnostic exactly when it fails |
| Harness.EqualSingleLines | source/aoc/src/aoc/solver.cpp:42 | on single lines the comparison is plain string equality, nothing is trimmed |
| Harness.EqualIgnoresLaterLines | source/aoc/src/aoc/solver.cpp:38-40 | whatever follows the first '\n' of either text is never compared |
| Harness.FirstLineOf | source/aoc/src/aoc/solver.cpp:38-40 | the first line of `line + "\n" + rest` is `line` |
| Harness.EqualDiagnostic | source/aoc/src/aoc/solver.cpp:43 | a mismatch writes "Expected '<expected>' but found '<produced>'" with both first lines |
| Harness.JoinPath | source/aoc/src/aoc/solver.cpp:68-70 | `/=` keeps the directory as a prefix and the name as a suffix |
| Harness.Pad2ReadsBack | source/aoc/src/aoc/solver.cpp:71-73 | the day padded to two digits with '0' is all digits and reads back as the day |
| Harness.LeadingZero | source/aoc/src/aoc/solver.cpp:72 | a '0' of fill in front of digits changes no value |
| Harness.LastEntry | source/aoc/src/aoc/solver.cpp:90-102 | the entry a stem and extension end up with is a regular entry of the listing with them, and none exists when it is absent |
| Harness.LexLessIrreflexive | source/aoc/src/aoc/solver.cpp:79 | the `std::map` key order is irreflexive |
| Harness.LexLessTransitive | source/aoc/src/aoc/solver.cpp:79 | the `std::map` key order is transitive |
| Harness.LexLessTotal | source/aoc/src/aoc/solver.cpp:79 | the `std::map` key order is total on distinct keys |
| Harness.LeastExists | source/aoc/src/aoc/solver.cpp:107 | a non-empty key set has a least key, the one the map visits first |
| Harness.LeastBelow | source/aoc/src/aoc/solver.cpp:107 | a key below the least key is below every key |
| Harness.CollectInputs | source/aoc/src/aoc/solver.cpp:80-88 | the map holds exactly the stems of the regular ".in" files, each with its input file and no expected files |
| Harness.AttachExpected | source/aoc/src/aoc/solver.cpp:90-102 | the stems are unchanged and each problem gets the last regular ".outA" and ".outB" file of its stem, if any |
| Harness.AttachOne | source/aoc/src/aoc/solver.cpp:91-101 | one directory entry keeps the loop invariant: each problem holds the last expected files seen so far |
| Harness.LastEntryStep | source/aoc/src/aoc/solver.cpp:99-100 | the last matching entry of a listing one entry longer is the new entry when it matches, the old one otherwise |
| Harness.Drain | source/aoc/src/aoc/solver.cpp:106-107 | the problems are moved out of the map in strictly ascending key order, every key exactly once |
| Harness.DrainedIsDataset | source/aoc/src/aoc/solver.cpp:79-107 | the drained problems form the dataset the listing determines |
| Harness.ParseArgs | source/aoc/src/aoc/solver.cpp:57-110 | a wrong argument count, a missing day directory or a directory without inputs fail with a parse error; otherwise the dataset is the one the listing determines |
| Harness.UnquoteQuoteBody | source/aoc/src/aoc/solver.cpp:117 | the file name printed with `std::quoted` reads back as the name |
| Harness.AppendReport | source/aoc/src/aoc/solver.cpp:115-198 | the output of one more problem is appended after the output of the earlier ones |
| Harness.SolvePart | source/aoc/src/aoc/solver.cpp:134-163 | one part is compared against its expected file when there is one and printed otherwise; a mismatch writes "[FAILED]" and its diagnostic to the errors buffer |
| Harness.SolveProblem | source/aoc/src/aoc/solver.cpp:115-197 | one problem writes the line its report renders to, and the parsed input is released exactly when it was parsed |
| Harness.Report | source/aoc/src/aoc/solver.cpp:115-197 | a problem's report keeps its input file and records a parse failure exactly when parsing fails |
| Harness.Render | source/aoc/src/aoc/solver.cpp:115-197 | the lines written for a problem start with its quoted file name and end with a newline |
| Harness.SolvedStep | source/aoc/src/aoc/solver.cpp:115-198 | one more problem keeps the loop invariant of `solve` |
| Harness.Solve | source/aoc/src/aoc/solver.cpp:112-200 | every problem is reported in dataset order, each parse is matched by one cleanup, and the exit code is 0 |
| Harness.Run | source/aoc/src/aoc/solver.cpp:203-212 | a configuration error writes the fixed text "an exception has occurred" to stderr and exits with 255; otherwise the dataset is solved in ascending stem order and the code is 0 |
| Harness.ReportsInOrder | source/aoc/src/aoc/solver.cpp:106-107 | reports come in ascending order of input stem |
| Harness.NeverErrored | source/aoc/src/aoc/solver.cpp:158-163 | since `solveA`/`solveB` are `noexcept`, no part ever ends in "[ERROR]" |
| Harness.ParseDecidesRun | source/aoc/src/aoc/solver.cpp:119-129 | a problem is skipped with "ERROR - could not parse input" exactly when parsing fails, otherwise both parts run |
| Harness.PartModes | source/aoc/src/aoc/solver.cpp:137-187 | each part is compared exactly when its own expected file exists and depends only on the input and that file |
| Harness.DiagnosticsOnlyOnFailure | source/aoc/src/aoc/solver.cpp:196 | the diagnostics block is written exactly when some part failed |
| Harness.DatasetUnique | source/aoc/src/aoc/solver.cpp:79-107 | a listing determines its dataset: two datasets of one listing are equal |
| Harness.StemsOf | source/aoc/src/aoc/solver.cpp:107 | the stems of a dataset are listed in its order |
| Harness.DatasetStems | source/aoc/src/aoc/solver.cpp:104-107 | a dataset's stems ascend strictly and are exactly the listing's input stems |
| Harness.StemOfDataset | source/aoc/src/aoc/solver.cpp:83-86 | every problem of the dataset comes from a regular ".in" file of the listing |
| Harness.AscendingUnique | source/aoc/src/aoc/solver.cpp:107 | two strictly ascending key sequences with the same keys are equal |
| Vector.Index | source/baselib/include/ddr/math/vector.h:47-54 | `v[0]` reads x and `v[1]` reads y through the array view of the union |
| Vector.EqualityComponentwise | source/baselib/include/ddr/math/vector.h:20-21 | two vectors are equal exactly when both components are, and `!=` is the negation of that |
| Vector.SubAdd | source/baselib/include/ddr/math/vector.h:22-23 | subtracting a vector undoes adding it, and the other way round |
| Vector.MinMaxBounds | source/baselib/include/ddr/math/vector.h:42-43 | `min` and `max` are the componentwise greatest lower and least upper bounds, and are symmetric |
| Vector.AbsComponents | source/baselib/include/ddr/math/vector.h:44 | `abs` keeps each component's magnitude, makes it non-negative and is idempotent |
| Vector.ManhMetric | source/baselib/include/ddr/math/vector.h:45 | Manhattan distance is non-negative, symmetric, zero exactly on equal points and obeys the triangle inequality |
| Vector.ManhTranslation | source/baselib/include/ddr/math/vector.h:45 | moving both points by the same vector leaves their Manhattan distance unchanged |
| Vector.Vec2Var.constructor | source/baselib/include/ddr/math/vector.h:16 | the vector built from x and y holds exactly those components |
| Vector.Vec2Var.AddAssign | source/baselib/include/ddr/math/vector.h:24 | `+=` leaves the value `old + other` in place |
| Vector.Vec2Var.SubAssign | source/baselib/include/ddr/math/vector.h:25 | `-=` leaves the value `old - other` in place |
| Grid.RowMajorInRange | source/baselib/include/ddr/math/grid.h:46-48 | an in-bounds index has a linear index in [0, width*height) from which column and row are read back |
| Grid.PointRowMajor | source/baselib/include/ddr/math/grid.h:46-48 | every linear index below width*height names exactly one in-bounds cell |
| Grid.RowMajorInjective | source/baselib/include/ddr/math/grid.h:46-48 | distinct in-bounds cells have distinct linear indices |
| Grid.DivModUnique | source/baselib/include/ddr/math/grid.h:46-48 | quotient and remainder of a row-major position are unique, which makes the layout invertible |
| Grid.Grid2.Empty | source/baselib/include/ddr/math/grid.h:17 | the default grid has zero bounds and no cells |
| Grid.Grid2.constructor | source/baselib/include/ddr/math/grid.h:18-25 | `grid2(size)` requires both dimensions positive and holds width*height value-initialised cells |
| Grid.Grid2.Resize | source/baselib/include/ddr/math/grid.h:27-34 | `resize` drops the old cells and holds width*height value-initialised cells with the new bounds |
| Grid.Grid2.Set | source/baselib/include/ddr/math/grid.h:36-39 | writing through `operator[]` changes the cell at the linear index and no other |
| Grid.SetKeepsOthers | source/baselib/include/ddr/math/grid.h:36-48 | writing one in-bounds cell leaves every other in-bounds cell as it was |
| Hyperbox.DivAgrees | source/baselib/include/ddr/math/hyperbox.h:25 | `std::div` (truncating) agrees with Euclidean division on a non-negative dividend and a positive divisor |
| Hyperbox.Increment | source/baselib/include/ddr/math/hyperbox.h:24-29 | `++it` stays on the same rectangle |
| Hyperbox.BeginIsNth | source/baselib/include/ddr/math/hyperbox.h:38 | `begin()` is the 0th point of the row-major walk |
| Hyperbox.IncrementNth | source/baselib/include/ddr/math/hyperbox.h:24-29 | incrementing the k-th point of the walk gives the (k+1)-th |
| Hyperbox.NthEnd | source/baselib/include/ddr/math/hyperbox.h:39-41 | the walk reaches `end()` exactly after width*height steps, and every earlier point lies inside the rectangle |
| Hyperbox.NthInjective | source/baselib/include/ddr/math/hyperbox.h:24-29 | the walk never visits the same point twice |
| Hyperbox.NthCovers | source/baselib/include/ddr/math/hyperbox.h:24-41 | every point of the rectangle is visited, at its row-major offset |
| Hyperbox.NthRowOrder | source/baselib/include/ddr/math/hyperbox.h:24-29 | points come row by row, left to right within a row |
| Hyperbox.NoRows | source/baselib/include/ddr/math/hyperbox.h:38-41 | with zero height `begin() == end()` |
| Hyperbox.PointsOnce | source/baselib/include/ddr/math/hyperbox.h:24-41 | the range visits each point of the rectangle exactly once and no point outside it |
| Hyperbox.Walk | source/baselib/include/ddr/math/hyperbox.h:24-41 | the range-for loop from `begin()` to `end()` visits exactly the row-major points of the rectangle |
| Text.SkipWs | source/aoc/include/aoc/solver.h:41 | the sentry drops exactly the leading whitespace: what is left is a suffix that does not start with whitespace |
| Text.IndexOf | source/aoc/src/aoc/solver.cpp:40 | `find('\n')` gives the first position of the character, or the length when it is absent |
| Text.ReadSigned | source/aoc/src/aoc2018/d01/solver.cpp:23-25 | an extraction that succeeds consumes at least one character |
| Text.ReadUnsigned | source/aoc/src/aoc2019/d01/solver.cpp:43-45 | an unsigned extraction reads the same numeral as a signed one and agrees with it on non-negative values; a failing one fails the same way |
| Text.Wrap | source/aoc/src/aoc2019/d01/solver.cpp:21-26 | `std::size_t(x)` is the value in [0, 2^64) congruent to x, and x itself when it already lies there |
| Text.WrapAdd | source/aoc/src/aoc2019/d01/solver.cpp:21-26 | adding in `std::size_t` step by step agrees with wrapping the exact total |
| Text.ReadWord | source/aoc/src/aoc2018/d02/solver.cpp:27-29 | `is >> str` reads a non-empty word without whitespace |
| Text.ReadChar | source/aoc/src/aoc2018/d03/solver.cpp:43 | `is >> c` consumes at least one character when it succeeds |
| Text.NatToStringDigits | source/aoc/src/aoc2019/d01/solver.cpp:43-45 | a natural number is written as digits without a leading zero that read back as the number |
| Text.ReadSignedIntToString | source/aoc/src/aoc2018/d01/solver.cpp:23-25 | an integer written by `operator<<` and followed by a non-digit reads back as that integer |
| Text.IntToStringChars | source/aoc/src/aoc2018/d01/solver.cpp:23-25 | an integer written by `operator<<` is non-empty, does not start with whitespace and holds only '-' and digits, so no line break |
| Text.ReadUnsignedNatToString | source/aoc/src/aoc2019/d01/solver.cpp:43-45 | a natural number written by `operator<<` reads back as that number with unsigned extraction |
| Text.ReadAllSignedIntLines | source/aoc/src/aoc2018/d01/solver.cpp:23-25 | integers written one per line read back as the same list, and reading stops at the end of the stream |
| Text.ReadAllUnsignedNatLines | source/aoc/src/aoc2019/d01/solver.cpp:43-45 | natural numbers written one per line read back as the same list, reaching the end of the stream |
| Text.ReadAllWordsLines | source/aoc/src/aoc2018/d02/solver.cpp:27-29 | words written one per line read back as the same list, reaching the end of the stream |
| Text.ReadWordBack | source/aoc/src/aoc2018/d02/solver.cpp:27-29 | a word followed by whitespace reads back as that word |
| Text.ReadSignedSkipsSpace | source/aoc/src/aoc2018/d01/solver.cpp:23-25 | leading whitespace never changes a signed extraction |
| Text.ReadUnsignedSkipsSpace | source/aoc/src/aoc2019/d01/solver.cpp:43-45 | leading whitespace never changes an unsigned extraction |
| Text.ReadAllSignedSkipsSpace | source/aoc/src/aoc2018/d01/solver.cpp:23-25 | leading whitespace never changes what `istream_iterator<intmax_t>` reads |
| Text.ReadAllUnsignedSkipsSpace | source/aoc/src/aoc2019/d01/solver.cpp:43-45 | leading whitespace never changes what `istream_iterator<size_t>` reads |
| Text.ReadAllWordsSkipsSpace | source/aoc/src/aoc2018/d02/solver.cpp:27-29 | leading whitespace never changes what `istream_iterator<string>` reads |
| Text.ReadAllSignedStep | source/aoc/src/aoc2018/d01/solver.cpp:23-25 | the iterator's list is the first value read followed by what the rest of the stream gives |
| Text.ReadAllUnsignedStep | source/aoc/src/aoc2019/d01/solver.cpp:43-45 | the unsigned iterator's list is the first value read followed by what the rest gives |
| Text.ReadAllWordsStep | source/aoc/src/aoc2018/d02/solver.cpp:27-29 | the word iterator's list is the first word followed by what the rest gives |
| Text.PlainNumeral | source/aoc/src/aoc2018/d01/solver.cpp:23-25 | an unsigned run of digits followed by a non-digit reads as its decimal value |
| Text.NegativeNumeral | source/aoc/src/aoc2018/d01/solver.cpp:23-25 | a '-' in front of a run of digits reads as the negated value |
| Text.SplitPieces | source/aoc/src/aoc2019/d02/solver.cpp:32-38 | the pieces of `getline(is, piece, delim)` never hold the delimiter |
| Text.SplitTerminated | source/aoc/src/aoc2019/d02/solver.cpp:32-38 | the pieces, each followed by the delimiter, give back the text, with one delimiter added when the text did not end in one |
| Text.SplitOfTerminated | source/aoc/src/aoc2019/d02/solver.cpp:32-38 | delimiter-free pieces, each followed by the delimiter, split back into the same pieces |
| Text.SplitFirstPiece | source/aoc/src/aoc2019/d02/solver.cpp:32-38 | a delimiter-free piece and the delimiter come off as the first piece |
| Aoc2018D01.ParseInput | source/aoc/src/aoc2018/d01/solver.cpp:21-29 | the input is accepted exactly when every token is an integer, the stream is read to its end and at least one was read; the list is the integers read |
| Aoc2018D01.ParseInputLines | source/aoc/src/aoc2018/d01/solver.cpp:21-29 | a non-empty list written one integer per line parses back to itself |
| Aoc2018D01.ParseInputRejectsWord | source/aoc/src/aoc2018/d01/solver.cpp:25 | a word where a number should be stops extraction short of the end and is rejected |
| Aoc2018D01.ReadAllSignedWord | source/aoc/src/aoc2018/d01/solver.cpp:24 | the integers before a word are read and the iterator stops at the word without reaching the end |
| Aoc2018D01.SumConcat | source/aoc/src/aoc2018/d01/solver.cpp:31-34 | the total is additive over concatenation, so part A is the frequency after one pass |
| Aoc2018D01.Frequencies | source/aoc/src/aoc2018/d01/solver.cpp:84-92 | the running sums are 0 followed by the frequency after each of the first N-1 changes |
| Aoc2018D01.FreqDecomp | source/aoc/src/aoc2018/d01/solver.cpp:62-71 | the frequency after q whole passes and i more changes is the i-th running sum plus q times the total |
| Aoc2018D01.CandidateRepeats | source/aoc/src/aoc2018/d01/solver.cpp:72-78 | every pair `fs[i] + k*d == fs[j]` with k >= 0 and a later time is a frequency reached twice, at time i + k*N |
| Aoc2018D01.RepeatHasCandidate | source/aoc/src/aoc2018/d01/solver.cpp:72-73 | every repetition in time has such a pair no later than it, so the first repeated frequency is one of the first pass |
| Aoc2018D01.RepeatArith | source/aoc/src/aoc2018/d01/solver.cpp:72 | if `f[i] + n*d == f[j] + m*d` with n > m then `f[i] + (n-m)*d == f[j]` at a no later time |
| Aoc2018D01.FirstCandidateIsFirstRepeat | source/aoc/src/aoc2018/d01/solver.cpp:74-78 | the pair reached first in time is the first repetition, and its value is the frequency repeated |
| Aoc2018D01.NoCandidateNoRepeat | source/aoc/src/aoc2018/d01/solver.cpp:74-78 | without such a pair no frequency is ever reached twice |
| Aoc2018D01.FirstRepetition | source/aoc/src/aoc2018/d01/solver.cpp:36-46 | as written: none exactly when all values are distinct; otherwise the value at the first position whose value occurs again later |
| Aoc2018D01.FirstRepeat | source/aoc/src/aoc2018/d01/solver.cpp:36-46 | as intended: none exactly when all values are distinct; otherwise the value at the first position whose value occurred before |
| Aoc2018D01.ResultBAsWritten | source/aoc/src/aoc2018/d01/solver.cpp:50-121 | `resultB` as written: with total 0 the first-repetition value or `fs[0]`; otherwise the pair with the smallest pass count, first in order of i |
| Aoc2018D01.BestHit | source/aoc/src/aoc2018/d01/solver.cpp:99-120 | the double loop keeps a pair `(i, j)`, i != j, with the smallest non-negative exact quotient `(fs[j]-fs[i])/d`, first in loop order; none exactly when no pair qualifies |
| Aoc2018D01.CandidatePassesExact | source/aoc/src/aoc2018/d01/solver.cpp:106-114 | the loop's test (zero remainder, non-negative quotient of `std::div`) holds exactly for the pass count of a candidate pair |
| Aoc2018D01.QuotExact | source/aoc/src/aoc2018/d01/solver.cpp:107 | `std::div` of an exact multiple gives the multiplier and remainder 0 |
| Aoc2018D01.TimeOrder | source/aoc/src/aoc2018/d01/solver.cpp:76-78 | pairs with a smaller pass count come earlier in time whatever their positions |
| Aoc2018D01.ZeroTotalRepeat | source/aoc/src/aoc2018/d01/solver.cpp:80-81 | with total 0 the first position whose value occurred before gives the first repetition |
| Aoc2018D01.ZeroTotalNoRepeat | source/aoc/src/aoc2018/d01/solver.cpp:95-96 | with total 0 and no value repeated in a pass, 0 is reached again first, after one pass |
| Aoc2018D01.ResultB | source/aoc/src/aoc2018/d01/solver.cpp:50-121 | part B as intended: the value returned is the frequency at the first time a frequency is reached twice, and none exactly when no frequency is ever repeated |
| Aoc2018D01.FirstRepeatUnique | source/aoc/src/aoc2018/d01/solver.cpp:50-59 | the first repetition in time is unique, so part B is well defined |
| Aoc2018D01.ExampleFreqs | source/aoc/src/aoc2018/d01/solver.cpp:50-59 | on changes starting +1, +1, 0 the frequency 2 is the first reached twice, at time 3 |
| Aoc2018D01.ZeroTotalCounterexample | source/aoc/src/aoc2018/d01/solver.cpp:95-96 | on [1, 1, 0, -1, -1] (total 0) `first_repetition` returns 1 while the first repeated frequency is 2 |
| Aoc2018D01.NonZeroTotalCounterexample | source/aoc/src/aoc2018/d01/solver.cpp:99-120 | on [1, 1, 0, -1, 5] (total 6) the loop returns 1 while the first repeated frequency is 2 |
| Aoc2018D01.PrefixOfExample | source/aoc/src/aoc2018/d01/solver.cpp:84-92 | the running sums of both counterexamples are [0, 1, 2, 2, 1] |
| Aoc2018D02.ParseInput | source/aoc/src/aoc2018/d02/solver.cpp:24-38 | the input is accepted exactly when the stream is read to its end and yields at least one word, all as long as the first and made of 'a'-'z'; the list is the words read |
| Aoc2018D02.ParseInputLines | source/aoc/src/aoc2018/d02/solver.cpp:24-38 | valid ids written one per line parse back to themselves |
| Aoc2018D02.ParseInputRejectsLengths | source/aoc/src/aoc2018/d02/solver.cpp:33-35 | ids of different lengths are rejected |
| Aoc2018D02.Tally | source/aoc/src/aoc2018/d02/solver.cpp:59-60 | the count of ids with a letter occurring exactly n times is at most the number of ids |
| Aoc2018D02.Sort | source/aoc/src/aoc2018/d02/solver.cpp:45 | `std::sort` gives a sorted permutation of the id's letters |
| Aoc2018D02.InsertSorted | source/aoc/src/aoc2018/d02/solver.cpp:45 | inserting a letter into a sorted string keeps it sorted and adds exactly that letter |
| Aoc2018D02.RunFlags | source/aoc/src/aoc2018/d02/solver.cpp:47-58 | the `adjacent_find` scan sets `has_two`/`has_three` exactly when a maximal run of equal letters has length 2/3 |
| Aoc2018D02.RunsDisjoint | source/aoc/src/aoc2018/d02/solver.cpp:51-57 | two overlapping maximal runs are the same run |
| Aoc2018D02.RunCount | source/aoc/src/aoc2018/d02/solver.cpp:54 | in a sorted string a maximal run holds every occurrence of its letter |
| Aoc2018D02.RunOf | source/aoc/src/aoc2018/d02/solver.cpp:51-57 | every letter of a string has a maximal run in its sorted copy |
| Aoc2018D02.SortedRuns | source/aoc/src/aoc2018/d02/solver.cpp:45-58 | on a sorted string a run of length n exists exactly when some letter occurs exactly n times |
| Aoc2018D02.SameLetters | source/aoc/src/aoc2018/d02/solver.cpp:45 | letter counts depend only on the multiset of letters, so sorting the copy changes none |
| Aoc2018D02.IdFlags | source/aoc/src/aoc2018/d02/solver.cpp:44-58 | the flags of an id are: some letter occurs exactly twice, some letter occurs exactly three times |
| Aoc2018D02.CountId | source/aoc/src/aoc2018/d02/solver.cpp:44-60 | one iteration adds the id's flags to the two tallies |
| Aoc2018D02.TallyStep | source/aoc/src/aoc2018/d02/solver.cpp:59-60 | the tallies of one more id grow by that id's flags |
| Aoc2018D02.ResultA | source/aoc/src/aoc2018/d02/solver.cpp:40-64 | the checksum is (ids with a letter exactly twice) times (ids with a letter exactly three times) |
| Aoc2018D02.PrefixesIff | source/aoc/src/aoc2018/d02/solver.cpp:78-93 | the nodes a path creates are exactly the strings it starts with |
| Aoc2018D02.Letter | source/aoc/src/aoc2018/d02/solver.cpp:71-76 | child slot c stands for the lower-case letter 'a' + c |
| Aoc2018D02.Trie.constructor | source/aoc/src/aoc2018/d02/solver.cpp:127 | a new trie holds only its root |
| Aoc2018D02.Trie.Insert | source/aoc/src/aoc2018/d02/solver.cpp:78-93 | inserting a string adds exactly the nodes of its prefixes and keeps the trie prefix-closed |
| Aoc2018D02.Trie.AddRemaining | source/aoc/src/aoc2018/d02/solver.cpp:84-91 | the inner do-while creates one node per remaining letter |
| Aoc2018D02.InsertStep | source/aoc/src/aoc2018/d02/solver.cpp:80-90 | one more letter of `insert` adds the node of the next prefix and keeps the trie well formed |
| Aoc2018D02.AddChild | source/aoc/src/aoc2018/d02/solver.cpp:88 | adding a node under an existing parent keeps the trie prefix-closed |
| Aoc2018D02.Trie.FindSimilar | source/aoc/src/aoc2018/d02/solver.cpp:95-120 | the walk along the existing children, with one detour allowed, returns what the recursive search specification returns |
| Aoc2018D02.Trie.Find | source/aoc/src/aoc2018/d02/solver.cpp:122-125 | `find` is the search from the root with budget 1 |
| Aoc2018D02.SimilarExact | source/aoc/src/aoc2018/d02/solver.cpp:107-117 | with no budget left the search succeeds exactly when the whole string is a path below the node, and returns it |
| Aoc2018D02.Similar | source/aoc/src/aoc2018/d02/solver.cpp:95-120 | with no budget left the only possible result is the string itself |
| Aoc2018D02.SimilarLength | source/aoc/src/aoc2018/d02/solver.cpp:95-120 | a result is as long as the string shortened by the budget spent |
| Aoc2018D02.ChildrenNone | source/aoc/src/aoc2018/d02/solver.cpp:109-114 | the scan over the children fails exactly when the search below every existing child fails |
| Aoc2018D02.SimilarOfPath | source/aoc/src/aoc2018/d02/solver.cpp:117-119 | a string that is a whole path never counts as one letter away |
| Aoc2018D02.SimilarSound | source/aoc/src/aoc2018/d02/solver.cpp:95-120 | with budget 1 a result is the string with one position dropped, and the string with another letter there is a path |
| Aoc2018D02.PathsOfClosed | source/aoc/src/aoc2018/d02/solver.cpp:132-140 | the trie of any list of ids holds the root and is prefix-closed |
| Aoc2018D02.FullPaths | source/aoc/src/aoc2018/d02/solver.cpp:132-140 | a full-length path of the trie is one of the ids inserted |
| Aoc2018D02.MatchIn | source/aoc/src/aoc2018/d02/solver.cpp:137 | a match found for an id pairs it with an earlier id that differs in exactly one position, and returns their common letters |
| Aoc2018D02.HitAt | source/aoc/src/aoc2018/d02/solver.cpp:135-138 | a match found for id i pairs it with an earlier id one letter apart |
| Aoc2018D02.HitSound | source/aoc/src/aoc2018/d02/solver.cpp:130-142 | every answer of `resultB` is the common letters of two ids that differ in exactly one position |
| Aoc2018D02.ResultB | source/aoc/src/aoc2018/d02/solver.cpp:130-142 | the loop inserts the first id and then looks each later id up before inserting it, returning the first hit |
| Aoc2018D02.Hits | source/aoc/src/aoc2018/d02/solver.cpp:130-142 | none exactly when no id is found one letter away in the trie of the ids before it |
| Aoc2018D02.GreedyMiss | source/aoc/src/aoc2018/d02/solver.cpp:99-114 | on ["aaa", "bbc", "abc"] the greedy walk finds nothing although "bbc" and "abc" differ in one letter |
| Aoc2018D02.Paths1 | source/aoc/src/aoc2018/d02/solver.cpp:134 | the trie of "aaa" holds exactly its prefixes |
| Aoc2018D02.Paths2 | source/aoc/src/aoc2018/d02/solver.cpp:139 | the trie of "aaa" and "bbc" holds exactly their prefixes |
| Aoc2018D02.FirstMiss | source/aoc/src/aoc2018/d02/solver.cpp:99-114 | "bbc" finds no near match in the trie of "aaa" |
| Aoc2018D02.SecondMiss | source/aoc/src/aoc2018/d02/solver.cpp:99-114 | "abc" finds no near match in the trie of "aaa" and "bbc": the walk follows 'a' and never backtracks |
| Aoc2018D02.OnlyMismatch | source/aoc/src/aoc2018/d02/solver.cpp:95-120 | the only position where two ids of equal length differ, or none when they differ in zero or several positions |
| Aoc2018D02.ResultBPairwise | source/aoc/src/aoc2018/d02/solver.cpp:130-142 | as intended: none exactly when no id has an earlier id one letter away; otherwise the common letters of such a pair, for the first id that has one |
| Aoc18D02.SolveA | source/aoc/src/aoc18/d02/solver.cpp:106-132 | the older `solveA` writes the checksum as a numeral that reads back as (ids with a letter exactly twice) times (ids with a letter exactly three times) |
| Aoc18D02.SolveB | source/aoc/src/aoc18/d02/solver.cpp:135-141 | the older `solveB` writes the answer of `resultB`, or "N/A" when there is none |
| Aoc18D02.SolveBUnambiguous | source/aoc/src/aoc18/d02/solver.cpp:139-140 | an answer is made of lower-case letters and is never the text "N/A" |
| Aoc2018D03.Expect | source/aoc/src/aoc2018/d03/solver.cpp:40-45 | `expect(c)` succeeds exactly when the next non-blank character is c, and consumes it |
| Aoc2018D03.LastField | source/aoc/src/aoc2018/d03/solver.cpp:62 | the last field is accepted exactly when its numeral runs to the end of the line; a failed extraction that hit the end leaves the value-initialised 0 |
| Aoc2018D03.Then | source/aoc/src/aoc2018/d03/solver.cpp:55-61 | a separator followed by an integer consumes part of the line |
| Aoc2018D03.ParseClaim | source/aoc/src/aoc2018/d03/solver.cpp:51-65 | a line is accepted exactly when all five fields are read in order and none of x, y, w, h is negative; the claim holds the fields read |
| Aoc2018D03.ParseLines | source/aoc/src/aoc2018/d03/solver.cpp:48-66 | every claim accepted has no negative field, and there are never more claims than lines (empty lines give none) |
| Aoc2018D03.ParseInput | source/aoc/src/aoc2018/d03/solver.cpp:36-69 | every claim of an accepted input has no negative coordinate or size |
| Aoc2018D03.ParseLinesAccepted | source/aoc/src/aoc2018/d03/solver.cpp:48-66 | the line loop succeeds exactly when every non-empty line is a claim |
| Aoc2018D03.ParseInputBadLine | source/aoc/src/aoc2018/d03/solver.cpp:48-66 | one non-empty line that is not a claim fails the whole input |
| Aoc2018D03.ParseLinesOfParsed | source/aoc/src/aoc2018/d03/solver.cpp:48-66 | lines that are each a claim are read back as exactly those claims, in order |
| Aoc2018D03.WrittenChars | source/aoc/src/aoc2018/d03/solver.cpp:51-65 | a claim written as "#id @ x,y: wxh" starts with '#' and holds no line break, so it is one non-empty line |
| Aoc2018D03.ParseLinesWritten | source/aoc/src/aoc2018/d03/solver.cpp:48-66 | claims with nothing negative, one per line, are read back as exactly those claims, in order |
| Aoc2018D03.ParseInputWritten | source/aoc/src/aoc2018/d03/solver.cpp:36-69 | claims with nothing negative, written one per '\n'-ended line, parse back to exactly those claims, in order |
| Aoc2018D03.LayoutFields | source/aoc/src/aoc2018/d03/solver.cpp:53-62 | the fields of a "#id @ x,y: wx<rest>" line are id, x, y, w and whatever the last field reads |
| Aoc2018D03.ParseClaimText | source/aoc/src/aoc2018/d03/solver.cpp:51-65 | a claim written as "#id @ x,y: wxh" parses back to itself exactly when none of its fields is negative |
| Aoc2018D03.TrailingBlank | source/aoc/src/aoc2018/d03/solver.cpp:62 | anything after the height, even a blank, makes the line invalid |
| Aoc2018D03.MissingHeight | source/aoc/src/aoc2018/d03/solver.cpp:62 | a line with the height missing is accepted with height 0 |
| Aoc2018D03.FieldsChain | source/aoc/src/aoc2018/d03/solver.cpp:53-62 | the fields of a line follow from the outcome of each extraction in turn |
| Aoc2018D03.Coverage | source/aoc/src/aoc2018/d03/solver.cpp:85-87 | an inch is covered by at most as many claims as there are |
| Aoc2018D03.CoverageSnoc | source/aoc/src/aoc2018/d03/solver.cpp:85-87 | one more claim adds one to the coverage of exactly its own inches |
| Aoc2018D03.CoveragePositive | source/aoc/src/aoc2018/d03/solver.cpp:85-87 | an inch is covered exactly when some claim's rectangle holds it |
| Aoc2018D03.CoverageOthers | source/aoc/src/aoc2018/d03/solver.cpp:113 | an inch of claim i has count 1 exactly when no other claim covers it |
| Aoc2018D03.Overlapping | source/aoc/src/aoc2018/d03/solver.cpp:89 | an inch counts for part A exactly when two different claims cover it |
| Aoc2018D03.BoardSize | source/aoc/src/aoc2018/d03/solver.cpp:76-83 | the board size is never negative |
| Aoc2018D03.BoardSizeBounds | source/aoc/src/aoc2018/d03/solver.cpp:76-83 | the board reaches the far corner of every claim, and each dimension is 0 or some claim's far corner |
| Aoc2018D03.ClaimOnBoard | source/aoc/src/aoc2018/d03/solver.cpp:76-83 | every claim lies within the board |
| Aoc2018D03.MaxCorner | source/aoc/src/aoc2018/d03/solver.cpp:77-81 | the sizing loop computes the componentwise maximum of the far corners, starting from (0, 0) |
| Aoc2018D03.OnBoard | source/aoc/src/aoc2018/d03/solver.cpp:85-87 | every inch of a parsed claim lies inside the board |
| Aoc2018D03.BeforeStep | source/aoc/src/aoc2018/d03/solver.cpp:86 | one more step of the rectangle walk adds exactly the inch it is at |
| Aoc2018D03.BeforeAll | source/aoc/src/aoc2018/d03/solver.cpp:86 | after the whole walk the inches visited are the inches of the rectangle |
| Aoc2018D03.CellAt | source/aoc/src/aoc2018/d03/solver.cpp:87 | the cell at row-major position k is q exactly when k is q's linear index |
| Aoc2018D03.MarkingStart | source/aoc/src/aoc2018/d03/solver.cpp:86 | before the walk, the board counts the earlier claims |
| Aoc2018D03.MarkingStep | source/aoc/src/aoc2018/d03/solver.cpp:87 | `++board[idx]` at the walk's inch counts one more step of the claim |
| Aoc2018D03.MarkingEnd | source/aoc/src/aoc2018/d03/solver.cpp:86-87 | after the walk, the board counts the claim too |
| Aoc2018D03.Mark | source/aoc/src/aoc2018/d03/solver.cpp:86-87 | marking a claim adds one to exactly its inches: each cell then holds the coverage by the claims so far |
| Aoc2018D03.FillBoard | source/aoc/src/aoc2018/d03/solver.cpp:73-87 | the board is sized by the far corners and each cell holds the number of claims covering it |
| Aoc2018D03.AboveStep | source/aoc/src/aoc2018/d03/solver.cpp:89 | the cells above 1 among one more cell grow by that cell when it holds more than 1 |
| Aoc2018D03.AboveOverlaps | source/aoc/src/aoc2018/d03/solver.cpp:89 | the counted board holds more than 1 exactly at the inches claimed twice or more |
| Aoc2018D03.CountAbove | source/aoc/src/aoc2018/d03/solver.cpp:89 | `count_if(n > 1)` counts the cells holding more than 1 |
| Aoc2018D03.ResultA | source/aoc/src/aoc2018/d03/solver.cpp:71-90 | part A is the number of square inches claimed more than once |
| Aoc2018D03.IsolatedMeansNoOverlap | source/aoc/src/aoc2018/d03/solver.cpp:110-118 | a claim passes part B's test exactly when it overlaps no other claim |
| Aoc2018D03.AllOnce | source/aoc/src/aoc2018/d03/solver.cpp:111-117 | the scan of a claim succeeds exactly when every inch of it has count 1 |
| Aoc2018D03.ResultB | source/aoc/src/aoc2018/d03/solver.cpp:92-121 | none exactly when every claim overlaps another; otherwise the id of the first claim, in input order, that overlaps no other |
| Aoc18D03.Parse | source/aoc/src/aoc18/d03/solver.cpp:171-211 | a stream in a failed state is rejected; otherwise the lines are parsed as in the newer parser |
| Aoc18D03.ParseEmpty | source/aoc/src/aoc18/d03/solver.cpp:186-210 | an empty stream holds no claims |
| Aoc18D03.Board.constructor | source/aoc/src/aoc18/d03/solver.cpp:60 | the default board has zero bounds and no cells |
| Aoc18D03.Board.Resize | source/aoc/src/aoc18/d03/solver.cpp:68-73 | `resize` clears the cells and holds width*height zero cells with the new bounds |
| Aoc18D03.Mark | source/aoc/src/aoc18/d03/solver.cpp:112-116 | the nested x/y loops add one to exactly the inches of the claim |
| Aoc18D03.FillBoard | source/aoc/src/aoc18/d03/solver.cpp:100-116 | the board is sized by the far corners and each cell holds the number of claims covering it |
| Aoc18D03.ResultA | source/aoc/src/aoc18/d03/solver.cpp:98-119 | part A is the number of square inches claimed more than once |
| Aoc18D03.SolveA | source/aoc/src/aoc18/d03/solver.cpp:155-159 | the older `solveA` writes the number of square inches claimed more than once, as a numeral that reads back |
| Aoc18D03.AllOnce | source/aoc/src/aoc18/d03/solver.cpp:141-146 | the scan of a claim succeeds exactly when every inch of it has count 1 |
| Aoc18D03.ResultB | source/aoc/src/aoc18/d03/solver.cpp:121-151 | none exactly when every claim overlaps another; otherwise the id of the first claim that overlaps no other |
| Aoc18D03.SolveB | source/aoc/src/aoc18/d03/solver.cpp:161-168 | the older `solveB` writes "N/A" exactly when every claim overlaps another, otherwise the id of the first claim that overlaps none |
| Aoc2018D04.Minute | source/aoc/src/aoc2018/d04/solver.cpp:38 | `min()` is the minute in [0, 60) congruent to the time, whatever the sign of the time |
| Aoc2018D04.DateMinute | source/aoc/src/aoc2018/d04/solver.cpp:35-38 | the minute of a time stamp is its minute field |
| Aoc2018D04.Place | source/aoc/src/aoc2018/d04/solver.cpp:36 | one place of the mixed-radix encoding compares lexicographically and is injective |
| Aoc2018D04.DateOrder | source/aoc/src/aoc2018/d04/solver.cpp:35-45 | within the calendar, comparing `date_t`s compares (year, month, day, hour, minute) lexicographically, and equal dates have equal fields |
| Aoc2018D04.Number | source/aoc/src/aoc2018/d04/solver.cpp:82-86 | `(\\d+)` consumes a non-empty run of digits and stops before a non-digit |
| Aoc2018D04.Char | source/aoc/src/aoc2018/d04/solver.cpp:66 | a literal character matches exactly the next character |
| Aoc2018D04.ParseLine | source/aoc/src/aoc2018/d04/solver.cpp:76-95 | a line is rejected exactly when its time stamp does not match; otherwise the record has the stamp's time and the event its action text decides |
| Aoc2018D04.Actions | source/aoc/src/aoc2018/d04/solver.cpp:89-95 | "falls asleep" and "wakes up" are recognised without an id, a shift line names its guard, and any other text leaves a `begin` with no id |
| Aoc2018D04.ShiftAction | source/aoc/src/aoc2018/d04/solver.cpp:91-95 | a shift line is a `begin` naming its guard |
| Aoc2018D04.ShiftId | source/aoc/src/aoc2018/d04/solver.cpp:93 | the id of a shift line reads back as the number written |
| Aoc2018D04.StampNonNegative | source/aoc/src/aoc2018/d04/solver.cpp:82-87 | every time parsed is non-negative |
| Aoc2018D04.Records | source/aoc/src/aoc2018/d04/solver.cpp:72-96 | every record read has a non-negative time |
| Aoc2018D04.InsertSorted | source/aoc/src/aoc2018/d04/solver.cpp:100 | inserting a record into a sorted log keeps it sorted and adds exactly that record |
| Aoc2018D04.SortByProps | source/aoc/src/aoc2018/d04/solver.cpp:116 | sorting by a key keeps every record, orders by key and keeps the order of records with equal keys |
| Aoc2018D04.InsertStable | source/aoc/src/aoc2018/d04/solver.cpp:116 | insertion keeps the order of records with the same key |
| Aoc2018D04.LastBegin | source/aoc/src/aoc2018/d04/solver.cpp:103-107 | the nearest `begin` at or before a position, with no `begin` between |
| Aoc2018D04.CollectRecords | source/aoc/src/aoc2018/d04/solver.cpp:71-96 | the `getline` loop gives the records of the non-empty lines, or the error of the first bad line |
| Aoc2018D04.AddLine | source/aoc/src/aoc2018/d04/solver.cpp:73-95 | one line of the loop: an empty line is skipped, a bad line is the error, any other adds its record |
| Aoc2018D04.RecordsNext | source/aoc/src/aoc2018/d04/solver.cpp:73-95 | the records of one more line follow the loop body |
| Aoc2018D04.RecordsErr | source/aoc/src/aoc2018/d04/solver.cpp:77 | an error in the first lines is the error of the whole text |
| Aoc2018D04.Attribute | source/aoc/src/aoc2018/d04/solver.cpp:103-107 | every record gets the id of the nearest `begin` at or before it |
| Aoc2018D04.ParseInput | source/aoc/src/aoc2018/d04/solver.cpp:61-110 | rejected exactly when a line is bad, no record is read or the earliest record is not a `begin`; otherwise the records sorted by time with every guard filled in |
| Aoc2018D04.AdjacentFind | source/aoc/src/aoc2018/d04/solver.cpp:122 | `adjacent_find` gives the first position whose id differs from the next one's, or the end of the range |
| Aoc2018D04.GroupEnd | source/aoc/src/aoc2018/d04/solver.cpp:122 | a group ends after its first record |
| Aoc2018D04.GroupIds | source/aoc/src/aoc2018/d04/solver.cpp:122 | every record of a group has the first record's id, except possibly a last one the search never compares |
| Aoc2018D04.TrailingRecordFolded | source/aoc/src/aoc2018/d04/solver.cpp:122 | in a log "a, a, b" sorted by id the trailing "b" is folded into the group of "a" |
| Aoc2018D04.Zeros | source/aoc/src/aoc2018/d04/solver.cpp:128 | `totals{}` is 60 zeros |
| Aoc2018D04.AddRange | source/aoc/src/aoc2018/d04/solver.cpp:139-141 | counting a sleep keeps 60 totals |
| Aoc2018D04.Step | source/aoc/src/aoc2018/d04/solver.cpp:131-145 | one event keeps 60 totals |
| Aoc2018D04.Scan | source/aoc/src/aoc2018/d04/solver.cpp:129-146 | the event loop keeps 60 totals |
| Aoc2018D04.SumBump | source/aoc/src/aoc2018/d04/solver.cpp:140 | adding one to a minute adds one to the sum |
| Aoc2018D04.AddRangeSum | source/aoc/src/aoc2018/d04/solver.cpp:139-141 | counting a sleep adds its length to the sum |
| Aoc2018D04.TotalIsSlept | source/aoc/src/aoc2018/d04/solver.cpp:148 | a guard's total is the number of minutes the guard slept |
| Aoc2018D04.FirstMax | source/aoc/src/aoc2018/d04/solver.cpp:149-151 | `max_element` gives the first position of a largest element |
| Aoc2018D04.Info | source/aoc/src/aoc2018/d04/solver.cpp:124-151 | the best minute lies in [0, 60) |
| Aoc2018D04.InfoSummary | source/aoc/src/aoc2018/d04/solver.cpp:124-151 | a guard's summary holds the group's id, the minutes slept, and a minute slept at least as often as any other with its count |
| Aoc2018D04.Infos | source/aoc/src/aoc2018/d04/solver.cpp:119-154 | one summary per group of the sorted log: none exactly for an empty log, never more than the records, each best minute below 60 |
| Aoc2018D04.PickBest | source/aoc/src/aoc2018/d04/solver.cpp:156-157 | the answer is id times best minute of the first guard, in id order, with the largest score, modulo 2^64 |
| Aoc2018D04.Pick | source/aoc/src/aoc2018/d04/solver.cpp:156-157 | the product of id and best minute is reduced to `size_t` |
| Aoc2018D04.InfosNonEmpty | source/aoc/src/aoc2018/d04/solver.cpp:120-154 | a non-empty log has at least one group |
| Aoc2018D04.ScanGroup | source/aoc/src/aoc2018/d04/solver.cpp:124-151 | the loop over one group computes that group's summary |
| Aoc2018D04.ScanNext | source/aoc/src/aoc2018/d04/solver.cpp:130-146 | one more event of the loop is one more step of the scan |
| Aoc2018D04.CountSleep | source/aoc/src/aoc2018/d04/solver.cpp:139-141 | `++totals[i % 60]` for every minute of a sleep |
| Aoc2018D04.SortedTimes | source/aoc/src/aoc2018/d04/solver.cpp:116 | sorting by id keeps every time non-negative |
| Aoc2018D04.InfosStep | source/aoc/src/aoc2018/d04/solver.cpp:120-154 | one more group of the loop appends its summary |
| Aoc2018D04.Result | source/aoc/src/aoc2018/d04/solver.cpp:112-158 | `result<partA>` computes the answer of the stable-sorted, grouped log |
| Aoc2018D05.ParseInput | source/aoc/src/aoc2018/d05/solver.cpp:18-31 | the input is accepted exactly when a first word can be read and it holds only 'a'-'z' and 'A'-'Z'; the polymer is that word |
| Aoc2018D05.ParseInputWord | source/aoc/src/aoc2018/d05/solver.cpp:18-31 | a polymer followed by whitespace parses back to itself |
| Aoc2018D05.ToLower | source/aoc/src/aoc2018/d05/solver.cpp:34-37 | `to_lower` keeps lower-case letters and moves upper-case letters down by 32 |
| Aoc2018D05.OppositeLetters | source/aoc/src/aoc2018/d05/solver.cpp:38-40 | for letters, `opposite` means the same type in different polarity |
| Aoc2018D05.Push | source/aoc/src/aoc2018/d05/solver.cpp:45-49 | one character either grows the stack by one or annihilates its top |
| Aoc2018D05.Reaction | source/aoc/src/aoc2018/d05/solver.cpp:42-53 | the stack loop computes the reacted polymer |
| Aoc2018D05.React | source/aoc/src/aoc2018/d05/solver.cpp:42-53 | the stack the reaction leaves is never longer than the polymer |
| Aoc2018D05.ReactInert | source/aoc/src/aoc2018/d05/solver.cpp:42-53 | the reacted polymer has no two adjacent units that react |
| Aoc2018D05.PushInert | source/aoc/src/aoc2018/d05/solver.cpp:45-49 | one step of the loop keeps the stack inert |
| Aoc2018D05.ReactLength | source/aoc/src/aoc2018/d05/solver.cpp:42-53 | the reaction never lengthens a polymer and removes units in pairs |
| Aoc2018D05.ReactOfInert | source/aoc/src/aoc2018/d05/solver.cpp:42-53 | an inert polymer does not react |
| Aoc2018D05.ReactIdempotent | source/aoc/src/aoc2018/d05/solver.cpp:42-53 | reacting twice gives what reacting once gives |
| Aoc2018D05.ReactBalance | source/aoc/src/aoc2018/d05/solver.cpp:42-53 | the reaction keeps, for every type, the difference between lower- and upper-case units |
| Aoc2018D05.PushBalance | source/aoc/src/aoc2018/d05/solver.cpp:45-49 | pushing a letter adds its balance; an annihilated pair has none |
| Aoc2018D05.PairBalance | source/aoc/src/aoc2018/d05/solver.cpp:48 | an opposite pair of letters balances out for every type |
| Aoc2018D05.ReactLetters | source/aoc/src/aoc2018/d05/solver.cpp:42-53 | the reaction keeps letters letters |
| Aoc2018D05.ResultA | source/aoc/src/aoc2018/d05/solver.cpp:55-57 | part A is the length of the reacted polymer, at most the input's |
| Aoc2018D05.Without | source/aoc/src/aoc2018/d05/solver.cpp:70 | the filtered polymer holds no unit of the type and is no longer than the original |
| Aoc2018D05.ShortestIsMin | source/aoc/src/aoc2018/d05/solver.cpp:65-73 | the minimum is at most every reacted length over the types present, is one of them or `SIZE_MAX`, and is `SIZE_MAX` when no type is present |
| Aoc2018D05.ShortestBelow | source/aoc/src/aoc2018/d05/solver.cpp:71 | the minimum is at most the reacted length for each type present |
| Aoc2018D05.ShortestAttained | source/aoc/src/aoc2018/d05/solver.cpp:71 | the minimum is `SIZE_MAX` or the reacted length for some type present |
| Aoc2018D05.ShortestNone | source/aoc/src/aoc2018/d05/solver.cpp:65 | with no type present the minimum stays `SIZE_MAX` |
| Aoc2018D05.AnswerBEmpty | source/aoc/src/aoc2018/d05/solver.cpp:59-76 | part B is `SIZE_MAX` exactly when the reacted polymer is empty, and otherwise at most its length |
| Aoc2018D05.Filter | source/aoc/src/aoc2018/d05/solver.cpp:68-70 | `copy_if` keeps the units whose type differs from the one removed |
| Aoc2018D05.UnitTypes | source/aoc/src/aoc2018/d05/solver.cpp:61-62 | `has_unit[t]` is set exactly for the types present in the reacted polymer |
| Aoc2018D05.ResultB | source/aoc/src/aoc2018/d05/solver.cpp:59-76 | part B is the shortest reacted length after removing one type present in the reacted polymer, or `SIZE_MAX` |
| Aoc2018D06.ParsePointBack | source/aoc/src/aoc2018/d06/solver.cpp:200-204 | a line "x, y" followed by anything that does not start with a digit parses back to the point |
| Aoc2018D06.ParsePoint | source/aoc/src/aoc2018/d06/solver.cpp:185-204 | a line whose first number cannot be read is refused; an accepted point's x is that first number |
| Aoc2018D06.MissingComma | source/aoc/src/aoc2018/d06/solver.cpp:185-204 | a line whose first number is not followed by a comma is refused |
| Aoc2018D06.MissingSecond | source/aoc/src/aoc2018/d06/solver.cpp:185-204 | a line with no number after its comma is refused |
| Aoc2018D06.ParsePointLine | source/aoc/src/aoc2018/d06/solver.cpp:198-204 | a point written as "x, y" parses back to itself |
| Aoc2018D06.PointLineChars | source/aoc/src/aoc2018/d06/solver.cpp:198-204 | a point's line "x, y" starts with '-' or a digit and holds no line break |
| Aoc2018D06.Points | source/aoc/src/aoc2018/d06/solver.cpp:198-205 | there are never more points than lines (empty lines give none) |
| Aoc2018D06.PointsAccepted | source/aoc/src/aoc2018/d06/solver.cpp:198-205 | the line loop succeeds exactly when every non-empty line is a point |
| Aoc2018D06.PointsOfParsed | source/aoc/src/aoc2018/d06/solver.cpp:198-205 | lines that are each a point are read back as exactly those points, in order |
| Aoc2018D06.PointsOfLines | source/aoc/src/aoc2018/d06/solver.cpp:198-205 | points written one per line are read back as exactly those points, in order |
| Aoc2018D06.Parse | source/aoc/src/aoc2018/d06/solver.cpp:178-210 | a stream with nothing but whitespace is rejected; an accepted input holds at least one point and is what the line loop reads after the sentry |
| Aoc2018D06.ParseBadLine | source/aoc/src/aoc2018/d06/solver.cpp:178-210 | one non-empty line that is not a point fails the whole parse |
| Aoc2018D06.ParseOfLines | source/aoc/src/aoc2018/d06/solver.cpp:178-210 | a non-empty list of points, written one per '\n'-ended line, parses back to exactly that list, in order |
| Aoc2018D06.Lowest | source/aoc/src/aoc2018/d06/solver.cpp:33 | the `reduce` with `min` is below every point and met by some point in each coordinate |
| Aoc2018D06.Highest | source/aoc/src/aoc2018/d06/solver.cpp:35 | the `reduce` with `max` is above every point and met by some point in each coordinate |
| Aoc2018D06.Translate | source/aoc/src/aoc2018/d06/solver.cpp:34 | every point is moved by minus the smallest point |
| Aoc2018D06.TranslatedInBox | source/aoc/src/aoc2018/d06/solver.cpp:32-38 | after translation every point lies in the box from (0, 0) to the largest point |
| Aoc2018D06.TranslatedLowest | source/aoc/src/aoc2018/d06/solver.cpp:33-34 | after translation the smallest point is the origin |
| Aoc2018D06.LowestIs | source/aoc/src/aoc2018/d06/solver.cpp:33 | a point below every point and met in each coordinate is the `min` reduction |
| Aoc2018D06.HighestIs | source/aoc/src/aoc2018/d06/solver.cpp:35 | a point above every point and met in each coordinate is the `max` reduction |
| Aoc2018D06.InBox | source/aoc/src/aoc2018/d06/solver.cpp:38 | points whose smallest point is the origin lie between it and their largest point |
| Aoc2018D06.NearestMeaning | source/aoc/src/aoc2018/d06/solver.cpp:42-54 | after n points the loop holds a first index at the smallest distance, and `more_than_once` says whether another index ties it |
| Aoc2018D06.Nearest | source/aoc/src/aoc2018/d06/solver.cpp:42-54 | after n points the inner loop holds the untouched `SIZE_MAX` or the index of one of them, with a distance no larger than the starting `INTMAX_MAX` |
| Aoc2018D06.Closest | source/aoc/src/aoc2018/d06/solver.cpp:41-56 | an owner is the untouched `SIZE_MAX` or the index of a point |
| Aoc2018D06.ClosestMeaning | source/aoc/src/aoc2018/d06/solver.cpp:55 | a cell belongs to point i exactly when i is strictly nearer to it than every other point |
| Aoc2018D06.ClosestNone | source/aoc/src/aoc2018/d06/solver.cpp:55 | a cell has no owner exactly when two points tie for nearest |
| Aoc2018D06.NearestTranslated | source/aoc/src/aoc2018/d06/solver.cpp:34-47 | the inner loop gives the same answer before and after moving every point and the cell by the same vector |
| Aoc2018D06.ClosestTranslated | source/aoc/src/aoc2018/d06/solver.cpp:32-34 | moving to a new origin does not change who owns a cell |
| Aoc2018D06.NearestTo | source/aoc/src/aoc2018/d06/solver.cpp:42-55 | the inner loop over the points computes the owner of the cell |
| Aoc2018D06.NearInBox | source/aoc/src/aoc2018/d06/solver.cpp:43 | inside the box no distance reaches the starting `INTMAX_MAX`, so an owner is the index of a point |
| Aoc2018D06.OwnersInRange | source/aoc/src/aoc2018/d06/solver.cpp:63-64 | every owner recorded in the grid is the index of a point |
| Aoc2018D06.OwnerAt | source/aoc/src/aoc2018/d06/solver.cpp:63 | reading the grid at an in-bounds cell gives that cell's owner |
| Aoc2018D06.ClosestGrid | source/aoc/src/aoc2018/d06/solver.cpp:39-56 | every cell of the box holds its owner, none on a tie |
| Aoc2018D06.Interior | source/aoc/src/aoc2018/d06/solver.cpp:62 | the corrected interior starts at (1, 1) with non-negative size, and has a positive width when it has a row |
| Aoc2018D06.InteriorCells | source/aoc/src/aoc2018/d06/solver.cpp:62 | the corrected interior holds exactly the cells off the border of the box |
| Aoc2018D06.InteriorAgrees | source/aoc/src/aoc2018/d06/solver.cpp:62 | where the source's rectangle is well formed it walks the same cells as the corrected one |
| Aoc2018D06.OneRowWalkNeverEnds | source/aoc/src/aoc2018/d06/solver.cpp:62 | for a box one cell high the source's rectangle has height -1: its walk never reaches `end()` and leaves the grid |
| Aoc2018D06.InteriorAsWritten | source/aoc/src/aoc2018/d06/solver.cpp:62 | the source's interior rectangle starts at (1, 1) and stops one cell short of the far edges of the box |
| Aoc2018D06.OneRowCounterexample | source/aoc/src/aoc2018/d06/solver.cpp:62 | the points (0, 0) and (4, 0) give a box of size (5, 1) and an interior rectangle of size (3, -1) |
| Aoc2018D06.SizeBoardOneRow | source/aoc/src/aoc2018/d06/solver.cpp:33-36 | two points on one row make a box one cell high |
| Aoc2018D06.Owned | source/aoc/src/aoc2018/d06/solver.cpp:62-65 | a point owns at most as many cells as the walk has visited |
| Aoc2018D06.CountInterior | source/aoc/src/aoc2018/d06/solver.cpp:58-65 | each point's size is the number of interior cells it owns |
| Aoc2018D06.UnboundedMeaning | source/aoc/src/aoc2018/d06/solver.cpp:67-80 | the two border loops look at exactly the border cells: a point is dropped exactly when it owns one |
| Aoc2018D06.RowTouchStep | source/aoc/src/aoc2018/d06/solver.cpp:69-74 | one more column of the first border loop adds its top and bottom cells |
| Aoc2018D06.ColTouchStep | source/aoc/src/aoc2018/d06/solver.cpp:75-80 | one more row of the second border loop adds its left and right cells |
| Aoc2018D06.Drop | source/aoc/src/aoc2018/d06/solver.cpp:71 | `region_size[*i] = nullopt` clears exactly the owner's entry |
| Aoc2018D06.DropRows | source/aoc/src/aoc2018/d06/solver.cpp:69-74 | after the loop, exactly the points owning a top or bottom cell are dropped |
| Aoc2018D06.DropCols | source/aoc/src/aoc2018/d06/solver.cpp:75-80 | after the loop, exactly the points owning a left or right cell are dropped |
| Aoc2018D06.LargestMeaning | source/aoc/src/aoc2018/d06/solver.cpp:82-85 | the result is at least every size left, and is 0 or one of them |
| Aoc2018D06.LargestRegion | source/aoc/src/aoc2018/d06/solver.cpp:82-85 | the last loop computes the largest size left |
| Aoc2018D06.Regions | source/aoc/src/aoc2018/d06/solver.cpp:58-80 | there is one size per point |
| Aoc2018D06.AnswerMeaning | source/aoc/src/aoc2018/d06/solver.cpp:82-87 | the answer is the size of a largest bounded region, and none exactly when every bounded region is empty |
| Aoc2018D06.BestRegion | source/aoc/src/aoc2018/d06/solver.cpp:82-85 | the largest size left is at least every bounded region's size and is one of them or 0 |
| Aoc2018D06.ResultA | source/aoc/src/aoc2018/d06/solver.cpp:27-88 | `resultA`, with the corrected interior, gives the answer for the translated points in their box |
| Aoc2018D06.SolveA | source/aoc/src/aoc2018/d06/solver.cpp:162-168 | "N/A" is written exactly when there is no answer; otherwise the text reads back as the answer |
| Aoc2018D06.SolveB | source/aoc/src/aoc2018/d06/solver.cpp:170-175 | `solveB` writes "N/A" whatever the input |
| Aoc2018D07.All | source/aoc/src/aoc2018/d07/solver.cpp:29 | `~tasks` on an empty bitset holds exactly the 26 steps |
| Aoc2018D07.MatchStep | source/aoc/src/aoc2018/d07/solver.cpp:124-131 | a matching line names two steps among 'A' to 'Z' |
| Aoc2018D07.MatchStepLine | source/aoc/src/aoc2018/d07/solver.cpp:124-131 | every line "Step a must be finished before step b can begin." matches with its two steps |
| Aoc2018D07.NoSteps | source/aoc/src/aoc2018/d07/solver.cpp:122 | the value-initialised graph is well formed |
| Aoc2018D07.AddEdge | source/aoc/src/aoc2018/d07/solver.cpp:133-135 | adding "a before b" keeps every prerequisite among the vertices |
| Aoc2018D07.Edges | source/aoc/src/aoc2018/d07/solver.cpp:126-139 | a parsed graph is well formed |
| Aoc2018D07.EdgesMeaning | source/aoc/src/aoc2018/d07/solver.cpp:126-139 | a parsed graph has `a` as a prerequisite of `b` exactly when some line says so |
| Aoc2018D07.EdgesErrSticks | source/aoc/src/aoc2018/d07/solver.cpp:136-138 | once a line does not match, the parse fails whatever follows |
| Aoc2018D07.BuildGraph | source/aoc/src/aoc2018/d07/solver.cpp:125-139 | the getline loop computes the graph of the lines, or the error of the first line that does not match |
| Aoc2018D07.CycleNotAcyclic | source/aoc/src/aoc2018/d07/solver.cpp:141 | a graph with a cycle has no ranking of its steps |
| Aoc2018D07.PathCycle | source/aoc/src/aoc2018/d07/solver.cpp:166 | a prerequisite found on the current path closes a cycle |
| Aoc2018D07.SearchFrom | source/aoc/src/aoc2018/d07/solver.cpp:147-170 | one search visits its start, and throws only when the graph has a cycle |
| Aoc2018D07.Leave | source/aoc/src/aoc2018/d07/solver.cpp:152-158 | a visited top is popped and leaves the path, keeping the search invariant |
| Aoc2018D07.Enter | source/aoc/src/aoc2018/d07/solver.cpp:160-169 | an unvisited top is visited and joins the path; the search fails only on a cycle |
| Aoc2018D07.PushPrereqs | source/aoc/src/aoc2018/d07/solver.cpp:163-169 | every prerequisite of the node is pushed, or a cycle is reported |
| Aoc2018D07.PushOne | source/aoc/src/aoc2018/d07/solver.cpp:165-168 | one prerequisite is pushed, or the graph has a cycle |
| Aoc2018D07.CheckCycles | source/aoc/src/aoc2018/d07/solver.cpp:141-171 | the depth-first search succeeds exactly when the graph has no cycle |
| Aoc2018D07.ParseInput | source/aoc/src/aoc2018/d07/solver.cpp:121-172 | `parse_input` gives the graph of the lines, and rejects it when it has a cycle |
| Aoc2018D07.ReadyBelow | source/aoc/src/aoc2018/d07/solver.cpp:57-60 | the steps below n whose prerequisites are all done |
| Aoc2018D07.First | source/aoc/src/aoc2018/d07/solver.cpp:38-41 | the scan finds the lowest member from i on, or none when there is none |
| Aoc2018D07.Tasks.constructor | source/aoc/src/aoc2018/d07/solver.cpp:29 | nothing is free or taken, and every step outside `tasks` counts as done |
| Aoc2018D07.Tasks.Pending | source/aoc/src/aoc2018/d07/solver.cpp:30 | true exactly when some step is not done |
| Aoc2018D07.Tasks.AreAvailable | source/aoc/src/aoc2018/d07/solver.cpp:34-36 | true exactly when some step is free to start |
| Aoc2018D07.Tasks.NextAvailable | source/aoc/src/aoc2018/d07/solver.cpp:38-41 | the lowest step free to start, none exactly when no step is |
| Aoc2018D07.Tasks.Take | source/aoc/src/aoc2018/d07/solver.cpp:43-47 | the step moves from free to taken; nothing else changes |
| Aoc2018D07.Tasks.MarkAsDone | source/aoc/src/aoc2018/d07/solver.cpp:49-53 | the step leaves free and taken and becomes done |
| Aoc2018D07.Tasks.Update | source/aoc/src/aoc2018/d07/solver.cpp:55-63 | every step whose prerequisites are done becomes free, unless taken or done |
| Aoc2018D07.Order | source/aoc/src/aoc2018/d07/solver.cpp:181-186 | the order of a single worker never repeats a done step |
| Aoc2018D07.OrderNext | source/aoc/src/aoc2018/d07/solver.cpp:182-185 | the order from `done` is the first free step, then the order once it is done |
| Aoc2018D07.AvailNext | source/aoc/src/aoc2018/d07/solver.cpp:184-185 | after `mark_as_done` and `update` the free steps are those whose prerequisites are done |
| Aoc2018D07.OrderDistinct | source/aoc/src/aoc2018/d07/solver.cpp:181-186 | no step comes twice |
| Aoc2018D07.OrderAfterPrereqs | source/aoc/src/aoc2018/d07/solver.cpp:181-186 | every prerequisite of a step is done already or comes before it |
| Aoc2018D07.ReadyExists | source/aoc/src/aoc2018/d07/solver.cpp:181-182 | in a graph without cycles some step is free as long as one is not done |
| Aoc2018D07.NothingReady | source/aoc/src/aoc2018/d07/solver.cpp:181 | in a graph without cycles, no free step means every step is done |
| Aoc2018D07.OrderComplete | source/aoc/src/aoc2018/d07/solver.cpp:181-186 | in a graph without cycles every step not done appears in the order |
| Aoc2018D07.OrderGreedy | source/aoc/src/aoc2018/d07/solver.cpp:182 | each step of the order is the lowest one free once the steps before it are done |
| Aoc2018D07.OrderHead | source/aoc/src/aoc2018/d07/solver.cpp:182 | a non-empty order starts with the lowest free step |
| Aoc2018D07.OrderTopological | source/aoc/src/aoc2018/d07/solver.cpp:174-189 | for a parsed graph the order holds every vertex exactly once, each after its prerequisites |
| Aoc2018D07.ResultA | source/aoc/src/aoc2018/d07/solver.cpp:174-189 | `resultA` writes the letters of the order one worker does the steps in |
| Aoc2018D07Workers.PendingWorkTake | source/aoc/src/aoc2018/d07/solver.cpp:32 | taking a step removes exactly its `t + 61` seconds from the work left |
| Aoc2018D07Workers.PendingWorkBound | source/aoc/src/aoc2018/d07/solver.cpp:32 | the work left is at most 86 seconds per step |
| Aoc2018D07Workers.WorkBound | source/aoc/src/aoc2018/d07/solver.cpp:32 | the whole work of a graph is at most 2236 seconds |
| Aoc2018D07Workers.MinOf | source/aoc/src/aoc2018/d07/solver.cpp:90 | `min_element` gives a remaining time met by some worker and below every other |
| Aoc2018D07Workers.BusyCountPositive | source/aoc/src/aoc2018/d07/solver.cpp:115 | a worker with a step makes the busy count positive |
| Aoc2018D07Workers.BusyWorkAdvance | source/aoc/src/aoc2018/d07/solver.cpp:90-91 | subtracting t from every worker removes t seconds of work per busy worker |
| Aoc2018D07Workers.ServingAdvance | source/aoc/src/aoc2018/d07/solver.cpp:88-100 | after `advance_time` the busy workers still each hold a distinct taken step with time left |
| Aoc2018D07Workers.AdvanceReady | source/aoc/src/aoc2018/d07/solver.cpp:90-94 | while some worker is busy the least remaining time is positive and belongs to a busy worker |
| Aoc2018D07Workers.WorkerPool.constructor | source/aoc/src/aoc2018/d07/solver.cpp:75-78 | every worker is idle, with remaining time `INF_TIME` |
| Aoc2018D07Workers.WorkerPool.MinimumTime | source/aoc/src/aoc2018/d07/solver.cpp:90 | the loop computes the least remaining time |
| Aoc2018D07Workers.WorkerPool.Subtract | source/aoc/src/aoc2018/d07/solver.cpp:91 | every remaining time drops by t; the assignments stay |
| Aoc2018D07Workers.WorkerPool.Release | source/aoc/src/aoc2018/d07/solver.cpp:92-98 | every worker whose time reaches 0 marks its step done and becomes idle with `INF_TIME` |
| Aoc2018D07Workers.WorkerPool.AdvanceTime | source/aoc/src/aoc2018/d07/solver.cpp:88-100 | `advance_time` returns the least remaining time, ends exactly the steps that reach 0 and keeps the tasks consistent |
| Aoc2018D07Workers.WorkerPool.AssignTurn | source/aoc/src/aoc2018/d07/solver.cpp:103-110 | one worker's turn: an idle worker takes the lowest free step with its `task_time` |
| Aoc2018D07Workers.WorkerPool.AssignTasks | source/aoc/src/aoc2018/d07/solver.cpp:102-111 | idle workers take free steps lowest first; the work left is unchanged |
| Aoc2018D07Workers.AssignedServing | source/aoc/src/aoc2018/d07/solver.cpp:102-111 | after `assign_tasks` every busy worker holds a distinct taken step |
| Aoc2018D07Workers.AssignedAvail | source/aoc/src/aoc2018/d07/solver.cpp:102-111 | the steps left free are the ready ones that were not taken |
| Aoc2018D07Workers.AssignedBusy | source/aoc/src/aoc2018/d07/solver.cpp:102-111 | while a step is free or taken, some worker is busy after `assign_tasks` |
| Aoc2018D07Workers.SomethingToDo | source/aoc/src/aoc2018/d07/solver.cpp:197 | in a graph without cycles, while a step is not done some step is free or taken |
| Aoc2018D07Workers.ReadyGrows | source/aoc/src/aoc2018/d07/solver.cpp:55-60 | more done steps never make fewer steps ready |
| Aoc2018D07Workers.UpdateAvail | source/aoc/src/aoc2018/d07/solver.cpp:196-200 | after `update` the free steps are those ready and neither taken nor done |
| Aoc2018D07Workers.Round | source/aoc/src/aoc2018/d07/solver.cpp:197-201 | one round of the loop makes time pass and strictly shrinks the work left |
| Aoc2018D07Workers.Accounting | source/aoc/src/aoc2018/d07/solver.cpp:199 | time passes by at least the work done divided by the number of workers and at most the work done |
| Aoc2018D07Workers.ResultB | source/aoc/src/aoc2018/d07/solver.cpp:191-204 | the elapsed time lies between the total work divided by the number of workers and the total work, and equals the total work for one worker |
| Aoc2018D08.StreamConsumes | source/aoc/src/aoc2018/d08/solver.cpp:32-35 | every successful extraction from the stream consumes at least one character |
| Aoc2018D08.ReadInts | source/aoc/src/aoc2018/d08/solver.cpp:35 | reading n integers gives n values and consumes input when n > 0 |
| Aoc2018D08.ReadMetadata | source/aoc/src/aoc2018/d08/solver.cpp:35 | `copy_n` over an `istream_iterator` gives the count of values asked, and always reads one integer first |
| Aoc2018D08.ReadHeader | source/aoc/src/aoc2018/d08/solver.cpp:31-32 | the two counts of a header are read or the parse fails |
| Aoc2018D08.ReadNode | source/aoc/src/aoc2018/d08/solver.cpp:29-37 | reading a node consumes input |
| Aoc2018D08.ReadChildren | source/aoc/src/aoc2018/d08/solver.cpp:33-34 | k children are read, in order |
| Aoc2018D08.ParseInput | source/aoc/src/aoc2018/d08/solver.cpp:25-43 | `parse_input` succeeds exactly when the recursive reader succeeds on the whole text |
| Aoc2018D08.ParseExact | source/aoc/src/aoc2018/d08/solver.cpp:29-37 | the corrected reader, which reads exactly the metadata count asked |
| Aoc2018D08.StreamReadsBack | source/aoc/src/aoc2018/d08/solver.cpp:32-35 | a count or an entry followed by whitespace reads back as itself |
| Aoc2018D08.ReadIntsEncode | source/aoc/src/aoc2018/d08/solver.cpp:35 | n written integers read back |
| Aoc2018D08.ReadHeaderEncode | source/aoc/src/aoc2018/d08/solver.cpp:32 | a written header reads back |
| Aoc2018D08.ReadMetadataEncode | source/aoc/src/aoc2018/d08/solver.cpp:35 | written metadata reads back, with at least one entry on the source's reader |
| Aoc2018D08.ReadNodeEncode | source/aoc/src/aoc2018/d08/solver.cpp:29-37 | a written tree reads back when every node has metadata, or with the corrected reader |
| Aoc2018D08.ReadChildrenEncode | source/aoc/src/aoc2018/d08/solver.cpp:33-34 | written children read back |
| Aoc2018D08.ParseInputEncode | source/aoc/src/aoc2018/d08/solver.cpp:25-43 | `parse_input` reads back a written tree whose every node has metadata |
| Aoc2018D08.ParseExactEncode | source/aoc/src/aoc2018/d08/solver.cpp:29-37 | the corrected reader reads back every written tree |
| Aoc2018D08.ZeroMetadataSwallows | source/aoc/src/aoc2018/d08/solver.cpp:35 | a node with no metadata swallows the integer after it |
| Aoc2018D08.ZeroMetadataRejected | source/aoc/src/aoc2018/d08/solver.cpp:35-36 | the tree "0 0" is rejected by `parse_input` and read by the corrected reader |
| Aoc2018D08.SwallowedMetadata | source/aoc/src/aoc2018/d08/solver.cpp:34-35 | "1 1 0 0 a b" reads as one child and one metadata entry on both readers, but with different entries |
| Aoc2018D08.ForestConcat | source/aoc/src/aoc2018/d08/solver.cpp:50-55 | totals and sizes of forests add up over concatenation |
| Aoc2018D08.ResultA | source/aoc/src/aoc2018/d08/solver.cpp:45-57 | the stack walk sums every metadata entry of the tree, cast to `size_t` |
| Aoc2018D08.Value | source/aoc/src/aoc2018/d08/solver.cpp:59-77 | the value of a node is a `size_t` |
| Aoc2018D08.SkipTest | source/aoc/src/aoc2018/d08/solver.cpp:70 | the test skips an entry exactly when it names no child |
| Aoc2018D08.RefsWeighted | source/aoc/src/aoc2018/d08/solver.cpp:68-74 | adding referenced values entry by entry equals each child's value times its number of references |
| Aoc2018D08.ValueWeighted | source/aoc/src/aoc2018/d08/solver.cpp:64-76 | a node with children is worth the sum of its children's values weighted by their references |
| Aoc2018D08.CachedSet | source/aoc/src/aoc2018/d08/solver.cpp:71-72 | caching a child's value keeps every cache entry equal to its child's value |
| Aoc2018D08.RefsStep | source/aoc/src/aoc2018/d08/solver.cpp:68-74 | one more entry adds the value of the child it names, or nothing |
| Aoc2018D08.AddReference | source/aoc/src/aoc2018/d08/solver.cpp:70-73 | one entry of the loop adds the named child's value, computing and caching it on first use |
| Aoc2018D08.ResultB | source/aoc/src/aoc2018/d08/solver.cpp:59-77 | `resultB` computes the value of the root |
| Aoc2019D01.ParseInput | source/aoc/src/aoc2019/d01/solver.cpp:40-48 | the masses are every whitespace-separated unsigned number up to the end; any other text is an error |
| Aoc2019D01.ParseInputLines | source/aoc/src/aoc2019/d01/solver.cpp:40-48 | masses written one per line parse back |
| Aoc2019D01.ResultA | source/aoc/src/aoc2019/d01/solver.cpp:21-26 | the accumulated fuel is a `size_t` |
| Aoc2019D01.ResultAWraps | source/aoc/src/aoc2019/d01/solver.cpp:21-26 | the `size_t` fold equals the sum of `x/3 - 2` over the masses, modulo 2^64 |
| Aoc2019D01.FuelStepWraps | source/aoc/src/aoc2019/d01/solver.cpp:24 | one wrapping step adds `x/3 - 2` modulo 2^64 |
| Aoc2019D01.TotalANonNegative | source/aoc/src/aoc2019/d01/solver.cpp:24 | with every mass at least 6 no term is negative |
| Aoc2019D01.ResultAExact | source/aoc/src/aoc2019/d01/solver.cpp:21-26 | with every mass at least 6 and no overflow the answer is the exact sum |
| Aoc2019D01.SmallMassWraps | source/aoc/src/aoc2019/d01/solver.cpp:24 | a single mass of 5 wraps to 2^64 - 1 |
| Aoc2019D01.ToIntmax | source/aoc/src/aoc2019/d01/solver.cpp:30 | the conversion to `intmax_t` keeps values that fit and is negative exactly for values above `INTMAX_MAX` |
| Aoc2019D01.Step | source/aoc/src/aoc2019/d01/solver.cpp:31-34 | one step is `x / 3 - 2`, strictly smaller, and negative below 6 |
| Aoc2019D01.FuelFrom | source/aoc/src/aoc2019/d01/solver.cpp:32-35 | the fuel added from x on is never negative and is at least x |
| Aoc2019D01.TotalBNonNegative | source/aoc/src/aoc2019/d01/solver.cpp:30-37 | the `intmax_t` accumulator never goes negative |
| Aoc2019D01.MassFuelPositive | source/aoc/src/aoc2019/d01/solver.cpp:30-36 | a mass needs fuel exactly when it is at least 9 and fits `intmax_t` |
| Aoc2019D01.SmallMassNoFuel | source/aoc/src/aoc2019/d01/solver.cpp:31-32 | a mass below 6 adds nothing |
| Aoc2019D01.MassFuelAtLeastA | source/aoc/src/aoc2019/d01/solver.cpp:21-38 | the fuel counting fuel is at least part A's fuel |
| Aoc2019D01.FuelFromBound | source/aoc/src/aoc2019/d01/solver.cpp:32-35 | the fuel counting fuel stays below one and a half times the first term |
| Aoc2019D01.ResultB | source/aoc/src/aoc2019/d01/solver.cpp:28-38 | the loop computes the sum over masses of the fuel counting fuel, cast to `size_t` |
| Aoc2019D02.ParseValue | source/aoc/src/aoc2019/d02/solver.cpp:33-36 | a piece is accepted only as a signed number followed by nothing but whitespace |
| Aoc2019D02.ParseValues | source/aoc/src/aoc2019/d02/solver.cpp:32-38 | every comma-separated piece becomes one value, in order |
| Aoc2019D02.Pad | source/aoc/src/aoc2019/d02/solver.cpp:41 | the program is extended with `OP_ERROR` to the next multiple of 4 |
| Aoc2019D02.ParseInput | source/aoc/src/aoc2019/d02/solver.cpp:28-43 | a parsed program is non-empty and padded to a multiple of 4; parsing fails exactly when a piece fails or there is none |
| Aoc2019D02.ParseInputRender | source/aoc/src/aoc2019/d02/solver.cpp:28-43 | a non-empty program written with commas parses back, padded |
| Aoc2019D02.NoCommaIn | source/aoc/src/aoc2019/d02/solver.cpp:32 | a written number holds no comma |
| Aoc2019D02.ParseValuesRender | source/aoc/src/aoc2019/d02/solver.cpp:32-38 | written values parse back |
| Aoc2019D02.ParseValueRender | source/aoc/src/aoc2019/d02/solver.cpp:34-36 | a written number parses back |
| Aoc2019D02.Step | source/aoc/src/aoc2019/d02/solver.cpp:49-66 | a stopped machine stays; a running one either fails, halts, or advances by 4 storing `x + y` or `x * y` |
| Aoc2019D02.Exec | source/aoc/src/aoc2019/d02/solver.cpp:45-72 | `run` from a program counter gives none when it is past the end or at an unknown opcode, and `in[0]` when it is at a halt |
| Aoc2019D02.ExecIterate | source/aoc/src/aoc2019/d02/solver.cpp:47-71 | running to the end equals enough single steps |
| Aoc2019D02.StoppedStays | source/aoc/src/aoc2019/d02/solver.cpp:64-65 | once halted or failed, further steps change nothing |
| Aoc2019D02.StepStores | source/aoc/src/aoc2019/d02/solver.cpp:58-61 | an instruction changes only the cell it stores to |
| Aoc2019D02.ExecExample | source/aoc/src/aoc2019/d02/solver.cpp:45-72 | the program 1,9,10,3,2,3,11,0,99,30,40,50 ends with 3500 in cell 0 |
| Aoc2019D02.Run | source/aoc/src/aoc2019/d02/solver.cpp:45-72 | `run` computes the result of the program |
| Aoc2019D02.Store | source/aoc/src/aoc2019/d02/solver.cpp:50-62 | an instruction whose operands are in bounds stores its result and advances; otherwise `run` fails and memory is unchanged |
| Aoc2019D02.Patch | source/aoc/src/aoc2019/d02/solver.cpp:77-78 | cells 1 and 2 are set to noun and verb; every other cell stays |
| Aoc2019D02.ResultA | source/aoc/src/aoc2019/d02/solver.cpp:74-80 | `resultA` runs the program with noun 12 and verb 2 |
| Aoc2019D02.ResultB | source/aoc/src/aoc2019/d02/solver.cpp:82-97 | the answer is `100 * noun + verb` of a pair that gives 19690720, no earlier pair does; none exactly when no pair does |
| Aoc2019D02.TryPair | source/aoc/src/aoc2019/d02/solver.cpp:89-92 | one try writes the noun and the verb into the program and hits exactly when the run outputs the target, counting no output as 0 |
| Aoc2019D03.DirectionOf | source/aoc/src/aoc2019/d03/solver.cpp:51-57 | exactly 'U', 'R', 'D' and 'L' name a direction |
| Aoc2019D03.Collect | source/aoc/src/aoc2019/d03/solver.cpp:45-59 | a collected curve holds one move per part |
| Aoc2019D03.CollectOk | source/aoc/src/aoc2019/d03/solver.cpp:45-59 | parts that all parse give the curve of their moves |
| Aoc2019D03.ParseCurve | source/aoc/src/aoc2019/d03/solver.cpp:45-59 | a parsed line holds one move per comma-separated part |
| Aoc2019D03.ParseMove | source/aoc/src/aoc2019/d03/solver.cpp:46-58 | a part whose first non-blank character is not a direction letter is rejected; an accepted part starts with its move's letter |
| Aoc2019D03.NonEmpty | source/aoc/src/aoc2019/d03/solver.cpp:41 | empty lines are skipped |
| Aoc2019D03.ParseInput | source/aoc/src/aoc2019/d03/solver.cpp:35-62 | the input is accepted exactly when it has at most two non-empty lines whose moves all parse, and gives those two curves |
| Aoc2019D03.DirectionChar | source/aoc/src/aoc2019/d03/solver.cpp:51-57 | each direction's letter parses back to it |
| Aoc2019D03.ParseMoveRender | source/aoc/src/aoc2019/d03/solver.cpp:46-58 | a written move parses back |
| Aoc2019D03.ParseMoveOf | source/aoc/src/aoc2019/d03/solver.cpp:49-58 | a direction letter followed by a number gives that move |
| Aoc2019D03.ParseCurveOk | source/aoc/src/aoc2019/d03/solver.cpp:45-59 | parts that each parse give their moves |
| Aoc2019D03.ParseCurveRender | source/aoc/src/aoc2019/d03/solver.cpp:45-59 | a curve written with commas parses back |
| Aoc2019D03.ParseInputRender | source/aoc/src/aoc2019/d03/solver.cpp:35-62 | two non-empty curves written on two lines parse back |
| Aoc2019D03.NoNewline | source/aoc/src/aoc2019/d03/solver.cpp:40 | a written curve holds no newline |
| Aoc2019D03.ThirdLineRejected | source/aoc/src/aoc2019/d03/solver.cpp:42 | a third non-empty line is rejected |
| Aoc2019D03.StraightJoins | source/aoc/src/aoc2019/d03/solver.cpp:74-84 | up and down give a vertical straight at the column, left and right a horizontal one at the row, bounds ordered and as far apart as the move is long |
| Aoc2019D03.GetStraight | source/aoc/src/aoc2019/d03/solver.cpp:74-84 | `get_straight` moves the offset by the move and returns the straight it covered |
| Aoc2019D03.Straighten | source/aoc/src/aoc2019/d03/solver.cpp:74-84 | the bounds are ordered and as far apart as the move is long; up and down give a vertical straight, left and right a horizontal one |
| Aoc2019D03.StraightsCount | source/aoc/src/aoc2019/d03/solver.cpp:91-97 | every move lands in exactly one of the two lists |
| Aoc2019D03.SplitStraights | source/aoc/src/aoc2019/d03/solver.cpp:86-98 | the loop splits the first curve into its vertical and its horizontal straights, in order |
| Aoc2019D03.ResultA | source/aoc/src/aoc2019/d03/solver.cpp:64-146 | `resultA` computes the straights and returns no answer |
| Aoc2019D03.ResultB | source/aoc/src/aoc2019/d03/solver.cpp:148-152 | `resultB` returns no answer |
| Aoc2019D04.MatchRange | source/aoc/src/aoc2019/d04/solver.cpp:28-32 | a match splits the line at a '-' into two non-empty runs of digits |
| Aoc2019D04.MatchRangeOf | source/aoc/src/aoc2019/d04/solver.cpp:28-32 | two runs of digits joined by '-' match, giving back the two runs |
| Aoc2019D04.ParseRange | source/aoc/src/aoc2019/d04/solver.cpp:32-40 | an accepted range has both numbers of six digits |
| Aoc2019D04.ParseRangeText | source/aoc/src/aoc2019/d04/solver.cpp:32-40 | a written range reads back when both numbers have six digits and is rejected otherwise |
| Aoc2019D04.FirstNonEmpty | source/aoc/src/aoc2019/d04/solver.cpp:30-31 | the index of the first non-empty line, every line before it empty |
| Aoc2019D04.ParseLines | source/aoc/src/aoc2019/d04/solver.cpp:25-47 | no non-empty line gives (0, 0); otherwise the first non-empty line must be a valid range and every later line empty |
| Aoc2019D04.ParseInput | source/aoc/src/aoc2019/d04/solver.cpp:25-47 | a range read from a non-empty line has both numbers of six digits |
| Aoc2019D04.ParseInputText | source/aoc/src/aoc2019/d04/solver.cpp:25-47 | a written range of six-digit numbers parses back |
| Aoc2019D04.SecondLineRejected | source/aoc/src/aoc2019/d04/solver.cpp:44 | a non-empty line after the range is rejected |
| Aoc2019D04.DigitsOfBelowTen | source/aoc/src/aoc2019/d04/solver.cpp:76 | every digit is below 10 |
| Aoc2019D04.ValueOfDigitsOf | source/aoc/src/aoc2019/d04/solver.cpp:71-91 | `from_digits` undoes `to_digits` for numbers of at most n digits |
| Aoc2019D04.DigitsOfValueOf | source/aoc/src/aoc2019/d04/solver.cpp:71-91 | `to_digits` undoes `from_digits` on decimal digits |
| Aoc2019D04.ToDigits | source/aoc/src/aoc2019/d04/solver.cpp:71-80 | the loop fills the array with the n lowest decimal digits, most significant first |
| Aoc2019D04.FromDigits | source/aoc/src/aoc2019/d04/solver.cpp:82-91 | the loop computes the number the digits spell |
| Aoc2019D04.AdjacentFind | source/aoc/src/aoc2019/d04/solver.cpp:51-62 | `std::adjacent_find` returns an index from `start` on, or the end |
| Aoc2019D04.AdjacentFindFirst | source/aoc/src/aoc2019/d04/solver.cpp:51-62 | the index is the first whose pair with the next digit satisfies the relation, or the end when none does |
| Aoc2019D04.IsNonDecreasingIff | source/aoc/src/aoc2019/d04/solver.cpp:49-52 | no digit is greater than the next exactly when the digits never decrease |
| Aoc2019D04.ContainsDupletsIff | source/aoc/src/aoc2019/d04/solver.cpp:54-57 | some pair is found exactly when two adjacent digits are equal |
| Aoc2019D04.ContainsUniqueDuplets | source/aoc/src/aoc2019/d04/solver.cpp:59-69 | the walk over runs of equal digits returns true exactly when some run has length exactly two |
| Aoc2019D04.ExactPairIsDuplet | source/aoc/src/aoc2019/d04/solver.cpp:54-69 | a run of length two contains two equal adjacent digits |
| Aoc2019D04.CountA | source/aoc/src/aoc2019/d04/solver.cpp:93-100 | no numbers in an empty range; at most the width of the range otherwise |
| Aoc2019D04.CountB | source/aoc/src/aoc2019/d04/solver.cpp:102-109 | no numbers in an empty range; at most the width of the range otherwise |
| Aoc2019D04.CountStep | source/aoc/src/aoc2019/d04/solver.cpp:96-106 | one more number adds one exactly when it passes the test |
| Aoc2019D04.PasswordsABetween | source/aoc/src/aoc2019/d04/solver.cpp:93-100 | the loop counts the numbers in [lower, upper) whose digits never decrease and have two adjacent equal |
| Aoc2019D04.PasswordsBBetween | source/aoc/src/aoc2019/d04/solver.cpp:102-109 | the loop counts the numbers in [lower, upper) whose digits never decrease and have a run of exactly two |
| Aoc2019D04.ResultA | source/aoc/src/aoc2019/d04/solver.cpp:268-271 | part A counts the passwords of part A in the range |
| Aoc2019D04.ResultB | source/aoc/src/aoc2019/d04/solver.cpp:273-279 | part B counts the passwords of part B in the range, no more than part A |
| Aoc2019D04.PasswordBIsA | source/aoc/src/aoc2019/d04/solver.cpp:97-106 | every password of part B is one of part A |
| Aoc2019D04.BAtMostA | source/aoc/src/aoc2019/d04/solver.cpp:93-109 | part B never counts more than part A |
| Aoc2019D04.DecreasingRejected | source/aoc/src/aoc2019/d04/solver.cpp:49-52 | 223450 fails the test: its digits decrease |
| Aoc2019D04.TripleRejected | source/aoc/src/aoc2019/d04/solver.cpp:59-69 | 123444 fails part B: its only repeated digits form a run of three |
| Aoc2019D04.LongRunThenPair | source/aoc/src/aoc2019/d04/solver.cpp:59-69 | 111122 passes part B: the run of four is followed by a run of two |
| Aoc2019D04.DigitsExample | source/aoc/src/aoc2019/d04/solver.cpp:71-80 | the six digits of 111122 |
| Aoc18D01.Parse | source/aoc/src/aoc18/d01/solver.cpp:19-26 | the input is every signed number read up to the first that fails; none at all is an error |
| Aoc18D01.ParseIgnoresTrailingText | source/aoc/src/aoc18/d01/solver.cpp:23-24 | numbers followed by other text parse to the numbers, where the later reader with its `eof` check rejects the same text |
| Aoc18D01.Labelled | source/aoc/src/aoc18/d01/solver.cpp:121-124 | the line is the label followed by the number and a newline |
| Aoc18D01.PartAText | source/aoc/src/aoc18/d01/solver.cpp:28-31 | "partA: " followed by the sum of the changes |
| Aoc18D01.PartBText | source/aoc/src/aoc18/d01/solver.cpp:118-125 | "partB: " followed by the repeated frequency, or "N/A" |
| Aoc18D01.Run | source/aoc/src/aoc18/d01/solver.cpp:128-140 | a parse error stops everything; otherwise each requested part is written, part B with the same first-repetition search as the later solver |

## Left out

- Streams and the file system are values. The input stream is the text it holds, directory iteration is a listing, and the report is a string. `ifstream`, `u8path`, `std::flush` and the column alignment of `setw`, `left` and `right` are not modelled.
- Durations are not modelled. `solve` reads a duration from `parse`, `solveA` and `solveB`, but the wrapper that measures them is not part of this model. Only outcomes are reported.
- Exceptions are error results. `aoc_exception` and `parse_exception` become `Err` values. The `[ERROR]` branches of `solve` stay in the model, and `Harness.NeverErrored` shows them unreachable, because `solveA` and `solveB` cannot throw.
- `std::stoi` (2018 day 4), `std::stoll` (2019 day 2) and `std::stoull` (2019 day 4) throw `std::out_of_range` on a numeral too large for their type. That exception is not an `aoc_exception`: `solve` does not catch it, so the source program terminates. The model has no numeral-size limit there. 2018 day 4 and 2019 day 2 read such a numeral as its exact value; 2019 day 4 rejects it with a parse error, as it has more than six digits.
- Text.ReadSigned: a numeral outside `intmax_t` is read as its exact value. The source's `operator>>` sets failbit on it instead, and the parser then rejects the input. The gap reaches the parsers of 2018 days 1, 3, 6 and 8 and of `aoc18` days 1 and 3. For example, the 2018 day 1 source rejects "9223372036854775808", while `Aoc2018D01.ParseInput` accepts it.
- Text.ReadUnsigned: a numeral whose magnitude exceeds 2^64 - 1 is read as its exact value, where the source's `operator>>` into `size_t` or `uintmax_t` sets failbit. The gap reaches the parsers of 2018 days 3 and 8, of 2019 days 1 and 3 and of `aoc18` day 3.
- Aoc2019D02.ParseValue: a piece with no numeral, such as the empty piece of "1,,2" or the "\n" after a trailing comma in "1,2,\n", is a parse error in the model. In the source, `std::stoll` throws `std::invalid_argument` there. That exception is not an `aoc_exception`, so the program terminates instead of reporting "could not parse input".
- Aoc2019D02.ParseInput: inherits that gap. An input with an empty piece is a parse error in the model, while it terminates the source program.
- `std::regex` is not modelled as an engine. The fixed patterns of 2018 day 4, 2018 day 7 and 2019 day 4 are hand-written matchers: `MatchStep` and `MatchRange`, and the time-stamp reader of 2018 day 4.
- Machine overflow of `intmax_t` sums and products is not modelled: the arithmetic is exact. This covers the sums of 2018 days 1 and 8, the `x * y` of 2019 day 2 and the coordinates of 2019 day 3. The wrap-arounds the source makes observable are modelled.
- Floating point and type punning are left out: `dvec2`, and the `memcpy`/union access of `vec2`. `vec2` is a record of two integers.
- `cleanup`'s choice between `delete` and `delete[]` is not modelled. The model counts cleanups instead.
- The puzzles are not wired into `Solver` values. The harness is proved for any solver. Each puzzle's parts are proved on the inputs its parser accepts.
- Dead code is left out: `aoc18/d04` (it does not compile), the unused intersection lambdas of 2019 day 3, the commented-out combinatorics of 2019 day 4 and the commented-out `resultB` of 2018 day 6.
- Aoc2018D07.ParseInput: the source's `parse_input` ends without a `return` statement. The model returns the graph it built.
- Aoc2018D07Workers.ResultB: requires a graph without cycles and at least one worker. Both are undefined behaviour in the source. On a cycle every worker ends up idle: `advance_time` takes `INF_TIME` as the minimum, sets every remaining time to 0 and dereferences an empty `assigned_task_` entry. With no workers, `min_element` returns the end of an empty vector and that is dereferenced. The elapsed time is bounded by the total work rather than computed exactly for several workers.
- Aoc2018D08.ResultB: requires every metadata entry to fit `intmax_t` and the children count to fit too, as the source's `size_t` comparison assumes.
- Aoc2018D08.ReadNode: the integer readers are a parameter (`Extraction`), so that the recursive reader is proved once for any readers that consume input. `Aoc2018D08.StreamConsumes` and `Aoc2018D08.StreamReadsBack` prove what is needed of the stream's readers. The `resize` of `children` cannot throw `length_error` in the model.
- Aoc2018D06.ResultA: requires coordinates below 2^61 in absolute value. It then has no `intmax_t` overflow, and every distance stays below the starting `INTMAX_MAX`. It uses the corrected interior (see Findings).
- Aoc2018D06.SolveB: the source's `resultB` is commented out and returns 0, and `solveB` writes "N/A". The model states only the latter.
- Aoc2018D03.ResultA: requires `Fits`, and so does `Aoc2018D03.ResultB`. Every claim must be walkable by `rect` (width positive unless the height is 0), and the board must have both dimensions positive, as `grid2`'s assertions demand. A claim of width 0 and positive height divides by zero in the source.
- Aoc2018D02.ResultB: requires a non-empty list of lower-case ids, which the parser guarantees. `Aoc2018D01.ResultB` requires a non-empty list, and `Aoc2018D05.ResultB` letters only, for the same reason.
- Aoc2018D04.ParseInput: records with equal time stamps stay in input order after the time sort. The source sorts with `std::sort`, which leaves their order unspecified, so for such ties it may attribute a record to a different guard or reject a log whose first record in input order is a `begin`. Logs with distinct time stamps are unaffected.
- Aoc2018D04.Result: the group scan never compares the last record's id, so a trailing record with a new id joins the previous group. After the sort and the id propagation that record can only be a lone `begin`, which adds no sleep. The model keeps the fold and proves the totals of each group.
- Aoc2019D01.ResultB: the `intmax_t` accumulator is exact; only the final cast to `size_t` is modelled.
- Aoc2019D04.ParseRange: a numeral above 2^64 - 1 makes `std::stoull` throw `std::out_of_range`. That exception is not an `aoc_exception`, so the source program terminates. The model instead rejects it with a parse error, like any number of more than six digits.
- Aoc2019D04.FromDigits: computes with exact integers, so the `uintmax_t` overflow of more than nineteen digits is not modelled; the puzzle uses six.
- Aoc2019D03.ResultA: the `std::sort` of the straights by coordinate is left out, because the sorted lists are never used. The model states only that no answer is returned.

## Findings

| source | as written | input that shows it | evidently intended | confidence | as-written member | corrected member |
|---|---|---|---|---|---|---|
| source/aoc/src/aoc2018/d01/solver.cpp:36-120 | `first_repetition`, and the `d != 0` pair search, pick the value whose first occurrence comes earliest, not the first value reached twice | changes [1, 1, 0, -1, -1]: frequencies 0, 1, 2, 2, 1; the source answers 1, but 2 is reached twice first. With a non-zero total: [1, 1, 0, -1, 5] | the first frequency reached twice while the changes repeat | not executed | Aoc2018D01.ResultBAsWritten, Aoc2018D01.FirstRepetition, Aoc2018D01.ZeroTotalCounterexample, Aoc2018D01.NonZeroTotalCounterexample | Aoc2018D01.ResultB, Aoc2018D01.FirstRepeat |
| source/aoc/src/aoc2018/d02/solver.cpp:95-142 | the trie search follows the first branch that matches and never backtracks, so it misses pairs of ids one letter apart | ids ["aaa", "bbc", "abc"]: "abc" walks the "a" branch and fails, missing "bbc", which differs from it in one position; the answer is none | the common letters of the first pair of ids that differ in exactly one position | not executed | Aoc2018D02.ResultB, Aoc2018D02.GreedyMiss | Aoc2018D02.ResultBPairwise |
| source/aoc/src/aoc2018/d06/solver.cpp:62 | the interior `rect{(1,1), size_board - (2,2)}` has a negative height when all points lie on one row, and its iterator never reaches `end()` | points (0, 0) and (4, 0): board (5, 1), interior size (3, -1); the walk leaves the grid | an empty interior whenever the board is less than three cells wide or high | not executed | Aoc2018D06.InteriorAsWritten, Aoc2018D06.OneRowCounterexample, Aoc2018D06.OneRowWalkNeverEnds | Aoc2018D06.Interior, Aoc2018D06.InteriorCells |
| source/aoc/src/aoc2018/d08/solver.cpp:35 | `copy_n` over an `istream_iterator` reads one integer on construction, even when the metadata count is 0, so that integer is swallowed | the tree "0 0" alone is rejected; "1 1 0 0 a b" reads `b` as the root's metadata instead of `a` | exactly as many integers read as the metadata count | not executed | Aoc2018D08.ParseInput, Aoc2018D08.ZeroMetadataSwallows, Aoc2018D08.ZeroMetadataRejected, Aoc2018D08.SwallowedMetadata | Aoc2018D08.ParseExact, Aoc2018D08.ParseExactEncode |
