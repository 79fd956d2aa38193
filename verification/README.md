# Engineering basics: Sudoku validator, string helpers and `Vehicle`, in Dafny

This project models three small pieces of an object-oriented Python exercise
set and proves what they promise.

- **`SudokuSolver`** (`sudoku.dfy`, module `Sudoku`). The class holds a grid.
  `validation_groups` cuts it into 27 groups: the 9 rows, then the 9 columns,
  then the 9 3x3 blocks. The blocks are built by four nested loops, with the
  column band outermost. `is_valid` sorts each group in turn and rejects the
  grid at the first group that is not `[1, ..., 9]`. In the model:
  - the class is a Dafny `class` whose methods have no `modifies` clause;
  - the block loops and the validity loop are methods with loop invariants;
  - each method is proved against the reference functions `Groups` and
    `ValidGrid`.
  Lemmas then show that a valid grid is exactly a solved 9x9 Sudoku: every
  row, column and block holds each digit 1..9 once. They also show that the
  example grid of the program's entry point is accepted.
- **String helpers** (`string_methods.dfy`, module `StringMethods`). These are
  pure functions on `seq<char>`:
  - `split`/`join`;
  - substring search with `in`;
  - `count`;
  - the last-character test;
  - `strip`;
  - `replace`;
  - `capitalize`;
  - `str` of an integer;
  - the two name formatters.
  Each is stated through an independent characterisation, an inverse or a
  relation to another helper.
- **`Vehicle`** (`vehicle.dfy`, module `Vehicles`). This is a class with
  `brand`, `color` and a `started` flag. `Start` and `Stop` may change only
  the flag.

## Model

| member | source | states |
|---|---|---|
| Sudoku.SudokuSolver.constructor | 01-OOP/09-Optional-Sudoku/sudoku.py:3-5 | the solver holds exactly the grid it was given |
| Sudoku.SudokuSolver.ValidationGroups | 01-OOP/09-Optional-Sudoku/sudoku.py:7-38 | returns exactly `Groups(grid)`: the rows, then the columns, then the blocks in loop order; it cannot change the grid |
| Sudoku.SudokuSolver.AreaGroup | 01-OOP/09-Optional-Sudoku/sudoku.py:29-33 | the group the two inner loops build for one pair of areas is that block, column by column and top to bottom within a column |
| Sudoku.SudokuSolver.IsValid | 01-OOP/09-Optional-Sudoku/sudoku.py:41-50 | returns true iff every group sorted equals 1..9; on false, every group before the stopping point passed and the group at it failed, so later groups are never needed |
| Sudoku.Column | 01-OOP/09-Optional-Sudoku/sudoku.py:15 | no contract of its own; `ColumnAt` states it |
| Sudoku.Columns | 01-OOP/09-Optional-Sudoku/sudoku.py:15-16 | no contract of its own; `ColumnAt` and `GroupsShape` state it |
| Sudoku.Block | 01-OOP/09-Optional-Sudoku/sudoku.py:25-35 | no contract of its own; `BlockElement` states it |
| Sudoku.Blocks | 01-OOP/09-Optional-Sudoku/sudoku.py:25-35 | no contract of its own; `BlocksAt` and `BlockAt` state it |
| Sudoku.Groups | 01-OOP/09-Optional-Sudoku/sudoku.py:7-38 | no contract of its own; `GroupsShape`, `RowAt`, `ColumnAt`, `BlockAt` and `CellGroups` state it |
| Sudoku.ValidGrid | 01-OOP/09-Optional-Sudoku/sudoku.py:41-50 | no contract of its own; `ValidGridIff` states it |
| Sudoku.GroupsShape | 01-OOP/09-Optional-Sudoku/sudoku.py:7-38 | a 9x9 grid gives exactly 27 groups of 9 cells |
| Sudoku.RowAt | 01-OOP/09-Optional-Sudoku/sudoku.py:11-12 | group `r` is row `r` |
| Sudoku.ColumnAt | 01-OOP/09-Optional-Sudoku/sudoku.py:15-16 | element `r` of the `c`-th group after the rows is `grid[r][c]`, and that group has one cell per row |
| Sudoku.AreaAt | 01-OOP/09-Optional-Sudoku/sudoku.py:25 | the three areas `[0, 1, 2]`, `[3, 4, 5]`, `[6, 7, 8]` hold index `3*a + x` at position `x` of area `a` |
| Sudoku.BlocksAt | 01-OOP/09-Optional-Sudoku/sudoku.py:25-35 | block group `3*cb + rb` is the block in column band `cb` and row band `rb` (column band outermost) |
| Sudoku.BlockElement | 01-OOP/09-Optional-Sudoku/sudoku.py:31-33 | element `3*ci + ri` of a block is `grid[3*rb + ri][3*cb + ci]` and the block has 9 cells |
| Sudoku.BlockAt | 01-OOP/09-Optional-Sudoku/sudoku.py:25-35 | element `3*ci + ri` of group `18 + 3*cb + rb` of a 9-row grid is `grid[3*rb + ri][3*cb + ci]` |
| Sudoku.CellGroups | 01-OOP/09-Optional-Sudoku/sudoku.py:11-35 | every cell of a 9x9 grid sits in its row group, its column group and its block group at the stated position, so the blocks cover every cell |
| Sudoku.Insert | 01-OOP/09-Optional-Sudoku/sudoku.py:46 | no contract of its own; `InsertPermutation` and `InsertSorted` state it |
| Sudoku.Sort | 01-OOP/09-Optional-Sudoku/sudoku.py:46 | no contract of its own; `SortSortedPermutation` and `SortedUnique` state it |
| Sudoku.InsertPermutation | 01-OOP/09-Optional-Sudoku/sudoku.py:46 | insertion adds exactly the new element |
| Sudoku.InsertSorted | 01-OOP/09-Optional-Sudoku/sudoku.py:46 | insertion into a sorted sequence gives a sorted sequence one longer, headed by the smaller of the new element and the old head |
| Sudoku.SortedHeadIsLeast | 01-OOP/09-Optional-Sudoku/sudoku.py:46 | the head of a sorted sequence is its least element |
| Sudoku.SortSortedPermutation | 01-OOP/09-Optional-Sudoku/sudoku.py:46 | the model of `sorted` returns a sorted permutation of its input |
| Sudoku.SortedUnique | 01-OOP/09-Optional-Sudoku/sudoku.py:46 | two sorted sequences with the same elements are equal, so any correct sort gives the same result |
| Sudoku.IsValidGroup | 01-OOP/09-Optional-Sudoku/sudoku.py:42-46 | no contract of its own; `ValidGroupIff` and `DigitPermutationIff` state it |
| Sudoku.ValidGroupIff | 01-OOP/09-Optional-Sudoku/sudoku.py:42-46 | `sorted(group) == [1..9]` iff the group is a permutation of 1..9 |
| Sudoku.ValidNumbers | 01-OOP/09-Optional-Sudoku/sudoku.py:42 | no contract of its own; `ValidNumbersCount` states it |
| Sudoku.ValidNumbersCount | 01-OOP/09-Optional-Sudoku/sudoku.py:42 | `[1, ..., 9]` holds each digit 1..9 once and nothing else |
| Sudoku.DigitPermutationIff | 01-OOP/09-Optional-Sudoku/sudoku.py:42-46 | a group is a permutation of 1..9 iff it has 9 cells, all in 1..9, pairwise distinct |
| Sudoku.NineCellsCoveringDigits | 01-OOP/09-Optional-Sudoku/sudoku.py:42-46 | 9 cells showing every digit 1..9 form a permutation of 1..9 (pigeonhole) |
| Sudoku.ValidGridIff | 01-OOP/09-Optional-Sudoku/sudoku.py:41-50 | a grid is accepted iff it is exactly 9x9 and every one of its 27 groups is a permutation of 1..9 |
| Sudoku.ValidGridGroup | 01-OOP/09-Optional-Sudoku/sudoku.py:41-50 | every group of an accepted grid has 9 distinct digits 1..9 |
| Sudoku.ValidGridCells | 01-OOP/09-Optional-Sudoku/sudoku.py:41-50 | an accepted grid is 9x9 and every cell holds a digit 1..9 |
| Sudoku.ValidGridRowsDistinct | 01-OOP/09-Optional-Sudoku/sudoku.py:11-12 | no digit repeats within a row of an accepted grid |
| Sudoku.ValidGridColumnsDistinct | 01-OOP/09-Optional-Sudoku/sudoku.py:15-16 | no digit repeats within a column of an accepted grid |
| Sudoku.ValidGridBlockCellsDiffer | 01-OOP/09-Optional-Sudoku/sudoku.py:25-35 | two different cells of one 3x3 block of an accepted grid hold different digits |
| Sudoku.ValidGridBlocksDistinct | 01-OOP/09-Optional-Sudoku/sudoku.py:25-35 | no digit repeats within any 3x3 block of an accepted grid |
| Sudoku.ExampleColumnsAre | 01-OOP/09-Optional-Sudoku/sudoku.py:54-66 | the columns of the example grid are the listed sequences |
| Sudoku.ExampleLeftBlocks | 01-OOP/09-Optional-Sudoku/sudoku.py:54-66 | the first three blocks of the example grid are the listed sequences |
| Sudoku.ExampleMiddleBlocks | 01-OOP/09-Optional-Sudoku/sudoku.py:54-66 | the middle three blocks of the example grid are the listed sequences |
| Sudoku.ExampleRightBlocks | 01-OOP/09-Optional-Sudoku/sudoku.py:54-66 | the last three blocks of the example grid are the listed sequences |
| Sudoku.ExampleBlocksAre | 01-OOP/09-Optional-Sudoku/sudoku.py:54-66 | the nine blocks of the example grid are the listed sequences |
| Sudoku.ExampleRowsShowAllDigits | 01-OOP/09-Optional-Sudoku/sudoku.py:54-66 | every row of the example grid shows all digits 1..9 |
| Sudoku.ExampleColumnsShowAllDigits | 01-OOP/09-Optional-Sudoku/sudoku.py:54-66 | every column of the example grid shows all digits 1..9 |
| Sudoku.ExampleBlocksShowAllDigits | 01-OOP/09-Optional-Sudoku/sudoku.py:54-66 | every block of the example grid shows all digits 1..9 |
| Sudoku.ExampleGridIsValid | 01-OOP/09-Optional-Sudoku/sudoku.py:54-66 | the example grid satisfies `ValidGrid` |
| Sudoku.ValidateExampleGrid | 01-OOP/09-Optional-Sudoku/sudoku.py:68-70 | building the solver on the example grid and calling `IsValid` returns true |
| StringMethods.Split | 01-OOP/05-String-Manipulation/string_methods.py:8 | `split(" ")` returns at least one field and no field contains the separator |
| StringMethods.SplitCount | 01-OOP/05-String-Manipulation/string_methods.py:8 | there is exactly one more field than separators, so empty fields are kept |
| StringMethods.SplitJoin | 01-OOP/05-String-Manipulation/string_methods.py:8 | joining the fields with the separator gives back the original string |
| StringMethods.Join | 01-OOP/05-String-Manipulation/string_methods.py:8 | no contract of its own; `JoinAppend` and `SplitJoin` state it |
| StringMethods.JoinAppend | 01-OOP/05-String-Manipulation/string_methods.py:8 | joining one more field appends the separator and that field |
| StringMethods.JoinSplitReplaces | 01-OOP/05-String-Manipulation/string_methods.py:7-9 | split on a character then join with `sep` equals replacing every occurrence of the character by `sep` |
| StringMethods.AddComma | 01-OOP/05-String-Manipulation/string_methods.py:7-9 | no contract of its own; `AddCommaReplaces` states it |
| StringMethods.AddCommaReplaces | 01-OOP/05-String-Manipulation/string_methods.py:7-9 | `add_comma(s)` is `s` with every space replaced by a comma and a space |
| StringMethods.AddCommaWords | 01-OOP/05-String-Manipulation/string_methods.py:7-9 | three words separated by single spaces come out separated by `", "` |
| StringMethods.AddCommaExample | 01-OOP/05-String-Manipulation/string_methods.py:9 | `add_comma("John Peter Jude")` is `"John, Peter, Jude"` |
| StringMethods.BelongsTo | 01-OOP/05-String-Manipulation/string_methods.py:11-13 | no contract of its own; `BelongsToIff` states it |
| StringMethods.BelongsToIff | 01-OOP/05-String-Manipulation/string_methods.py:11-13 | `belongs_to(s, w)` iff `w` occurs as a contiguous slice of `s` at some index |
| StringMethods.BelongsToExample | 01-OOP/05-String-Manipulation/string_methods.py:13 | `"jude"` belongs to `"hey jude"` |
| StringMethods.CountRepetition | 01-OOP/05-String-Manipulation/string_methods.py:15-17 | no contract of its own; `CountIsGreedyMatches` characterises it |
| StringMethods.GreedyMatchesUnique | 01-OOP/05-String-Manipulation/string_methods.py:15-17 | from a given start, only one sequence of positions satisfies the greedy scan: first match at or after the start, resuming after each match, none after the last |
| StringMethods.ScanFromGreedy | 01-OOP/05-String-Manipulation/string_methods.py:15-17 | the left-to-right scan from `j` yields exactly such greedy, non-overlapping matches |
| StringMethods.CountFrom | 01-OOP/05-String-Manipulation/string_methods.py:15-17 | `count` on the suffix from `j` equals the number of matches the scan from `j` finds |
| StringMethods.CountIsGreedyMatches | 01-OOP/05-String-Manipulation/string_methods.py:15-17 | for a non-empty substring, `count` is the number of greedy non-overlapping matches scanning from the left, and every such sequence of matches has that length |
| StringMethods.CountBound | 01-OOP/05-String-Manipulation/string_methods.py:15-17 | the counted occurrences of a non-empty substring never overlap: count times its length is at most the length of the string |
| StringMethods.CountPositiveIff | 01-OOP/05-String-Manipulation/string_methods.py:11-17 | a non-empty substring is counted at least once iff it belongs to the string |
| StringMethods.CountCharacter | 01-OOP/05-String-Manipulation/string_methods.py:15-17 | counting a single character gives its number of occurrences |
| StringMethods.CountRepetitionExample | 01-OOP/05-String-Manipulation/string_methods.py:17 | `count_repetition("000123000123", "0")` is 6 |
| StringMethods.IsAQuestion | 01-OOP/05-String-Manipulation/string_methods.py:19-21 | no contract of its own; `IsAQuestionIff` states it |
| StringMethods.IsAQuestionIff | 01-OOP/05-String-Manipulation/string_methods.py:19-21 | for any non-empty string, only its last character decides, and it must be `'?'` |
| StringMethods.IsAQuestionExample | 01-OOP/05-String-Manipulation/string_methods.py:21 | `"How are you?"` is a question |
| StringMethods.IsSpace | 01-OOP/05-String-Manipulation/string_methods.py:23-25 | no contract of its own; the ASCII whitespace set that `Strip` removes |
| StringMethods.StripLeft | 01-OOP/05-String-Manipulation/string_methods.py:24 | removes a whitespace-only prefix, and the rest is empty or starts with a non-space |
| StringMethods.StripRight | 01-OOP/05-String-Manipulation/string_methods.py:24 | removes a whitespace-only suffix, and the rest is empty or ends with a non-space |
| StringMethods.Strip | 01-OOP/05-String-Manipulation/string_methods.py:23-25 | the result has no whitespace at either end |
| StringMethods.StripIsSlice | 01-OOP/05-String-Manipulation/string_methods.py:23-25 | the result is a contiguous slice of the input, and only whitespace lies outside it |
| StringMethods.StripUntrimmed | 01-OOP/05-String-Manipulation/string_methods.py:23-25 | a string with no whitespace at its ends is returned unchanged |
| StringMethods.StripIdempotent | 01-OOP/05-String-Manipulation/string_methods.py:23-25 | stripping twice is stripping once |
| StringMethods.StripPadding | 01-OOP/05-String-Manipulation/string_methods.py:23-25 | whitespace around a string with non-space ends is exactly what gets removed |
| StringMethods.StripKeepsQuestion | 01-OOP/05-String-Manipulation/string_methods.py:19-25 | a question is still a question after stripping |
| StringMethods.StripExample | 01-OOP/05-String-Manipulation/string_methods.py:25 | stripping `"  hey yo  "` gives `"hey yo"` |
| StringMethods.InsertAround | 01-OOP/05-String-Manipulation/string_methods.py:27-29 | no contract of its own; `InsertAroundJoin`, `InsertAroundLength` and `InsertAroundEmpty` state it |
| StringMethods.ReplaceAll | 01-OOP/05-String-Manipulation/string_methods.py:27-29 | no contract of its own; `ReplaceLength` and `ReplaceSame` state it for every pattern, `InsertAroundJoin` for the empty pattern, and `ReplaceLetter` and `JoinSplitReplaces` for a single letter |
| StringMethods.InsertAroundJoin | 01-OOP/05-String-Manipulation/string_methods.py:27-29 | replacing the empty string puts the new part before every character, in order, and once at the end: `new + new.join(list(s)) + new` for non-empty `s`, `new` for empty `s` |
| StringMethods.InsertAroundLength | 01-OOP/05-String-Manipulation/string_methods.py:28 | the result of replacing the empty string has length `len(s) + (len(s) + 1) * len(new)` |
| StringMethods.InsertAroundEmpty | 01-OOP/05-String-Manipulation/string_methods.py:27-29 | replacing the empty string by the empty string changes nothing |
| StringMethods.ReplaceLength | 01-OOP/05-String-Manipulation/string_methods.py:15-29 | the length of `replace` output changes by `len(new) - len(old)` once per occurrence that `count` counts, the empty pattern included |
| StringMethods.ReplaceLetter | 01-OOP/05-String-Manipulation/string_methods.py:27-29 | replacing one letter by another keeps the length and changes exactly the positions holding the old letter, each to the new one |
| StringMethods.ReplaceLetterRemoves | 01-OOP/05-String-Manipulation/string_methods.py:27-29 | after replacing a letter by a different one, the old letter no longer occurs |
| StringMethods.ReplaceSame | 01-OOP/05-String-Manipulation/string_methods.py:27-29 | replacing any string by itself changes nothing, the empty string included |
| StringMethods.ReplaceLetterConcat | 01-OOP/05-String-Manipulation/string_methods.py:27-29 | replacing a letter distributes over concatenation |
| StringMethods.ReplaceAbsentLetter | 01-OOP/05-String-Manipulation/string_methods.py:27-29 | a string without the letter is returned unchanged |
| StringMethods.ReplaceExample | 01-OOP/05-String-Manipulation/string_methods.py:29 | `replace("casanova", "a", "o")` is `"cosonovo"` |
| StringMethods.Upper | 01-OOP/05-String-Manipulation/string_methods.py:32 | the result is never a lower-case letter; only lower-case letters change, and each becomes the same letter in upper case |
| StringMethods.Lower | 01-OOP/05-String-Manipulation/string_methods.py:32 | the result is never an upper-case letter; only upper-case letters change, and each becomes the same letter in lower case |
| StringMethods.CaseFolding | 01-OOP/05-String-Manipulation/string_methods.py:32 | upper- and lower-casing agree after folding |
| StringMethods.Capitalize | 01-OOP/05-String-Manipulation/string_methods.py:32 | same length and same letters ignoring case; the first character is not lower-case and the others are not upper-case |
| StringMethods.CapitalizeUnique | 01-OOP/05-String-Manipulation/string_methods.py:32 | those properties determine the result of `capitalize` completely |
| StringMethods.CapitalizeIdempotent | 01-OOP/05-String-Manipulation/string_methods.py:32 | capitalising twice is capitalising once |
| StringMethods.Digits | 01-OOP/05-String-Manipulation/string_methods.py:32 | the decimal digits of a natural number: non-empty, only `'0'..'9'`, no leading zero |
| StringMethods.DecimalString | 01-OOP/05-String-Manipulation/string_methods.py:32 | `str(age)` is non-empty, starts with `'-'` iff the age is negative, and after the sign holds a non-empty run of decimal digits with no leading zero |
| StringMethods.DigitsRoundTrip | 01-OOP/05-String-Manipulation/string_methods.py:32 | reading the digits back gives the number |
| StringMethods.DecimalRoundTrip | 01-OOP/05-String-Manipulation/string_methods.py:32 | parsing `str(n)` gives back `n`, for negative `n` too |
| StringMethods.FullDescriptionConcatenation | 01-OOP/05-String-Manipulation/string_methods.py:31-34 | no contract of its own; `FullDescriptionsAgree` and `FullDescriptionExample` state it |
| StringMethods.FullDescriptionFormatting | 01-OOP/05-String-Manipulation/string_methods.py:36-39 | no contract of its own; `FullDescriptionsAgree` and `FullDescriptionExample` state it |
| StringMethods.FormattedString | 01-OOP/05-String-Manipulation/string_methods.py:37 | no contract of its own; `FormattedThree` states it |
| StringMethods.FormattedThree | 01-OOP/05-String-Manipulation/string_methods.py:37 | a formatted literal with three fields is its pieces and values concatenated in order |
| StringMethods.FullDescriptionsAgree | 01-OOP/05-String-Manipulation/string_methods.py:31-39 | the concatenation and formatting versions return the same string for every input |
| StringMethods.FullDescriptionExample | 01-OOP/05-String-Manipulation/string_methods.py:31-39 | both versions give `"John Doe is 33"` for `("john", "doe", 33)` |
| Vehicles.Vehicle.constructor | 01-OOP/08-Classes/vehicle.py:4-7 | a new vehicle stores the given brand and color and is not started |
| Vehicles.Vehicle.Start | 01-OOP/08-Classes/vehicle.py:9-10 | afterwards `started` is true whatever it was before; only the flag may change, so brand and color stay |
| Vehicles.Vehicle.Stop | 01-OOP/08-Classes/vehicle.py:12-13 | afterwards `started` is false whatever it was before; brand and color stay |
| Vehicles.StartTwice | 01-OOP/08-Classes/vehicle.py:9-10 | for any vehicle, starting it twice leaves it as one start does: started, brand and color unchanged |
| Vehicles.StopTwice | 01-OOP/08-Classes/vehicle.py:12-13 | for any vehicle, stopping it twice leaves it as one stop does: not started, brand and color unchanged |

## Left out

- `print(group)` in `is_valid` and the `print` of the entry point are output only and are not modelled. The entry point is kept as `ValidateExampleGrid`.
- Sudoku.SudokuSolver.IsValid: the short-circuit is stated through a ghost result `inspected`. It is the index of the failing group, or 27 when the grid is accepted. The Python method returns only the boolean.
- Sudoku.SudokuSolver.ValidationGroups and Sudoku.SudokuSolver.IsValid require `Shaped(grid)`: at least 9 rows and at least 9 cells in every row. On a smaller grid the Python code raises `IndexError`, and exceptions are not modelled.
- Grid cells are integers. Python would also sort other comparable values, and it raises `TypeError` on values that cannot be compared. Neither case is modelled.
- `sorted` is modelled as an insertion sort. `SortedUnique` shows that any correct sort returns the same sequence, so Timsort's algorithm does not matter.
- Case mapping in `capitalize` and the whitespace set of `strip` are those of ASCII. Unicode letters and Unicode whitespace are not modelled.
- `capitalize` in recent Python title-cases the first character. For ASCII this is the same as upper-casing.
- `add_comma` is modelled for any string, and `split` keeps empty fields as Python does. So two adjacent spaces give `", , "`.
- `count_repetition` with an empty substring is modelled as Python behaves: it returns `len + 1`. `replace` with an empty old string inserts the new string around every character. Neither case is excluded by a precondition.
- StringMethods.ReplaceAll: for a pattern of two or more characters only the length and replacing a pattern by itself are proved. Where the copies of the new string go is stated for the empty pattern and for single letters, which are what the parameter names `old_letter` and `new_letter` describe.
- `is_a_question` requires a non-empty string. On the empty string Python raises `IndexError`, and exceptions are not modelled.
- `full_description_*` take the age as an integer and render it in decimal. Other values Python would accept (floats, strings) are not modelled.
- StringMethods.DecimalString is total. Since Python 3.11, `str(age)` and `f'{age}'` raise `ValueError` for integers of more than 4300 digits, and that limit is not modelled.
- The f-string is modelled as its literal pieces interleaved with the formatted values. This is the string CPython builds for it.
- The other exercise files are not part of this model: `currencies.py`, `calc.py` and `flask_option.py`.
