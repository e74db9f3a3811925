# DLXSudoku: the puzzle reader, the exact-cover encoding and the solution listener

DLXSudoku solves Sudoku puzzles with Knuth's Dancing Links (Algorithm X). The
program in `DLXSudoku/Program.cs` has three parts around the solver, and this
project models and proves them in Dafny.

* **`FromFile`** reads a text file of puzzles line by line (module
  `PuzzleFile`, file `puzzle_file.dfy`). A line whose trimmed text starts
  with `#` is a comment. A line of exactly 81 characters is a whole puzzle,
  with `.` for a blank cell. A line of 9 characters that contains at least
  one digit is one row of a nine-line block. Any other line produces a
  console message. The file is given as its sequence of lines, and the
  messages are returned as `Diagnostic` records. The reading is specified
  twice:
  * as a pure fold, `After(lines, n)`, the reader's variables after `n` lines;
  * as the imperative method `FromLines`, which fills fresh `Sudoku` objects
    through their 2-D `board` arrays and is proved equal to the fold.
* **The builder loops of `Solve`** (module `Encoding`, file `encoding.dfy`)
  declare the exact-cover matrix: 324 constraint columns, one hint column
  per filled cell, and 729 candidate rows. The solver's `AddColumn`,
  `NewRow` and `SetColumn` calls are modelled as the sequence of labels they
  receive. The methods `Encode`, `AddRows` and the others build that
  sequence with the program's nested loops. They are proved equal to the
  specification functions `Columns(g)` and `Rows(g)`, and the counts and
  distinctness of the labels are proved about those functions.
* **The `SolutionListener` lambda** (module `Decoding`, file `decoding.dfy`)
  reads a cell and a digit from the `C` and `R` labels of each row of a
  solution. It writes the digit into the board only where the cell is
  still 0. `Listen` is proved equal to the fold `Fill`. `Decode` is proved
  to round-trip with the encoder's rows: each candidate row decodes to the
  cell and digit it was built from. A solution that is an exact cover of the
  encoding (every declared column named by exactly one of its rows, all rows
  declared ones) is proved to meet the listener's assertions, and to leave
  every cell holding a digit 1..9 with the hints kept.

Two shared modules complete the model:
* `Board` (`board.dfy`): the `Sudoku` class. Its board is a `const`
  `array2<int>`, because the program never reassigns the field. Its ghost
  value is a `Grid`, with `g[i][j] == board[i, j]`, where the first index
  is the column.
* `Text` (`text.dfy`): .NET white space and `Trim`, ASCII digits, `c - '0'`,
  and the decimal rendering of an `int` inside an interpolated string.

Two details of the reader, as the code has them:
* The comment test on line 34 trims the line before looking for `#`, so a
  comment may start with white space.
* The block-row test on line 48 asks only for nine characters with at least
  one digit among them. `PuzzleFile.BlockRowWithDot` shows that `12345678.`
  is accepted, and that line 51 reads its `.` as the cell value -2.

## Model

| member | source | states |
|---|---|---|
| Text.TrimStart | DLXSudoku/Program.cs:34 | The result is a suffix of the line that does not begin with white space, and everything dropped is white space. |
| Text.TrimEnd | DLXSudoku/Program.cs:34 | The result is a prefix of the line that does not end with white space, and everything dropped is white space. |
| Text.IsWhiteSpace | DLXSudoku/Program.cs:34 | The characters `Trim` removes: .NET white space. |
| Text.Trim | DLXSudoku/Program.cs:34 | `Trim` is `TrimEnd` after `TrimStart`; the result is no longer than the line and neither starts nor ends with white space. |
| Text.IsDigit | DLXSudoku/Program.cs:48 | A character that `\d` matches: an ASCII digit. |
| Text.HasDigit | DLXSudoku/Program.cs:48 | `Regex("\\d+").IsMatch(line)`: some character of the line is a digit. |
| Text.CharValue | DLXSudoku/Program.cs:44 | `c - '0'`: the difference of the character codes, defined for every character. |
| Text.NatToString | DLXSudoku/Program.cs:109 | A natural number renders as a non-empty string of digits. |
| Text.IntToString | DLXSudoku/Program.cs:109 | An interpolated `int` renders as at least one character; it starts with `-` exactly when the value is negative, and every other character is a digit. |
| Text.ParseNat | DLXSudoku/Program.cs:109 | The value of a string of decimal digits, the inverse used to state the rendering's round trip. |
| Text.ParseInt | DLXSudoku/Program.cs:109 | The value of an optional `-` followed by decimal digits. |
| Text.NatToStringParses | DLXSudoku/Program.cs:109 | Round trip: parsing the rendering of a natural number gives the number back. |
| Text.IntToStringParses | DLXSudoku/Program.cs:109 | Round trip: parsing the rendering of any `int` gives the value back. |
| Text.IntToStringInjective | DLXSudoku/Program.cs:109 | Two values with the same rendering are equal, so distinct hint values give distinct hint labels. |
| Text.SingleDigit | DLXSudoku/Program.cs:120-123 | A value 0..9 renders as its single digit character, which `c - '0'` reads back as the value. |
| Board.EmptyGrid | DLXSudoku/Program.cs:18 | A new board is 9x9 with every cell 0. |
| Board.Sudoku.constructor | DLXSudoku/Program.cs:16-19 | `new Sudoku()` owns a fresh 9x9 board whose cells are all 0. |
| PuzzleFile.IsComment | DLXSudoku/Program.cs:34 | A line whose first character that is not white space is `#`. |
| PuzzleFile.IsBlockRow | DLXSudoku/Program.cs:48 | A line of exactly 9 characters with at least one digit. |
| PuzzleFile.CommentIsTrimmedHash | DLXSudoku/Program.cs:34 | `IsComment(line)` holds exactly when `line.Trim()` is non-empty and starts with `#`. |
| PuzzleFile.BlockRowWithDot | DLXSudoku/Program.cs:48-51 | A 9-character row with one digit and a `.` is accepted as a block row, and the `.` is read as -2. |
| PuzzleFile.CellOf | DLXSudoku/Program.cs:44 | `.` gives 0, any other character `c` gives `c - '0'`, and a digit gives a value in 0..9. |
| PuzzleFile.WholeLineGrid | DLXSudoku/Program.cs:39-45 | An 81-character line gives a 9x9 board. |
| PuzzleFile.WholeLineCells | DLXSudoku/Program.cs:40-45 | Character `k` of an 81-character line lands at `board[k % 9, k / 9]`, as 0 for `.` and `c - '0'` otherwise. |
| PuzzleFile.WithRow | DLXSudoku/Program.cs:50-51 | A block row writes `line[i] - '0'` into `board[i, lineCount]` for every `i`, and every other cell is kept. |
| PuzzleFile.BlockGrid | DLXSudoku/Program.cs:48-58 | Nine block rows give a 9x9 board. |
| PuzzleFile.Diagnostic | DLXSudoku/Program.cs:62 | The message for an unreadable line: its 1-based number and its first `Math.Min(line.Length, 10)` characters. |
| PuzzleFile.ReaderState | DLXSudoku/Program.cs:25-29 | The reader's locals between two lines: the `sudokus` list, `lineCount`, the board being filled, and the messages written so far. |
| PuzzleFile.Puzzles | DLXSudoku/Program.cs:66 | The list `FromFile` returns: the puzzles of the fold after every line; `PuzzleCount` counts them and `FromLines` returns them. |
| PuzzleFile.Initial | DLXSudoku/Program.cs:25-29 | The reader starts with no puzzles, `lineCount` 0, an empty board and no messages, which is a valid reader state. |
| PuzzleFile.Step | DLXSudoku/Program.cs:31-64 | One line keeps the reader state valid: `lineCount` stays in 0..8 and the partial board stays 9x9. |
| PuzzleFile.After | DLXSudoku/Program.cs:30-64 | After any number of lines the reader state is valid. |
| PuzzleFile.CommentLineSkipped | DLXSudoku/Program.cs:34-35 | A comment line changes nothing, even when its length is 81 or 9, because the comment test comes first. |
| PuzzleFile.WholeLineRead | DLXSudoku/Program.cs:36-47 | A non-comment 81-character line appends exactly its own puzzle. The block counter, the partial board and the messages are unchanged. |
| PuzzleFile.BlockRowRead | DLXSudoku/Program.cs:48-59 | A block row writes its cells into column `lineCount` and increments the counter. The ninth row appends the board, resets the counter to 0 and starts an empty board. No message is produced. |
| PuzzleFile.OtherLineReported | DLXSudoku/Program.cs:60-63 | Any other line adds exactly the message with its 1-based number and first `min(len, 10)` characters. It does not reset the block counter or the partial board. |
| PuzzleFile.PuzzleCount | DLXSudoku/Program.cs:30-64 | The number of puzzles is the number of 81-character lines plus the number of block rows divided by 9. The counter holds the remainder. |
| PuzzleFile.OneLineExtends | DLXSudoku/Program.cs:46-56 | Reading a line never removes or reorders puzzles. |
| PuzzleFile.PuzzlesInOrder | DLXSudoku/Program.cs:30-66 | The puzzles after `m` lines are a prefix of those after any `n >= m` lines, so puzzles come out in input order. |
| PuzzleFile.ZeroCountEmptyBlock | DLXSudoku/Program.cs:52-58 | Whenever the block counter is 0, the partial board is all zeros. |
| PuzzleFile.BlockRowsBetween | DLXSudoku/Program.cs:48 | Lines accepted as block rows all have 9 characters. |
| PuzzleFile.PrefixGrows | DLXSudoku/Program.cs:50-51 | Writing block row `t - 1` onto a board that holds rows `0 .. t - 2` and zeros elsewhere gives one that holds rows `0 .. t - 1` and zeros elsewhere. |
| PuzzleFile.BlockPrefix | DLXSudoku/Program.cs:48-59 | After `t < 9` block rows started from counter 0, no puzzle is added. The counter is `t`, column `j < t` of the board holds row `j`, and every other column is 0. |
| PuzzleFile.BlockOfNine | DLXSudoku/Program.cs:48-59 | Nine consecutive block rows started from counter 0 append exactly one puzzle, with `board[i, j] == block[j][i] - '0'`, and leave the counter at 0. |
| PuzzleFile.IncompleteBlockDropped | DLXSudoku/Program.cs:64-66 | A block cut short by the end of the file is never returned, and the counter holds its length. |
| PuzzleFile.ReadWholeLine | DLXSudoku/Program.cs:39-45 | The loop over `index` fills a fresh board equal to `WholeLineGrid(line)`. |
| PuzzleFile.ReadBlockRow | DLXSudoku/Program.cs:50-51 | The loop over `i` leaves the board equal to `WithRow(old board, lineCount, line)`. |
| PuzzleFile.HandOver | DLXSudoku/Program.cs:56-57 | Appending the current object to the list keeps every board distinct and holding its puzzle, provided the next board is a new one. |
| PuzzleFile.TakeWholeLine | DLXSudoku/Program.cs:36-47 | The new object holds the next puzzle on a fresh board of its own. |
| PuzzleFile.TakeBlockRow | DLXSudoku/Program.cs:48-59 | The list, the counter and the board being filled match the fold after the line. The object is either kept, or appended and replaced by a fresh one. |
| PuzzleFile.ReadLine | DLXSudoku/Program.cs:31-64 | One pass of the `foreach` takes the state of the first `n` lines to that of the first `n + 1`, including the messages. |
| PuzzleFile.FromLines | DLXSudoku/Program.cs:23-67 | Returns one fresh object per puzzle of `Puzzles(lines)`, in order, each with its own board equal to that puzzle, together with the messages of the fold. |
| Encoding.PairColumns | DLXSudoku/Program.cs:84-101 | There are 81 labels in each of the families `C{i}{d}`, `R{j}{d}` and `F{i}{j}`. |
| Encoding.BoxDigitColumns | DLXSudoku/Program.cs:93-97 | There are 81 `G{i}{j}{d}` labels. |
| Encoding.Label2 | DLXSudoku/Program.cs:88 | The interpolated label `$"{tag}{a}{b}"` of lines 88, 92, 101 and 120-123 for `a`, `b` in 1..9: three characters, the tag first. |
| Encoding.Label3 | DLXSudoku/Program.cs:97 | The interpolated label `$"G{i}{j}{d}"` of lines 97 and 122 for values in 1..9: four characters, the tag first. |
| Encoding.HintCell | DLXSudoku/Program.cs:107-109 | The hint column one cell declares: `H{i}{j}{d}` when its value `d` is nonzero, nothing otherwise. |
| Encoding.HintsInLine | DLXSudoku/Program.cs:105-110 | The hint columns of the first `n` cells of column `i`, in the order of the inner loop; `LineHintCount` counts them. |
| Encoding.HintsBefore | DLXSudoku/Program.cs:104-110 | The hint columns of the first `m` board columns, in the order of the outer loop. |
| Encoding.HintColumns | DLXSudoku/Program.cs:103-110 | All the hint columns, one per nonzero cell (`HintCount`), pairwise distinct (`HintsDistinct`); `AddHintColumns` is proved to emit them. |
| Encoding.HintLabel | DLXSudoku/Program.cs:109 | The hint label `H{i}{j}{v}` of the cell in column `i`, row `j` holding `v`. |
| Encoding.Columns | DLXSudoku/Program.cs:84-110 | The columns `Solve` declares: the 324 constraint labels, then one hint label per nonzero cell, `i` outer and `j` inner. |
| Encoding.CandidateRow | DLXSudoku/Program.cs:117-127 | The row for digit `d` in cell `(i, j)`: its `C`, `R`, `G` and `F` labels, plus the hint label when the cell holds `d`. |
| Encoding.Rows | DLXSudoku/Program.cs:115-128 | The 729 rows `Solve` declares; row `k` is the candidate row of `d = 1 + k / 81`, `i = 1 + k / 9 % 9`, `j = 1 + k % 9`. |
| Encoding.ConstraintColumns | DLXSudoku/Program.cs:84-101 | There are 324 constraint columns. |
| Encoding.AddPairColumns | DLXSudoku/Program.cs:86-101 | Each of the nested loops of lines 86-88, 90-92 and 99-101 appends exactly its family `PairColumns(tag)`, in order. |
| Encoding.AddBoxDigitColumns | DLXSudoku/Program.cs:94-97 | The triple loop appends exactly `BoxDigitColumns()`, in order. |
| Encoding.AddLineHints | DLXSudoku/Program.cs:105-110 | The inner loop for column `i` appends the hint labels of that column's nonzero cells, in order. |
| Encoding.AddHintColumns | DLXSudoku/Program.cs:104-110 | Appends the hint labels of all nonzero cells, `i` outer and `j` inner. |
| Encoding.MakeRow | DLXSudoku/Program.cs:117-127 | One row has its four constraint labels, plus the hint label exactly when the cell holds `d`. |
| Encoding.AddRows | DLXSudoku/Program.cs:115-128 | Emits exactly `Rows(g)`, the 729 candidate rows in `d`, `i`, `j` order. |
| Encoding.Encode | DLXSudoku/Program.cs:84-128 | The builder calls emit exactly `Columns(g)` and `Rows(g)`. |
| Encoding.Label2Interpolated | DLXSudoku/Program.cs:88 | The digit-character label equals the interpolated `$"{tag}{a}{b}"` for `a` and `b` in 1..9. |
| Encoding.Label3Interpolated | DLXSudoku/Program.cs:97 | The digit-character label equals `$"{tag}{a}{b}{c}"` for values in 1..9. |
| Encoding.HintLabelInterpolated | DLXSudoku/Program.cs:109 | The hint label equals `$"H{i}{j}{d}"` for any cell value `d`. |
| Encoding.Label2Injective | DLXSudoku/Program.cs:84-101 | Two labels of one family that are equal name the same pair. |
| Text.DigitCharInjective | DLXSudoku/Program.cs:88 | Two values 0..9 render as the same digit character exactly when they are equal. |
| Encoding.Label3Injective | DLXSudoku/Program.cs:93-97 | Two equal box labels name the same box and digit. |
| Encoding.HintLabelInjective | DLXSudoku/Program.cs:103-110 | Two equal hint labels name the same cell. |
| Encoding.DistinctConcat | DLXSudoku/Program.cs:84-110 | Two families with distinct labels and disjoint leading tags concatenate to a family with distinct labels. |
| Encoding.PairFamily | DLXSudoku/Program.cs:84-101 | Each of the `C`, `R` and `F` families has 81 pairwise distinct labels, all with its tag. |
| Encoding.BoxFamily | DLXSudoku/Program.cs:93-97 | The 81 `G` labels are pairwise distinct. |
| Encoding.PairIndexOf | DLXSudoku/Program.cs:86-101 | Entry `k` of the family tagged `tag` is `Label2(tag, x, y)` with `x = 1 + k / 9` and `y = 1 + k % 9` in 1..9, so `k == 9(x - 1) + (y - 1)`. |
| Encoding.BoxIndexOf | DLXSudoku/Program.cs:94-97 | Entry `k` of the box family is `G{p}{q}{r}`, where `k` is `27(p-1) + 9(q-1) + (r-1)`. |
| Encoding.LineHints | DLXSudoku/Program.cs:104-110 | The hint labels of one column are distinct and all start `H{i}`, with the cell number in 1..n. |
| Encoding.HintsDistinct | DLXSudoku/Program.cs:104-110 | All hint labels are pairwise distinct. |
| Encoding.ColumnsDistinct | DLXSudoku/Program.cs:84-110 | Every column label declared is distinct from every other. |
| Encoding.LineCellsSplit | DLXSudoku/Program.cs:107-109 | A cell joins its column's nonzero cells exactly when it is nonzero. |
| Encoding.CellsSplit | DLXSudoku/Program.cs:104-110 | The nonzero cells of one more column are disjoint from those seen before. |
| Encoding.LineHintCount | DLXSudoku/Program.cs:105-110 | One column declares one hint per nonzero cell. |
| Encoding.HintCount | DLXSudoku/Program.cs:104-110 | The board declares one hint per nonzero cell. |
| Encoding.ColumnCount | DLXSudoku/Program.cs:84-110 | Exactly 324 columns are declared, plus one per nonzero cell. |
| Encoding.RowSize | DLXSudoku/Program.cs:119-127 | A row has 4 labels, or 5 exactly when the cell already holds `d`. |
| Encoding.HintDeclared | DLXSudoku/Program.cs:104-110 | The hint label of every nonzero cell is among the declared columns. |
| Encoding.LineHintDeclared | DLXSudoku/Program.cs:105-110 | The hint label of a nonzero cell is among its column's hint labels. |
| Encoding.RowsUseDeclaredColumns | DLXSudoku/Program.cs:84-128 | There are 729 rows, and every label any row names is a declared column. |
| Encoding.CandidateRowDeclared | DLXSudoku/Program.cs:119-127 | Every label of one candidate row is a declared column. |
| Encoding.ConstraintLabelsDeclared | DLXSudoku/Program.cs:120-123 | The `C`, `R`, `G` and `F` labels a row sets are declared columns. |
| Encoding.RowIndex | DLXSudoku/Program.cs:115-117 | Row `k` is the candidate row for `d = 1 + k / 81`, `i = 1 + k / 9 % 9` and `j = 1 + k % 9`, all in 1..9, and `k` is `81(d-1) + 9(i-1) + (j-1)`. |
| Encoding.DecomposeUnique | DLXSudoku/Program.cs:115-117 | Distinct `(d, i, j)` give distinct row numbers. |
| Encoding.FilledColumnAt | DLXSudoku/Program.cs:98-101 | The `F{i}{j}` column sits at index `243 + 9(i-1) + (j-1)` of the declared columns. |
| Encoding.HintInCandidate | DLXSudoku/Program.cs:125-127 | A row names a cell's hint label only if it is that cell's row for the digit the cell holds. |
| Encoding.HintColumnRows | DLXSudoku/Program.cs:103-127 | The hint column of a nonzero cell is named by a row exactly when the hint is in 1..9 and that row places the hint in its cell. |
| Decoding.Untagged | DLXSudoku/Program.cs:137-138 | Every label is non-empty and does not start with the tag, so the lambda neither matches nor throws on any of them. |
| Decoding.FirstTagged | DLXSudoku/Program.cs:137-138 | `FirstOrDefault(s => s[0] == tag)` either finds a label of the row that starts with `tag`, or finds none because every label is non-empty without that tag, or throws because the row has an empty label. |
| Decoding.FirstTaggedIsFirst | DLXSudoku/Program.cs:137-138 | The label found is the first one with the tag: it is `labels[k]`, and every label before index `k` is non-empty and untagged. A throw comes from an empty `labels[k]` with only untagged labels before it. |
| Decoding.MissingIffUntagged | DLXSudoku/Program.cs:137-138 | The search finds nothing (`null`) exactly when every label is non-empty and untagged. |
| Decoding.OnlyTagged | DLXSudoku/Program.cs:137-138 | When a row has no empty label and exactly one label with the tag, the search finds that label, wherever it sits in the row. |
| Decoding.Decodable | DLXSudoku/Program.cs:137-142 | Both a `C` and an `R` label are found, both have at least three characters, their third characters agree, and their second characters are digits 1..9. |
| Decoding.Decode | DLXSudoku/Program.cs:137-142 | A decodable row gives a column and a row in 1..9. |
| Decoding.Place | DLXSudoku/Program.cs:143-146 | Placing keeps a 9x9 board. |
| Decoding.Agrees | DLXSudoku/Program.cs:143-146 | The cell a placement names is empty or already holds its digit: the second `Debug.Assert`. |
| Decoding.Accepts | DLXSudoku/Program.cs:139-146 | Every row of the solution passes the assertion of line 139 and can be indexed, and the assertion of line 146 holds on the board the rows before it leave. `Listen` requires it; `ExactCoverAccepted` proves it of every exact cover. |
| Decoding.Fill | DLXSudoku/Program.cs:135-147 | Placing the first `n` rows keeps a 9x9 board. |
| Decoding.PlaceRow | DLXSudoku/Program.cs:137-146 | The body of the loop leaves the board equal to `Place(old board, Decode(row))`. |
| Decoding.Listen | DLXSudoku/Program.cs:131-149 | The listener leaves the board equal to `Fill` of all the rows, and returns `true`. |
| Decoding.DecodeCandidateRow | DLXSudoku/Program.cs:120-142 | Round trip: the row the encoder declares for `(d, i, j)` is decodable, and decodes to column `i`, row `j`, digit `d`. |
| Decoding.DecodePermuted | DLXSudoku/Program.cs:117-142 | The labels of the row declared for `(d, i, j)`, listed in any order, are decodable and decode to column `i`, row `j`, digit `d`. |
| Decoding.CandidateLabel | DLXSudoku/Program.cs:120-127 | Every label a row sets has at least three characters, and its only `C`, `R` and `F` labels are `C{i}{d}`, `R{j}{d}` and `F{i}{j}`. |
| Decoding.DecodeRows | DLXSudoku/Program.cs:115-142 | Every row `k` of the encoding decodes to the placement its loop indices name. |
| Decoding.FilledCellKept | DLXSudoku/Program.cs:143-146 | A cell that is nonzero is never overwritten by later rows. |
| Decoding.UnnamedCellsKept | DLXSudoku/Program.cs:143-144 | A cell named by no row keeps its value. |
| Decoding.ChangedCellsWereEmpty | DLXSudoku/Program.cs:143-144 | A cell that changed was 0, and now holds the digit of some row that names it. |
| Decoding.RowPlaced | DLXSudoku/Program.cs:139-146 | When the listener's assertions hold, a row with a nonzero digit ends with that digit in its cell. |
| Decoding.EveryRowPlaced | DLXSudoku/Program.cs:135-147 | When the listener's assertions hold, every row with a nonzero digit ends with that digit in its cell. |
| Decoding.ExactCover | DLXSudoku/Program.cs:84-128 | A solution of the exact-cover problem `Solve` declares: each of its rows holds the labels of a declared row, in any order, and each declared column is named by exactly one of its rows. |
| Decoding.RowsOf | DLXSudoku/Program.cs:115-128 | Every row of the solution holds the labels of one of the declared rows, in any order. |
| Decoding.DeclaredRow | DLXSudoku/Program.cs:115-128 | A row holds, as a multiset, the labels of one of the 729 rows `SetColumn` declared, whatever order the solver lists them in. |
| Decoding.Covers | DLXSudoku/Program.cs:84-110 | Every declared column, by position, is named by some row of the solution. |
| Decoding.OnceEach | DLXSudoku/Program.cs:84-110 | No declared column is named by two different rows of the solution. |
| Decoding.NamedAt | DLXSudoku/Program.cs:131-136 | A column some row names is entry `x` of row `u` of the solution. |
| Decoding.SolutionRow | DLXSudoku/Program.cs:115-142 | A row of such a solution holds the labels of the candidate row of some `(d, i, j)` in 1..9, in any order, and decodes to that placement. |
| Decoding.ExactCoverDecodable | DLXSudoku/Program.cs:115-142 | Every row of such a solution is decodable: the first `Debug.Assert` and the indexing of lines 140-142 succeed. |
| Decoding.OneRowPerCell | DLXSudoku/Program.cs:98-101 | Two rows of an exact cover that name the same cell are the same row, because each `F{i}{j}` column is covered once. |
| Decoding.HintColumnDeclared | DLXSudoku/Program.cs:103-110 | The hint label of every nonzero cell is a declared column, at some position `n`. |
| Decoding.ExactCoverHintsInRange | DLXSudoku/Program.cs:103-127 | If an exact cover exists, every cell of the puzzle is in 0..9: a hint outside 1..9 has a column no row names. |
| Decoding.CoverRowAgrees | DLXSudoku/Program.cs:143-146 | When the listener reaches row `t` of an exact cover, its cell is empty or already holds its digit. |
| Decoding.HintRowDigit | DLXSudoku/Program.cs:103-127 | The row of an exact cover that names a cell holding a hint places exactly that hint, since only that row covers the hint column. |
| Decoding.NoEarlierRow | DLXSudoku/Program.cs:143-144 | A cell that is empty in the puzzle is still empty when the listener reaches the exact-cover row naming it: no earlier row names it. |
| Decoding.ExactCoverAccepted | DLXSudoku/Program.cs:131-147 | The first exact cover the listener receives meets all its `Debug.Assert`s on the puzzle's board. |
| Decoding.ExactCoverSolves | DLXSudoku/Program.cs:84-147 | After the listener writes an exact cover onto the puzzle, every cell holds a digit 1..9 and every hint is kept. |
| Decoding.CellsSolved | DLXSudoku/Program.cs:98-101 | When the listener's assertions hold and the rows are declared ones covering every column, each cell ends holding a digit 1..9: the row covering its `F{i}{j}` column placed one. |
| Decoding.CellSolved | DLXSudoku/Program.cs:143-146 | Under the listener's assertions, a cell in which some row places a digit 1..9 ends holding a digit 1..9. |
| Decoding.HintsKept | DLXSudoku/Program.cs:143-144 | A nonzero cell of the puzzle is unchanged after all rows are placed. |
| Decoding.CoveringRow | DLXSudoku/Program.cs:98-101 | Each cell has a row in a covering solution that names its `F` column, and that row decodes to a placement in the cell. |
| Decoding.FilledCovered | DLXSudoku/Program.cs:98-101 | In a covering solution of declared rows, some row `u` holds the labels of declared row `k` and names the cell's `F` column. |
| Decoding.FilledRowPlacement | DLXSudoku/Program.cs:117-123 | The labels of a declared row, in any order, that name `F{a+1}{b+1}` decode to a placement in that cell with a digit 1..9. |
| Decoding.FilledLabelAt | DLXSudoku/Program.cs:117-123 | A candidate row that sets `F{a+1}{b+1}` is the row of cell (a + 1, b + 1): its only `F` label is `F{i}{j}`. |

## Left out

- The solver is not part of this model: `DancingLinksSolver`, its search and its solution count. `AddColumn`, `NewRow` and `SetColumn` are modelled as the labels they are given. `dlx.Solve()` is modelled only through the solutions it passes to the listener.
- `File.ReadAllLines` is not modelled: the file is given as its sequence of lines.
- `Console.WriteLine` is not modelled: each message is returned as a `Diagnostic` record with its line number and text.
- `Print` and `Main` are not modelled, because they are console I/O.
- The `Stopwatch` timing and the `double` seconds that `Solve` returns are not modelled, because they are clock readings and floating point.
- `Text.IsDigit`: the regular expression `\d` is taken to match the ASCII digits only. .NET also matches other Unicode decimal digits.
- `PuzzleFile.IsComment`: `StartsWith("#")` is modelled as an ordinal comparison of the first character. Culture-sensitive matching is not modelled.
- `Decoding.Listen`: the `Debug.Assert` calls are modelled as preconditions, and so are two requirements the code leaves implicit. The labels it indexes must be long enough. The digits `col[1] - '0'` and `row[1] - '0'` must lie in 1..9, since line 143 otherwise indexes the board out of range and throws `IndexOutOfRangeException`. A solution that breaks them is not modelled. A debug build would stop on it, and a release build would go on or throw.
- `Decoding.Listen`: the listener returns `true`, so the solver goes on to further solutions, and it writes them all onto the same board. `ExactCoverAccepted` proves that the first exact cover meets the preconditions. On a puzzle with two or more solutions, a later one disagrees with the board the first one filled, so the program's own second call breaks `Accepts`: the `Debug.Assert` on line 146 fires in a debug build, and a release build keeps the first solution's digits. The model covers only calls that meet `Accepts`.
- `Decoding.ExactCover` stands in for the solver's output: the model takes from Algorithm X that the solver passes only exact covers of the declared matrix, because `DancingLinksSolver` is not part of this model. A reported row may list its labels in any order (the comment on line 133 shows `R` before `C`). Only the labels it holds and how often it holds them are fixed: they must be those of a declared row. That every label of a declared row is reported comes from the solver alone. The comment on line 133 is out of date on this point: it lists three or four labels (`R`, `C`, `F`, sometimes `H`) and no `G` label, whereas lines 119-127 set four or five.
- Strings are sequences of Unicode scalar values, whereas C# `Length`, indexing, `Substring` and `c - '0'` work on UTF-16 code units. A line holding a character outside the Basic Multilingual Plane is therefore measured, indexed and cut differently from the program.
- `Text.IntToString`: the `-` of a negative value is the invariant culture's negative sign. C# interpolation formats with the current culture, whose negative sign may differ.
- `Decoding.FirstTagged` returns `Missing` where the C# code yields `null`. Using that `null` is excluded by `Decodable`.
- `Encoding.Label2` and `Encoding.Label3`: labels are built from digit characters rather than from the general `int` rendering. `Label2Interpolated` and `Label3Interpolated` prove the two equal for the values 1..9 the loops use.
- `Encoding.CandidateRow`: the optional hint label is written with the cell's value. It appears only when that value equals `d`, so it is the program's `H{i}{j}{d}`.
- `Decoding.EveryRowPlaced` is stated only for rows whose digit is nonzero. A digit 0 leaves its cell empty, where a later row may fill it.
- The board of a `Sudoku` is a `const` array, because the program never assigns the field, only its cells.
- Integer width is not modelled. Apart from `lineNumber`, every value the code computes is a character difference or an index below 1000, far inside the 32-bit range of C# `int`. `lineNumber` (lines 29 and 32) is not bounded by the model. It counts the entries of the array `File.ReadAllLines` returns, and a .NET array has fewer than 2^31 entries, so it does not overflow either.
