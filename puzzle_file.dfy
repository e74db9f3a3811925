/** `Program.FromFile`: reads the puzzles of a text file, line by line.
    The file is given as its sequence of lines (reading it is I/O), and the
    diagnostics the reader writes to the console are returned as records. */
module PuzzleFile {
  import opened Text
  import opened Board

  /** A line whose first character that is not white space is '#'. */
  predicate IsComment(line: string) {
    if line == [] then false
    else if IsWhiteSpace(line[0]) then IsComment(line[1..])
    else line[0] == '#'
  }

  /** `line.Trim().StartsWith("#")`, the test the program writes, is the same
      test as `IsComment`. */
  lemma {:induction false} CommentIsTrimmedHash(line: string)
    ensures IsComment(line) <==> |Trim(line)| > 0 && Trim(line)[0] == '#'
  {
    if line != [] && IsWhiteSpace(line[0]) {
      CommentIsTrimmedHash(line[1..]);
    }
  }

  /** A line of a 9-line block: nine characters, at least one a digit. */
  predicate IsBlockRow(line: string) {
    |line| == 9 && HasDigit(line)
  }

  /** A block row needs only one digit: a row such as `12345678.` is
      accepted, and its '.' is read by `c - '0'` as the cell value -2. */
  lemma BlockRowWithDot()
    ensures IsBlockRow("12345678.") && CharValue("12345678."[8]) == -2
  {
    assert IsDigit("12345678."[0]);
  }

  /** The cell a character of an 81-character line gives: '.' is blank. */
  function CellOf(c: char): (v: int)
    ensures c == '.' ==> v == 0
    ensures c != '.' ==> v == CharValue(c)
    ensures IsDigit(c) ==> 0 <= v <= 9
  {
    if c == '.' then 0 else CharValue(c)
  }

  /** The puzzle an 81-character line holds: character `k` is the cell in
      column `k % 9` of row `k / 9`. */
  function WholeLineGrid(line: string): (g: Grid)
    requires |line| == 81
    ensures IsGrid(g)
  {
    seq(9, i requires 0 <= i < 9 => seq(9, j requires 0 <= j < 9 => CellOf(line[9 * j + i])))
  }

  /** Character `k` of an 81-character line is the cell in column `k % 9` of
      row `k / 9`. */
  lemma WholeLineCells(line: string)
    requires |line| == 81
    ensures forall k :: 0 <= k < 81 ==> WholeLineGrid(line)[k % 9][k / 9] == CellOf(line[k])
  {
    forall k | 0 <= k < 81
      ensures WholeLineGrid(line)[k % 9][k / 9] == CellOf(line[k])
    {
      var i, j := k % 9, k / 9;
      assert 9 * j + i == k;
    }
  }

  /** `g` with column `c` of its second index overwritten by `line[i] - '0'`. */
  function WithRow(g: Grid, c: int, line: string): (r: Grid)
    requires IsGrid(g) && 0 <= c < 9 && |line| == 9
    ensures IsGrid(r)
    ensures forall i :: 0 <= i < 9 ==> r[i][c] == CharValue(line[i])
    ensures forall i, j :: 0 <= i < 9 && 0 <= j < 9 && j != c ==> r[i][j] == g[i][j]
  {
    seq(9, i requires 0 <= i < 9 => g[i][c := CharValue(line[i])])
  }

  /** The puzzle nine block rows give: `board[i, j]` is `block[j][i] - '0'`. */
  function BlockGrid(block: seq<string>): (g: Grid)
    requires |block| == 9 && forall j :: 0 <= j < 9 ==> |block[j]| == 9
    ensures IsGrid(g)
  {
    seq(9, i requires 0 <= i < 9 => seq(9, j requires 0 <= j < 9 => CharValue(block[j][i])))
  }

  /** The console message for an unreadable line: its 1-based number and its
      first `Math.Min(line.Length, 10)` characters. */
  datatype Diagnostic = Diagnostic(lineNumber: int, start: string)

  function Min(a: int, b: int): int {
    if a < b then a else b
  }

  /** The reader's variables between two lines: the list `sudokus`, the
      `lineCount` of the block being read, the `board` of the puzzle being
      assembled from it, and the messages written so far. */
  datatype ReaderState = ReaderState(
    puzzles: seq<Grid>,
    lineCount: int,
    partial: Grid,
    diagnostics: seq<Diagnostic>)

  ghost predicate ValidState(s: ReaderState) {
    && 0 <= s.lineCount < 9
    && IsGrid(s.partial)
  }

  function Initial(): (s: ReaderState)
    ensures ValidState(s)
  {
    ReaderState([], 0, EmptyGrid(), [])
  }

  /** One turn of the loop, for the line numbered `lineNumber`. */
  function Step(s: ReaderState, line: string, lineNumber: int): (r: ReaderState)
    requires ValidState(s)
    ensures ValidState(r)
  {
    if IsComment(line) then s
    else if |line| == 81 then s.(puzzles := s.puzzles + [WholeLineGrid(line)])
    else if IsBlockRow(line) then
      var board := WithRow(s.partial, s.lineCount, line);
      if s.lineCount + 1 == 9 then
        s.(puzzles := s.puzzles + [board], lineCount := 0, partial := EmptyGrid())
      else
        s.(lineCount := s.lineCount + 1, partial := board)
    else
      s.(diagnostics := s.diagnostics + [Diagnostic(lineNumber, line[..Min(|line|, 10)])])
  }

  /** The reader's state after the first `n` lines. */
  function After(lines: seq<string>, n: nat): (s: ReaderState)
    requires n <= |lines|
    ensures ValidState(s)
  {
    if n == 0 then Initial() else Step(After(lines, n - 1), lines[n - 1], n)
  }

  /** What `FromFile` returns. */
  function Puzzles(lines: seq<string>): seq<Grid> {
    After(lines, |lines|).puzzles
  }

  /** Number of non-comment lines of exactly 81 characters among the first `n`. */
  function WholeLines(lines: seq<string>, n: nat): nat
    requires n <= |lines|
  {
    if n == 0 then 0
    else WholeLines(lines, n - 1) + if !IsComment(lines[n - 1]) && |lines[n - 1]| == 81 then 1 else 0
  }

  /** Number of non-comment block rows among the first `n` lines. */
  function BlockRows(lines: seq<string>, n: nat): nat
    requires n <= |lines|
  {
    if n == 0 then 0
    else BlockRows(lines, n - 1) + if !IsComment(lines[n - 1]) && IsBlockRow(lines[n - 1]) then 1 else 0
  }

  /** A comment line changes nothing, whatever its length: the comment test
      comes before the length tests. */
  lemma CommentLineSkipped(lines: seq<string>, n: nat)
    requires n < |lines| && IsComment(lines[n])
    ensures After(lines, n + 1) == After(lines, n)
  {
  }

  /** A non-comment line of 81 characters appends exactly one puzzle, the
      one `WholeLineGrid` reads from it, and changes nothing else. */
  lemma WholeLineRead(lines: seq<string>, n: nat)
    requires n < |lines| && !IsComment(lines[n]) && |lines[n]| == 81
    ensures var before, after := After(lines, n), After(lines, n + 1);
      && after.puzzles == before.puzzles + [WholeLineGrid(lines[n])]
      && after.lineCount == before.lineCount
      && after.partial == before.partial
      && after.diagnostics == before.diagnostics
  {
  }

  /** A non-comment block row writes `line[i] - '0'` into `board[i, lineCount]`
      and counts itself; the ninth one appends the puzzle and starts an
      empty one. */
  lemma BlockRowRead(lines: seq<string>, n: nat)
    requires n < |lines| && !IsComment(lines[n]) && IsBlockRow(lines[n])
    ensures var before, after := After(lines, n), After(lines, n + 1);
      var board := WithRow(before.partial, before.lineCount, lines[n]);
      && after.diagnostics == before.diagnostics
      && (before.lineCount < 8 ==>
            after.puzzles == before.puzzles && after.lineCount == before.lineCount + 1
            && after.partial == board)
      && (before.lineCount == 8 ==>
            after.puzzles == before.puzzles + [board] && after.lineCount == 0
            && after.partial == EmptyGrid())
  {
  }

  /** Any other line (blank, a wrong length, nine characters without a digit)
      only adds a diagnostic: the block being read is kept as it was. */
  lemma OtherLineReported(lines: seq<string>, n: nat)
    requires n < |lines| && !IsComment(lines[n]) && |lines[n]| != 81 && !IsBlockRow(lines[n])
    ensures var before, after := After(lines, n), After(lines, n + 1);
      && after.puzzles == before.puzzles
      && after.lineCount == before.lineCount
      && after.partial == before.partial
      && after.diagnostics == before.diagnostics
           + [Diagnostic(n + 1, lines[n][..Min(|lines[n]|, 10)])]
  {
  }

  /** The number of puzzles read is the number of 81-character lines plus one
      per nine block rows; the block counter holds the rows left over. */
  lemma {:induction false} PuzzleCount(lines: seq<string>, n: nat)
    requires n <= |lines|
    ensures |After(lines, n).puzzles| == WholeLines(lines, n) + BlockRows(lines, n) / 9
    ensures After(lines, n).lineCount == BlockRows(lines, n) % 9
  {
    if n > 0 {
      PuzzleCount(lines, n - 1);
    }
  }

  /** Reading one line never removes or reorders puzzles. */
  lemma OneLineExtends(lines: seq<string>, n: nat)
    requires n < |lines|
    ensures After(lines, n).puzzles <= After(lines, n + 1).puzzles
  {
  }

  /** Puzzles come out in input order: reading more lines only appends. */
  lemma {:induction false} PuzzlesInOrder(lines: seq<string>, m: nat, n: nat)
    requires m <= n <= |lines|
    ensures After(lines, m).puzzles <= After(lines, n).puzzles
    decreases n
  {
    if m == n {
      assert After(lines, m) == After(lines, n);
    } else {
      PuzzlesInOrder(lines, m, n - 1);
      OneLineExtends(lines, n - 1);
      var a, b, c := After(lines, m).puzzles, After(lines, n - 1).puzzles, After(lines, n).puzzles;
      assert forall k :: 0 <= k < |a| ==> a[k] == b[k] == c[k];
      assert a <= c;
    }
  }

  /** Whenever no block is under way, the partial board is empty. */
  lemma {:induction false} ZeroCountEmptyBlock(lines: seq<string>, n: nat)
    requires n <= |lines| && After(lines, n).lineCount == 0
    ensures After(lines, n).partial == EmptyGrid()
  {
    if n > 0 && After(lines, n - 1).lineCount == 0 {
      ZeroCountEmptyBlock(lines, n - 1);
    }
  }

  /** Lines `m` .. `n - 1` are all non-comment block rows. */
  ghost predicate BlockRowsBetween(lines: seq<string>, m: nat, n: nat): (b: bool)
    requires m <= n <= |lines|
    ensures b ==> forall j :: m <= j < n ==> |lines[j]| == 9
    decreases n
  {
    n == m || (BlockRowsBetween(lines, m, n - 1) && !IsComment(lines[n - 1]) && IsBlockRow(lines[n - 1]))
  }

  /** Writing block row `t - 1` into a board holding rows `0 .. t - 2` of the
      block gives the board holding rows `0 .. t - 1`. */
  lemma PrefixGrows(p: Grid, lines: seq<string>, m: nat, t: nat)
    requires IsGrid(p) && 0 < t < 9 && m + t <= |lines| && |lines[m + t - 1]| == 9
    requires forall j :: m <= j < m + t ==> |lines[j]| == 9
    requires forall i, j :: 0 <= i < 9 && 0 <= j < t - 1 ==> p[i][j] == CharValue(lines[m + j][i])
    requires forall i, j :: 0 <= i < 9 && t - 1 <= j < 9 ==> p[i][j] == 0
    ensures var r := WithRow(p, t - 1, lines[m + t - 1]);
      && (forall i, j :: 0 <= i < 9 && 0 <= j < t ==> r[i][j] == CharValue(lines[m + j][i]))
      && (forall i, j :: 0 <= i < 9 && t <= j < 9 ==> r[i][j] == 0)
  {
  }

  /** After `t` block rows read from an empty block, the partial board holds
      the block's row `j` in its column `j < t` and zeros elsewhere. */
  lemma {:induction false} BlockPrefix(lines: seq<string>, m: nat, t: nat)
    requires m + t <= |lines| && t < 9
    requires After(lines, m).lineCount == 0 && BlockRowsBetween(lines, m, m + t)
    ensures var s := After(lines, m + t);
      && s.puzzles == After(lines, m).puzzles
      && s.lineCount == t
      && (forall i, j :: 0 <= i < 9 && 0 <= j < t ==> s.partial[i][j] == CharValue(lines[m + j][i]))
      && (forall i, j :: 0 <= i < 9 && t <= j < 9 ==> s.partial[i][j] == 0)
    decreases t
  {
    if t == 0 {
      ZeroCountEmptyBlock(lines, m);
    } else {
      var n := m + t - 1;
      BlockPrefix(lines, m, t - 1);
      BlockRowRead(lines, n);
      PrefixGrows(After(lines, n).partial, lines, m, t);
      assert n + 1 == m + t;
      var before, after := After(lines, n), After(lines, m + t);
      assert after.puzzles == before.puzzles && after.lineCount == t;
    }
  }

  /** The ninth row of a block completes the board the first eight began. */
  lemma CompleteBlock(p: Grid, block: seq<string>)
    requires IsGrid(p) && |block| == 9 && forall j :: 0 <= j < 9 ==> |block[j]| == 9
    requires forall i, j :: 0 <= i < 9 && 0 <= j < 8 ==> p[i][j] == CharValue(block[j][i])
    ensures WithRow(p, 8, block[8]) == BlockGrid(block)
  {
    var board := WithRow(p, 8, block[8]);
    forall i | 0 <= i < 9
      ensures board[i] == BlockGrid(block)[i]
    {
    }
  }

  /** Nine block rows read from an empty block append exactly one puzzle, with
      `board[i, j]` taken from character `i` of the block's row `j`. */
  lemma BlockOfNine(lines: seq<string>, m: nat)
    requires m + 9 <= |lines|
    requires After(lines, m).lineCount == 0 && BlockRowsBetween(lines, m, m + 9)
    ensures After(lines, m + 9).puzzles == After(lines, m).puzzles + [BlockGrid(lines[m..m + 9])]
    ensures After(lines, m + 9).lineCount == 0
  {
    BlockPrefix(lines, m, 8);
    BlockRowRead(lines, m + 8);
    var block := lines[m..m + 9];
    assert forall j :: 0 <= j < 9 ==> block[j] == lines[m + j];
    CompleteBlock(After(lines, m + 8).partial, block);
  }

  /** A block still incomplete when the lines run out is never returned. */
  lemma IncompleteBlockDropped(lines: seq<string>, m: nat)
    requires m < |lines| && |lines| < m + 9
    requires After(lines, m).lineCount == 0 && BlockRowsBetween(lines, m, |lines|)
    ensures Puzzles(lines) == After(lines, m).puzzles
    ensures After(lines, |lines|).lineCount == |lines| - m
  {
    BlockPrefix(lines, m, |lines| - m);
  }

  /** Lines 39-45 of `FromFile`: a new puzzle filled from an 81-character line. */
  method ReadWholeLine(line: string) returns (ss: Sudoku)
    requires |line| == 81
    ensures ss.Valid() && fresh(ss.board)
    ensures ss.Grid() == WholeLineGrid(line)
  {
    ss := new Sudoku();
    for index := 0 to 81
      invariant forall k :: 0 <= k < index ==> ss.board[k % 9, k / 9] == CellOf(line[k])
    {
      var (i, j) := (index % 9, index / 9);
      var c := line[index];
      ss.board[i, j] := if c == '.' then 0 else CharValue(c);
    }
    forall i, j | 0 <= i < 9 && 0 <= j < 9
      ensures ss.board[i, j] == WholeLineGrid(line)[i][j]
    {
      var k := 9 * j + i;
      assert k % 9 == i && k / 9 == j;
    }
    assert forall i :: 0 <= i < 9 ==> ss.Grid()[i] == WholeLineGrid(line)[i];
  }

  /** Lines 50-51 of `FromFile`: a block row written into `board[i, lineCount]`. */
  method ReadBlockRow(sudoku: Sudoku, line: string, lineCount: int)
    requires sudoku.Valid() && |line| == 9 && 0 <= lineCount < 9
    modifies sudoku.board
    ensures sudoku.Grid() == WithRow(old(sudoku.Grid()), lineCount, line)
  {
    ghost var before := sudoku.Grid();
    for i := 0 to 9
      invariant forall a, b :: 0 <= a < 9 && 0 <= b < 9 ==>
        sudoku.board[a, b] == if b == lineCount && a < i then CharValue(line[a]) else before[a][b]
    {
      sudoku.board[i, lineCount] := CharValue(line[i]);
    }
    assert forall a :: 0 <= a < 9 ==> sudoku.Grid()[a] == WithRow(before, lineCount, line)[a];
  }

  /** The objects `sudokus` hold `puzzles` in order, each on a board of its
      own, and none of them on `current`. */
  ghost predicate Holding(sudokus: seq<Sudoku>, puzzles: seq<Grid>, current: array2<int>)
    reads set k | 0 <= k < |sudokus| :: sudokus[k].board
  {
    && |sudokus| == |puzzles|
    && (forall k :: 0 <= k < |sudokus| ==>
          sudokus[k].Valid() && sudokus[k].board != current && sudokus[k].Grid() == puzzles[k])
    && (forall a, b :: 0 <= a < b < |sudokus| ==> sudokus[a].board != sudokus[b].board)
  }

  /** Handing over the board being filled keeps `Holding` for a fresh one. */
  lemma HandOver(sudokus: seq<Sudoku>, puzzles: seq<Grid>, sudoku: Sudoku, next: array2<int>)
    requires Holding(sudokus, puzzles, sudoku.board) && sudoku.Valid()
    requires next != sudoku.board && forall k :: 0 <= k < |sudokus| ==> sudokus[k].board != next
    ensures Holding(sudokus + [sudoku], puzzles + [sudoku.Grid()], next)
  {
    var s, p := sudokus + [sudoku], puzzles + [sudoku.Grid()];
    assert forall k :: 0 <= k < |sudokus| ==> s[k] == sudokus[k] && p[k] == puzzles[k];
  }

  /** Lines 36-47 of `FromFile`: a whole-line puzzle becomes a new object of
      its own, appended to those read so far. */
  method TakeWholeLine(lines: seq<string>, n: nat, sudokus: seq<Sudoku>, current: array2<int>)
    returns (ss: Sudoku)
    requires n < |lines| && !IsComment(lines[n]) && |lines[n]| == 81
    requires Holding(sudokus, After(lines, n).puzzles, current)
    ensures fresh(ss.board)
    ensures Holding(sudokus + [ss], After(lines, n + 1).puzzles, current)
  {
    ss := ReadWholeLine(lines[n]);
    WholeLineRead(lines, n);
    assert After(lines, n + 1).puzzles == After(lines, n).puzzles + [ss.Grid()];
    HandOver(sudokus, After(lines, n).puzzles, ss, current);
  }

  /** Lines 48-59 of `FromFile`: a block row is written into the board being
      filled; the ninth row hands that board over and starts a new one. */
  method TakeBlockRow(lines: seq<string>, n: nat, sudokus: seq<Sudoku>, sudoku: Sudoku, lineCount: int)
    returns (sudokus': seq<Sudoku>, sudoku': Sudoku, lineCount': int)
    requires n < |lines| && !IsComment(lines[n]) && IsBlockRow(lines[n])
    requires sudoku.Valid() && lineCount == After(lines, n).lineCount
    requires sudoku.Grid() == After(lines, n).partial
    requires Holding(sudokus, After(lines, n).puzzles, sudoku.board)
    modifies sudoku.board
    ensures sudoku'.Valid() && lineCount' == After(lines, n + 1).lineCount
    ensures sudoku'.Grid() == After(lines, n + 1).partial
    ensures Holding(sudokus', After(lines, n + 1).puzzles, sudoku'.board)
    ensures (sudokus' == sudokus && sudoku' == sudoku)
      || (sudokus' == sudokus + [sudoku] && fresh(sudoku'.board))
  {
    BlockRowRead(lines, n);
    ReadBlockRow(sudoku, lines[n], lineCount);
    sudokus', sudoku', lineCount' := sudokus, sudoku, lineCount + 1;
    if lineCount' == 9 {
      lineCount' := 0;
      sudoku' := new Sudoku();
      HandOver(sudokus, After(lines, n).puzzles, sudoku, sudoku'.board);
      sudokus' := sudokus + [sudoku];
    }
  }

  /** One pass of the `foreach` of `FromFile` (lines 31-66), on line number
      `lineNumber` (counted from 1): the line is skipped, read as a whole
      puzzle, read as a block row, or reported. */
  method ReadLine(lines: seq<string>, n: nat, lineNumber: int, sudokus: seq<Sudoku>, sudoku: Sudoku,
                  lineCount: int, diagnostics: seq<Diagnostic>)
    returns (sudokus': seq<Sudoku>, sudoku': Sudoku, lineCount': int, diagnostics': seq<Diagnostic>)
    requires n < |lines| && lineNumber == n + 1
    requires sudoku.Valid() && lineCount == After(lines, n).lineCount
    requires sudoku.Grid() == After(lines, n).partial
    requires Holding(sudokus, After(lines, n).puzzles, sudoku.board)
    requires diagnostics == After(lines, n).diagnostics
    modifies sudoku.board
    ensures sudoku'.Valid() && lineCount' == After(lines, n + 1).lineCount
    ensures sudoku'.Grid() == After(lines, n + 1).partial
    ensures Holding(sudokus', After(lines, n + 1).puzzles, sudoku'.board)
    ensures diagnostics' == After(lines, n + 1).diagnostics
    ensures sudoku' == sudoku || fresh(sudoku'.board)
    ensures forall s :: s in sudokus' ==> s in sudokus || s == sudoku || fresh(s.board)
  {
    var line := lines[n];
    sudokus', sudoku', lineCount', diagnostics' := sudokus, sudoku, lineCount, diagnostics;
    if IsComment(line) {
      CommentLineSkipped(lines, n);
    } else if |line| == 81 {
      WholeLineRead(lines, n);
      var ss := TakeWholeLine(lines, n, sudokus, sudoku.board);
      sudokus' := sudokus + [ss];
    } else if |line| == 9 && HasDigit(line) {
      BlockRowRead(lines, n);
      sudokus', sudoku', lineCount' := TakeBlockRow(lines, n, sudokus, sudoku, lineCount);
    } else {
      OtherLineReported(lines, n);
      diagnostics' := diagnostics + [Diagnostic(lineNumber, line[..Min(|line|, 10)])];
    }
  }

  /** `FromFile` over the lines of the file: the puzzles it returns, each a
      fresh object with its own board, and the diagnostics it writes. */
  method FromLines(lines: seq<string>) returns (sudokus: seq<Sudoku>, diagnostics: seq<Diagnostic>)
    ensures |sudokus| == |Puzzles(lines)|
    ensures forall k :: 0 <= k < |sudokus| ==>
      sudokus[k].Valid() && fresh(sudokus[k].board) && sudokus[k].Grid() == Puzzles(lines)[k]
    ensures forall a, b :: 0 <= a < b < |sudokus| ==> sudokus[a].board != sudokus[b].board
    ensures diagnostics == After(lines, |lines|).diagnostics
  {
    var sudoku := new Sudoku();
    sudokus := [];
    diagnostics := [];
    var lineCount := 0;
    var lineNumber := 0;
    for n := 0 to |lines|
      invariant lineNumber == n
      invariant sudoku.Valid() && fresh(sudoku.board)
      invariant forall s :: s in sudokus ==> fresh(s.board)
      invariant Holding(sudokus, After(lines, n).puzzles, sudoku.board)
      invariant lineCount == After(lines, n).lineCount
      invariant sudoku.Grid() == After(lines, n).partial
      invariant diagnostics == After(lines, n).diagnostics
    {
      lineNumber := lineNumber + 1;
      sudokus, sudoku, lineCount, diagnostics :=
        ReadLine(lines, n, lineNumber, sudokus, sudoku, lineCount, diagnostics);
    }
    assert forall k :: 0 <= k < |sudokus| ==> sudokus[k] in sudokus;
  }
}
