/** The `SolutionListener` that `Program.Solve` registers: it reads a digit
    and a cell from each row of a reported solution and writes it into the
    puzzle's board, leaving filled cells as they are. */
module Decoding {
  import opened Text
  import opened Board
  import opened Encoding

  /** Every label is non-empty and does not start with `tag`: the test
      `s[0] == tag` is false of each and throws on none. */
  predicate Untagged(labels: seq<string>, tag: char) {
    forall k :: 0 <= k < |labels| ==> |labels[k]| > 0 && labels[k][0] != tag
  }

  /** The outcome of `labels.FirstOrDefault(s => s[0] == tag)`: the first
      label starting with `tag`, none (`null`), or the exception `s[0]`
      raises on an empty label met before any match. */
  datatype Search = Found(value: string) | Missing | Throws

  function FirstTagged(labels: seq<string>, tag: char): (r: Search)
    ensures r.Found? ==> r.value in labels && |r.value| > 0 && r.value[0] == tag
    ensures r.Missing? ==> Untagged(labels, tag)
    ensures r.Throws? ==> [] in labels
  {
    if labels == [] then Missing
    else if labels[0] == [] then Throws
    else if labels[0][0] == tag then Found(labels[0])
    else FirstTagged(labels[1..], tag)
  }

  /** `FirstTagged` stops at the first label that matches or throws: that
      label is `labels[k]`, and every label before it is non-empty and
      untagged. */
  lemma {:induction false} FirstTaggedIsFirst(labels: seq<string>, tag: char) returns (k: int)
    ensures var r := FirstTagged(labels, tag);
      && (r.Found? ==> 0 <= k < |labels| && labels[k] == r.value && Untagged(labels[..k], tag))
      && (r.Throws? ==> 0 <= k < |labels| && labels[k] == [] && Untagged(labels[..k], tag))
  {
    k := 0;
    if labels == [] {
    } else if labels[0] == [] {
      assert labels[..0] == [];
    } else if labels[0][0] == tag {
      assert labels[..0] == [];
    } else {
      var rest := labels[1..];
      var j := FirstTaggedIsFirst(rest, tag);
      assert FirstTagged(labels, tag) == FirstTagged(rest, tag);
      k := j + 1;
      if !FirstTagged(rest, tag).Missing? {
        assert labels[..k] == [labels[0]] + rest[..j];
      }
    }
  }

  /** The search comes back `Missing` exactly when every label is non-empty
      and untagged. */
  lemma {:induction false} MissingIffUntagged(labels: seq<string>, tag: char)
    ensures FirstTagged(labels, tag).Missing? <==> Untagged(labels, tag)
  {
    if labels != [] && labels[0] != [] && labels[0][0] != tag {
      var rest := labels[1..];
      MissingIffUntagged(rest, tag);
      assert FirstTagged(labels, tag) == FirstTagged(rest, tag);
      if Untagged(rest, tag) {
        forall j | 0 <= j < |labels|
          ensures |labels[j]| > 0 && labels[j][0] != tag
        {
          if j > 0 {
            assert labels[j] == rest[j - 1];
          }
        }
      }
    }
  }

  /** When `x` is the one label starting with `tag` and no label is empty,
      the search finds `x`, wherever in the labels it sits. */
  lemma OnlyTagged(labels: seq<string>, tag: char, x: string)
    requires x in labels && |x| > 0 && x[0] == tag
    requires forall y :: y in labels ==> |y| > 0 && (y[0] == tag ==> y == x)
    ensures FirstTagged(labels, tag) == Found(x)
  {
    var k :| 0 <= k < |labels| && labels[k] == x;
    assert !Untagged(labels, tag);
  }

  /** A decoded row: digit `digit` goes in `board[column - 1, row - 1]`. */
  datatype Placement = Placement(column: int, row: int, digit: int)

  /** What the listener asserts of a solution row (a `C` and an `R` label
      sharing their third character) and what its indexing needs (the cell
      the two labels name lies on the board). */
  predicate Decodable(labels: seq<string>) {
    var col, row := FirstTagged(labels, 'C'), FirstTagged(labels, 'R');
    && col.Found? && row.Found?
    && |col.value| >= 3 && |row.value| >= 3
    && row.value[2] == col.value[2]
    && 1 <= CharValue(col.value[1]) <= 9
    && 1 <= CharValue(row.value[1]) <= 9
  }

  /** Lines 137-142: the cell and the digit one solution row stands for. */
  function Decode(labels: seq<string>): (p: Placement)
    requires Decodable(labels)
    ensures 1 <= p.column <= 9 && 1 <= p.row <= 9
  {
    var col, row := FirstTagged(labels, 'C').value, FirstTagged(labels, 'R').value;
    Placement(CharValue(col[1]), CharValue(row[1]), CharValue(col[2]))
  }

  /** Lines 143-146: the digit is written only into an empty cell. */
  function Place(g: Grid, p: Placement): (r: Grid)
    requires IsGrid(g) && 1 <= p.column <= 9 && 1 <= p.row <= 9
    ensures IsGrid(r)
  {
    var (a, b) := (p.column - 1, p.row - 1);
    if g[a][b] == 0 then g[a := g[a][b := p.digit]] else g
  }

  /** The `Debug.Assert` of line 146: a filled cell already holds the digit. */
  predicate Agrees(g: Grid, p: Placement)
    requires IsGrid(g) && 1 <= p.column <= 9 && 1 <= p.row <= 9
  {
    var (a, b) := (p.column - 1, p.row - 1);
    g[a][b] == 0 || g[a][b] == p.digit
  }

  ghost predicate AllDecodable(solution: seq<seq<string>>) {
    forall t :: 0 <= t < |solution| ==> Decodable(solution[t])
  }

  /** The board after the first `n` rows of the solution are placed. */
  function Fill(g: Grid, solution: seq<seq<string>>, n: nat): (r: Grid)
    requires IsGrid(g) && AllDecodable(solution) && n <= |solution|
    ensures IsGrid(r)
  {
    if n == 0 then g else Place(Fill(g, solution, n - 1), Decode(solution[n - 1]))
  }

  /** Every assertion of the listener holds on `g` for this solution. */
  ghost predicate Accepts(g: Grid, solution: seq<seq<string>>) {
    && IsGrid(g) && AllDecodable(solution)
    && forall t {:trigger Fill(g, solution, t)} :: 0 <= t < |solution| ==>
         Agrees(Fill(g, solution, t), Decode(solution[t]))
  }

  /** The body of the listener's loop (lines 137-146), for one row. */
  method PlaceRow(sudoku: Sudoku, triple: seq<string>)
    requires sudoku.Valid() && Decodable(triple) && Agrees(sudoku.Grid(), Decode(triple))
    modifies sudoku.board
    ensures sudoku.Grid() == Place(old(sudoku.Grid()), Decode(triple))
  {
    var col := FirstTagged(triple, 'C');
    var row := FirstTagged(triple, 'R');
    assert col.Found? && row.Found? && row.value[2] == col.value[2];
    var c := CharValue(col.value[1]);
    var r := CharValue(row.value[1]);
    var d := CharValue(col.value[2]);
    ghost var before := sudoku.Grid();
    if sudoku.board[c - 1, r - 1] == 0 {
      sudoku.board[c - 1, r - 1] := d;
    } else {
      assert sudoku.board[c - 1, r - 1] == d;
    }
    assert forall a :: 0 <= a < 9 ==> sudoku.Grid()[a] == Place(before, Placement(c, r, d))[a];
  }

  /** The listener (lines 131-149). The solution index and the dequeue count
      it is passed are not used; it always asks for the search to go on. */
  method Listen(sudoku: Sudoku, number: int, dequeueNumber: int, solution: seq<seq<string>>)
      returns (continueSearch: bool)
    requires sudoku.Valid() && Accepts(sudoku.Grid(), solution)
    modifies sudoku.board
    ensures sudoku.Grid() == Fill(old(sudoku.Grid()), solution, |solution|)
    ensures continueSearch
  {
    ghost var g := sudoku.Grid();
    for t := 0 to |solution|
      invariant sudoku.Grid() == Fill(g, solution, t)
    {
      PlaceRow(sudoku, solution[t]);
    }
    continueSearch := true;
  }

  // Properties of the decoding.

  /** Round trip with the encoder: every row `Solve` declares decodes to the
      cell and digit it was declared for. */
  lemma DecodeCandidateRow(g: Grid, d: int, i: int, j: int)
    requires IsGrid(g) && 1 <= d <= 9 && 1 <= i <= 9 && 1 <= j <= 9
    ensures Decodable(CandidateRow(g, d, i, j))
    ensures Decode(CandidateRow(g, d, i, j)) == Placement(i, j, d)
  {
    var row := CandidateRow(g, d, i, j);
    assert FirstTagged(row, 'C') == Found(Label2('C', i, d));
    assert FirstTagged(row[1..], 'R') == Found(Label2('R', j, d));
  }

  /** The listener reads the same cell and digit from the labels of a
      candidate row in any order: the row has exactly one `C` label, one `R`
      label and no empty label. */
  lemma DecodePermuted(g: Grid, d: int, i: int, j: int, row: seq<string>)
    requires IsGrid(g) && 1 <= d <= 9 && 1 <= i <= 9 && 1 <= j <= 9
    requires multiset(row) == multiset(CandidateRow(g, d, i, j))
    ensures Decodable(row) && Decode(row) == Placement(i, j, d)
  {
    var cand := CandidateRow(g, d, i, j);
    forall y | y in row
      ensures |y| >= 3 && (y[0] == 'C' ==> y == cand[0]) && (y[0] == 'R' ==> y == cand[1])
    {
      assert y in multiset(cand);
      CandidateLabel(g, d, i, j, y);
    }
    assert cand[0] in multiset(row) && cand[1] in multiset(row);
    OnlyTagged(row, 'C', cand[0]);
    OnlyTagged(row, 'R', cand[1]);
    DecodeCandidateRow(g, d, i, j);
  }

  /** Every label of a candidate row has at least three characters, and its
      `C`, `R` and `F` labels are the ones naming digit `d` at cell (i, j). */
  lemma CandidateLabel(g: Grid, d: int, i: int, j: int, y: string)
    requires IsGrid(g) && 1 <= d <= 9 && 1 <= i <= 9 && 1 <= j <= 9 && y in CandidateRow(g, d, i, j)
    ensures |y| >= 3
    ensures y[0] == 'C' ==> y == Label2('C', i, d)
    ensures y[0] == 'R' ==> y == Label2('R', j, d)
    ensures y[0] == 'F' ==> y == Label2('F', i, j)
  {
    var row := CandidateRow(g, d, i, j);
    var x :| 0 <= x < |row| && row[x] == y;
    assert row[0][0] == 'C' && row[1][0] == 'R' && row[2][0] == 'G' && row[3][0] == 'F';
    assert |row| == 5 ==> row[4][0] == 'H';
  }

  /** The same round trip for every row of the encoding, by position. */
  lemma DecodeRows(g: Grid)
    requires IsGrid(g)
    ensures |Rows(g)| == 729
    ensures forall k :: 0 <= k < 729 ==>
      Decodable(Rows(g)[k]) && Decode(Rows(g)[k]) == Placement(1 + k / 9 % 9, 1 + k % 9, 1 + k / 81)
  {
    forall k | 0 <= k < 729
      ensures Decodable(Rows(g)[k]) && Decode(Rows(g)[k]) == Placement(1 + k / 9 % 9, 1 + k % 9, 1 + k / 81)
    {
      var d, i, j := RowIndex(g, k);
      DecodeCandidateRow(g, d, i, j);
    }
  }

  /** A filled cell is never overwritten. */
  lemma {:induction false} FilledCellKept(g: Grid, solution: seq<seq<string>>, m: nat, n: nat, a: int, b: int)
    requires IsGrid(g) && AllDecodable(solution) && m <= n <= |solution| && 0 <= a < 9 && 0 <= b < 9
    requires Fill(g, solution, m)[a][b] != 0
    ensures Fill(g, solution, n)[a][b] == Fill(g, solution, m)[a][b]
    decreases n
  {
    if m < n {
      FilledCellKept(g, solution, m, n - 1, a, b);
    }
  }

  /** A cell that no row of the solution names is left as it was. */
  lemma {:induction false} UnnamedCellsKept(g: Grid, solution: seq<seq<string>>, n: nat, a: int, b: int)
    requires IsGrid(g) && AllDecodable(solution) && n <= |solution| && 0 <= a < 9 && 0 <= b < 9
    requires forall t :: 0 <= t < n ==> (Decode(solution[t]).column, Decode(solution[t]).row) != (a + 1, b + 1)
    ensures Fill(g, solution, n)[a][b] == g[a][b]
  {
    if n > 0 {
      UnnamedCellsKept(g, solution, n - 1, a, b);
    }
  }

  /** A cell that changes was empty and receives the digit of some row that
      names it. */
  lemma {:induction false} ChangedCellsWereEmpty(g: Grid, solution: seq<seq<string>>, n: nat, a: int, b: int)
    requires IsGrid(g) && AllDecodable(solution) && n <= |solution| && 0 <= a < 9 && 0 <= b < 9
    requires Fill(g, solution, n)[a][b] != g[a][b]
    ensures g[a][b] == 0
    ensures exists t :: 0 <= t < n && Decode(solution[t]) == Placement(a + 1, b + 1, Fill(g, solution, n)[a][b])
  {
    var prev := Fill(g, solution, n - 1);
    var p := Decode(solution[n - 1]);
    if prev[a][b] != g[a][b] {
      ChangedCellsWereEmpty(g, solution, n - 1, a, b);
    } else {
      assert Fill(g, solution, n) == Place(prev, p);
    }
  }

  /** When the listener's assertions hold, a row with a nonzero digit ends
      up with its digit in its cell. (A row whose digit reads as 0 leaves
      its cell empty for a later row to fill.) */
  lemma RowPlaced(g: Grid, solution: seq<seq<string>>, t: nat)
    requires Accepts(g, solution) && t < |solution| && Decode(solution[t]).digit != 0
    ensures var p := Decode(solution[t]);
      Fill(g, solution, |solution|)[p.column - 1][p.row - 1] == p.digit
  {
    var p := Decode(solution[t]);
    var before := Fill(g, solution, t);
    assert Agrees(before, p);
    assert Fill(g, solution, t + 1) == Place(before, p);
    FilledCellKept(g, solution, t + 1, |solution|, p.column - 1, p.row - 1);
  }

  /** The same for every row of the solution. */
  lemma EveryRowPlaced(g: Grid, solution: seq<seq<string>>)
    requires Accepts(g, solution)
    ensures forall t :: 0 <= t < |solution| && Decode(solution[t]).digit != 0 ==>
      var p := Decode(solution[t]);
      Fill(g, solution, |solution|)[p.column - 1][p.row - 1] == p.digit
  {
    forall t | 0 <= t < |solution| && Decode(solution[t]).digit != 0
      ensures var p := Decode(solution[t]);
        Fill(g, solution, |solution|)[p.column - 1][p.row - 1] == p.digit
    {
      RowPlaced(g, solution, t);
    }
  }

  // The solutions the solver reports.

  /** A solution of the encoding of `g`: rows that `Solve` declared, which
      together name every declared column exactly once. */
  ghost predicate ExactCover(g: Grid, solution: seq<seq<string>>) {
    IsGrid(g) && RowsOf(g, solution) && Covers(g, solution) && OnceEach(g, solution)
  }

  /** Every row of the solution holds the labels of a row `Solve` declared. */
  ghost predicate RowsOf(g: Grid, solution: seq<seq<string>>)
    requires IsGrid(g)
  {
    forall t {:trigger DeclaredRow(g, solution[t])} :: 0 <= t < |solution| ==> DeclaredRow(g, solution[t])
  }

  /** `row` holds the labels of one of the rows `Solve` declares, in any
      order: the solver reports a row by the names of its columns, listed in
      an order of its own. */
  ghost predicate DeclaredRow(g: Grid, row: seq<string>)
    requires IsGrid(g)
  {
    exists k :: 0 <= k < 729 && multiset(row) == multiset(Rows(g)[k])
  }

  /** Some row of the solution names the column `c`. */
  ghost predicate Named(solution: seq<seq<string>>, c: string) {
    exists t :: 0 <= t < |solution| && c in solution[t]
  }

  /** Every declared column is named by some row of the solution. */
  ghost predicate Covers(g: Grid, solution: seq<seq<string>>)
    requires IsGrid(g)
  {
    forall n :: 0 <= n < |Columns(g)| ==> Named(solution, Columns(g)[n])
  }

  /** No declared column is named by two rows of the solution. */
  ghost predicate OnceEach(g: Grid, solution: seq<seq<string>>)
    requires IsGrid(g)
  {
    forall n, t, u :: 0 <= n < |Columns(g)| && 0 <= t < u < |solution| && Columns(g)[n] in solution[t] ==>
      Columns(g)[n] !in solution[u]
  }

  /** Row `t` of an exact cover holds the labels of the candidate row of the
      placement it decodes to. */
  lemma SolutionRow(g: Grid, solution: seq<seq<string>>, t: int) returns (d: int, i: int, j: int)
    requires IsGrid(g) && RowsOf(g, solution) && 0 <= t < |solution|
    ensures 1 <= d <= 9 && 1 <= i <= 9 && 1 <= j <= 9
    ensures multiset(solution[t]) == multiset(CandidateRow(g, d, i, j))
    ensures Decodable(solution[t]) && Decode(solution[t]) == Placement(i, j, d)
  {
    assert DeclaredRow(g, solution[t]);
    var k :| 0 <= k < 729 && multiset(solution[t]) == multiset(Rows(g)[k]);
    d, i, j := RowIndex(g, k);
    DecodePermuted(g, d, i, j, solution[t]);
  }

  lemma ExactCoverDecodable(g: Grid, solution: seq<seq<string>>)
    requires ExactCover(g, solution)
    ensures AllDecodable(solution)
  {
    forall t | 0 <= t < |solution|
      ensures Decodable(solution[t])
    {
      var d, i, j := SolutionRow(g, solution, t);
    }
  }

  /** Two rows of an exact cover that name the same cell are the same row:
      both would cover its `F` column. */
  lemma OneRowPerCell(g: Grid, solution: seq<seq<string>>, t: int, u: int)
    requires IsGrid(g) && RowsOf(g, solution) && OnceEach(g, solution) && AllDecodable(solution)
    requires 0 <= t < |solution| && 0 <= u < |solution|
    requires Decode(solution[t]).column == Decode(solution[u]).column
    requires Decode(solution[t]).row == Decode(solution[u]).row
    ensures t == u
  {
    var d, i, j := SolutionRow(g, solution, t);
    var d', i', j' := SolutionRow(g, solution, u);
    FilledColumnAt(g, i, j);
    var n := 243 + 9 * (i - 1) + (j - 1);
    assert CandidateRow(g, d, i, j)[3] == Columns(g)[n] && CandidateRow(g, d', i', j')[3] == Columns(g)[n];
    assert Columns(g)[n] in multiset(solution[t]) && Columns(g)[n] in multiset(solution[u]);
  }

  /** The hint column of a filled cell is declared, at position `n`. */
  lemma HintColumnDeclared(g: Grid, a: int, b: int) returns (n: int)
    requires IsGrid(g) && 0 <= a < 9 && 0 <= b < 9 && g[a][b] != 0
    ensures 0 <= n < |Columns(g)| && Columns(g)[n] == HintLabel(a + 1, b + 1, g[a][b])
  {
    var h := HintLabel(a + 1, b + 1, g[a][b]);
    HintDeclared(g, 9, a, b);
    InConcat(h, ConstraintColumns(), HintColumns(g));
    n :| 0 <= n < |Columns(g)| && Columns(g)[n] == h;
  }

  /** A puzzle with a cell outside 0..9 has no exact cover: no row names the
      hint column of that cell. */
  lemma ExactCoverHintsInRange(g: Grid, solution: seq<seq<string>>, a: int, b: int)
    requires ExactCover(g, solution) && 0 <= a < 9 && 0 <= b < 9
    ensures 0 <= g[a][b] <= 9
  {
    if g[a][b] != 0 {
      var h := HintLabel(a + 1, b + 1, g[a][b]);
      var n := HintColumnDeclared(g, a, b);
      assert Named(solution, Columns(g)[n]);
      var u :| 0 <= u < |solution| && h in solution[u];
      assert DeclaredRow(g, solution[u]);
      var k :| 0 <= k < 729 && multiset(solution[u]) == multiset(Rows(g)[k]);
      assert h in multiset(Rows(g)[k]);
      HintColumnRows(g, a, b, k);
    }
  }

  /** Row `t` of an exact cover agrees with the board the rows before it
      leave: its cell is empty there or holds its digit already. */
  lemma CoverRowAgrees(g: Grid, solution: seq<seq<string>>, t: int)
    requires ExactCover(g, solution) && AllDecodable(solution) && 0 <= t < |solution|
    ensures Agrees(Fill(g, solution, t), Decode(solution[t]))
  {
    var d, i, j := SolutionRow(g, solution, t);
    var a, b := i - 1, j - 1;
    if g[a][b] != 0 {
      assert Fill(g, solution, 0) == g;
      FilledCellKept(g, solution, 0, t, a, b);
      HintRowDigit(g, solution, t, a, b);
    } else {
      NoEarlierRow(g, solution, t, a, b);
    }
  }

  /** The row of an exact cover that names a cell holding a hint places that
      hint: only that cell's row for the hint covers the hint column. */
  lemma HintRowDigit(g: Grid, solution: seq<seq<string>>, t: int, a: int, b: int)
    requires ExactCover(g, solution) && AllDecodable(solution) && 0 <= t < |solution|
    requires 0 <= a < 9 && 0 <= b < 9 && g[a][b] != 0
    requires Decode(solution[t]).column == a + 1 && Decode(solution[t]).row == b + 1
    ensures Decode(solution[t]).digit == g[a][b]
  {
    var n := HintColumnDeclared(g, a, b);
    assert Named(solution, Columns(g)[n]);
    var u, x := NamedAt(solution, Columns(g)[n]);
    var d, i, j := SolutionRow(g, solution, u);
    assert Columns(g)[n] in multiset(CandidateRow(g, d, i, j));
    HintInCandidate(g, a, b, d, i, j);
    OneRowPerCell(g, solution, t, u);
  }

  /** An empty cell of the puzzle is still empty when the row of an exact
      cover that names it is reached: no earlier row names it. */
  lemma NoEarlierRow(g: Grid, solution: seq<seq<string>>, t: int, a: int, b: int)
    requires IsGrid(g) && RowsOf(g, solution) && OnceEach(g, solution) && AllDecodable(solution)
    requires 0 <= t < |solution| && 0 <= a < 9 && 0 <= b < 9 && g[a][b] == 0
    requires Decode(solution[t]).column == a + 1 && Decode(solution[t]).row == b + 1
    ensures Fill(g, solution, t)[a][b] == 0
  {
    var v := Fill(g, solution, t)[a][b];
    if v != 0 {
      ChangedCellsWereEmpty(g, solution, t, a, b);
      var t' :| 0 <= t' < t && Decode(solution[t']) == Placement(a + 1, b + 1, v);
      OneRowPerCell(g, solution, t', t);
      assert false;
    }
  }

  /** Every exact cover meets the listener's assertions. */
  lemma ExactCoverAccepted(g: Grid, solution: seq<seq<string>>)
    requires ExactCover(g, solution)
    ensures Accepts(g, solution)
  {
    ExactCoverDecodable(g, solution);
    forall t | 0 <= t < |solution|
      ensures Agrees(Fill(g, solution, t), Decode(solution[t]))
    {
      CoverRowAgrees(g, solution, t);
    }
  }

  /** The board the listener leaves after an exact cover is a filled grid of
      digits 1..9 that keeps every hint of the puzzle. */
  lemma ExactCoverSolves(g: Grid, solution: seq<seq<string>>)
    requires ExactCover(g, solution)
    ensures AllDecodable(solution)
    ensures forall a, b :: 0 <= a < 9 && 0 <= b < 9 ==> 1 <= Fill(g, solution, |solution|)[a][b] <= 9
    ensures forall a, b :: 0 <= a < 9 && 0 <= b < 9 && g[a][b] != 0 ==>
      Fill(g, solution, |solution|)[a][b] == g[a][b]
  {
    ExactCoverAccepted(g, solution);
    CellsSolved(g, solution);
    HintsKept(g, solution);
  }

  /** When the listener's assertions hold and the rows are declared ones that
      cover every column, every cell ends with a digit 1..9: the row covering
      its `F` column placed one. */
  lemma CellsSolved(g: Grid, solution: seq<seq<string>>)
    requires IsGrid(g) && RowsOf(g, solution) && Covers(g, solution) && Accepts(g, solution)
    ensures forall a, b :: 0 <= a < 9 && 0 <= b < 9 ==> 1 <= Fill(g, solution, |solution|)[a][b] <= 9
  {
    forall a, b | 0 <= a < 9 && 0 <= b < 9
      ensures 1 <= Fill(g, solution, |solution|)[a][b] <= 9
    {
      var u, d := CoveringRow(g, solution, a, b);
      CellSolved(g, solution, u, a, b, d);
    }
  }

  /** Under the listener's assertions, a cell that some row places a digit
      1..9 in ends up holding a digit 1..9. */
  lemma CellSolved(g: Grid, solution: seq<seq<string>>, u: int, a: int, b: int, d: int)
    requires Accepts(g, solution) && 0 <= u < |solution| && 0 <= a < 9 && 0 <= b < 9 && 1 <= d <= 9
    requires Decode(solution[u]) == Placement(a + 1, b + 1, d)
    ensures 1 <= Fill(g, solution, |solution|)[a][b] <= 9
  {
    RowPlaced(g, solution, u);
  }

  /** The hints of the puzzle survive any sequence of decodable rows. */
  lemma HintsKept(g: Grid, solution: seq<seq<string>>)
    requires IsGrid(g) && AllDecodable(solution)
    ensures forall a, b :: 0 <= a < 9 && 0 <= b < 9 && g[a][b] != 0 ==>
      Fill(g, solution, |solution|)[a][b] == g[a][b]
  {
    forall a, b | 0 <= a < 9 && 0 <= b < 9 && g[a][b] != 0
      ensures Fill(g, solution, |solution|)[a][b] == g[a][b]
    {
      assert Fill(g, solution, 0) == g;
      FilledCellKept(g, solution, 0, |solution|, a, b);
    }
  }

  /** The row of an exact cover that covers the `F` column of cell
      (a + 1, b + 1) is a row placing a digit 1..9 in that cell. */
  lemma CoveringRow(g: Grid, solution: seq<seq<string>>, a: int, b: int) returns (u: int, d: int)
    requires IsGrid(g) && RowsOf(g, solution) && Covers(g, solution) && 0 <= a < 9 && 0 <= b < 9
    ensures 0 <= u < |solution| && 1 <= d <= 9
    ensures Decodable(solution[u]) && Decode(solution[u]) == Placement(a + 1, b + 1, d)
  {
    var k;
    u, k := FilledCovered(g, solution, a, b);
    d := FilledRowPlacement(g, k, solution[u], a, b);
  }

  /** Some row of a covering solution names the `F` column of cell
      (a + 1, b + 1), and it holds the labels of declared row `k`. */
  lemma FilledCovered(g: Grid, solution: seq<seq<string>>, a: int, b: int) returns (u: int, k: int)
    requires IsGrid(g) && RowsOf(g, solution) && Covers(g, solution) && 0 <= a < 9 && 0 <= b < 9
    ensures 0 <= u < |solution| && 0 <= k < 729 && multiset(solution[u]) == multiset(Rows(g)[k])
    ensures Label2('F', a + 1, b + 1) in solution[u]
  {
    FilledColumnAt(g, a + 1, b + 1);
    var x;
    u, x := NamedAt(solution, Columns(g)[243 + 9 * a + b]);
    assert DeclaredRow(g, solution[u]);
    k :| 0 <= k < 729 && multiset(solution[u]) == multiset(Rows(g)[k]);
  }

  /** A named column is entry `x` of row `u` of the solution. */
  lemma NamedAt(solution: seq<seq<string>>, c: string) returns (u: int, x: int)
    requires Named(solution, c)
    ensures 0 <= u < |solution| && 0 <= x < |solution[u]| && solution[u][x] == c
  {
    u :| 0 <= u < |solution| && c in solution[u];
    x :| 0 <= x < |solution[u]| && solution[u][x] == c;
  }

  /** The labels of a row of the encoding, in any order, that name the `F`
      column of cell (a + 1, b + 1) place a digit 1..9 in that cell. */
  lemma FilledRowPlacement(g: Grid, k: int, row: seq<string>, a: int, b: int) returns (d: int)
    requires IsGrid(g) && 0 <= k < 729 && 0 <= a < 9 && 0 <= b < 9
    requires multiset(row) == multiset(Rows(g)[k]) && Label2('F', a + 1, b + 1) in row
    ensures 1 <= d <= 9
    ensures Decodable(row) && Decode(row) == Placement(a + 1, b + 1, d)
  {
    var i, j;
    d, i, j := RowIndex(g, k);
    assert Label2('F', a + 1, b + 1) in multiset(CandidateRow(g, d, i, j));
    FilledLabelAt(g, d, i, j, a, b);
    DecodePermuted(g, d, i, j, row);
  }

  /** The only `F` label of the candidate row for `(d, i, j)` is `F{i}{j}`. */
  lemma FilledLabelAt(g: Grid, d: int, i: int, j: int, a: int, b: int)
    requires IsGrid(g) && 1 <= d <= 9 && 1 <= i <= 9 && 1 <= j <= 9 && 0 <= a < 9 && 0 <= b < 9
    requires Label2('F', a + 1, b + 1) in CandidateRow(g, d, i, j)
    ensures i == a + 1 && j == b + 1
  {
    CandidateLabel(g, d, i, j, Label2('F', a + 1, b + 1));
    Label2Injective('F', i, j, a + 1, b + 1);
  }
}
