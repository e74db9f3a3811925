/** The exact-cover encoding `Program.Solve` builds for one puzzle: the
    columns it declares with `AddColumn` and the rows it declares with
    `NewRow` followed by `SetColumn`, as the sequence of labels it emits. */
module Encoding {
  import opened Text
  import opened Board

  /** `$"{tag}{a}{b}"` for `a`, `b` in 1..9, each rendered as its single
      digit (`Label2Interpolated` shows this is the interpolated text). */
  function Label2(tag: char, a: int, b: int): (r: string)
    requires 1 <= a <= 9 && 1 <= b <= 9
    ensures |r| == 3 && r[0] == tag
  {
    [tag, DigitChar(a), DigitChar(b)]
  }

  /** `$"{tag}{a}{b}{c}"` for `a`, `b`, `c` in 1..9. */
  function Label3(tag: char, a: int, b: int, c: int): (r: string)
    requires 1 <= a <= 9 && 1 <= b <= 9 && 1 <= c <= 9
    ensures |r| == 4 && r[0] == tag
  {
    [tag, DigitChar(a), DigitChar(b), DigitChar(c)]
  }

  /** `$"H{i}{j}{v}"` for `i`, `j` in 1..9 and any cell value `v`. */
  function HintLabel(i: int, j: int, v: int): string
    requires 1 <= i <= 9 && 1 <= j <= 9
  {
    ['H', DigitChar(i), DigitChar(j)] + IntToString(v)
  }

  /** A family of 81 columns `{tag}{a}{b}`, `a` outer and `b` inner, both
      in 1..9: `C{i}{d}` (column `i` has digit `d`), `R{j}{d}` (row `j` has
      digit `d`) and `F{i}{j}` (cell (i, j) is filled). */
  function PairColumns(tag: char): (r: seq<string>)
    ensures |r| == 81
  {
    seq(81, k requires 0 <= k < 81 => Label2(tag, 1 + k / 9, 1 + k % 9))
  }

  /** `G{i}{j}{d}`, box (i, j) has digit `d`: `i`, then `j`, then `d`. */
  function BoxDigitColumns(): (r: seq<string>)
    ensures |r| == 81
  {
    seq(81, k requires 0 <= k < 81 => Label3('G', 1 + k / 27, 1 + k / 9 % 3, 1 + k % 9))
  }

  /** The hint column of cell `[a, b]`, if the cell is not 0:
      `H{a + 1}{b + 1}{d}` with the cell's value `d`. */
  function HintCell(g: Grid, a: int, b: int): seq<string>
    requires IsGrid(g) && 0 <= a < 9 && 0 <= b < 9
  {
    if g[a][b] != 0 then [HintLabel(a + 1, b + 1, g[a][b])] else []
  }

  /** The hint columns of cells `[a, 0]` .. `[a, n - 1]`, in order. */
  function HintsInLine(g: Grid, a: int, n: nat): seq<string>
    requires IsGrid(g) && 0 <= a < 9 && n <= 9
  {
    if n == 0 then [] else HintsInLine(g, a, n - 1) + HintCell(g, a, n - 1)
  }

  /** The hint columns of cells `[0, _]` .. `[m - 1, _]`, in order. */
  function HintsBefore(g: Grid, m: nat): seq<string>
    requires IsGrid(g) && m <= 9
  {
    if m == 0 then [] else HintsBefore(g, m - 1) + HintsInLine(g, m - 1, 9)
  }

  /** The hint columns of the whole board, in declaration order. */
  function HintColumns(g: Grid): seq<string>
    requires IsGrid(g)
  {
    HintsBefore(g, 9)
  }

  /** The 324 constraint columns, in declaration order. */
  function ConstraintColumns(): (r: seq<string>)
    ensures |r| == 324
  {
    PairColumns('C') + PairColumns('R') + BoxDigitColumns() + PairColumns('F')
  }

  /** Every column `Solve` declares, in order. */
  function Columns(g: Grid): seq<string>
    requires IsGrid(g)
  {
    ConstraintColumns() + HintColumns(g)
  }

  /** The row "digit d in cell (i, j)"; when the cell holds `d` the row also
      covers its hint column `H{i}{j}{d}`, written here with the cell's value. */
  function CandidateRow(g: Grid, d: int, i: int, j: int): seq<string>
    requires IsGrid(g) && 1 <= d <= 9 && 1 <= i <= 9 && 1 <= j <= 9
  {
    [Label2('C', i, d), Label2('R', j, d), Label3('G', 1 + (i - 1) / 3, 1 + (j - 1) / 3, d),
     Label2('F', i, j)]
    + if g[i - 1][j - 1] == d then [HintLabel(i, j, g[i - 1][j - 1])] else []
  }

  /** Every row `Solve` declares, in order: `d` outer, then `i`, then `j`. */
  function Rows(g: Grid): seq<seq<string>>
    requires IsGrid(g)
  {
    seq(729, k requires 0 <= k < 729 => CandidateRow(g, 1 + k / 81, 1 + k / 9 % 9, 1 + k % 9))
  }

  lemma Split9(q: int, r: int)
    requires 0 <= q && 0 <= r < 9
    ensures (9 * q + r) / 9 == q && (9 * q + r) % 9 == r
  {
  }

  lemma Split81(a: int, b: int, c: int)
    requires 0 <= a && 0 <= b < 9 && 0 <= c < 9
    ensures (81 * a + 9 * b + c) / 81 == a
    ensures (81 * a + 9 * b + c) / 9 % 9 == b
    ensures (81 * a + 9 * b + c) % 9 == c
  {
    Split9(9 * a + b, c);
    assert 81 * a + 9 * b + c == 9 * (9 * a + b) + c;
    Split9(a, b);
  }

  lemma BoxIndex(a: int, b: int, c: int)
    requires 0 <= a < 3 && 0 <= b < 3 && 0 <= c < 9
    ensures var k := 27 * a + 9 * b + c; k / 27 == a && k / 9 % 3 == b && k % 9 == c
  {
    var k := 27 * a + 9 * b + c;
    Split9(3 * a + b, c);
    assert k == 9 * (3 * a + b) + c;
    Split9(a, b);
    assert k == 27 * a + (9 * b + c) && 0 <= 9 * b + c < 27;
  }

  /** Where the label of the numbers `a`, `b` stands in a family of 81. */
  lemma PairAt(tag: char, a: int, b: int)
    requires 1 <= a <= 9 && 1 <= b <= 9
    ensures var k := 9 * (a - 1) + (b - 1);
      0 <= k < 81 && PairColumns(tag)[k] == Label2(tag, a, b)
  {
    Split9(a - 1, b - 1);
  }

  /** Where the label of box (a, b) and digit `c` stands among the box columns. */
  lemma BoxAt(a: int, b: int, c: int)
    requires 1 <= a <= 3 && 1 <= b <= 3 && 1 <= c <= 9
    ensures var k := 27 * (a - 1) + 9 * (b - 1) + (c - 1);
      0 <= k < 81 && BoxDigitColumns()[k] == Label3('G', a, b, c)
  {
    BoxIndex(a - 1, b - 1, c - 1);
  }

  lemma AppendAssoc<T>(a: seq<T>, b: seq<T>, c: seq<T>)
    ensures a + b + c == a + (b + c)
  {
  }

  lemma PrefixStep<T>(s: seq<T>, k: int)
    requires 0 <= k < |s|
    ensures s[..k + 1] == s[..k] + [s[k]]
  {
  }

  /** Row `(d, i, j)` is row number `81 (d - 1) + 9 (i - 1) + (j - 1)`:
      digits outermost, then `i`, then `j`. */
  lemma RowAt(g: Grid, d: int, i: int, j: int)
    requires IsGrid(g) && 1 <= d <= 9 && 1 <= i <= 9 && 1 <= j <= 9
    ensures |Rows(g)| == 729
    ensures Rows(g)[81 * (d - 1) + 9 * (i - 1) + (j - 1)] == CandidateRow(g, d, i, j)
  {
    var k := 81 * (d - 1) + 9 * (i - 1) + (j - 1);
    Split81(d - 1, i - 1, j - 1);
    var d', i', j' := 1 + k / 81, 1 + k / 9 % 9, 1 + k % 9;
    assert d' == d && i' == i && j' == j;
    assert Rows(g)[k] == CandidateRow(g, d', i', j');
  }

  /** The nested loops of lines 86-88 (`C{i}{d}`), 90-92 (`R{j}{d}`) and
      99-101 (`F{i}{j}`): `{tag}{a}{b}` for `a` then `b` in 1..9. */
  method AddPairColumns(tag: char, start: seq<string>) returns (columns: seq<string>)
    ensures columns == start + PairColumns(tag)
  {
    columns := start;
    for a := 1 to 10
      invariant columns == start + PairColumns(tag)[..9 * (a - 1)]
    {
      for b := 1 to 10
        invariant columns == start + PairColumns(tag)[..9 * (a - 1) + (b - 1)]
      {
        PairAt(tag, a, b);
        PrefixStep(PairColumns(tag), 9 * (a - 1) + (b - 1));
        columns := columns + [Label2(tag, a, b)];
      }
    }
  }

  /** Lines 94-97: `G{i}{j}{d}` for `i`, `j` in 1..3 and `d` in 1..9. */
  method AddBoxDigitColumns(start: seq<string>) returns (columns: seq<string>)
    ensures columns == start + BoxDigitColumns()
  {
    columns := start;
    for i := 1 to 4
      invariant columns == start + BoxDigitColumns()[..27 * (i - 1)]
    {
      for j := 1 to 4
        invariant columns == start + BoxDigitColumns()[..27 * (i - 1) + 9 * (j - 1)]
      {
        for d := 1 to 10
          invariant columns == start + BoxDigitColumns()[..27 * (i - 1) + 9 * (j - 1) + (d - 1)]
        {
          BoxAt(i, j, d);
          PrefixStep(BoxDigitColumns(), 27 * (i - 1) + 9 * (j - 1) + (d - 1));
          columns := columns + [Label3('G', i, j, d)];
        }
      }
    }
  }

  /** The inner loop of lines 104-110 for column `i`: `H{i}{j}{d}` for each
      of its cells whose value `d` is not 0. */
  method AddLineHints(sudoku: Sudoku, i: int, start: seq<string>) returns (columns: seq<string>)
    requires sudoku.Valid() && 1 <= i <= 9
    ensures columns == start + HintsInLine(sudoku.Grid(), i - 1, 9)
  {
    ghost var g := sudoku.Grid();
    columns := start;
    for j := 1 to 10
      invariant columns == start + HintsInLine(g, i - 1, j - 1)
    {
      var d := sudoku.board[i - 1, j - 1];
      assert d == g[i - 1][j - 1];
      ghost var line := HintsInLine(g, i - 1, j - 1);
      assert HintsInLine(g, i - 1, j) == line + HintCell(g, i - 1, j - 1);
      if d != 0 {
        assert HintCell(g, i - 1, j - 1) == [HintLabel(i, j, d)];
        AppendAssoc(start, line, [HintLabel(i, j, d)]);
        columns := columns + [HintLabel(i, j, d)];
      } else {
        assert HintCell(g, i - 1, j - 1) == [];
      }
    }
  }

  /** Lines 104-110: `H{i}{j}{d}` for each cell whose value `d` is not 0. */
  method AddHintColumns(sudoku: Sudoku, start: seq<string>) returns (columns: seq<string>)
    requires sudoku.Valid()
    ensures columns == start + HintColumns(sudoku.Grid())
  {
    ghost var g := sudoku.Grid();
    columns := start;
    for i := 1 to 10
      invariant columns == start + HintsBefore(g, i - 1)
    {
      columns := AddLineHints(sudoku, i, columns);
      AppendAssoc(start, HintsBefore(g, i - 1), HintsInLine(g, i - 1, 9));
    }
  }

  /** Lines 117-127, one pass of the innermost loop: the row for digit `d`
      in cell (i, j), with the hint column when the cell holds `d`. */
  method MakeRow(sudoku: Sudoku, d: int, i: int, j: int) returns (row: seq<string>)
    requires sudoku.Valid() && 1 <= d <= 9 && 1 <= i <= 9 && 1 <= j <= 9
    ensures row == CandidateRow(sudoku.Grid(), d, i, j)
  {
    row := [];
    row := row + [Label2('C', i, d)];
    row := row + [Label2('R', j, d)];
    row := row + [Label3('G', 1 + (i - 1) / 3, 1 + (j - 1) / 3, d)];
    row := row + [Label2('F', i, j)];
    if sudoku.board[i - 1, j - 1] == d {
      row := row + [HintLabel(i, j, d)];
    }
    assert sudoku.board[i - 1, j - 1] == sudoku.Grid()[i - 1][j - 1];
  }

  /** Lines 115-128: one row per digit `d`, then `i`, then `j`. */
  method AddRows(sudoku: Sudoku) returns (rows: seq<seq<string>>)
    requires sudoku.Valid()
    ensures rows == Rows(sudoku.Grid())
  {
    ghost var g := sudoku.Grid();
    rows := [];
    for d := 1 to 10
      invariant rows == Rows(g)[..81 * (d - 1)]
    {
      for i := 1 to 10
        invariant rows == Rows(g)[..81 * (d - 1) + 9 * (i - 1)]
      {
        for j := 1 to 10
          invariant rows == Rows(g)[..81 * (d - 1) + 9 * (i - 1) + (j - 1)]
        {
          var row := MakeRow(sudoku, d, i, j);
          RowAt(g, d, i, j);
          PrefixStep(Rows(g), 81 * (d - 1) + 9 * (i - 1) + (j - 1));
          rows := rows + [row];
        }
      }
    }
  }

  /** The builder calls of `Solve` (lines 84-128): the columns and rows they
      emit, in emission order. */
  method Encode(sudoku: Sudoku) returns (columns: seq<string>, rows: seq<seq<string>>)
    requires sudoku.Valid()
    ensures columns == Columns(sudoku.Grid())
    ensures rows == Rows(sudoku.Grid())
  {
    columns := AddPairColumns('C', []);
    assert columns == PairColumns('C');
    columns := AddPairColumns('R', columns);
    columns := AddBoxDigitColumns(columns);
    columns := AddPairColumns('F', columns);
    columns := AddHintColumns(sudoku, columns);
    rows := AddRows(sudoku);
  }

  // Properties of the encoding.

  /** No label occurs twice. */
  ghost predicate Distinct(s: seq<string>) {
    forall a, b :: 0 <= a < b < |s| ==> s[a] != s[b]
  }

  /** Every label is non-empty and starts with one of `tags`. */
  ghost predicate TaggedBy(s: seq<string>, tags: set<char>) {
    forall a :: 0 <= a < |s| ==> |s[a]| > 0 && s[a][0] in tags
  }

  lemma DistinctConcat(s: seq<string>, t: seq<string>, ss: set<char>, ts: set<char>)
    requires Distinct(s) && Distinct(t) && TaggedBy(s, ss) && TaggedBy(t, ts) && ss !! ts
    ensures Distinct(s + t) && TaggedBy(s + t, ss + ts)
  {
    forall a, b | 0 <= a < b < |s + t|
      ensures (s + t)[a] != (s + t)[b]
    {
      if a < |s| && |s| <= b {
        assert (s + t)[a][0] in ss && (s + t)[b][0] in ts;
      }
    }
  }

  /** The labels are the text of the interpolated strings. */
  lemma Label2Interpolated(tag: char, a: int, b: int)
    requires 1 <= a <= 9 && 1 <= b <= 9
    ensures Label2(tag, a, b) == [tag] + IntToString(a) + IntToString(b)
  {
    SingleDigit(a);
    SingleDigit(b);
  }

  lemma Label3Interpolated(tag: char, a: int, b: int, c: int)
    requires 1 <= a <= 9 && 1 <= b <= 9 && 1 <= c <= 9
    ensures Label3(tag, a, b, c) == [tag] + IntToString(a) + IntToString(b) + IntToString(c)
  {
    SingleDigit(a);
    SingleDigit(b);
    SingleDigit(c);
  }

  lemma HintLabelInterpolated(i: int, j: int, v: int)
    requires 1 <= i <= 9 && 1 <= j <= 9
    ensures HintLabel(i, j, v) == ['H'] + IntToString(i) + IntToString(j) + IntToString(v)
  {
    SingleDigit(i);
    SingleDigit(j);
  }

  /** Labels of one family that name the same numbers 1..9 are the same. */
  lemma Label2Injective(tag: char, a: int, b: int, a': int, b': int)
    requires 1 <= a <= 9 && 1 <= b <= 9 && 1 <= a' <= 9 && 1 <= b' <= 9
    requires Label2(tag, a, b) == Label2(tag, a', b')
    ensures a == a' && b == b'
  {
    assert DigitChar(a) == Label2(tag, a, b)[1] && DigitChar(b) == Label2(tag, a, b)[2];
    DigitCharInjective(a, a');
    DigitCharInjective(b, b');
  }

  lemma Label3Injective(tag: char, a: int, b: int, c: int, a': int, b': int, c': int)
    requires 1 <= a <= 9 && 1 <= b <= 9 && 1 <= c <= 9 && 1 <= a' <= 9 && 1 <= b' <= 9 && 1 <= c' <= 9
    requires Label3(tag, a, b, c) == Label3(tag, a', b', c')
    ensures a == a' && b == b' && c == c'
  {
    var x := Label3(tag, a, b, c);
    assert DigitChar(a) == x[1] && DigitChar(b) == x[2] && DigitChar(c) == x[3];
    DigitCharInjective(a, a');
    DigitCharInjective(b, b');
    DigitCharInjective(c, c');
  }

  /** Hint labels that name the same cell are labels of that cell. */
  lemma HintLabelInjective(i: int, j: int, v: int, i': int, j': int, v': int)
    requires 1 <= i <= 9 && 1 <= j <= 9 && 1 <= i' <= 9 && 1 <= j' <= 9
    requires HintLabel(i, j, v) == HintLabel(i', j', v')
    ensures i == i' && j == j'
  {
    var x := HintLabel(i, j, v);
    assert DigitChar(i) == x[1] && DigitChar(j) == x[2];
    DigitCharInjective(i, i');
    DigitCharInjective(j, j');
  }

  lemma PairFamily(tag: char)
    ensures Distinct(PairColumns(tag)) && TaggedBy(PairColumns(tag), {tag})
  {
    var s := PairColumns(tag);
    forall a, b | 0 <= a < b < 81
      ensures s[a] != s[b]
    {
      var x, y := PairIndexOf(tag, a);
      var x', y' := PairIndexOf(tag, b);
      if s[a] == s[b] {
        Label2Injective(tag, x, y, x', y');
      }
    }
  }

  /** The two numbers that entry `k` of the family tagged `tag` names. */
  lemma PairIndexOf(tag: char, k: int) returns (x: int, y: int)
    requires 0 <= k < 81
    ensures 1 <= x <= 9 && 1 <= y <= 9 && k == 9 * (x - 1) + (y - 1)
    ensures x == 1 + k / 9 && y == 1 + k % 9
    ensures PairColumns(tag)[k] == Label2(tag, x, y)
  {
    x, y := 1 + k / 9, 1 + k % 9;
  }

  /** The box, column within the box row, and digit that box column `k` names. */
  lemma BoxIndexOf(k: int) returns (p: int, q: int, r: int)
    requires 0 <= k < 81
    ensures 1 <= p <= 3 && 1 <= q <= 3 && 1 <= r <= 9
    ensures k == 27 * (p - 1) + 9 * (q - 1) + (r - 1)
    ensures BoxDigitColumns()[k] == Label3('G', p, q, r)
  {
    p, q, r := 1 + k / 27, 1 + k / 9 % 3, 1 + k % 9;
    BoxDecompose(k);
  }

  lemma BoxFamily()
    ensures Distinct(BoxDigitColumns()) && TaggedBy(BoxDigitColumns(), {'G'})
  {
    var s := BoxDigitColumns();
    forall a, b | 0 <= a < b < 81
      ensures s[a] != s[b]
    {
      var p, q, r := BoxIndexOf(a);
      var p', q', r' := BoxIndexOf(b);
      if s[a] == s[b] {
        Label3Injective('G', p, q, r, p', q', r');
      }
    }
  }

  lemma BoxDecompose(k: int)
    requires 0 <= k < 81
    ensures k == 27 * (k / 27) + 9 * (k / 9 % 3) + k % 9
  {
    var q := k / 9;
    assert k == 9 * q + k % 9;
    assert 0 <= q < 9;
    assert k / 27 == q / 3;
  }

  /** The hint labels of line `a` are distinct, and each names line `a` and
      a cell before `n`. */
  lemma {:induction false} LineHints(g: Grid, a: int, n: nat)
    requires IsGrid(g) && 0 <= a < 9 && n <= 9
    ensures var h := HintsInLine(g, a, n);
      && Distinct(h) && TaggedBy(h, {'H'})
      && forall x :: 0 <= x < |h| ==>
           |h[x]| >= 3 && h[x][1] == DigitChar(a + 1) && '1' <= h[x][2] && h[x][2] as int < '1' as int + n
  {
    if n > 0 {
      LineHints(g, a, n - 1);
      var h := HintsInLine(g, a, n - 1);
      if g[a][n - 1] != 0 {
        var x := HintLabel(a + 1, n, g[a][n - 1]);
        assert x[..3] == ['H', DigitChar(a + 1), DigitChar(n)];
        assert x[0] == 'H' && x[1] == DigitChar(a + 1) && x[2] == DigitChar(n);
        var r := h + [x];
        assert HintsInLine(g, a, n) == r;
        forall p | 0 <= p < |r|
          ensures |r[p]| >= 3 && r[p][0] == 'H' && r[p][1] == DigitChar(a + 1)
          ensures '1' <= r[p][2] && r[p][2] as int < '1' as int + n
        {
          if p < |h| {
            assert r[p] == h[p];
          }
        }
        forall p, q | 0 <= p < q < |r|
          ensures r[p] != r[q]
        {
          if q == |h| {
            assert r[p][2] != x[2];
          } else {
            assert r[p] == h[p] && r[q] == h[q];
          }
        }
      } else {
        assert HintsInLine(g, a, n) == h;
      }
    }
  }

  /** The hint labels of lines before `m` are distinct. */
  lemma {:induction false} HintsDistinct(g: Grid, m: nat)
    requires IsGrid(g) && m <= 9
    ensures var h := HintsBefore(g, m);
      && Distinct(h) && TaggedBy(h, {'H'})
      && forall x :: 0 <= x < |h| ==> |h[x]| >= 3 && '1' <= h[x][1] && h[x][1] as int < '1' as int + m
  {
    if m > 0 {
      HintsDistinct(g, m - 1);
      LineHints(g, m - 1, 9);
      var h, l := HintsBefore(g, m - 1), HintsInLine(g, m - 1, 9);
      forall x, y | 0 <= x < y < |h + l|
        ensures (h + l)[x] != (h + l)[y]
      {
        if x < |h| && |h| <= y {
          assert (h + l)[x][1] != (h + l)[y][1];
        }
      }
    }
  }

  /** All labels `Solve` declares as columns are pairwise distinct. */
  lemma ColumnsDistinct(g: Grid)
    requires IsGrid(g)
    ensures Distinct(Columns(g))
  {
    PairFamily('C');
    PairFamily('R');
    BoxFamily();
    PairFamily('F');
    HintsDistinct(g, 9);
    DistinctConcat(PairColumns('C'), PairColumns('R'), {'C'}, {'R'});
    DistinctConcat(PairColumns('C') + PairColumns('R'), BoxDigitColumns(), {'C', 'R'}, {'G'});
    DistinctConcat(PairColumns('C') + PairColumns('R') + BoxDigitColumns(), PairColumns('F'),
      {'C', 'R', 'G'}, {'F'});
    DistinctConcat(ConstraintColumns(), HintColumns(g), {'C', 'R', 'G', 'F'}, {'H'});
  }

  /** The nonzero cells of lines before `m`. */
  ghost function NonzeroCells(g: Grid, m: int): set<(int, int)>
    requires IsGrid(g) && 0 <= m <= 9
  {
    set a, b | 0 <= a < m && 0 <= b < 9 && g[a][b] != 0 :: (a, b)
  }

  /** The nonzero cells `[a, 0]` .. `[a, n - 1]`. */
  ghost function NonzeroInLine(g: Grid, a: int, n: int): set<(int, int)>
    requires IsGrid(g) && 0 <= a < 9 && 0 <= n <= 9
  {
    set b | 0 <= b < n && g[a][b] != 0 :: (a, b)
  }

  /** Cell `[a, n - 1]` joins the nonzero cells of its line when it is not 0. */
  lemma LineCellsSplit(g: Grid, a: int, n: int)
    requires IsGrid(g) && 0 <= a < 9 && 0 < n <= 9
    ensures g[a][n - 1] != 0 ==>
      NonzeroInLine(g, a, n) == NonzeroInLine(g, a, n - 1) + {(a, n - 1)}
      && (a, n - 1) !in NonzeroInLine(g, a, n - 1)
    ensures g[a][n - 1] == 0 ==> NonzeroInLine(g, a, n) == NonzeroInLine(g, a, n - 1)
  {
    var now, before := NonzeroInLine(g, a, n), NonzeroInLine(g, a, n - 1);
    forall p | p in now
      ensures p in before || (p == (a, n - 1) && g[a][n - 1] != 0)
    {
    }
  }

  /** Line `m - 1` adds its own nonzero cells, none of them seen before. */
  lemma CellsSplit(g: Grid, m: int)
    requires IsGrid(g) && 0 < m <= 9
    ensures NonzeroCells(g, m) == NonzeroCells(g, m - 1) + NonzeroInLine(g, m - 1, 9)
    ensures NonzeroCells(g, m - 1) !! NonzeroInLine(g, m - 1, 9)
  {
    var now, before, line := NonzeroCells(g, m), NonzeroCells(g, m - 1), NonzeroInLine(g, m - 1, 9);
    forall p | p in now
      ensures p in before || p in line
    {
    }
    forall p | p in line
      ensures p !in before
    {
    }
  }

  lemma {:induction false} LineHintCount(g: Grid, a: int, n: nat)
    requires IsGrid(g) && 0 <= a < 9 && n <= 9
    ensures |HintsInLine(g, a, n)| == |NonzeroInLine(g, a, n)|
  {
    if n > 0 {
      LineHintCount(g, a, n - 1);
      LineCellsSplit(g, a, n);
      assert |HintCell(g, a, n - 1)| == if g[a][n - 1] != 0 then 1 else 0;
    }
  }

  lemma {:induction false} HintCount(g: Grid, m: nat)
    requires IsGrid(g) && m <= 9
    ensures |HintsBefore(g, m)| == |NonzeroCells(g, m)|
  {
    if m > 0 {
      HintCount(g, m - 1);
      LineHintCount(g, m - 1, 9);
      CellsSplit(g, m);
    }
  }

  /** `Solve` declares exactly 324 columns plus one per nonzero cell. */
  lemma ColumnCount(g: Grid)
    requires IsGrid(g)
    ensures |Columns(g)| == 324 + |NonzeroCells(g, 9)|
  {
    HintCount(g, 9);
  }

  /** Each candidate row touches 4 columns, or 5 when its placement is the
      puzzle's own hint for that cell. */
  lemma RowSize(g: Grid, d: int, i: int, j: int)
    requires IsGrid(g) && 1 <= d <= 9 && 1 <= i <= 9 && 1 <= j <= 9
    ensures |CandidateRow(g, d, i, j)| == 4 || |CandidateRow(g, d, i, j)| == 5
    ensures |CandidateRow(g, d, i, j)| == 5 <==> g[i - 1][j - 1] == d
  {
  }

  /** The hint column of a nonzero cell in a line before `m` is declared. */
  lemma {:induction false} HintDeclared(g: Grid, m: nat, a: int, b: int)
    requires IsGrid(g) && m <= 9 && 0 <= a < m && 0 <= b < 9 && g[a][b] != 0
    ensures HintLabel(a + 1, b + 1, g[a][b]) in HintsBefore(g, m)
  {
    if a < m - 1 {
      HintDeclared(g, m - 1, a, b);
    } else {
      LineHintDeclared(g, a, 9, b);
    }
  }

  lemma {:induction false} LineHintDeclared(g: Grid, a: int, n: nat, b: int)
    requires IsGrid(g) && 0 <= a < 9 && n <= 9 && 0 <= b < n && g[a][b] != 0
    ensures HintLabel(a + 1, b + 1, g[a][b]) in HintsInLine(g, a, n)
  {
    var prev, cell, h := HintsInLine(g, a, n - 1), HintCell(g, a, n - 1), HintLabel(a + 1, b + 1, g[a][b]);
    assert HintsInLine(g, a, n) == prev + cell;
    if b < n - 1 {
      LineHintDeclared(g, a, n - 1, b);
      InConcat(h, prev, cell);
    } else {
      assert cell == [h];
      InConcat(h, prev, cell);
    }
  }

  /** Membership in a concatenation is membership in either part. */
  lemma InConcat<T>(x: T, s: seq<T>, t: seq<T>)
    ensures x in s + t <==> x in s || x in t
  {
  }

  /** Every label a candidate row touches has been declared as a column. */
  lemma RowsUseDeclaredColumns(g: Grid)
    requires IsGrid(g)
    ensures |Rows(g)| == 729
    ensures forall k, t :: 0 <= k < 729 && 0 <= t < |Rows(g)[k]| ==> Rows(g)[k][t] in Columns(g)
  {
    forall k, t | 0 <= k < 729 && 0 <= t < |Rows(g)[k]|
      ensures Rows(g)[k][t] in Columns(g)
    {
      var d, i, j := RowIndex(g, k);
      CandidateRowDeclared(g, d, i, j, t);
    }
  }

  lemma CandidateRowDeclared(g: Grid, d: int, i: int, j: int, t: int)
    requires IsGrid(g) && 1 <= d <= 9 && 1 <= i <= 9 && 1 <= j <= 9
    requires 0 <= t < |CandidateRow(g, d, i, j)|
    ensures CandidateRow(g, d, i, j)[t] in Columns(g)
  {
    if t < 4 {
      ConstraintLabelsDeclared(g, d, i, j);
    } else {
      HintDeclared(g, 9, i - 1, j - 1);
    }
  }

  /** The four constraint labels of a candidate row are declared columns. */
  lemma ConstraintLabelsDeclared(g: Grid, d: int, i: int, j: int)
    requires IsGrid(g) && 1 <= d <= 9 && 1 <= i <= 9 && 1 <= j <= 9
    ensures Label2('C', i, d) in Columns(g) && Label2('R', j, d) in Columns(g)
    ensures Label3('G', 1 + (i - 1) / 3, 1 + (j - 1) / 3, d) in Columns(g)
    ensures Label2('F', i, j) in Columns(g)
  {
    var cs, rs, bs, fs := PairColumns('C'), PairColumns('R'), BoxDigitColumns(), PairColumns('F');
    var cols := Columns(g);
    assert cols == cs + rs + bs + fs + HintColumns(g);
    var kc, kr, kf := 9 * (i - 1) + (d - 1), 9 * (j - 1) + (d - 1), 9 * (i - 1) + (j - 1);
    var p, q := 1 + (i - 1) / 3, 1 + (j - 1) / 3;
    var kb := 27 * (p - 1) + 9 * (q - 1) + (d - 1);
    PairAt('C', i, d);
    PairAt('R', j, d);
    BoxAt(p, q, d);
    PairAt('F', i, j);
    assert cols[kc] == cs[kc] == Label2('C', i, d);
    assert cols[81 + kr] == rs[kr] == Label2('R', j, d);
    assert cols[162 + kb] == bs[kb] == Label3('G', p, q, d);
    assert cols[243 + kf] == fs[kf] == Label2('F', i, j);
  }

  /** The `F` column of cell (i, j) is column `243 + 9 (i - 1) + (j - 1)`. */
  lemma FilledColumnAt(g: Grid, i: int, j: int)
    requires IsGrid(g) && 1 <= i <= 9 && 1 <= j <= 9
    ensures |Columns(g)| >= 324
    ensures Columns(g)[243 + 9 * (i - 1) + (j - 1)] == Label2('F', i, j)
  {
    var kf := 9 * (i - 1) + (j - 1);
    var fs := PairColumns('F');
    assert Columns(g) == PairColumns('C') + PairColumns('R') + BoxDigitColumns() + fs + HintColumns(g);
    PairAt('F', i, j);
    assert Columns(g)[243 + kf] == fs[kf];
  }

  lemma RowDecompose(k: int)
    requires 0 <= k < 729
    ensures k == 81 * (k / 81) + 9 * (k / 9 % 9) + k % 9
  {
    var q := k / 9;
    assert k == 9 * q + k % 9;
    assert q == 9 * (q / 9) + q % 9;
    assert k / 81 == q / 9;
  }

  /** The hint column of a nonzero cell is touched by exactly one row, the one
      that places the hint itself, when the hint is a digit 1..9, and by no
      row at all otherwise (such a puzzle has no exact cover). */
  lemma HintColumnRows(g: Grid, a: int, b: int, k: int)
    requires IsGrid(g) && 0 <= a < 9 && 0 <= b < 9 && g[a][b] != 0 && 0 <= k < 729
    ensures HintLabel(a + 1, b + 1, g[a][b]) in Rows(g)[k]
      <==> 1 <= g[a][b] <= 9 && k == 81 * (g[a][b] - 1) + 9 * a + b
  {
    var d, i, j := RowIndex(g, k);
    var h := HintLabel(a + 1, b + 1, g[a][b]);
    if h in CandidateRow(g, d, i, j) {
      HintInCandidate(g, a, b, d, i, j);
    }
    if 1 <= g[a][b] <= 9 && k == 81 * (g[a][b] - 1) + 9 * a + b {
      DecomposeUnique(d - 1, i - 1, j - 1, g[a][b] - 1, a, b);
      assert CandidateRow(g, d, i, j)[4] == h;
    }
  }

  /** Row numbers `81 * d + 9 * i + j` with `i`, `j` below 9 name one row each. */
  lemma DecomposeUnique(x: int, y: int, z: int, x': int, y': int, z': int)
    requires 0 <= x < 9 && 0 <= y < 9 && 0 <= z < 9 && 0 <= x' < 9 && 0 <= y' < 9 && 0 <= z' < 9
    requires 81 * x + 9 * y + z == 81 * x' + 9 * y' + z'
    ensures x == x' && y == y' && z == z'
  {
    Split81(x, y, z);
    Split81(x', y', z');
  }

  /** The placement row `k` stands for. */
  lemma RowIndex(g: Grid, k: int) returns (d: int, i: int, j: int)
    requires IsGrid(g) && 0 <= k < 729
    ensures 1 <= d <= 9 && 1 <= i <= 9 && 1 <= j <= 9
    ensures k == 81 * (d - 1) + 9 * (i - 1) + (j - 1)
    ensures d == 1 + k / 81 && i == 1 + k / 9 % 9 && j == 1 + k % 9
    ensures Rows(g)[k] == CandidateRow(g, d, i, j)
  {
    d, i, j := 1 + k / 81, 1 + k / 9 % 9, 1 + k % 9;
    RowDecompose(k);
  }

  /** Only the row placing digit `d` at cell (a + 1, b + 1), with `d` that
      cell's hint, touches the cell's hint column. */
  lemma HintInCandidate(g: Grid, a: int, b: int, d: int, i: int, j: int)
    requires IsGrid(g) && 0 <= a < 9 && 0 <= b < 9
    requires 1 <= d <= 9 && 1 <= i <= 9 && 1 <= j <= 9
    requires HintLabel(a + 1, b + 1, g[a][b]) in CandidateRow(g, d, i, j)
    ensures g[a][b] == d && i == a + 1 && j == b + 1
  {
    var h, row := HintLabel(a + 1, b + 1, g[a][b]), CandidateRow(g, d, i, j);
    assert h[0] == 'H';
    assert row[0][0] == 'C' && row[1][0] == 'R' && row[2][0] == 'G' && row[3][0] == 'F';
    assert g[i - 1][j - 1] == d && h == HintLabel(i, j, g[i - 1][j - 1]);
    HintLabelInjective(a + 1, b + 1, g[a][b], i, j, g[i - 1][j - 1]);
  }
}
