/**
 * The 81-character string form of a board used by SudokuSolver
 * (LoadBoardFromStringLayout / GetBoardAsStringLayout): character i
 * describes the cell at column i % 9 of row i / 9.
 */
module Layout {
  import opened Cells
  import opened Board

  /** Characters a layout may hold: '1'..'9' for a value, '.', ' ' or '0' for an empty cell. */
  predicate IsLayoutChar(ch: char) {
    '1' <= ch <= '9' || ch == '.' || ch == ' ' || ch == '0'
  }

  /** A string the loader accepts: exactly one layout character per cell. */
  predicate IsLayout(layout: string) {
    |layout| == CellCount && forall i :: 0 <= i < |layout| ==> IsLayoutChar(layout[i])
  }

  /** A layout written only with '0'..'9', the form the writer produces. */
  predicate IsDigitLayout(layout: string) {
    |layout| == CellCount && forall i :: 0 <= i < |layout| ==> '0' <= layout[i] <= '9'
  }

  /** The board whose cell i is decoded from character i of the layout. */
  function Decoded(layout: string): (b: Board)
    requires |layout| == CellCount
    ensures forall i :: 0 <= i < CellCount ==>
      b[i].position == PosOf(i) && b[i].value == CharacterToCell(layout[i]).value
      && b[i].state == CharacterToCell(layout[i]).state
  {
    seq(CellCount, (i: nat) requires i < CellCount => CharacterToCell(layout[i]).(position := PosOf(i)))
  }

  /**
   * SudokuSolver::LoadBoardFromStringLayout: fails, leaving the board as it
   * was, unless the layout has 81 layout characters; otherwise every cell is
   * replaced, a digit giving a Fixed cell holding it and any other
   * character an empty Free cell.
   */
  function LoadBoardFromStringLayout(board: Board, layout: string): (r: (bool, Board))
    ensures r.0 <==> |layout| == CellCount && forall i :: 0 <= i < |layout| ==> IsLayoutChar(layout[i])
    ensures !r.0 ==> r.1 == board
    ensures r.0 ==> forall i :: 0 <= i < CellCount ==>
      if '1' <= layout[i] <= '9'
      then r.1[i].value == layout[i] as int - '0' as int && r.1[i].state == Fixed
      else r.1[i].value == Empty && r.1[i].state == Free
  {
    if IsLayout(layout) then (true, Decoded(layout)) else (false, board)
  }

  /** The layout character of one cell: its digit, or '0' when it is empty. */
  function LayoutCharOf(c: Cell): (ch: char)
    ensures '0' <= ch <= '9' && ch as int - '0' as int == c.value
  {
    if c.value == Empty then '0' else CellToCharacter(c)
  }

  /** SudokuSolver::GetBoardAsStringLayout: one digit per cell in row-major order, '0' for empty. */
  function GetBoardAsStringLayout(board: Board): (s: string)
    ensures |s| == CellCount
    ensures forall i :: 0 <= i < CellCount ==> '0' <= s[i] <= '9' && s[i] as int - '0' as int == board[i].value
  {
    seq(CellCount, (i: nat) requires i < CellCount => LayoutCharOf(board[i]))
  }

  /** The layout with every empty-cell character written as '0'. */
  function Normalised(layout: string): (s: string)
    ensures |s| == |layout|
    ensures forall i :: 0 <= i < |layout| ==>
      s[i] == (if layout[i] == '.' || layout[i] == ' ' then '0' else layout[i])
  {
    seq(|layout|, (i: nat) requires i < |layout| =>
      if layout[i] == '.' || layout[i] == ' ' then '0' else layout[i])
  }

  /** Loading an accepted layout and writing it back yields it with its empty cells as '0'. */
  lemma LayoutRoundTrip(board: Board, layout: string)
    requires IsLayout(layout)
    ensures LoadBoardFromStringLayout(board, layout).0
    ensures GetBoardAsStringLayout(LoadBoardFromStringLayout(board, layout).1) == Normalised(layout)
  {
    var s := GetBoardAsStringLayout(LoadBoardFromStringLayout(board, layout).1);
    forall i | 0 <= i < CellCount
      ensures s[i] == Normalised(layout)[i]
    {
      assert IsLayoutChar(layout[i]);
    }
  }

  /** A layout already written with '0' for empty cells comes back unchanged. */
  lemma DigitLayoutRoundTrip(board: Board, layout: string)
    requires IsDigitLayout(layout)
    ensures LoadBoardFromStringLayout(board, layout).0
    ensures GetBoardAsStringLayout(LoadBoardFromStringLayout(board, layout).1) == layout
  {
    forall i | 0 <= i < |layout|
      ensures IsLayoutChar(layout[i])
    {
      assert '0' <= layout[i] <= '9';
    }
    LayoutRoundTrip(board, layout);
    assert Normalised(layout) == layout;
  }

  /**
   * Writing a board and loading the text back keeps every value; filled
   * cells come back Fixed and empty ones Free.
   */
  lemma BoardRoundTrip(board: Board, target: Board)
    ensures LoadBoardFromStringLayout(target, GetBoardAsStringLayout(board)).0
    ensures forall i :: 0 <= i < CellCount ==>
      var c := LoadBoardFromStringLayout(target, GetBoardAsStringLayout(board)).1[i];
      c.value == board[i].value && c.state == (if board[i].value == Empty then Free else Fixed)
  {
    var s := GetBoardAsStringLayout(board);
    forall i | 0 <= i < |s|
      ensures IsLayoutChar(s[i])
    {
      assert '0' <= s[i] <= '9';
    }
  }

  /** A layout written as nine rows of nine characters, laid end to end. */
  function Grid(rows: seq<string>): string
  {
    if |rows| == 0 then "" else Grid(rows[..|rows| - 1]) + rows[|rows| - 1]
  }

  /** Character c of row r lands at position 9 * r + c of the layout. */
  lemma {:induction false} GridAt(rows: seq<string>)
    requires forall k :: 0 <= k < |rows| ==> |rows[k]| == BoardSize
    ensures |Grid(rows)| == BoardSize * |rows|
    ensures forall r, c :: 0 <= r < |rows| && 0 <= c < BoardSize ==> Grid(rows)[BoardSize * r + c] == rows[r][c]
  {
    if |rows| > 0 {
      GridAt(rows[..|rows| - 1]);
    }
  }

  /** Nine rows of nine digits load, and the cell at (c, r) holds the digit rows[r][c]. */
  lemma GridLoads(board: Board, rows: seq<string>)
    requires |rows| == BoardSize
    requires forall k :: 0 <= k < |rows| ==> |rows[k]| == BoardSize
    requires forall r, c :: 0 <= r < BoardSize && 0 <= c < BoardSize ==> '0' <= rows[r][c] <= '9'
    ensures IsDigitLayout(Grid(rows))
    ensures forall r, c :: 0 <= r < BoardSize && 0 <= c < BoardSize ==>
      LoadBoardFromStringLayout(board, Grid(rows)).1[BoardSize * r + c].value == rows[r][c] as int - '0' as int
  {
    GridAt(rows);
    var layout := Grid(rows);
    forall i | 0 <= i < |layout|
      ensures '0' <= layout[i] <= '9'
    {
      assert layout[BoardSize * (i / BoardSize) + i % BoardSize] == rows[i / BoardSize][i % BoardSize];
    }
    DigitLayoutRoundTrip(board, layout);
  }

  /** The first solved grid of unit_test.cpp is accepted and written back unchanged. */
  lemma LoadsTestLayout(board: Board)
    ensures var layout := Grid(["123456789", "456789123", "789123456", "234567891", "567891234",
                                "891234567", "345678912", "678912345", "912345678"]);
      LoadBoardFromStringLayout(board, layout).0
      && GetBoardAsStringLayout(LoadBoardFromStringLayout(board, layout).1) == layout
  {
    var rows := ["123456789", "456789123", "789123456", "234567891", "567891234",
                 "891234567", "345678912", "678912345", "912345678"];
    GridLoads(board, rows);
    DigitLayoutRoundTrip(board, Grid(rows));
  }

  /** Block 4 is columns 3..5 of rows 3..5, read column by column. */
  lemma BlockFour(b: Board)
    ensures Values(GetBlock(b, 4)) == [b[30].value, b[39].value, b[48].value, b[31].value, b[40].value,
                                       b[49].value, b[32].value, b[41].value, b[50].value]
  {
    assert BlockCol(4) == 3 && BlockRow(4) == 3;
  }

  /** IsValueValidAt scans block 4 row by row. */
  lemma BlockFourSlots()
    ensures BlockSlots(4) == [30, 31, 32, 39, 40, 41, 48, 49, 50]
  {
    assert BlockCol(4) == 3 && BlockRow(4) == 3;
  }

  /**
   * The worked example on GetBlock: block 4 of the example grid holds the
   * values 9,6,5 / 4,1,8 / 7,2,3.  GetBlock walks the block column by
   * column, so the sequence it returns is that multiset in column-major
   * order; the row-major order the example lists is the order of
   * BlockSlots, the walk IsValueValidAt makes.
   */
  lemma GetBlockExample(board: Board)
    ensures var layout := Grid(["796854321", "243176985", "851239476", "137965842", "925418763",
                                "468723519", "614597238", "582341697", "379682154"]);
      var loaded := LoadBoardFromStringLayout(board, layout);
      loaded.0
      && Values(GetBlock(loaded.1, 4)) == [9, 4, 7, 6, 1, 2, 5, 8, 3]
      && seq(BoardSize, k requires 0 <= k < BoardSize => loaded.1[BlockSlots(4)[k]].value) == [9, 6, 5, 4, 1, 8, 7, 2, 3]
      && Values(GetBlock(loaded.1, 4)) != [9, 6, 5, 4, 1, 8, 7, 2, 3]
  {
    var rows := ["796854321", "243176985", "851239476", "137965842", "925418763",
                 "468723519", "614597238", "582341697", "379682154"];
    GridLoads(board, rows);
    var b := LoadBoardFromStringLayout(board, Grid(rows)).1;
    assert rows[3][3] == '9' && rows[4][3] == '4' && rows[5][3] == '7';
    assert rows[3][4] == '6' && rows[4][4] == '1' && rows[5][4] == '2';
    assert rows[3][5] == '5' && rows[4][5] == '8' && rows[5][5] == '3';
    BlockFour(b);
    BlockFourSlots();
  }
}
