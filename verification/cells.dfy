/**
 * The value types of the board: cell values, cell states, positions and cells
 * (SBoard.h: SValueEnum, SStateEnum, SPos, SCell, BOARD_SIZE, BLOCK_SIZE).
 */
module Cells {

  /** Cells per side of the board. */
  const BoardSize: nat := 9

  /** Cells per side of a block: the board side divided by 3. */
  const BlockSize: nat := 3

  /** Cells on the whole board. */
  const CellCount: nat := 81

  /** A cell value: 0 is the empty value, 1..9 are the digits. */
  type Value = v: int | 0 <= v <= 9

  const Empty: Value := 0

  /** Where a cell's value came from. */
  datatype State =
    | Fixed   // given by the puzzle
    | Solved  // deduced by elimination
    | New     // tried by the backtracking search
    | Free    // no value yet

  /** A board position. Negative coordinates are undefined behaviour in the source, hence `nat`. */
  datatype Pos = Pos(col: nat, row: nat) {

    predicate InRange() {
      col < BoardSize && row < BoardSize
    }

    /** Slot of this position in the row-major cell array. */
    function Index(): nat {
      BoardSize * row + col
    }
  }

  /** The position stored in slot `i` of the row-major cell array. */
  function PosOf(i: nat): Pos {
    Pos(i % BoardSize, i / BoardSize)
  }

  /** The ordering `SPos::operator<`: by column first, then by row. */
  predicate Less(a: Pos, b: Pos) {
    a.col < b.col || (!(b.col < a.col) && a.row < b.row)
  }

  datatype Cell = Cell(position: Pos, value: Value, state: State) {

    /** Any cell that is not Free counts as solved, whatever its value. */
    predicate IsSolved() {
      state != Free
    }
  }

  /** `SCell()`: position (0,0), no value, Free. */
  function DefaultCell(): Cell {
    Cell(Pos(0, 0), Empty, Free)
  }

  /** `SCell(v, s)`, where the state defaults to Free. */
  function CellOf(v: Value, s: State := Free): Cell {
    Cell(Pos(0, 0), v, s)
  }

  /** The slot index is a bijection from the 9x9 positions onto 0..80. */
  lemma IndexBijection(p: Pos, i: nat)
    ensures p.InRange() ==> p.Index() < CellCount && PosOf(p.Index()) == p
    ensures i < CellCount ==> PosOf(i).InRange() && PosOf(i).Index() == i
    ensures p.InRange() && i < CellCount ==> (p.Index() == i <==> PosOf(i) == p)
  {
  }

  /** `SPos::operator<` is a strict total order, and it is the lexicographic order on (col, row). */
  lemma LessIsStrictTotalOrder(a: Pos, b: Pos, c: Pos)
    ensures !Less(a, a)
    ensures Less(a, b) ==> !Less(b, a)
    ensures Less(a, b) && Less(b, c) ==> Less(a, c)
    ensures a != b ==> Less(a, b) || Less(b, a)
    ensures Less(a, b) <==> a.col < b.col || (a.col == b.col && a.row < b.row)
  {
  }

  /** The two constructors of `SCell` agree on an empty Free cell, and only Free cells are unsolved. */
  lemma CellConstructors(v: Value, c: Cell)
    ensures DefaultCell() == CellOf(Empty)
    ensures CellOf(v).state == Free && CellOf(v).position == Pos(0, 0) && CellOf(v).value == v
    ensures c.IsSolved() <==> c.state in {Fixed, Solved, New}
    ensures !DefaultCell().IsSolved()
  {
  }
}
